/** The UDP socket: two receive buffers and two send lanes on one socket, updated in place. */
module UdpSockets {
  import opened Base
  import opened Crypto
  import opened Config
  import opened OutQueues
  import UdpReceiver
  import opened UdpSender

  type Address = UdpReceiver.Address

  /**
   The underlying socket: the list of what it will answer, and a log of the datagrams it was handed,
   with `send` and with `send_to`.
   */
  class UdpSocket {
    var incoming: seq<UdpReceiver.RecvReply>
    var replies: seq<SendReply>
    var handed: seq<Attempt<Bytes>>
    var handedTo: seq<Attempt<(Bytes, Address)>>

    constructor (incoming: seq<UdpReceiver.RecvReply>, replies: seq<SendReply>)
      ensures this.incoming == incoming && this.replies == replies && handed == [] && handedTo == []
    {
      this.incoming := incoming;
      this.replies := replies;
      handed, handedTo := [], [];
    }

    method RecvFrom() returns (reply: UdpReceiver.RecvReply)
      modifies this`incoming
      ensures reply == UdpReceiver.NextReply(old(incoming))
      ensures incoming == UdpReceiver.LaterReplies(old(incoming))
    {
      reply := UdpReceiver.RecvWouldBlock;
      if |incoming| > 0 {
        reply := incoming[0];
        incoming := incoming[1..];
      }
      assert old(incoming) != [] || incoming == [];
    }

    method Send(data: Bytes) returns (reply: SendReply)
      modifies this`replies, this`handed
      ensures reply == (if old(replies) == [] then SendWouldBlock else old(replies)[0])
      ensures replies == (if old(replies) == [] then [] else old(replies)[1..])
      ensures handed == old(handed) + Logged(data, |data|, reply)
    {
      reply := SendWouldBlock;
      if |replies| > 0 {
        reply := replies[0];
        replies := replies[1..];
      }
      handed := handed + Logged(data, |data|, reply);
      assert old(replies) != [] || replies == [];
    }

    method SendTo(data: Bytes, peer: Address) returns (reply: SendReply)
      modifies this`replies, this`handedTo
      ensures reply == (if old(replies) == [] then SendWouldBlock else old(replies)[0])
      ensures replies == (if old(replies) == [] then [] else old(replies)[1..])
      ensures handedTo == old(handedTo) + Logged((data, peer), |data|, reply)
    {
      reply := SendWouldBlock;
      if |replies| > 0 {
        reply := replies[0];
        replies := replies[1..];
      }
      handedTo := handedTo + Logged((data, peer), |data|, reply);
      assert old(replies) != [] || replies == [];
    }
  }

  const PAYLOAD_SIZE: Bytes -> nat := (m: Bytes) => |m|
  const ADDRESSED_SIZE: ((Bytes, Address)) -> nat := (m: (Bytes, Address)) => |m.0|

  class UdpInner<T> {
    const sock: UdpSocket
    const codec: Codec<T>
    var readBuffer: seq<Bytes>
    var readBuffer2: seq<(Bytes, Address)>
    const outQueue: OutQueue<Bytes>
    var currentWrite: Option<Bytes>
    const outQueue2: OutQueue<(Bytes, Address)>
    var currentWrite2: Option<(Bytes, Address)>
    var encCtx: EncryptContext
    var decCtx: DecryptContext
    /** The lanes with their histories. */
    ghost var lane1: SendLane<Bytes>
    ghost var lane2: SendLane<(Bytes, Address)>
    /** What the socket was handed before it was wrapped. */
    ghost const earlier: seq<Attempt<Bytes>>
    ghost const earlierTo: seq<Attempt<(Bytes, Address)>>

    /** The lanes' histories are those of the queues, the fields and the socket. */
    ghost predicate Valid()
      reads this, outQueue, outQueue2, sock
    {
      && sock.handed == earlier + lane1.attempts && sock.handedTo == earlierTo + lane2.attempts
      && outQueue as object != outQueue2
      && outQueue.Valid() && outQueue.inner == lane1.box.queue && currentWrite == lane1.current
      && outQueue2.Valid() && outQueue2.inner == lane2.box.queue && currentWrite2 == lane2.current
    }

    constructor (sock: UdpSocket, conf: SocketConfig, codec: Codec<T>)
      ensures Valid() && this.sock == sock && this.codec == codec
      ensures fresh(outQueue) && fresh(outQueue2) && outQueue.conf == outQueue2.conf == conf
      ensures readBuffer == [] && readBuffer2 == [] && lane1 == EmptyLane() && lane2 == EmptyLane()
      ensures encCtx == conf.encCtx && decCtx == conf.decCtx
      ensures earlier == sock.handed && earlierTo == sock.handedTo
    {
      this.sock := sock;
      this.codec := codec;
      readBuffer, readBuffer2 := [], [];
      var queue := new OutQueue<Bytes>(conf);
      var queue2 := new OutQueue<(Bytes, Address)>(conf);
      outQueue, outQueue2 := queue, queue2;
      currentWrite, currentWrite2 := None, None;
      encCtx, decCtx := conf.encCtx, conf.decCtx;
      lane1, lane2 := EmptyLane(), EmptyLane();
      earlier, earlierTo := sock.handed, sock.handedTo;
      NothingBehind(sock.handed);
      NothingBehind(sock.handedTo);
    }

    /** Datagrams queued or in progress keep the context they were made with. */
    method SetEncryptCtx(ctx: EncryptContext)
      requires Valid()
      modifies this`encCtx
      ensures Valid() && encCtx == ctx
    {
      encCtx := ctx;
    }

    method SetDecryptCtx(ctx: DecryptContext)
      requires Valid()
      modifies this`decCtx
      ensures Valid() && decCtx == ctx
    {
      decCtx := ctx;
    }

    /** A datagram that fails to decrypt is consumed, and nothing else is. */
    method Read() returns (r: Res<Option<T>>)
      requires Valid()
      modifies this`readBuffer, sock`incoming
      ensures Valid()
      ensures var call := UdpReceiver.ReadLane(UdpReceiver.PAYLOADS, old(readBuffer), old(sock.incoming));
              && readBuffer == call.buffer && sock.incoming == call.incoming
              && r == UdpReceiver.ReadCallResult(decCtx, codec, call.taken)
    {
      if |readBuffer| > 0 {
        var data := readBuffer[0];
        readBuffer := readBuffer[1..];
        var msg := decCtx.Decrypt(codec, data);
        return if msg.Err? then Err(msg.error) else Ok(Some(msg.value));
      }
      while true
        invariant Valid()
        invariant UdpReceiver.DrainSocket(UdpReceiver.PAYLOADS, readBuffer, sock.incoming) ==
                  UdpReceiver.ReadLane(UdpReceiver.PAYLOADS, old(readBuffer), old(sock.incoming))
        decreases |sock.incoming|
      {
        var reply := sock.RecvFrom();
        var buffer, handled := UdpReceiver.HandleRecvRes(UdpReceiver.PAYLOADS, UdpReceiver.PAYLOADS.Receive(reply),
                                                         readBuffer);
        UdpReceiver.HandledCases(UdpReceiver.PAYLOADS, UdpReceiver.PAYLOADS.Receive(reply), readBuffer, buffer,
                                 handled);
        readBuffer := buffer;
        if handled.Err? {
          return Err(handled.error);
        }
        if handled.value.WouldBlock? {
          if handled.value.next.None? {
            return Ok(None);
          }
          var msg := decCtx.Decrypt(codec, handled.value.next.value);
          return if msg.Err? then Err(msg.error) else Ok(Some(msg.value));
        }
      }
    }

    method ReadFrm() returns (r: Res<Option<(T, Address)>>)
      requires Valid()
      modifies this`readBuffer2, sock`incoming
      ensures Valid()
      ensures var call := UdpReceiver.ReadLane(UdpReceiver.WITH_SENDER, old(readBuffer2), old(sock.incoming));
              && readBuffer2 == call.buffer && sock.incoming == call.incoming
              && r == UdpReceiver.ReadFrmCallResult(decCtx, codec, call.taken)
    {
      if |readBuffer2| > 0 {
        var data := readBuffer2[0];
        readBuffer2 := readBuffer2[1..];
        var msg := decCtx.Decrypt(codec, data.0);
        return if msg.Err? then Err(msg.error) else Ok(Some((msg.value, data.1)));
      }
      while true
        invariant Valid()
        invariant UdpReceiver.DrainSocket(UdpReceiver.WITH_SENDER, readBuffer2, sock.incoming) ==
                  UdpReceiver.ReadLane(UdpReceiver.WITH_SENDER, old(readBuffer2), old(sock.incoming))
        decreases |sock.incoming|
      {
        var reply := sock.RecvFrom();
        var buffer, handled := UdpReceiver.HandleRecvRes(UdpReceiver.WITH_SENDER,
                                                         UdpReceiver.WITH_SENDER.Receive(reply), readBuffer2);
        UdpReceiver.HandledCases(UdpReceiver.WITH_SENDER, UdpReceiver.WITH_SENDER.Receive(reply), readBuffer2,
                                 buffer, handled);
        readBuffer2 := buffer;
        if handled.Err? {
          return Err(handled.error);
        }
        if handled.value.WouldBlock? {
          if handled.value.next.None? {
            return Ok(None);
          }
          var (data, sender) := handled.value.next.value;
          var msg := decCtx.Decrypt(codec, data);
          return if msg.Err? then Err(msg.error) else Ok(Some((msg.value, sender)));
        }
      }
    }

    /** Writes on the first lane; the second is outside its frame. */
    method Write(now: nat, msg: Option<(T, Priority)>, nonce: nat) returns (r: Res<bool>)
      requires Valid() && lane1.box.now <= now
      modifies this`currentWrite, this`lane1, sock`replies, sock`handed, outQueue`inner
      ensures Valid()
      ensures LaneFlushed(lane1, sock.replies, r) ==
              WriteLane(outQueue.conf, PAYLOAD_SIZE, old(lane1), now - old(lane1.box.now),
                        EncryptedPayload(encCtx, codec, nonce, msg), old(sock.replies))
      ensures sock.handed == earlier + lane1.attempts
      ensures lane1.box.now == now
      ensures msg.None? ==> lane1.box.accepted == old(lane1.box.accepted)
      ensures msg.Some? ==>
                match encCtx.Encrypt(codec, nonce, msg.value.0)
                case Err(e) => r == Err(e) && lane1.box.accepted == old(lane1.box.accepted)
                case Ok(data) =>
                  lane1.box.accepted == old(lane1.box.accepted) +
                                        [Outboxes.Record(msg.value.1, Stamped(now, data))]
    {
      DropExpiredData(now);
      if msg.Some? {
        var data := encCtx.Encrypt(codec, nonce, msg.value.0);
        if data.Err? {
          return Err(data.error);
        }
        EnqueueData(now, data.value, msg.value.1);
      }
      FlushLaneOnlyStarts(PAYLOAD_SIZE, lane1, sock.replies);
      r := FlushWriteUntilWouldBlock();
    }

    method DropExpiredData(now: nat)
      requires Valid() && lane1.box.now <= now
      modifies this`lane1, outQueue`inner
      ensures Valid() && lane1.box.now == now
      ensures lane1 == old(lane1).(box := Outboxes.DropExpired(old(lane1.box), outQueue.conf, now - old(lane1.box.now)))
    {
      var _ := outQueue.DropExpired(now);
      lane1 := lane1.(box := Outboxes.DropExpired(lane1.box, outQueue.conf, now - lane1.box.now));
    }

    method EnqueueData(now: nat, data: Bytes, priority: Priority)
      requires Valid() && lane1.box.now == now
      modifies this`lane1, outQueue`inner
      ensures Valid() && lane1 == old(lane1).(box := Outboxes.Push(old(lane1.box), 0, data, priority))
    {
      outQueue.Push(now, data, priority);
      lane1 := lane1.(box := Outboxes.Push(lane1.box, 0, data, priority));
    }

    method FlushWriteUntilWouldBlock() returns (r: Res<bool>)
      requires Valid()
      modifies this`currentWrite, this`lane1, sock`replies, sock`handed, outQueue`inner
      ensures Valid()
      ensures LaneFlushed(lane1, sock.replies, r) == FlushLane(PAYLOAD_SIZE, old(lane1), old(sock.replies))
      ensures sock.handed == earlier + lane1.attempts
    {
      while true
        invariant Valid()
        invariant FlushLane(PAYLOAD_SIZE, lane1, sock.replies) == FlushLane(PAYLOAD_SIZE, old(lane1), old(sock.replies))
        decreases |sock.replies|
      {
        var data: Bytes;
        if currentWrite.Some? {
          data := currentWrite.value;
          currentWrite := None;
        } else {
          var next := outQueue.NextMsg();
          if next.None? {
            return Ok(true);
          }
          NextKeepsWellFormed(lane1.box.queue);
          data := next.value;
        }
        var reply := sock.Send(data);
        TurnKeepsWellFormed(PAYLOAD_SIZE, lane1, reply);
        TurnIsLogged(PAYLOAD_SIZE, lane1, reply, earlier);
        lane1 := SendTurn(PAYLOAD_SIZE, lane1, reply);
        currentWrite, r := HandleSendRes(reply, currentWrite, |data|, data);
        if r.Err? || !r.value {
          return;
        }
      }
    }

    /** Writes on the second lane; the first is outside its frame. */
    method WriteTo(now: nat, msg: Option<(T, Address, Priority)>, nonce: nat) returns (r: Res<bool>)
      requires Valid() && lane2.box.now <= now
      modifies this`currentWrite2, this`lane2, sock`replies, sock`handedTo, outQueue2`inner
      ensures Valid()
      ensures LaneFlushed(lane2, sock.replies, r) ==
              WriteLane(outQueue2.conf, ADDRESSED_SIZE, old(lane2), now - old(lane2.box.now),
                        EncryptedAddressed(encCtx, codec, nonce, msg), old(sock.replies))
      ensures sock.handedTo == earlierTo + lane2.attempts
      ensures lane2.box.now == now
      ensures msg.None? ==> lane2.box.accepted == old(lane2.box.accepted)
      ensures msg.Some? ==>
                match encCtx.Encrypt(codec, nonce, msg.value.0)
                case Err(e) => r == Err(e) && lane2.box.accepted == old(lane2.box.accepted)
                case Ok(data) =>
                  lane2.box.accepted == old(lane2.box.accepted) +
                                        [Outboxes.Record(msg.value.2, Stamped(now, (data, msg.value.1)))]
    {
      DropExpiredDataTo(now);
      if msg.Some? {
        var (m, peer, priority) := msg.value;
        var data := encCtx.Encrypt(codec, nonce, m);
        if data.Err? {
          return Err(data.error);
        }
        EnqueueDataTo(now, data.value, peer, priority);
      }
      FlushLaneOnlyStarts(ADDRESSED_SIZE, lane2, sock.replies);
      r := FlushWriteToUntilWouldBlock();
    }

    method DropExpiredDataTo(now: nat)
      requires Valid() && lane2.box.now <= now
      modifies this`lane2, outQueue2`inner
      ensures Valid() && lane2.box.now == now
      ensures lane2 == old(lane2).(box :=
                Outboxes.DropExpired(old(lane2.box), outQueue2.conf, now - old(lane2.box.now)))
    {
      var _ := outQueue2.DropExpired(now);
      lane2 := lane2.(box := Outboxes.DropExpired(lane2.box, outQueue2.conf, now - lane2.box.now));
    }

    method EnqueueDataTo(now: nat, data: Bytes, peer: Address, priority: Priority)
      requires Valid() && lane2.box.now == now
      modifies this`lane2, outQueue2`inner
      ensures Valid() && lane2 == old(lane2).(box := Outboxes.Push(old(lane2.box), 0, (data, peer), priority))
    {
      outQueue2.Push(now, (data, peer), priority);
      lane2 := lane2.(box := Outboxes.Push(lane2.box, 0, (data, peer), priority));
    }

    method FlushWriteToUntilWouldBlock() returns (r: Res<bool>)
      requires Valid()
      modifies this`currentWrite2, this`lane2, sock`replies, sock`handedTo, outQueue2`inner
      ensures Valid()
      ensures LaneFlushed(lane2, sock.replies, r) == FlushLane(ADDRESSED_SIZE, old(lane2), old(sock.replies))
      ensures sock.handedTo == earlierTo + lane2.attempts
    {
      while true
        invariant Valid()
        invariant FlushLane(ADDRESSED_SIZE, lane2, sock.replies) ==
                  FlushLane(ADDRESSED_SIZE, old(lane2), old(sock.replies))
        decreases |sock.replies|
      {
        var dataPeer: (Bytes, Address);
        if currentWrite2.Some? {
          dataPeer := currentWrite2.value;
          currentWrite2 := None;
        } else {
          var next := outQueue2.NextMsg();
          if next.None? {
            return Ok(true);
          }
          NextKeepsWellFormed(lane2.box.queue);
          dataPeer := next.value;
        }
        var reply := sock.SendTo(dataPeer.0, dataPeer.1);
        TurnKeepsWellFormed(ADDRESSED_SIZE, lane2, reply);
        TurnIsLogged(ADDRESSED_SIZE, lane2, reply, earlierTo);
        lane2 := SendTurn(ADDRESSED_SIZE, lane2, reply);
        currentWrite2, r := HandleSendRes(reply, currentWrite2, |dataPeer.0|, dataPeer);
        if r.Err? || !r.value {
          return;
        }
      }
    }
  }

  ghost function EncryptedPayload<T>(enc: EncryptContext, codec: Codec<T>, nonce: nat, msg: Option<(T, Priority)>):
    Option<(Res<Bytes>, Priority)>
  {
    match msg
    case None => None
    case Some((m, p)) => Some((enc.Encrypt(codec, nonce, m), p))
  }

  ghost function EncryptedAddressed<T>(enc: EncryptContext, codec: Codec<T>, nonce: nat,
                                       msg: Option<(T, Address, Priority)>):
    Option<(Res<(Bytes, Address)>, Priority)>
  {
    match msg
    case None => None
    case Some((m, peer, p)) =>
      match enc.Encrypt(codec, nonce, m)
      case Err(e) => Some((Err(e), p))
      case Ok(data) => Some((Ok((data, peer)), p))
  }
}
