/** The TCP socket: its fields are updated in place, and every method is tied to the step it makes. */
module TcpSocket {
  import opened Base
  import opened Crypto
  import opened Config
  import opened OutQueues
  import opened Outboxes
  import opened Framing
  import opened Reader
  import opened TcpSender
  import opened TcpReceiver

  /** The underlying byte stream, as the list of what it will answer. */
  class TcpStream {
    var incoming: Incoming
    var replies: seq<WriteReply>
    var wire: Bytes

    constructor (incoming: Incoming, replies: seq<WriteReply>)
      ensures this.incoming == incoming && this.replies == replies && wire == []
    {
      this.incoming := incoming;
      this.replies := replies;
      wire := [];
    }

    method Read() returns (reply: ReadReply)
      modifies this`incoming
      ensures reply == old(incoming).Reply() && incoming == old(incoming).Rest()
    {
      reply := incoming.Reply();
      incoming := incoming.Rest();
    }

    /** An accepted write reports the number of bytes taken, never more than were offered. */
    method Write(data: Bytes) returns (reply: WriteReply)
      modifies this`replies, this`wire
      ensures var answer := if old(replies) == [] then WriteWouldBlock else old(replies)[0];
              && replies == (if old(replies) == [] then [] else old(replies)[1..])
              && reply == (if answer.Accept? then Accept(Min(answer.n, |data|)) else answer)
              && wire == old(wire) + if reply.Accept? then data[..reply.n] else []
    {
      reply := WriteWouldBlock;
      if |replies| > 0 {
        reply := replies[0];
        replies := replies[1..];
      }
      if reply.Accept? {
        reply := Accept(Min(reply.n, |data|));
        wire := wire + data[..reply.n];
      }
    }
  }

  // ---------------------------------------------------------------- queue of items, queue of frames

  ghost function EraseQueue<T>(queue: seq<Stamped<Item<T>>>): (r: seq<Stamped<Bytes>>)
    ensures |r| == |queue|
    ensures forall i :: 0 <= i < |r| ==> r[i] == Stamped(queue[i].when, queue[i].msg.frame)
  {
    seq(|queue|, i requires 0 <= i < |queue| => Stamped(queue[i].when, queue[i].msg.frame))
  }

  /** The queue as the socket stores it: frames only. */
  ghost function Erase<T>(slots: seq<Slot<Item<T>>>): (r: seq<Slot<Bytes>>)
    ensures |r| == |slots|
    ensures forall i :: 0 <= i < |r| ==> r[i] == Slot(slots[i].priority, EraseQueue(slots[i].queue))
  {
    seq(|slots|, i requires 0 <= i < |slots| => Slot(slots[i].priority, EraseQueue(slots[i].queue)))
  }

  lemma EraseTail<T>(slots: seq<Slot<Item<T>>>)
    requires slots != []
    ensures Erase(slots)[1..] == Erase(slots[1..])
  {
  }

  lemma {:induction false} ErasePushed<T>(slots: seq<Slot<Item<T>>>, p: Priority, when: nat, item: Item<T>)
    ensures Erase(Pushed(slots, p, Stamped(when, item))) == Pushed(Erase(slots), p, Stamped(when, item.frame))
  {
    var x, y := Stamped(when, item), Stamped(when, item.frame);
    if slots == [] || p < slots[0].priority {
      assert EraseQueue([x]) == [y];
    } else if slots[0].priority == p {
      assert EraseQueue(slots[0].queue + [x]) == EraseQueue(slots[0].queue) + [y];
      EraseTail(slots);
    } else {
      ErasePushed(slots[1..], p, when, item);
      EraseTail(slots);
      assert Erase(slots)[0] == Slot(slots[0].priority, EraseQueue(slots[0].queue));
    }
  }

  lemma {:induction false} EraseSurvivors<T>(slots: seq<Slot<Item<T>>>, conf: SocketConfig, now: nat)
    ensures Erase(Survivors(slots, conf, now)) == Survivors(Erase(slots), conf, now)
  {
    if slots != [] && IsQueueValid(slots[0].priority, slots[0].queue, conf, now) {
      EraseTail(slots);
      EraseSurvivors(slots[1..], conf, now);
      assert Survivors(slots, conf, now)[1..] == Survivors(slots[1..], conf, now);
    }
  }

  lemma EraseNext<T>(slots: seq<Slot<Item<T>>>)
    requires WellFormed(slots) && slots != []
    ensures Erase(slots) != [] && Erase(slots)[0].queue != []
    ensures Erase(AfterNext(slots)) == AfterNext(Erase(slots))
    ensures Erase(slots)[0].queue[0].msg == Front(slots).entry.msg.frame
  {
    EraseTail(slots);
    assert |Erase(slots)[0].queue| == |slots[0].queue|;
    assert EraseQueue(slots[0].queue[1..]) == EraseQueue(slots[0].queue)[1..];
  }

  // ---------------------------------------------------------------- the socket itself

  class TcpInner<T> {
    const stream: TcpStream
    const msgReader: LenDelimitedReader<T>
    const outQueue: OutQueue<Bytes>
    const codec: Codec<T>
    var currentWrite: Option<Bytes>
    var encCtx: EncryptContext
    /** The sending half with the messages behind the frames, and its history. */
    ghost var model: Sender<T>

    ghost predicate Valid()
      reads this, stream, msgReader, outQueue
    {
      && outQueue.Valid()
      && WellFormed(model.box.queue)
      && Erase(model.box.queue) == outQueue.inner
      && currentWrite == model.current
      && encCtx == model.enc
      && stream.wire == model.wire
      && msgReader.codec == codec
    }

    constructor (stream: TcpStream, conf: SocketConfig, codec: Codec<T>)
      requires stream.wire == []
      ensures Valid() && this.stream == stream && this.codec == codec
      ensures fresh(msgReader) && fresh(outQueue) && outQueue.conf == conf
      ensures model == Sender(EmptyOutbox(), None, [], conf.encCtx, false)
      ensures msgReader.State() == EMPTY_READER
      ensures msgReader.Dec() == Decoder(conf.decCtx, codec, conf.maxPayloadSize)
    {
      this.stream := stream;
      this.codec := codec;
      var reader := new LenDelimitedReader<T>(conf.maxPayloadSize, codec);
      reader.decCtx := conf.decCtx;
      msgReader := reader;
      outQueue := new OutQueue<Bytes>(conf);
      currentWrite := None;
      encCtx := conf.encCtx;
      model := Sender(EmptyOutbox(), None, [], conf.encCtx, false);
    }

    /** Frames queued or in progress keep the context they were made with. */
    method SetEncryptCtx(ctx: EncryptContext)
      requires Valid()
      modifies this`encCtx, this`model
      ensures Valid() && model == old(model).(enc := ctx)
      ensures currentWrite == old(currentWrite) && outQueue.inner == old(outQueue.inner)
    {
      encCtx := ctx;
      model := model.(enc := ctx);
    }

    method SetDecryptCtx(ctx: DecryptContext)
      requires Valid()
      modifies msgReader`decCtx
      ensures Valid() && msgReader.Dec() == old(msgReader.Dec()).(ctx := ctx)
      ensures msgReader.State() == old(msgReader.State())
    {
      msgReader.decCtx := ctx;
    }

    method Read() returns (r: Res<Option<T>>)
      requires Valid()
      modifies stream`incoming, msgReader`readBuffer, msgReader`readLen
      ensures Valid() && msgReader.Dec() == old(msgReader.Dec())
      ensures ReadResult(msgReader.State(), stream.incoming, r) ==
              TcpReceiver.Read(msgReader.Dec(), old(msgReader.State()), old(stream.incoming))
    {
      r := msgReader.TryRead();
      if r.Err? || r.value.Some? {
        return;
      }
      var isSomethingRead := false;
      while true
        invariant Valid() && msgReader.Dec() == old(msgReader.Dec())
        invariant ReadLoop(msgReader.Dec(), msgReader.State(), stream.incoming, isSomethingRead) ==
                  TcpReceiver.Read(msgReader.Dec(), old(msgReader.State()), old(stream.incoming))
        decreases |stream.incoming.replies|
      {
        var reply := stream.Read();
        match reply
        case Chunk(bytes) =>
          if |bytes| == 0 {
            r := Err(ZeroByteRead);
            if isSomethingRead {
              var last := msgReader.TryRead();
              if last.Err? || last.value.Some? {
                r := last;
              }
            }
            return;
          }
          msgReader.PutBuf(bytes);
          isSomethingRead := true;
        case ReadFatal =>
          return Err(Io);
        case _ =>
          r := Ok(None);
          if isSomethingRead {
            r := msgReader.TryRead();
          }
          return;
      }
    }

    method Write(now: nat, msg: Option<(T, Priority)>, nonces: (nat, nat)) returns (r: Res<bool>)
      requires Valid() && model.box.now <= now
      modifies this`currentWrite, this`model, stream`replies, stream`wire, outQueue`inner
      ensures Valid()
      ensures Flushed(model, stream.replies, r) ==
              TcpSender.Write(outQueue.conf, codec, old(model), now - old(model.box.now), msg, nonces,
                              old(stream.replies))
      ensures model.box.now == now
      ensures msg.None? ==> model.box.accepted == old(model.box.accepted)
      ensures msg.Some? ==>
                match Serialized(codec, encCtx, nonces, msg.value.0)
                case Err(e) => r == Err(e) && model.box.accepted == old(model.box.accepted)
                case Ok(frame) =>
                  model.box.accepted == old(model.box.accepted) +
                                        [Record(msg.value.1, Stamped(now, Item(msg.value.0, frame, encCtx)))]
    {
      DropExpiredData(now);
      if msg.Some? {
        var enqueued := EnqueueData(now, msg.value.1, msg.value.0, nonces);
        if enqueued.Err? {
          return Err(enqueued.error);
        }
      }
      FlushOnlyStarts(model, stream.replies);
      r := FlushWriteUntilWouldBlock();
    }

    method DropExpiredData(now: nat)
      requires Valid() && model.box.now <= now
      modifies this`model, outQueue`inner
      ensures Valid() && model.box.now == now
      ensures model == old(model).(box :=
                Outboxes.DropExpired(old(model.box), outQueue.conf, now - old(model.box.now)))
    {
      EraseSurvivors(model.box.queue, outQueue.conf, now);
      ExpirySplits(model.box.queue, outQueue.conf, now);
      var _ := outQueue.DropExpired(now);
      model := model.(box := Outboxes.DropExpired(model.box, outQueue.conf, now - model.box.now));
    }

    method FlushWriteUntilWouldBlock() returns (r: Res<bool>)
      requires Valid()
      modifies this`currentWrite, this`model, stream`replies, stream`wire, outQueue`inner
      ensures Valid()
      ensures Flushed(model, stream.replies, r) == Flush(old(model), old(stream.replies))
    {
      while true
        invariant Valid()
        invariant Flush(model, stream.replies) == Flush(old(model), old(stream.replies))
        decreases |stream.replies|
      {
        var data: Bytes;
        if currentWrite.Some? {
          data := currentWrite.value;
          currentWrite := None;
        } else {
          var next := outQueue.NextMsg();
          if next.None? {
            return Ok(true);
          }
          EraseNext(model.box.queue);
          NextKeepsWellFormed(model.box.queue);
          data := next.value;
        }
        ghost var answer := if stream.replies == [] then WriteWouldBlock else stream.replies[0];
        SendKeepsWellFormed(model, answer);
        model := Send(model, answer);
        var reply := stream.Write(data);
        match reply
        case Accept(bytesTxd) =>
          if bytesTxd < |data| {
            currentWrite := Some(data[bytesTxd..]);
          }
        case WriteFatal =>
          return Err(Io);
        case _ =>
          currentWrite := Some(data);
          return Ok(false);
      }
    }

    method EnqueueData(now: nat, priority: Priority, msg: T, nonces: (nat, nat)) returns (r: Res<()>)
      requires Valid() && model.box.now == now
      modifies this`model, outQueue`inner
      ensures Valid()
      ensures match Serialized(codec, encCtx, nonces, msg)
              case Err(e) => r == Err(e) && model == old(model)
              case Ok(frame) =>
                r.Ok? && model == old(model).(box := Outboxes.Push(old(model.box), 0, Item(msg, frame, encCtx),
                                      priority))
    {
      var buf := SerializeWithLen(codec, encCtx, nonces, msg);
      if buf.Err? {
        return Err(buf.error);
      }
      ghost var item := Item(msg, buf.value, encCtx);
      ErasePushed(model.box.queue, priority, now, item);
      PushedWellFormed(model.box.queue, priority, Stamped(now, item));
      outQueue.Push(now, buf.value, priority);
      model := model.(box := Outboxes.Push(model.box, 0, item, priority));
      r := Ok(());
    }
  }
}
