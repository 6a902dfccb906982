/**
 The writing half of a TCP socket: frames wait in the outgoing queue, one frame at a time is
 being written, and the stream accepts whatever prefix of it the network takes.
 */
module TcpSender {
  import opened Base
  import opened Crypto
  import opened Config
  import opened OutQueues
  import opened Outboxes
  import opened Framing

  /** A queued frame with the message it was made from and the context that encrypted it. */
  datatype Item<+T> = Item(msg: T, frame: Bytes, enc: EncryptContext)

  /**
   `current` is the unwritten rest of the frame being written, `wire` all bytes the stream has
   accepted so far, and `failed` tells that a write has met a fatal error.
   */
  datatype Sender<+T> = Sender(
    box: Outbox<Item<T>>, current: Option<Bytes>, wire: Bytes, enc: EncryptContext, failed: bool)

  /** What the stream answers to a write: how many bytes it takes at most, or why none. */
  datatype WriteReply = Accept(n: nat) | WriteWouldBlock | WriteInterrupted | WriteFatal

  // ---------------------------------------------------------------- transitions

  ghost predicate Idle<T>(s: Sender<T>) {
    s.current.None? && s.box.queue == []
  }

  /** Go on with the frame being written, or else start the next one. */
  ghost function Take<T>(s: Sender<T>): Sender<T>
    requires WellFormed(s.box.queue) && !Idle(s)
  {
    if s.current.Some? then s
    else s.(box := Next(s.box), current := Some(Front(s.box.queue).entry.msg.frame))
  }

  ghost function Transmit<T>(s: Sender<T>, reply: WriteReply): Sender<T>
    requires s.current.Some?
  {
    var data := s.current.value;
    match reply
    case Accept(n) =>
      var k := Min(n, |data|);
      s.(wire := s.wire + data[..k], current := if k < |data| then Some(data[k..]) else None)
    case WriteWouldBlock => s
    case WriteInterrupted => s
    case WriteFatal => s.(current := None, failed := true)
  }

  /** One turn of the flush loop. */
  ghost function Send<T>(s: Sender<T>, reply: WriteReply): Sender<T>
    requires WellFormed(s.box.queue) && !Idle(s)
  {
    Transmit(Take(s), reply)
  }

  datatype Flushed<+T> = Flushed(sender: Sender<T>, replies: seq<WriteReply>, result: Res<bool>)

  /** The flush loop; a stream whose replies are used up would block. */
  ghost function Flush<T>(s: Sender<T>, replies: seq<WriteReply>): Flushed<T>
    requires WellFormed(s.box.queue)
    decreases |replies|
  {
    if Idle(s) then Flushed(s, replies, Ok(true))
    else if replies == [] then Flushed(Send(s, WriteWouldBlock), [], Ok(false))
    else
      SendKeepsWellFormed(s, replies[0]);
      var t := Send(s, replies[0]);
      match replies[0]
      case Accept(_) => Flush(t, replies[1..])
      case WriteFatal => Flushed(t, replies[1..], Err(Io))
      case _ => Flushed(t, replies[1..], Ok(false))
  }

  lemma SendKeepsWellFormed<T>(s: Sender<T>, reply: WriteReply)
    requires WellFormed(s.box.queue) && !Idle(s)
    ensures WellFormed(Send(s, reply).box.queue)
  {
    if s.current.None? {
      NextKeepsWellFormed(s.box.queue);
    }
  }

  /** Drop what has expired, then queue the message if it can be serialised. */
  ghost function Enqueue<T>(conf: SocketConfig, codec: Codec<T>, s: Sender<T>, wait: nat,
                            msg: Option<(T, Priority)>, nonces: (nat, nat)): (Sender<T>, Option<SocketError>)
  {
    var box := DropExpired(s.box, conf, wait);
    match msg
    case None => (s.(box := box), None)
    case Some((m, p)) =>
      match Serialized(codec, s.enc, nonces, m)
      case Err(e) => (s.(box := box), Some(e))
      case Ok(frame) => (s.(box := Push(box, 0, Item(m, frame, s.enc), p)), None)
  }

  ghost function Write<T>(conf: SocketConfig, codec: Codec<T>, s: Sender<T>, wait: nat,
                          msg: Option<(T, Priority)>, nonces: (nat, nat), replies: seq<WriteReply>): Flushed<T>
    requires WellFormed(s.box.queue)
  {
    EnqueueKeepsWellFormed(conf, codec, s, wait, msg, nonces);
    var (t, error) := Enqueue(conf, codec, s, wait, msg, nonces);
    match error
    case Some(e) => Flushed(t, replies, Err(e))
    case None => Flush(t, replies)
  }

  lemma EnqueueKeepsWellFormed<T>(conf: SocketConfig, codec: Codec<T>, s: Sender<T>, wait: nat,
                                  msg: Option<(T, Priority)>, nonces: (nat, nat))
    requires WellFormed(s.box.queue)
    ensures WellFormed(Enqueue(conf, codec, s, wait, msg, nonces).0.box.queue)
  {
    var box := DropExpired(s.box, conf, wait);
    ExpirySplits(s.box.queue, conf, box.now);
    if msg.Some? {
      var frame := Serialized(codec, s.enc, nonces, msg.value.0);
      if frame.Ok? {
        PushedWellFormed(box.queue, msg.value.1, Stamped(box.now, Item(msg.value.0, frame.value, s.enc)));
      }
    }
  }

  // ---------------------------------------------------------------- frames on the wire

  /** The bytes of a list of records, frame after frame. */
  ghost function Wire<T>(records: seq<Record<Item<T>>>): Bytes {
    if records == [] then []
    else Wire(records[..|records| - 1]) + records[|records| - 1].entry.msg.frame
  }

  lemma WireSnoc<T>(records: seq<Record<Item<T>>>, x: Record<Item<T>>)
    ensures Wire(records + [x]) == Wire(records) + x.entry.msg.frame
  {
    assert (records + [x])[..|records|] == records;
  }

  lemma {:induction false} WireConcat<T>(a: seq<Record<Item<T>>>, b: seq<Record<Item<T>>>)
    ensures Wire(a + b) == Wire(a) + Wire(b)
  {
    if b == [] {
      assert a + b == a;
    } else {
      var n := |b| - 1;
      WireConcat(a, b[..n]);
      WireSnoc(a + b[..n], b[n]);
      assert a + b == (a + b[..n]) + [b[n]];
      ConcatAssociative(Wire(a), Wire(b[..n]), b[n].entry.msg.frame);
    }
  }

  ghost function Missing<T>(s: Sender<T>): Bytes {
    match s.current
    case None => []
    case Some(rest) => rest
  }

  /**
   Frame atomicity: what was sent, and what is still missing of the current frame, are the started
   frames in the order they were started; and the current rest belongs to the last of them.
   */
  ghost predicate Atomic<T>(s: Sender<T>) {
    && s.wire + Missing(s) == Wire(s.box.started)
    && (s.current.Some? ==>
          s.box.started != [] && |s.current.value| <= |s.box.started[|s.box.started| - 1].entry.msg.frame|)
  }

  ghost predicate SenderInv<T>(conf: SocketConfig, s: Sender<T>) {
    && BoxInv(conf, s.box)
    && Fresh(s.box.queue, conf, s.box.now)
    && FreshStarts(conf, s.box)
    && (!s.failed ==> Atomic(s))
  }

  lemma TakeKeepsInv<T>(conf: SocketConfig, s: Sender<T>)
    requires SenderInv(conf, s) && !Idle(s)
    ensures SenderInv(conf, Take(s))
  {
    if s.current.None? {
      NextKeepsFresh(conf, s.box);
      if !s.failed {
        TakeKeepsAtomic(s);
      }
    }
  }

  lemma TakeKeepsAtomic<T>(s: Sender<T>)
    requires WellFormed(s.box.queue) && !Idle(s) && s.current.None? && Atomic(s)
    ensures Atomic(Take(s))
  {
    WireSnoc(s.box.started, Front(s.box.queue));
    NothingBehind(s.wire);
  }

  lemma TransmitKeepsInv<T>(conf: SocketConfig, s: Sender<T>, reply: WriteReply)
    requires SenderInv(conf, s) && s.current.Some?
    ensures SenderInv(conf, Transmit(s, reply))
  {
    if reply.Accept? {
      var k := Min(reply.n, |s.current.value|);
      assert s.wire + s.current.value[..k] + s.current.value[k..] == s.wire + s.current.value;
      assert s.current.value[|s.current.value|..] == [];
    }
  }

  lemma SendKeepsInv<T>(conf: SocketConfig, s: Sender<T>, reply: WriteReply)
    requires SenderInv(conf, s) && !Idle(s)
    ensures SenderInv(conf, Send(s, reply))
  {
    TakeKeepsInv(conf, s);
    TransmitKeepsInv(conf, Take(s), reply);
  }

  lemma EnqueueKeepsInv<T>(conf: SocketConfig, codec: Codec<T>, s: Sender<T>, wait: nat,
                           msg: Option<(T, Priority)>, nonces: (nat, nat))
    requires SenderInv(conf, s)
    ensures SenderInv(conf, Enqueue(conf, codec, s, wait, msg, nonces).0)
  {
    var t := Enqueue(conf, codec, s, wait, msg, nonces).0;
    assert BoxInv(conf, t.box) && Fresh(t.box.queue, conf, t.box.now) by {
      if msg.Some? && Serialized(codec, s.enc, nonces, msg.value.0).Ok? {
        var item := Item(msg.value.0, Serialized(codec, s.enc, nonces, msg.value.0).value, s.enc);
        PushAfterDropKeepsInv(conf, s.box, wait, item, msg.value.1);
      } else {
        DropKeepsInv(conf, s.box, wait);
      }
    }
    assert FreshStarts(conf, t.box) by {
      assert t.box.started == s.box.started && t.box.readings == s.box.readings;
    }
  }

  lemma {:induction false} FlushKeepsInv<T>(conf: SocketConfig, s: Sender<T>, replies: seq<WriteReply>)
    requires SenderInv(conf, s)
    ensures SenderInv(conf, Flush(s, replies).sender)
    decreases |replies|
  {
    if Idle(s) {
    } else if replies == [] {
      SendKeepsInv(conf, s, WriteWouldBlock);
    } else {
      SendKeepsInv(conf, s, replies[0]);
      if replies[0].Accept? {
        FlushKeepsInv(conf, Send(s, replies[0]), replies[1..]);
      }
    }
  }

  /** Every write call keeps frame atomicity, queue conservation and freshness. */
  lemma WriteKeepsInv<T>(conf: SocketConfig, codec: Codec<T>, s: Sender<T>, wait: nat,
                         msg: Option<(T, Priority)>, nonces: (nat, nat), replies: seq<WriteReply>)
    requires SenderInv(conf, s)
    ensures SenderInv(conf, Write(conf, codec, s, wait, msg, nonces, replies).sender)
  {
    EnqueueKeepsInv(conf, codec, s, wait, msg, nonces);
    FlushKeepsInv(conf, Enqueue(conf, codec, s, wait, msg, nonces).0, replies);
  }

  // ---------------------------------------------------------------- what a flush does

  /** The bytes that a flush without interruption would send, in its order. */
  ghost function Outstanding<T>(s: Sender<T>): Bytes
    requires WellFormed(s.box.queue)
  {
    Missing(s) + Wire(Drain(s.box.queue))
  }

  lemma SendConserves<T>(s: Sender<T>, reply: WriteReply)
    requires WellFormed(s.box.queue) && !Idle(s) && !reply.WriteFatal?
    ensures WellFormed(Send(s, reply).box.queue)
    ensures Send(s, reply).wire + Outstanding(Send(s, reply)) == s.wire + Outstanding(s)
    ensures Send(s, reply).box.started + Drain(Send(s, reply).box.queue) == s.box.started + Drain(s.box.queue)
  {
    SendKeepsWellFormed(s, reply);
    TakeConserves(s);
    TransmitConserves(Take(s), reply);
  }

  lemma WireCons<T>(x: Record<Item<T>>, rest: seq<Record<Item<T>>>)
    ensures Wire([x] + rest) == x.entry.msg.frame + Wire(rest)
  {
    WireConcat([x], rest);
    WireSnoc([], x);
    assert [] + [x] == [x];
  }

  lemma WireDrainNext<T>(slots: seq<Slot<Item<T>>>)
    requires WellFormed(slots) && slots != []
    ensures WellFormed(AfterNext(slots))
    ensures Wire(Drain(slots)) == Front(slots).entry.msg.frame + Wire(Drain(AfterNext(slots)))
  {
    NextKeepsWellFormed(slots);
    WireCons(Front(slots), Drain(AfterNext(slots)));
  }

  lemma TakeConserves<T>(s: Sender<T>)
    requires WellFormed(s.box.queue) && !Idle(s)
    ensures WellFormed(Take(s).box.queue)
    ensures Outstanding(Take(s)) == Outstanding(s)
    ensures Take(s).box.started + Drain(Take(s).box.queue) == s.box.started + Drain(s.box.queue)
  {
    if s.current.None? {
      WireDrainNext(s.box.queue);
      DrainNext(s.box.started, s.box.queue);
    }
  }

  lemma TransmitConserves<T>(s: Sender<T>, reply: WriteReply)
    requires WellFormed(s.box.queue) && s.current.Some? && !reply.WriteFatal?
    ensures Transmit(s, reply).wire + Outstanding(Transmit(s, reply)) == s.wire + Outstanding(s)
  {
    if reply.Accept? {
      MoveToWire(s.wire, s.current.value, Min(reply.n, |s.current.value|), Wire(Drain(s.box.queue)));
    }
  }

  lemma MoveToWire(wire: Bytes, data: Bytes, k: nat, rest: Bytes)
    requires k <= |data|
    ensures (wire + data[..k]) + (data[k..] + rest) == wire + (data + rest)
    ensures k == |data| ==> data[k..] == []
  {
  }

  lemma {:induction false} FlushKeepsWellFormed<T>(s: Sender<T>, replies: seq<WriteReply>)
    requires WellFormed(s.box.queue)
    ensures WellFormed(Flush(s, replies).sender.box.queue)
    decreases |replies|
  {
    if !Idle(s) {
      SendKeepsWellFormed(s, if replies == [] then WriteWouldBlock else replies[0]);
      if replies != [] && replies[0].Accept? {
        FlushKeepsWellFormed(Send(s, replies[0]), replies[1..]);
      }
    }
  }

  /**
   A flush that meets no fatal error sends bytes in exactly the order in which frames drain from
   the queue, the current frame first, and loses none.
   */
  lemma {:induction false} FlushConserves<T>(s: Sender<T>, replies: seq<WriteReply>)
    requires WellFormed(s.box.queue) && Flush(s, replies).result.Ok?
    ensures WellFormed(Flush(s, replies).sender.box.queue)
    ensures var t := Flush(s, replies).sender; t.wire + Outstanding(t) == s.wire + Outstanding(s)
    ensures var t := Flush(s, replies).sender;
            t.box.started + Drain(t.box.queue) == s.box.started + Drain(s.box.queue)
    decreases |replies|
  {
    FlushKeepsWellFormed(s, replies);
    if !Idle(s) {
      var reply := if replies == [] then WriteWouldBlock else replies[0];
      SendConserves(s, reply);
      if reply.Accept? {
        FlushConserves(Send(s, reply), replies[1..]);
      }
    }
  }

  ghost predicate Blocks(reply: WriteReply) {
    reply.WriteWouldBlock? || reply.WriteInterrupted?
  }

  /** Which replies a flush uses, and how its result depends on them. */
  lemma {:induction false} FlushStops<T>(s: Sender<T>, replies: seq<WriteReply>) returns (used: nat)
    requires WellFormed(s.box.queue)
    ensures used <= |replies| && Flush(s, replies).replies == replies[used..]
    ensures forall i :: 0 <= i < used - 1 ==> replies[i].Accept?
    ensures Flush(s, replies).result.Err? <==> used > 0 && replies[used - 1].WriteFatal?
    ensures Flush(s, replies).result.Err? ==> Flush(s, replies).result == Err(Io)
    ensures Flush(s, replies).result == Ok(true) <==>
              (used > 0 ==> replies[used - 1].Accept?) && Idle(Flush(s, replies).sender)
    ensures Flush(s, replies).result == Ok(false) <==>
              || (used > 0 && Blocks(replies[used - 1]))
              || (used == |replies| && (used > 0 ==> replies[used - 1].Accept?) && !Idle(Flush(s, replies).sender))
    decreases |replies|
  {
    used := 0;
    if !Idle(s) && replies != [] {
      SendKeepsWellFormed(s, replies[0]);
      used := 1;
      if replies[0].Accept? {
        used := FlushStops(Send(s, replies[0]), replies[1..]);
        used := used + 1;
      }
    }
  }

  /**
   `true` says that everything outstanding is on the wire and nothing is queued; `false` that a
   frame is in progress; an error that its rest is discarded.
   */
  lemma {:induction false} FlushResult<T>(s: Sender<T>, replies: seq<WriteReply>)
    requires WellFormed(s.box.queue)
    ensures var r := Flush(s, replies);
            && (r.result == Ok(true) <==> Idle(r.sender) && !r.result.Err?)
            && (r.result == Ok(true) ==> r.sender.wire == s.wire + Outstanding(s))
            && (r.result == Ok(false) <==> r.sender.current.Some?)
            && (r.result.Err? ==> r.sender.current.None? && r.sender.failed)
            && (r.result.Ok? ==> r.sender.failed == s.failed)
    decreases |replies|
  {
    if Idle(s) {
      IdleHasNothingOutstanding(s);
    } else {
      var reply := if replies == [] then WriteWouldBlock else replies[0];
      SendKeepsWellFormed(s, reply);
      if reply.Accept? {
        SendConserves(s, reply);
        FlushResult(Send(s, reply), replies[1..]);
      }
    }
  }

  lemma IdleHasNothingOutstanding<T>(s: Sender<T>)
    requires WellFormed(s.box.queue) && Idle(s)
    ensures Outstanding(s) == []
  {
  }

  // ---------------------------------------------------------------- what a write call does

  /** The error of a message that cannot be made into a frame. */
  ghost function SerialisationError<T>(codec: Codec<T>, s: Sender<T>, msg: Option<(T, Priority)>,
                                       nonces: (nat, nat)): Option<SocketError>
  {
    if msg.Some? && Serialized(codec, s.enc, nonces, msg.value.0).Err?
    then Some(Serialized(codec, s.enc, nonces, msg.value.0).error)
    else None
  }

  /** The record that a write call at this reading queues, if it is given a message that can be queued. */
  ghost function OwnRecord<T>(codec: Codec<T>, s: Sender<T>, now: nat, msg: Option<(T, Priority)>,
                              nonces: (nat, nat)): Option<Record<Item<T>>>
  {
    match msg
    case None => None
    case Some((m, p)) =>
      match Serialized(codec, s.enc, nonces, m)
      case Err(_) => None
      case Ok(frame) => Some(Record(p, Stamped(now, Item(m, frame, s.enc))))
  }

  /**
   The result of a write call, with or without a message.  A message that cannot be serialised makes the
   call return that error, use no reply and leave wire and current frame alone.  Otherwise the replies
   used are accepted writes but for the last, and `true` says that nothing is in progress or queued and
   no write failed, `false` that a frame is in progress, the error that the last write used failed.
   */
  lemma WriteResult<T>(conf: SocketConfig, codec: Codec<T>, s: Sender<T>, wait: nat, msg: Option<(T, Priority)>,
                       nonces: (nat, nat), replies: seq<WriteReply>) returns (used: nat)
    requires WellFormed(s.box.queue)
    ensures var r := Write(conf, codec, s, wait, msg, nonces, replies);
            var error := SerialisationError(codec, s, msg, nonces);
            && used <= |replies| && r.replies == replies[used..]
            && (forall i :: 0 <= i < used - 1 ==> replies[i].Accept?)
            && (error.Some? ==>
                  && r.result == Err(error.value) && used == 0
                  && r.sender.wire == s.wire && r.sender.current == s.current
                  && r.sender.box.started == s.box.started)
            && (error.None? ==>
                  var fatal := used > 0 && replies[used - 1].WriteFatal?;
                  && (r.result == Ok(true) <==> Idle(r.sender) && !fatal)
                  && (r.result == Ok(false) <==> r.sender.current.Some?)
                  && (r.result == Err(Io) <==> fatal)
                  && (r.result.Err? ==> r.result == Err(Io)))
  {
    EnqueueKeepsWellFormed(conf, codec, s, wait, msg, nonces);
    used := 0;
    if SerialisationError(codec, s, msg, nonces).None? {
      used := FlushAnswers(Enqueue(conf, codec, s, wait, msg, nonces).0, replies);
    } else {
      assert replies[0..] == replies;
    }
  }

  lemma FlushAnswers<T>(s: Sender<T>, replies: seq<WriteReply>) returns (used: nat)
    requires WellFormed(s.box.queue)
    ensures var r := Flush(s, replies);
            && used <= |replies| && r.replies == replies[used..]
            && (forall i :: 0 <= i < used - 1 ==> replies[i].Accept?)
            && var fatal := used > 0 && replies[used - 1].WriteFatal?;
               && (r.result == Ok(true) <==> Idle(r.sender) && !fatal)
               && (r.result == Ok(false) <==> r.sender.current.Some?)
               && (r.result == Err(Io) <==> fatal)
               && (r.result.Err? ==> r.result == Err(Io))
  {
    used := FlushStops(s, replies);
    FlushResult(s, replies);
  }

  lemma {:induction false} FlushOnlyStarts<T>(s: Sender<T>, replies: seq<WriteReply>)
    requires WellFormed(s.box.queue)
    ensures OnlyStarts(s.box, Flush(s, replies).sender.box)
    decreases |replies|
  {
    if !Idle(s) {
      var reply := if replies == [] then WriteWouldBlock else replies[0];
      SendKeepsWellFormed(s, reply);
      if s.current.None? {
        NextOnlyStarts(s.box);
      }
      if reply.Accept? {
        FlushOnlyStarts(Send(s, reply), replies[1..]);
        OnlyStartsTwice(s.box, Send(s, reply).box, Flush(s, replies).sender.box);
      }
    }
  }

  /**
   What a write call does to the queue, with or without a message and whatever the stream answers: it
   reads the clock, drops exactly what is doomed at the reading, accepts its own message if it is given
   one that can be serialised, and starts records at the reading, none of the droppable ones too old.
   */
  lemma WriteEffect<T>(conf: SocketConfig, codec: Codec<T>, s: Sender<T>, wait: nat, msg: Option<(T, Priority)>,
                       nonces: (nat, nat), replies: seq<WriteReply>)
    requires SenderInv(conf, s)
    ensures CalledAt(conf, s.box, Write(conf, codec, s, wait, msg, nonces, replies).sender.box, s.box.now + wait,
                     OwnRecord(codec, s, s.box.now + wait, msg, nonces))
  {
    WriteOnlyStarts(conf, codec, s, wait, msg, nonces, replies);
    WriteExpires(conf, codec, s, wait, msg, nonces, replies);
  }

  lemma WriteExpires<T>(conf: SocketConfig, codec: Codec<T>, s: Sender<T>, wait: nat, msg: Option<(T, Priority)>,
                        nonces: (nat, nat), replies: seq<WriteReply>)
    requires SenderInv(conf, s)
    ensures ExpiredAndStarted(conf, s.box, Write(conf, codec, s, wait, msg, nonces, replies).sender.box,
                              s.box.now + wait)
  {
    WriteKeepsInv(conf, codec, s, wait, msg, nonces, replies);
    WriteOnlyStarts(conf, codec, s, wait, msg, nonces, replies);
    CallEffect(conf, s.box, Enqueue(conf, codec, s, wait, msg, nonces).0.box,
               Write(conf, codec, s, wait, msg, nonces, replies).sender.box, wait);
  }

  lemma WriteOnlyStarts<T>(conf: SocketConfig, codec: Codec<T>, s: Sender<T>, wait: nat, msg: Option<(T, Priority)>,
                           nonces: (nat, nat), replies: seq<WriteReply>)
    requires WellFormed(s.box.queue)
    ensures OnlyStarts(Enqueue(conf, codec, s, wait, msg, nonces).0.box,
                       Write(conf, codec, s, wait, msg, nonces, replies).sender.box)
  {
    EnqueueKeepsWellFormed(conf, codec, s, wait, msg, nonces);
    FlushOnlyStarts(Enqueue(conf, codec, s, wait, msg, nonces).0, replies);
  }

  // ---------------------------------------------------------------- termination

  /** Every frame that waits, and every rest in progress, has bytes to send. */
  ghost predicate NonEmptyFrames<T>(s: Sender<T>) {
    && (s.current.Some? ==> s.current.value != [])
    && forall p: Priority :: NonEmptyQueue(QueueOf(s.box.queue, p))
  }

  ghost predicate NonEmptyQueue<T>(queue: seq<Stamped<Item<T>>>) {
    forall i :: 0 <= i < |queue| ==> queue[i].msg.frame != []
  }

  /** The sealing operation gives headers of the announced length. */
  ghost predicate HeadersHaveLength(enc: EncryptContext) {
    forall nonce: nat, n: U32 ::
      enc.Encrypt(U32Codec(), nonce, n).Ok? ==> |enc.Encrypt(U32Codec(), nonce, n).value| == enc.EncryptedSizeLen()
  }

  lemma PairedHeadersHaveLength(enc: EncryptContext, dec: DecryptContext)
    requires Paired(enc, dec)
    ensures HeadersHaveLength(enc)
  {
    forall nonce: nat, n: U32 | enc.Encrypt(U32Codec(), nonce, n).Ok?
      ensures |enc.Encrypt(U32Codec(), nonce, n).value| == enc.EncryptedSizeLen()
    {
      EncryptedHeader(enc, dec, nonce, n);
    }
  }

  lemma DropKeepsNonEmpty<T>(conf: SocketConfig, slots: seq<Slot<Item<T>>>, now: nat)
    requires WellFormed(slots) && forall p: Priority :: NonEmptyQueue(QueueOf(slots, p))
    ensures WellFormed(Survivors(slots, conf, now))
    ensures forall p: Priority :: NonEmptyQueue(QueueOf(Survivors(slots, conf, now), p))
  {
    ExpirySplits(slots, conf, now);
    forall p: Priority ensures NonEmptyQueue(QueueOf(Survivors(slots, conf, now), p)) {
      ExpiryRule(slots, conf, now, p);
      assert NonEmptyQueue(QueueOf(slots, p));
    }
  }

  lemma PushKeepsNonEmpty<T>(slots: seq<Slot<Item<T>>>, p: Priority, x: Stamped<Item<T>>)
    requires WellFormed(slots) && x.msg.frame != [] && forall q: Priority :: NonEmptyQueue(QueueOf(slots, q))
    ensures forall q: Priority :: NonEmptyQueue(QueueOf(Pushed(slots, p, x), q))
  {
    forall q: Priority ensures NonEmptyQueue(QueueOf(Pushed(slots, p, x), q)) {
      PushedQueue(slots, p, x, q);
      assert NonEmptyQueue(QueueOf(slots, q));
    }
  }

  lemma SerializedNotEmpty<T>(codec: Codec<T>, enc: EncryptContext, nonces: (nat, nat), msg: T)
    requires HeadersHaveLength(enc) && Serialized(codec, enc, nonces, msg).Ok?
    ensures Serialized(codec, enc, nonces, msg).value != []
  {
    var body := enc.Encrypt(codec, nonces.0, msg).value;
    assert |enc.Encrypt(U32Codec(), nonces.1, LengthHeader(body)).value| > 0;
  }

  lemma EnqueueKeepsNonEmpty<T>(conf: SocketConfig, codec: Codec<T>, s: Sender<T>, wait: nat,
                                msg: Option<(T, Priority)>, nonces: (nat, nat))
    requires WellFormed(s.box.queue) && NonEmptyFrames(s) && HeadersHaveLength(s.enc)
    ensures NonEmptyFrames(Enqueue(conf, codec, s, wait, msg, nonces).0)
  {
    var box := DropExpired(s.box, conf, wait);
    DropKeepsNonEmpty(conf, s.box.queue, box.now);
    if msg.Some? && Serialized(codec, s.enc, nonces, msg.value.0).Ok? {
      SerializedNotEmpty(codec, s.enc, nonces, msg.value.0);
      var item := Item(msg.value.0, Serialized(codec, s.enc, nonces, msg.value.0).value, s.enc);
      PushKeepsNonEmpty(box.queue, msg.value.1, Stamped(box.now, item));
    }
  }

  lemma SendKeepsNonEmpty<T>(s: Sender<T>, reply: WriteReply)
    requires WellFormed(s.box.queue) && !Idle(s) && NonEmptyFrames(s)
    ensures Take(s).current.value != []
    ensures NonEmptyFrames(Send(s, reply))
  {
    if s.current.None? {
      NextNotEmpty(s.box.queue);
      forall p: Priority ensures NonEmptyQueue(QueueOf(AfterNext(s.box.queue), p)) {
        assert NonEmptyQueue(QueueOf(s.box.queue, p));
        NextStaysNonEmpty(s.box.queue, p);
      }
    }
  }

  lemma NextNotEmpty<T>(slots: seq<Slot<Item<T>>>)
    requires WellFormed(slots) && slots != []
    requires forall p: Priority :: NonEmptyQueue(QueueOf(slots, p))
    ensures slots[0].queue[0].msg.frame != []
  {
    assert QueueOf(slots, slots[0].priority) == slots[0].queue;
    assert NonEmptyQueue(QueueOf(slots, slots[0].priority));
  }

  lemma NextStaysNonEmpty<T>(slots: seq<Slot<Item<T>>>, p: Priority)
    requires WellFormed(slots) && slots != [] && NonEmptyQueue(QueueOf(slots, p))
    ensures NonEmptyQueue(QueueOf(AfterNext(slots), p))
  {
    NextQueue(slots, p);
    if p == slots[0].priority {
      assert QueueOf(AfterNext(slots), p) == QueueOf(slots, p)[1..];
    }
  }

  /**
   Termination: as long as the stream takes at least one byte whenever it takes any, a flush asks
   it at most once for every byte outstanding, and once more to learn that it would block.
   */
  lemma {:induction false} FlushTerminates<T>(s: Sender<T>, replies: seq<WriteReply>)
    requires WellFormed(s.box.queue) && NonEmptyFrames(s)
    requires forall i :: 0 <= i < |replies| && replies[i].Accept? ==> replies[i].n > 0
    ensures |replies| - |Flush(s, replies).replies| <= |Outstanding(s)| + 1
    ensures (forall i :: 0 <= i < |replies| ==> replies[i].Accept?) && |replies| >= |Outstanding(s)| ==>
              Flush(s, replies).result == Ok(true)
    ensures NonEmptyFrames(Flush(s, replies).sender)
    decreases |replies|
  {
    if Idle(s) {
    } else {
      var reply := if replies == [] then WriteWouldBlock else replies[0];
      SendKeepsNonEmpty(s, reply);
      SendKeepsWellFormed(s, reply);
      if reply.Accept? {
        SendConserves(s, reply);
        FlushTerminates(Send(s, reply), replies[1..]);
      } else {
        TakeConserves(s);
      }
    }
  }

  /** The bound on a flush holds for a write call made when no frame is empty, and none is afterwards. */
  lemma WriteTerminates<T>(conf: SocketConfig, codec: Codec<T>, s: Sender<T>, wait: nat,
                           msg: Option<(T, Priority)>, nonces: (nat, nat), replies: seq<WriteReply>)
    requires WellFormed(s.box.queue) && NonEmptyFrames(s) && HeadersHaveLength(s.enc)
    requires forall i :: 0 <= i < |replies| && replies[i].Accept? ==> replies[i].n > 0
    ensures WellFormed(Enqueue(conf, codec, s, wait, msg, nonces).0.box.queue)
    ensures |replies| - |Write(conf, codec, s, wait, msg, nonces, replies).replies| <=
              |Outstanding(Enqueue(conf, codec, s, wait, msg, nonces).0)| + 1
    ensures NonEmptyFrames(Write(conf, codec, s, wait, msg, nonces, replies).sender)
    ensures Write(conf, codec, s, wait, msg, nonces, replies).result == Ok(false) ==>
              Write(conf, codec, s, wait, msg, nonces, replies).sender.current.Some?
  {
    EnqueueKeepsWellFormed(conf, codec, s, wait, msg, nonces);
    EnqueueKeepsNonEmpty(conf, codec, s, wait, msg, nonces);
    FlushTerminates(Enqueue(conf, codec, s, wait, msg, nonces).0, replies);
    FlushResult(Enqueue(conf, codec, s, wait, msg, nonces).0, replies);
  }

  /** A stream that takes no byte keeps the flush asking without end: k replies change nothing. */
  lemma {:induction false} ZeroWritesMakeNoProgress<T>(s: Sender<T>, k: nat)
    requires WellFormed(s.box.queue) && s.current.Some? && s.current.value != []
    ensures Flush(s, seq(k, _ => Accept(0))) == Flushed(s, [], Ok(false))
  {
    var replies := seq(k, _ => Accept(0));
    if k > 0 {
      assert replies[1..] == seq(k - 1, _ => Accept(0));
      assert s.current.value[0..] == s.current.value && s.wire + s.current.value[..0] == s.wire;
      assert Send(s, Accept(0)) == s;
      ZeroWritesMakeNoProgress(s, k - 1);
    }
  }

  // ---------------------------------------------------------------- what `false` says of a message

  ghost function WithMessage<T>(s: Sender<T>, p: Priority, item: Item<T>): Sender<T> {
    s.(box := Push(s.box, 0, item, p))
  }

  /** Where a message that is queued now will stand in the order of starts. */
  ghost function OwnPlace<T>(s: Sender<T>, p: Priority): nat
    requires WellFormed(s.box.queue)
  {
    |s.box.started| + UrgentPrefix(Drain(s.box.queue), p)
  }

  /** The stream has accepted the whole frame of the i-th start, and all frames before it. */
  ghost predicate FullyOnWire<T>(t: Sender<T>, i: nat) {
    i < |t.box.started| && Wire(t.box.started[..i + 1]) <= t.wire
  }

  /** The same as a number of bytes, for a message that is queued now. */
  ghost function OwnEnd<T>(s: Sender<T>, p: Priority, item: Item<T>): nat
    requires WellFormed(s.box.queue)
  {
    var order := Drain(s.box.queue);
    |Wire(s.box.started)| + |Wire(order[..UrgentPrefix(order, p)])| + |item.frame|
  }

  /** All starts, those made and those to come, in a state that is still to start what another would start. */
  ghost function Starts<T>(s: Sender<T>): seq<Record<Item<T>>>
    requires WellFormed(s.box.queue)
  {
    s.box.started + Drain(s.box.queue)
  }

  lemma WireOfThree<T>(a: seq<Record<Item<T>>>, b: seq<Record<Item<T>>>, x: Record<Item<T>>)
    ensures |Wire(a + b + [x])| == |Wire(a)| + |Wire(b)| + |x.entry.msg.frame|
  {
    WireConcat(a, b);
    WireSnoc(a + b, x);
  }

  lemma Regroup<X>(a: seq<X>, b: seq<X>, x: X, c: seq<X>)
    ensures a + (b + [x] + c) == (a + b + [x]) + c
  {
  }

  /** The starts up to and including a message that is queued now. */
  lemma OwnFrame<T>(s: Sender<T>, p: Priority, item: Item<T>) returns (upTo: seq<Record<Item<T>>>)
    requires WellFormed(s.box.queue)
    ensures WellFormed(WithMessage(s, p, item).box.queue)
    ensures upTo <= Starts(WithMessage(s, p, item))
    ensures |upTo| == OwnPlace(s, p) + 1 && upTo[OwnPlace(s, p)] == Record(p, Stamped(s.box.now, item))
    ensures |Wire(upTo)| == OwnEnd(s, p, item)
  {
    var own := Record(p, Stamped(s.box.now, item));
    var order := Drain(s.box.queue);
    var n := UrgentPrefix(order, p);
    PushedPlace(s.box.queue, p, own.entry);
    upTo := s.box.started + order[..n] + [own];
    Regroup(s.box.started, order[..n], own, order[n..]);
    WireOfThree(s.box.started, order[..n], own);
  }

  lemma ShorterPrefix<X>(a: seq<X>, b: seq<X>, whole: seq<X>)
    requires a <= whole && b <= whole
    ensures b <= a <==> |a| >= |b|
  {
  }

  lemma SentAmongStarted<T>(first: seq<Record<Item<T>>>, rest: seq<Record<Item<T>>>, wire: Bytes)
    requires wire <= Wire(first + rest)
    ensures Wire(first) <= wire <==> |wire| >= |Wire(first)|
  {
    WireConcat(first, rest);
    ShorterPrefix(wire, Wire(first), Wire(first + rest));
  }

  lemma NotStartedNotSent<T>(started: seq<Record<Item<T>>>, between: seq<Record<Item<T>>>, x: Record<Item<T>>)
    requires x.entry.msg.frame != []
    ensures |Wire(started)| < |Wire(started + between + [x])|
  {
    WireConcat(started, between);
    WireSnoc(started + between, x);
  }

  lemma PrefixParts<X>(part: seq<X>, upTo: seq<X>, whole: seq<X>)
    requires part <= whole && upTo <= whole && upTo != []
    ensures |upTo| <= |part| ==> part[..|upTo|] == upTo && upTo + part[|upTo|..] == part
    ensures |upTo| > |part| ==> part + upTo[|part|..|upTo| - 1] + [upTo[|upTo| - 1]] == upTo
  {
  }

  /** With the frames started sent but for a rest, whether these are fully sent is a matter of length. */
  lemma SentByLength<T>(started: seq<Record<Item<T>>>, upTo: seq<Record<Item<T>>>, all: seq<Record<Item<T>>>,
                        wire: Bytes)
    requires started <= all && upTo <= all && upTo != [] && upTo[|upTo| - 1].entry.msg.frame != []
    requires wire <= Wire(started)
    ensures |upTo| <= |started| && Wire(started[..|upTo|]) <= wire <==> |wire| >= |Wire(upTo)|
  {
    PrefixParts(started, upTo, all);
    if |upTo| <= |started| {
      SentAmongStarted(upTo, started[|upTo|..], wire);
    } else {
      NotStartedNotSent(started, upTo[|started|..|upTo| - 1], upTo[|upTo| - 1]);
    }
  }

  lemma {:induction false} FlushKeepsNonEmpty<T>(s: Sender<T>, replies: seq<WriteReply>)
    requires WellFormed(s.box.queue) && NonEmptyFrames(s)
    ensures NonEmptyFrames(Flush(s, replies).sender)
    decreases |replies|
  {
    if !Idle(s) {
      var reply := if replies == [] then WriteWouldBlock else replies[0];
      SendKeepsNonEmpty(s, reply);
      SendKeepsWellFormed(s, reply);
      if reply.Accept? {
        FlushKeepsNonEmpty(Send(s, reply), replies[1..]);
      }
    }
  }

  lemma OneByte<T>(s: Sender<T>)
    requires WellFormed(s.box.queue) && NonEmptyFrames(s) && !Idle(s)
    ensures var t := Send(s, Accept(1));
            && WellFormed(t.box.queue) && NonEmptyFrames(t)
            && |t.wire| == |s.wire| + 1 && |Outstanding(t)| == |Outstanding(s)| - 1
  {
    SendKeepsNonEmpty(s, Accept(1));
    SendConserves(s, Accept(1));
  }

  lemma {:induction false} ByteByByte<T>(s: Sender<T>, k: nat)
    requires WellFormed(s.box.queue) && NonEmptyFrames(s) && k < |Outstanding(s)|
    ensures var r := Flush(s, seq(k, _ => Accept(1)));
            r.result == Ok(false) && |r.sender.wire| == |s.wire| + k
    decreases k
  {
    if Idle(s) {
      IdleHasNothingOutstanding(s);
    } else {
      var replies := seq(k, _ => Accept(1));
      if k > 0 {
        assert replies[1..] == seq(k - 1, _ => Accept(1));
        OneByte(s);
        ByteByByte(Send(s, Accept(1)), k - 1);
      }
    }
  }

  lemma OutstandingWithMessage<T>(s: Sender<T>, p: Priority, item: Item<T>)
    requires WellFormed(s.box.queue) && Atomic(s)
    ensures WellFormed(WithMessage(s, p, item).box.queue)
    ensures var order := Drain(s.box.queue);
            |s.wire| + |Outstanding(WithMessage(s, p, item))| ==
              OwnEnd(s, p, item) + |Wire(order[UrgentPrefix(order, p)..])|
  {
    PushedPlace(s.box.queue, p, Stamped(s.box.now, item));
    var order := Drain(s.box.queue);
    var n := UrgentPrefix(order, p);
    var own := Record(p, Stamped(s.box.now, item));
    WireConcat(order[..n] + [own], order[n..]);
    WireSnoc(order[..n], own);
  }

  /** A record that waits behind the first n of a drain has bytes to send. */
  lemma LessUrgentHasBytes<T>(s: Sender<T>, n: nat)
    requires WellFormed(s.box.queue) && NonEmptyFrames(s) && n < |Drain(s.box.queue)|
    ensures |Wire(Drain(s.box.queue)[n..])| > 0
  {
    var order := Drain(s.box.queue);
    var last := order[|order| - 1];
    DrainOf(s.box.queue, last.priority);
    assert order == order[..|order| - 1] + [last];
    OfSnoc(order[..|order| - 1], last, last.priority);
    var queue := QueueOf(s.box.queue, last.priority);
    assert queue[|queue| - 1] == last.entry;
    assert NonEmptyQueue(queue);
    assert order[n..][|order[n..]| - 1] == last;
  }

  lemma NonEmptyWithMessage<T>(s: Sender<T>, p: Priority, item: Item<T>)
    requires WellFormed(s.box.queue) && NonEmptyFrames(s) && item.frame != []
    ensures NonEmptyFrames(WithMessage(s, p, item))
  {
    PushKeepsNonEmpty(s.box.queue, p, Stamped(s.box.now, item));
  }

  lemma LastIsNeverFinished<T>(s: Sender<T>, p: Priority, item: Item<T>, replies: seq<WriteReply>)
    requires WellFormed(s.box.queue) && Atomic(s) && NonEmptyFrames(s) && item.frame != []
    requires UrgentPrefix(Drain(s.box.queue), p) == |Drain(s.box.queue)|
    ensures WellFormed(WithMessage(s, p, item).box.queue)
    ensures Flush(WithMessage(s, p, item), replies).result == Ok(false) ==>
              |Flush(WithMessage(s, p, item), replies).sender.wire| < OwnEnd(s, p, item)
  {
    var t := WithMessage(s, p, item);
    OutstandingWithMessage(s, p, item);
    NonEmptyWithMessage(s, p, item);
    if Flush(t, replies).result == Ok(false) {
      FlushConserves(t, replies);
      FlushResult(t, replies);
      FlushKeepsNonEmpty(t, replies);
      var order := Drain(s.box.queue);
      assert |Wire(order[|order|..])| == 0;
    }
  }

  lemma OthersCanFollow<T>(s: Sender<T>, p: Priority, item: Item<T>) returns (replies: seq<WriteReply>)
    requires WellFormed(s.box.queue) && Atomic(s) && NonEmptyFrames(s) && item.frame != []
    requires UrgentPrefix(Drain(s.box.queue), p) < |Drain(s.box.queue)|
    ensures WellFormed(WithMessage(s, p, item).box.queue)
    ensures Flush(WithMessage(s, p, item), replies).result == Ok(false)
    ensures |Flush(WithMessage(s, p, item), replies).sender.wire| == OwnEnd(s, p, item)
  {
    OutstandingWithMessage(s, p, item);
    NonEmptyWithMessage(s, p, item);
    LessUrgentHasBytes(s, UrgentPrefix(Drain(s.box.queue), p));
    assert |s.wire| <= |Wire(s.box.started)|;
    var k := OwnEnd(s, p, item) - |s.wire|;
    ByteByByte(WithMessage(s, p, item), k);
    replies := seq(k, _ => Accept(1));
  }

  /** After a flush without fatal error, the own message keeps its place among all starts. */
  lemma OwnAfterFlush<T>(conf: SocketConfig, s: Sender<T>, p: Priority, item: Item<T>, replies: seq<WriteReply>)
    requires WellFormed(s.box.queue) && item.frame != []
    requires SenderInv(conf, WithMessage(s, p, item)) && !s.failed
    requires Flush(WithMessage(s, p, item), replies).result.Ok?
    ensures var t := Flush(WithMessage(s, p, item), replies).sender;
            && WellFormed(t.box.queue)
            && OwnPlace(s, p) < |Starts(t)| && Starts(t)[OwnPlace(s, p)] == Record(p, Stamped(s.box.now, item))
            && (FullyOnWire(t, OwnPlace(s, p)) <==> |t.wire| >= OwnEnd(s, p, item))
  {
    var start := WithMessage(s, p, item);
    FlushKeepsInv(conf, start, replies);
    FlushConserves(start, replies);
    FlushResult(start, replies);
    var upTo := OwnFrame(s, p, item);
    var t := Flush(start, replies).sender;
    SentByLength(t.box.started, upTo, Starts(t), t.wire);
  }

  /** The sender once a write call has dropped what expired. */
  ghost function AfterExpiry<T>(conf: SocketConfig, s: Sender<T>, wait: nat): Sender<T> {
    s.(box := DropExpired(s.box, conf, wait))
  }

  /** In a write of this message, its frame is fully on the wire when the call returns. */
  ghost predicate OwnOnWire<T>(conf: SocketConfig, codec: Codec<T>, s: Sender<T>, wait: nat, msg: T, p: Priority,
                               nonces: (nat, nat), replies: seq<WriteReply>)
    requires WellFormed(s.box.queue) && WellFormed(AfterExpiry(conf, s, wait).box.queue)
  {
    FullyOnWire(Write(conf, codec, s, wait, Some((msg, p)), nonces, replies).sender,
                OwnPlace(AfterExpiry(conf, s, wait), p))
  }

  /**
   The documented reading of `false`, that the given message is not yet fully written, is right for
   every behaviour of the stream if and only if the queue, after the expiry, holds nothing less
   urgent.  The message's own frame is the start at `OwnPlace`.
   */
  lemma FalseMeansUnwrittenIff<T>(conf: SocketConfig, codec: Codec<T>, s: Sender<T>, wait: nat, msg: T, p: Priority,
                                  nonces: (nat, nat))
    requires SenderInv(conf, s) && !s.failed && NonEmptyFrames(s) && HeadersHaveLength(s.enc)
    requires Serialized(codec, s.enc, nonces, msg).Ok?
    ensures WellFormed(AfterExpiry(conf, s, wait).box.queue)
    ensures forall replies :: Write(conf, codec, s, wait, Some((msg, p)), nonces, replies).result.Ok? ==>
              var t := Write(conf, codec, s, wait, Some((msg, p)), nonces, replies).sender;
              var i := OwnPlace(AfterExpiry(conf, s, wait), p);
              && WellFormed(t.box.queue) && i < |Starts(t)|
              && Starts(t)[i].entry.msg == Item(msg, Serialized(codec, s.enc, nonces, msg).value, s.enc)
    ensures (forall replies :: Write(conf, codec, s, wait, Some((msg, p)), nonces, replies).result == Ok(false) ==>
               !OwnOnWire(conf, codec, s, wait, msg, p, nonces, replies))
            <==> (forall q: Priority :: q > p ==> QueueOf(AfterExpiry(conf, s, wait).box.queue, q) == [])
  {
    var frame := Serialized(codec, s.enc, nonces, msg).value;
    var item, kept := Item(msg, frame, s.enc), AfterExpiry(conf, s, wait);
    var start := WithMessage(kept, p, item);
    assert start == Enqueue(conf, codec, s, wait, Some((msg, p)), nonces).0;
    EnqueueKeepsInv(conf, codec, s, wait, Some((msg, p)), nonces);
    KeptIsReady(conf, codec, s, wait, nonces);
    SerializedNotEmpty(codec, s.enc, nonces, msg);
    forall replies | Flush(start, replies).result.Ok? ensures
        var t := Flush(start, replies).sender;
        && WellFormed(t.box.queue)
        && OwnPlace(kept, p) < |Starts(t)| && Starts(t)[OwnPlace(kept, p)].entry.msg == item
        && (FullyOnWire(t, OwnPlace(kept, p)) <==> |t.wire| >= OwnEnd(kept, p, item))
    {
      OwnAfterFlush(conf, kept, p, item, replies);
    }
    DrainPriorities(kept.box.queue, p);
    if UrgentPrefix(Drain(kept.box.queue), p) == |Drain(kept.box.queue)| {
      forall replies ensures Flush(start, replies).result == Ok(false) ==>
                               |Flush(start, replies).sender.wire| < OwnEnd(kept, p, item)
      {
        LastIsNeverFinished(kept, p, item, replies);
      }
    } else {
      var replies := OthersCanFollow(kept, p, item);
      assert OwnOnWire(conf, codec, s, wait, msg, p, nonces, replies);
    }
  }

  /** `true` means what it is documented to mean: the frame of the given message is fully on the wire. */
  lemma TrueMeansWritten<T>(conf: SocketConfig, codec: Codec<T>, s: Sender<T>, wait: nat, msg: T, p: Priority,
                            nonces: (nat, nat), replies: seq<WriteReply>)
    requires SenderInv(conf, s) && !s.failed
    requires Write(conf, codec, s, wait, Some((msg, p)), nonces, replies).result == Ok(true)
    ensures WellFormed(AfterExpiry(conf, s, wait).box.queue)
    ensures OwnOnWire(conf, codec, s, wait, msg, p, nonces, replies)
  {
    var kept := AfterExpiry(conf, s, wait);
    var item := Item(msg, Serialized(codec, s.enc, nonces, msg).value, s.enc);
    var start := WithMessage(kept, p, item);
    assert start == Enqueue(conf, codec, s, wait, Some((msg, p)), nonces).0;
    EnqueueKeepsWellFormed(conf, codec, s, wait, None, nonces);
    EnqueueKeepsInv(conf, codec, s, wait, Some((msg, p)), nonces);
    AllWritten(conf, kept, p, item, replies);
  }

  lemma WirePrefix<T>(records: seq<Record<Item<T>>>, n: nat)
    requires n <= |records|
    ensures Wire(records[..n]) <= Wire(records)
  {
    WireConcat(records[..n], records[n..]);
    assert records == records[..n] + records[n..];
  }

  lemma AllFlushed<T>(conf: SocketConfig, s: Sender<T>, replies: seq<WriteReply>)
    requires SenderInv(conf, s) && !s.failed && Flush(s, replies).result == Ok(true)
    ensures var t := Flush(s, replies).sender; t.box.started == Starts(s) && t.wire == Wire(t.box.started)
  {
    FlushKeepsInv(conf, s, replies);
    FlushConserves(s, replies);
    FlushResult(s, replies);
    NothingBehind(Flush(s, replies).sender.box.started);
    NothingBehind(Flush(s, replies).sender.wire);
  }

  lemma AllWritten<T>(conf: SocketConfig, s: Sender<T>, p: Priority, item: Item<T>, replies: seq<WriteReply>)
    requires WellFormed(s.box.queue) && SenderInv(conf, WithMessage(s, p, item)) && !s.failed
    requires Flush(WithMessage(s, p, item), replies).result == Ok(true)
    ensures FullyOnWire(Flush(WithMessage(s, p, item), replies).sender, OwnPlace(s, p))
  {
    AllFlushed(conf, WithMessage(s, p, item), replies);
    var upTo := OwnFrame(s, p, item);
    WirePrefix(Starts(WithMessage(s, p, item)), |upTo|);
  }

  lemma KeptIsReady<T>(conf: SocketConfig, codec: Codec<T>, s: Sender<T>, wait: nat, nonces: (nat, nat))
    requires SenderInv(conf, s) && !s.failed && NonEmptyFrames(s) && HeadersHaveLength(s.enc)
    ensures var kept := AfterExpiry(conf, s, wait);
            SenderInv(conf, kept) && NonEmptyFrames(kept)
  {
    EnqueueKeepsInv(conf, codec, s, wait, None, nonces);
    EnqueueKeepsNonEmpty(conf, codec, s, wait, None, nonces);
  }
}
