/** Whole calls of the socket as runs of the system, and how a run can be brought to its end. */
module TcpCalls {
  import opened Base
  import opened Crypto
  import opened OutQueues
  import opened Outboxes
  import opened Reader
  import opened TcpSender
  import opened TcpReceiver
  import opened TcpSystem

  lemma RunOne<T>(fx: Fixed<T>, sys: System<T>, ev: Event<T>)
    requires WellFormed(sys.snd.box.queue)
    ensures Run(fx, sys, [ev]) == Act(fx, sys, ev)
    ensures AllAdmissible(fx, sys, [ev]) <==> Admissible(fx, sys, ev)
  {
    assert [ev][1..] == [];
    ActKeepsWellFormed(fx, sys, ev);
  }

  lemma RunCons<T>(fx: Fixed<T>, sys: System<T>, ev: Event<T>, evs: seq<Event<T>>)
    requires WellFormed(sys.snd.box.queue)
    ensures WellFormed(Act(fx, sys, ev).snd.box.queue)
    ensures Run(fx, sys, [ev] + evs) == Run(fx, Act(fx, sys, ev), evs)
    ensures AllAdmissible(fx, sys, [ev] + evs) <==>
              Admissible(fx, sys, ev) && AllAdmissible(fx, Act(fx, sys, ev), evs)
  {
    assert ([ev] + evs)[1..] == evs;
    ActKeepsWellFormed(fx, sys, ev);
  }

  lemma {:induction false} RunKeepsWellFormed<T>(fx: Fixed<T>, sys: System<T>, evs: seq<Event<T>>)
    requires WellFormed(sys.snd.box.queue)
    ensures WellFormed(Run(fx, sys, evs).snd.box.queue)
    decreases |evs|
  {
    if evs != [] {
      ActKeepsWellFormed(fx, sys, evs[0]);
      RunKeepsWellFormed(fx, Act(fx, sys, evs[0]), evs[1..]);
    }
  }

  lemma {:induction false} RunConcat<T>(fx: Fixed<T>, sys: System<T>, a: seq<Event<T>>, b: seq<Event<T>>)
    requires WellFormed(sys.snd.box.queue)
    ensures WellFormed(Run(fx, sys, a).snd.box.queue)
    ensures Run(fx, sys, a + b) == Run(fx, Run(fx, sys, a), b)
    ensures AllAdmissible(fx, sys, a + b) <==> AllAdmissible(fx, sys, a) && AllAdmissible(fx, Run(fx, sys, a), b)
    decreases |a|
  {
    RunKeepsWellFormed(fx, sys, a);
    if a == [] {
      assert a + b == b;
    } else {
      assert (a + b)[1..] == a[1..] + b;
      ActKeepsWellFormed(fx, sys, a[0]);
      RunConcat(fx, Act(fx, sys, a[0]), a[1..], b);
    }
  }

  // ---------------------------------------------------------------- a write call is a run

  lemma {:induction false} FlushIsRun<T>(fx: Fixed<T>, sys: System<T>, replies: seq<WriteReply>)
    returns (evs: seq<Event<T>>)
    requires WellFormed(sys.snd.box.queue) && !sys.snd.failed
    ensures Run(fx, sys, evs) == sys.(snd := Flush(sys.snd, replies).sender)
    ensures AllAdmissible(fx, sys, evs)
    decreases |replies|
  {
    if Idle(sys.snd) {
      evs := [];
    } else {
      var reply := if replies == [] then WriteWouldBlock else replies[0];
      evs := [SendEvent(reply)];
      RunOne(fx, sys, SendEvent(reply));
      if reply.Accept? {
        ActKeepsWellFormed(fx, sys, SendEvent(reply));
        var more := FlushIsRun(fx, Act(fx, sys, SendEvent(reply)), replies[1..]);
        RunCons(fx, sys, SendEvent(reply), more);
        evs := [SendEvent(reply)] + more;
      }
    }
  }

  /** A whole write call is a run of the system, whatever the stream answers. */
  lemma WriteIsRun<T>(fx: Fixed<T>, sys: System<T>, wait: nat, msg: Option<(T, Priority)>, nonces: (nat, nat),
                      replies: seq<WriteReply>) returns (evs: seq<Event<T>>)
    requires WellFormed(sys.snd.box.queue) && !sys.snd.failed
    requires Admissible(fx, sys, EnqueueEvent(wait, msg, nonces))
    ensures Run(fx, sys, evs) == sys.(snd := Write(fx.conf, fx.codec, sys.snd, wait, msg, nonces, replies).sender)
    ensures AllAdmissible(fx, sys, evs)
  {
    var ev := EnqueueEvent(wait, msg, nonces);
    EnqueueKeepsWellFormed(fx.conf, fx.codec, sys.snd, wait, msg, nonces);
    RunOne(fx, sys, ev);
    evs := [ev];
    if Enqueue(fx.conf, fx.codec, sys.snd, wait, msg, nonces).1.None? {
      var more := FlushIsRun(fx, Act(fx, sys, ev), replies);
      RunCons(fx, sys, ev, more);
      evs := [ev] + more;
    }
  }

  // ---------------------------------------------------------------- a read call is a run

  /** The pieces to come are the next bytes of the wire. */
  ghost predicate ComesFromWire<T>(sys: System<T>, inc: Incoming) {
    sys.fed <= |sys.snd.wire| && ChunkBytes(inc.replies) <= sys.snd.wire[sys.fed..]
  }

  /** The system after a read call: reader, bytes received and message delivered are those of the call. */
  ghost function AfterRead<T>(sys: System<T>, inc: Incoming, r: ReadResult<T>): System<T> {
    sys.(rcv := r.state,
         fed := sys.fed + Received(inc, r.incoming),
         delivered := sys.delivered + if r.result.Ok? && r.result.value.Some? then [r.result.value.value] else [])
  }

  ghost function Received(before: Incoming, after: Incoming): nat {
    var all, left := |ChunkBytes(before.replies)|, |ChunkBytes(after.replies)|;
    if left <= all then all - left else 0
  }

  lemma RestBytes(inc: Incoming)
    ensures ChunkBytes(inc.replies) ==
            (if inc.Reply().Chunk? then inc.Reply().bytes else []) + ChunkBytes(inc.Rest().replies)
  {
  }

  lemma FeedPiece<T>(fx: Fixed<T>, sys: System<T>, inc: Incoming)
    requires ComesFromWire(sys, inc) && inc.Reply().Chunk?
    ensures var t := Feed(sys, |inc.Reply().bytes|);
            t == sys.(rcv := sys.rcv.Put(inc.Reply().bytes), fed := sys.fed + |inc.Reply().bytes|)
            && ComesFromWire(t, inc.Rest())
  {
    RestBytes(inc);
    var bytes, rest := inc.Reply().bytes, sys.snd.wire[sys.fed..];
    assert rest[..|bytes|] == bytes by { assert bytes <= bytes + ChunkBytes(inc.Rest().replies) <= rest; }
    assert sys.snd.wire[sys.fed..sys.fed + |bytes|] == rest[..|bytes|];
    assert sys.snd.wire[sys.fed + |bytes|..] == rest[|bytes|..];
    assert (bytes + ChunkBytes(inc.Rest().replies))[|bytes|..] == ChunkBytes(inc.Rest().replies);
  }

  /** An attempt to read in the system is a run of at most one step. */
  lemma TryOrIsRun<T>(fx: Fixed<T>, sys: System<T>, inc: Incoming, otherwise: Res<Option<T>>)
    requires SystemInv(fx, sys) && Matched(sys)
    requires !otherwise.Ok? || otherwise.value.None?
    ensures var r := TryOr(ReaderDecoder(fx, sys), sys.rcv, inc, otherwise);
            && Run(fx, sys, [TryReadEvent]) == AfterRead(sys, inc, r)
            && AllAdmissible(fx, sys, [TryReadEvent])
            && (IsParseError(r.result) ==> IsParseError(otherwise))
  {
    TryReadKeepsSystem(fx, sys);
    RunOne(fx, sys, TryReadEvent);
  }

  /** How a drain of the stream ends is a run of at most one step. */
  lemma StopIsRun<T>(fx: Fixed<T>, sys: System<T>, inc: Incoming, somethingRead: bool) returns (evs: seq<Event<T>>)
    requires SystemInv(fx, sys) && Matched(sys)
    requires !inc.Reply().Chunk? || inc.Reply().bytes == []
    ensures var r := ReadLoop(ReaderDecoder(fx, sys), sys.rcv, inc, somethingRead);
            && r.incoming == inc.Rest()
            && Run(fx, sys, evs) == AfterRead(sys, inc.Rest(), r)
            && !IsParseError(r.result)
    ensures AllAdmissible(fx, sys, evs)
  {
    evs := [];
    if somethingRead && !inc.Reply().ReadFatal? {
      TryOrIsRun(fx, sys, inc.Rest(), if inc.Reply().Chunk? then Err(ZeroByteRead) else Ok(None));
      evs := [TryReadEvent];
    } else {
      assert sys.delivered + [] == sys.delivered;
    }
  }

  lemma AfterPiece<T>(sys: System<T>, t: System<T>, inc: Incoming, r: ReadResult<T>)
    requires inc.Reply().Chunk? && t == sys.(rcv := t.rcv, fed := sys.fed + |inc.Reply().bytes|)
    requires |ChunkBytes(r.incoming.replies)| <= |ChunkBytes(inc.Rest().replies)|
    ensures |ChunkBytes(r.incoming.replies)| <= |ChunkBytes(inc.replies)|
    ensures AfterRead(t, inc.Rest(), r) == AfterRead(sys, inc, r)
  {
    RestBytes(inc);
  }

  lemma {:induction false} LoopIsRun<T>(fx: Fixed<T>, sys: System<T>, inc: Incoming, somethingRead: bool)
    returns (evs: seq<Event<T>>)
    requires SystemInv(fx, sys) && Matched(sys) && ComesFromWire(sys, inc)
    ensures var r := ReadLoop(ReaderDecoder(fx, sys), sys.rcv, inc, somethingRead);
            && |ChunkBytes(r.incoming.replies)| <= |ChunkBytes(inc.replies)|
            && Run(fx, sys, evs) == AfterRead(sys, inc, r)
            && !IsParseError(r.result)
    ensures AllAdmissible(fx, sys, evs)
    decreases |inc.replies|
  {
    var reply := inc.Reply();
    if reply.Chunk? && reply.bytes != [] {
      var ev, t := FeedEvent(|reply.bytes|), Feed(sys, |reply.bytes|);
      FeedPiece(fx, sys, inc);
      assert SystemInv(fx, t) by { FeedKeepsSystem(fx, sys, |reply.bytes|); }
      var more := LoopIsRun(fx, t, inc.Rest(), true);
      assert Run(fx, sys, [ev] + more) == Run(fx, t, more) && AllAdmissible(fx, sys, [ev] + more) by {
        RunCons(fx, sys, ev, more);
      }
      AfterPiece(sys, t, inc, ReadLoop(ReaderDecoder(fx, t), t.rcv, inc.Rest(), true));
      evs := [ev] + more;
    } else {
      RestBytes(inc);
      evs := StopIsRun(fx, sys, inc, somethingRead);
    }
  }

  /**
   A whole read call is a run of the system, whatever pieces the stream hands over; it never
   returns a parse error.
   */
  lemma ReadIsRun<T>(fx: Fixed<T>, sys: System<T>, inc: Incoming) returns (evs: seq<Event<T>>)
    requires SystemInv(fx, sys) && Matched(sys) && ComesFromWire(sys, inc)
    ensures var r := TcpReceiver.Read(ReaderDecoder(fx, sys), sys.rcv, inc);
            && Run(fx, sys, evs) == AfterRead(sys, inc, r)
            && !IsParseError(r.result)
    ensures AllAdmissible(fx, sys, evs)
  {
    if TryStep(ReaderDecoder(fx, sys), sys.rcv).result == Ok(None) {
      evs := DrainAfterAttempt(fx, sys, inc);
    } else {
      TryOrIsRun(fx, sys, inc, Ok(None));
      evs := [TryReadEvent];
    }
  }

  lemma DrainAfterAttempt<T>(fx: Fixed<T>, sys: System<T>, inc: Incoming) returns (evs: seq<Event<T>>)
    requires SystemInv(fx, sys) && Matched(sys) && ComesFromWire(sys, inc)
    requires TryStep(ReaderDecoder(fx, sys), sys.rcv).result == Ok(None)
    ensures var r := ReadLoop(ReaderDecoder(fx, sys), TryStep(ReaderDecoder(fx, sys), sys.rcv).state, inc, false);
            Run(fx, sys, evs) == AfterRead(sys, inc, r) && !IsParseError(r.result)
    ensures AllAdmissible(fx, sys, evs)
  {
    TryReadKeepsSystem(fx, sys);
    var more := LoopIsRun(fx, Act(fx, sys, TryReadEvent), inc, false);
    RunCons(fx, sys, TryReadEvent, more);
    evs := [TryReadEvent] + more;
  }

  // ---------------------------------------------------------------- everything can arrive

  /** The receiver's context goes with everything that is started or queued and not yet delivered. */
  ghost predicate AllMatched<T>(sys: System<T>) {
    && (forall i :: |sys.delivered| <= i < |Started(sys)| ==> Paired(Started(sys)[i].entry.msg.enc, sys.dec))
    && WellFormed(sys.snd.box.queue)
    && forall i :: 0 <= i < |Drain(sys.snd.box.queue)| ==> Paired(Drain(sys.snd.box.queue)[i].entry.msg.enc, sys.dec)
  }

  lemma FramesNotEmpty<T>(fx: Fixed<T>, sys: System<T>)
    requires SystemInv(fx, sys)
    ensures NonEmptyFrames(sys.snd)
  {
    forall p: Priority ensures NonEmptyQueue(QueueOf(sys.snd.box.queue, p)) {
      assert QueueOk(fx, QueueOf(sys.snd.box.queue, p));
    }
  }

  /** A stream that takes everything lets the sender empty its queue. */
  lemma CanSendAll<T>(fx: Fixed<T>, sys: System<T>) returns (evs: seq<Event<T>>)
    requires SystemInv(fx, sys) && !sys.snd.failed
    ensures AllAdmissible(fx, sys, evs)
    ensures var t := Run(fx, sys, evs);
            && t == sys.(snd := t.snd) && !t.snd.failed && Idle(t.snd)
            && Started(t) == Started(sys) + Drain(sys.snd.box.queue)
  {
    var n := |Outstanding(sys.snd)|;
    var replies := seq(n, _ => Accept(1));
    FramesNotEmpty(fx, sys);
    FlushTerminates(sys.snd, replies);
    FlushConserves(sys.snd, replies);
    FlushResult(sys.snd, replies);
    evs := FlushIsRun(fx, sys, replies);
    var t := Run(fx, sys, evs);
    assert Started(t) + [] == Started(t);
  }

  /** With all bytes of the started frames fed, an attempt to read delivers the next message. */
  lemma CanReadNext<T>(fx: Fixed<T>, sys: System<T>)
    requires SystemInv(fx, sys) && sys.fed == |Wire(Started(sys))| && |sys.delivered| < |Started(sys)| && Matched(sys)
    ensures var t := Act(fx, sys, TryReadEvent);
            && SystemInv(fx, t)
            && t == sys.(rcv := t.rcv, delivered := t.delivered)
            && |t.delivered| == |sys.delivered| + 1
  {
    TryReadKeepsSystem(fx, sys);
  }

  lemma NothingLeftToRead<T>(fx: Fixed<T>, sys: System<T>)
    requires SystemInv(fx, sys) && |sys.delivered| == |Started(sys)|
    ensures sys.rcv == EMPTY_READER && sys.delivered == Messages(Started(sys))
  {
    NextItemOk(fx, sys.snd, 0);
    NothingBehindLast(Started(sys), sys.snd.wire[..sys.fed], sys.rcv);
  }

  lemma {:induction false} CanReadAll<T(!new)>(fx: Fixed<T>, sys: System<T>) returns (evs: seq<Event<T>>)
    requires SystemInv(fx, sys) && sys.fed == |Wire(Started(sys))|
    requires |sys.delivered| <= |Started(sys)|
    requires forall i :: |sys.delivered| <= i < |Started(sys)| ==> Paired(Started(sys)[i].entry.msg.enc, sys.dec)
    ensures AllAdmissible(fx, sys, evs)
    ensures Run(fx, sys, evs) == sys.(rcv := EMPTY_READER, delivered := Messages(Started(sys)))
    decreases |Started(sys)| - |sys.delivered|
  {
    if |sys.delivered| == |Started(sys)| {
      NothingLeftToRead(fx, sys);
      evs := [];
    } else {
      CanReadNext(fx, sys);
      var more := CanReadAll(fx, Act(fx, sys, TryReadEvent));
      RunCons(fx, sys, TryReadEvent, more);
      evs := [TryReadEvent] + more;
    }
  }

  lemma CanFeedAll<T(!new)>(fx: Fixed<T>, sys: System<T>)
    requires SystemInv(fx, sys) && !sys.snd.failed && Idle(sys.snd) && Lawful(fx.codec)
    ensures sys.fed <= |sys.snd.wire|
    ensures var t := Act(fx, sys, FeedEvent(|sys.snd.wire| - sys.fed));
            && SystemInv(fx, t) && t == sys.(rcv := t.rcv, fed := |Wire(Started(sys))|)
  {
    NothingBehind(sys.snd.wire);
    ActKeepsSystem(fx, sys, FeedEvent(|sys.snd.wire| - sys.fed));
  }

  /** With nothing left to send, the receiver can get and deliver the rest. */
  lemma CanReceiveAll<T(!new)>(fx: Fixed<T>, sys: System<T>) returns (evs: seq<Event<T>>)
    requires SystemInv(fx, sys) && !sys.snd.failed && Idle(sys.snd) && Lawful(fx.codec)
    requires |sys.delivered| <= |Started(sys)|
    requires forall i :: |sys.delivered| <= i < |Started(sys)| ==> Paired(Started(sys)[i].entry.msg.enc, sys.dec)
    ensures AllAdmissible(fx, sys, evs)
    ensures var t := Run(fx, sys, evs); t.delivered == Messages(Started(sys)) && t.snd == sys.snd
  {
    CanFeedAll(fx, sys);
    var feed := FeedEvent(|sys.snd.wire| - sys.fed);
    var more := CanReadAll(fx, Act(fx, sys, feed));
    RunCons(fx, sys, feed, more);
    evs := [feed] + more;
  }

  /**
   From every state of the system that has met no fatal error, some continuation delivers, in order,
   everything started and everything queued, most urgent first.
   */
  lemma EverythingCanArrive<T(!new)>(fx: Fixed<T>, sys: System<T>) returns (evs: seq<Event<T>>)
    requires SystemInv(fx, sys) && !sys.snd.failed && Lawful(fx.codec) && AllMatched(sys)
    ensures AllAdmissible(fx, sys, evs)
    ensures Run(fx, sys, evs).delivered == Messages(Started(sys) + Drain(sys.snd.box.queue))
    ensures Run(fx, sys, evs).snd.box.queue == []
  {
    var sends := CanSendAll(fx, sys);
    RunKeepsSystem(fx, sys, sends);
    HasBoxInv(fx, sys);
    var receipts := CanReceiveAll(fx, Run(fx, sys, sends));
    RunConcat(fx, sys, sends, receipts);
    evs := sends + receipts;
  }

  /** In particular, every admissible run without fatal error can be continued until everything has arrived. */
  lemma EverythingCanArriveInRuns<T(!new)>(fx: Fixed<T>, enc: EncryptContext, dec: DecryptContext,
                                           evs: seq<Event<T>>) returns (more: seq<Event<T>>)
    requires Lawful(fx.codec) && AllAdmissible(fx, Start(enc, dec), evs)
    requires var sys := Run(fx, Start(enc, dec), evs); !sys.snd.failed && AllMatched(sys)
    ensures AllAdmissible(fx, Start(enc, dec), evs + more)
    ensures var sys, end := Run(fx, Start(enc, dec), evs), Run(fx, Start(enc, dec), evs + more);
            && WellFormed(sys.snd.box.queue)
            && end.delivered == Messages(Started(sys) + Drain(sys.snd.box.queue))
            && end.snd.box.queue == []
  {
    StartIsFine(fx, enc, dec);
    RunKeepsSystem(fx, Start(enc, dec), evs);
    more := EverythingCanArrive(fx, Run(fx, Start(enc, dec), evs));
    RunConcat(fx, Start(enc, dec), evs, more);
  }
}
