/**
 What the sender guarantees in every run of the system, whatever the receiver does: whichever codec
 and contexts are used, whether or not messages fit the receiver's limit, and however reads go.
 */
module SenderRuns {
  import opened Base
  import opened Crypto
  import opened OutQueues
  import opened Outboxes
  import opened Framing
  import opened TcpSender
  import opened TcpSystem

  lemma ActKeepsInv<T>(fx: Fixed<T>, sys: System<T>, ev: Event<T>)
    requires SenderInv(fx.conf, sys.snd)
    ensures SenderInv(fx.conf, Act(fx, sys, ev).snd)
  {
    match ev
    case EnqueueEvent(wait, msg, nonces) => EnqueueKeepsInv(fx.conf, fx.codec, sys.snd, wait, msg, nonces);
    case SendEvent(reply) => if !Idle(sys.snd) { SendKeepsInv(fx.conf, sys.snd, reply); }
    case _ =>
  }

  lemma {:induction false} RunKeepsInv<T>(fx: Fixed<T>, sys: System<T>, evs: seq<Event<T>>)
    requires SenderInv(fx.conf, sys.snd)
    ensures SenderInv(fx.conf, Run(fx, sys, evs).snd)
    decreases |evs|
  {
    if evs != [] {
      ActKeepsInv(fx, sys, evs[0]);
      RunKeepsInv(fx, Act(fx, sys, evs[0]), evs[1..]);
    }
  }

  lemma InvInEveryRun<T>(fx: Fixed<T>, enc: EncryptContext, dec: DecryptContext, evs: seq<Event<T>>)
    ensures SenderInv(fx.conf, Run(fx, Start(enc, dec), evs).snd)
  {
    EmptyBoxInv<Item<T>>(fx.conf);
    RunKeepsInv(fx, Start(enc, dec), evs);
  }

  // ---------------------------------------------------------------- frames on the wire

  /**
   Frame atomicity, in every run up to the first fatal error: what has been sent is the frames
   started so far, in order, the last of them perhaps only in part; what is kept for the next write is
   exactly the part of it that is missing.
   */
  lemma FramesAreAtomic<T>(fx: Fixed<T>, enc: EncryptContext, dec: DecryptContext, evs: seq<Event<T>>)
    requires !Run(fx, Start(enc, dec), evs).snd.failed
    ensures var s := Run(fx, Start(enc, dec), evs).snd;
            match s.current
            case None => s.wire == Wire(s.box.started)
            case Some(rest) =>
              && s.box.started != []
              && var last := |s.box.started| - 1;
                 var frame := s.box.started[last].entry.msg.frame;
                 && |rest| <= |frame| && rest == frame[|frame| - |rest|..]
                 && s.wire == Wire(s.box.started[..last]) + frame[..|frame| - |rest|]
  {
    InvInEveryRun(fx, enc, dec, evs);
    var s := Run(fx, Start(enc, dec), evs).snd;
    if s.current.Some? {
      AtomicParts(s);
    } else {
      NothingBehind(s.wire);
    }
  }

  lemma AtomicParts<T>(s: Sender<T>)
    requires Atomic(s) && s.current.Some?
    ensures var last := |s.box.started| - 1;
            var frame := s.box.started[last].entry.msg.frame;
            var rest := s.current.value;
            && rest == frame[|frame| - |rest|..]
            && s.wire == Wire(s.box.started[..last]) + frame[..|frame| - |rest|]
  {
    var last := |s.box.started| - 1;
    WireNext(s.box.started, last);
    assert s.box.started[..last + 1] == s.box.started;
    SuffixOf(s.wire, s.current.value, Wire(s.box.started[..last]), s.box.started[last].entry.msg.frame);
  }

  lemma SuffixOf(a: Bytes, rest: Bytes, b: Bytes, frame: Bytes)
    requires a + rest == b + frame && |rest| <= |frame|
    ensures rest == frame[|frame| - |rest|..] && a == b + frame[..|frame| - |rest|]
  {
    var k := |frame| - |rest|;
    assert rest == (a + rest)[|a|..] && (b + frame)[|a|..] == frame[k..];
    assert a == (a + rest)[..|a|] && (b + frame)[..|a|] == b + frame[..k];
  }

  // ---------------------------------------------------------------- messages

  /**
   No stale start: in every run, whenever a droppable message was taken from the queue for writing,
   it was, in nanoseconds, less than a second older than the limit at the clock reading of that write.
   */
  lemma NoStaleStart<T>(fx: Fixed<T>, enc: EncryptContext, dec: DecryptContext, evs: seq<Event<T>>, i: nat)
    requires i < |Started(Run(fx, Start(enc, dec), evs))|
    ensures var box := Run(fx, Start(enc, dec), evs).snd.box;
            && |box.readings| == |box.started|
            && (box.started[i].priority >= fx.conf.msgDropPriority ==>
                  box.readings[i] - box.started[i].entry.when < (fx.conf.maxMsgAgeSecs + 1) * 1_000_000_000)
  {
    InvInEveryRun(fx, enc, dec, evs);
  }

  /** Every write call of every run, with or without a message, reads the clock and expires at the reading. */
  lemma WritesExpire<T>(fx: Fixed<T>, enc: EncryptContext, dec: DecryptContext, evs: seq<Event<T>>, s: Sender<T>,
                        wait: nat, msg: Option<(T, Priority)>, nonces: (nat, nat), replies: seq<WriteReply>)
    requires s == Run(fx, Start(enc, dec), evs).snd
    ensures WellFormed(s.box.queue)
    ensures CalledAt(fx.conf, s.box, Write(fx.conf, fx.codec, s, wait, msg, nonces, replies).sender.box,
                     s.box.now + wait, OwnRecord(fx.codec, s, s.box.now + wait, msg, nonces))
  {
    InvInEveryRun(fx, enc, dec, evs);
    WriteEffect(fx.conf, fx.codec, s, wait, msg, nonces, replies);
  }

  /**
   No message disappears: in every run, the messages accepted at a priority are exactly those started,
   dropped and still queued, each in order of acceptance; of a protected priority none is dropped.
   */
  lemma SenderConserves<T>(fx: Fixed<T>, enc: EncryptContext, dec: DecryptContext, evs: seq<Event<T>>, p: Priority)
    ensures var box := Run(fx, Start(enc, dec), evs).snd.box;
            && multiset(Of(box.accepted, p)) ==
                 multiset(Of(box.started, p)) + multiset(Of(box.dropped, p)) + multiset(QueueOf(box.queue, p))
            && IsSubsequence(Of(box.started, p), Of(box.accepted, p))
            && IsSubsequence(Of(box.dropped, p), Of(box.accepted, p))
            && (p < fx.conf.msgDropPriority ==>
                  Of(box.dropped, p) == [] && Of(box.accepted, p) == Of(box.started, p) + QueueOf(box.queue, p))
  {
    InvInEveryRun(fx, enc, dec, evs);
    var box := Run(fx, Start(enc, dec), evs).snd.box;
    StartedAgainstAccepted(fx.conf, box, p);
    DroppedAgainstAccepted(fx.conf, box, p);
  }

  // ---------------------------------------------------------------- termination

  /** Every context the sender is given makes headers of the announced length, as all do that have a partner. */
  ghost predicate HeadersInOrder<T>(enc: EncryptContext, evs: seq<Event<T>>) {
    && HeadersHaveLength(enc)
    && forall i :: 0 <= i < |evs| && evs[i].SetEncryptEvent? ==> HeadersHaveLength(evs[i].enc)
  }

  ghost predicate ReadyToFlush<T>(s: Sender<T>) {
    NonEmptyFrames(s) && HeadersHaveLength(s.enc)
  }

  lemma ActKeepsReady<T>(fx: Fixed<T>, sys: System<T>, ev: Event<T>)
    requires WellFormed(sys.snd.box.queue) && ReadyToFlush(sys.snd)
    requires ev.SetEncryptEvent? ==> HeadersHaveLength(ev.enc)
    ensures WellFormed(Act(fx, sys, ev).snd.box.queue) && ReadyToFlush(Act(fx, sys, ev).snd)
  {
    ActKeepsWellFormed(fx, sys, ev);
    match ev
    case EnqueueEvent(wait, msg, nonces) => EnqueueKeepsNonEmpty(fx.conf, fx.codec, sys.snd, wait, msg, nonces);
    case SendEvent(reply) => if !Idle(sys.snd) { SendKeepsNonEmpty(sys.snd, reply); }
    case _ =>
  }

  lemma {:induction false} RunKeepsReady<T>(fx: Fixed<T>, sys: System<T>, evs: seq<Event<T>>)
    requires WellFormed(sys.snd.box.queue) && ReadyToFlush(sys.snd)
    requires forall i :: 0 <= i < |evs| && evs[i].SetEncryptEvent? ==> HeadersHaveLength(evs[i].enc)
    ensures WellFormed(Run(fx, sys, evs).snd.box.queue) && ReadyToFlush(Run(fx, sys, evs).snd)
    decreases |evs|
  {
    if evs != [] {
      ActKeepsReady(fx, sys, evs[0]);
      RunKeepsReady(fx, Act(fx, sys, evs[0]), evs[1..]);
    }
  }

  /**
   Every write call of every run ends: with a stream that takes at least one byte whenever it takes
   any, the call asks it at most once for every byte outstanding and once more.  `false` leaves a rest
   of a frame that is not empty.
   */
  lemma WritesTerminate<T>(fx: Fixed<T>, enc: EncryptContext, dec: DecryptContext, evs: seq<Event<T>>, wait: nat,
                           msg: Option<(T, Priority)>, nonces: (nat, nat), replies: seq<WriteReply>)
    requires HeadersInOrder(enc, evs)
    requires forall i :: 0 <= i < |replies| && replies[i].Accept? ==> replies[i].n > 0
    ensures var s := Run(fx, Start(enc, dec), evs).snd;
            && WellFormed(s.box.queue)
            && WellFormed(Enqueue(fx.conf, fx.codec, s, wait, msg, nonces).0.box.queue)
            && |replies| - |Write(fx.conf, fx.codec, s, wait, msg, nonces, replies).replies| <=
                 |Outstanding(Enqueue(fx.conf, fx.codec, s, wait, msg, nonces).0)| + 1
            && var r := Write(fx.conf, fx.codec, s, wait, msg, nonces, replies);
               r.result == Ok(false) ==> r.sender.current.Some? && r.sender.current.value != []
  {
    RunKeepsReady(fx, Start(enc, dec), evs);
    WriteTerminates(fx.conf, fx.codec, Run(fx, Start(enc, dec), evs).snd, wait, msg, nonces, replies);
  }

  /**
   In every run up to the first fatal error, for every write call of a message that can be serialised:
   `false` means that the message is not yet fully written, whatever the stream does, if and only if
   the queue, once the expired messages are dropped, holds nothing less urgent.  Its frame is the start
   at `OwnPlace`, made or still to come.
   */
  lemma FalseMeansUnwrittenInRuns<T>(fx: Fixed<T>, enc: EncryptContext, dec: DecryptContext, evs: seq<Event<T>>,
                                     wait: nat, msg: T, p: Priority, nonces: (nat, nat))
    requires HeadersInOrder(enc, evs)
    requires var s := Run(fx, Start(enc, dec), evs).snd;
             !s.failed && Serialized(fx.codec, s.enc, nonces, msg).Ok?
    ensures var s := Run(fx, Start(enc, dec), evs).snd;
            && WellFormed(s.box.queue)
            && var kept := AfterExpiry(fx.conf, s, wait);
               && WellFormed(kept.box.queue)
               && ((forall replies ::
                      Write(fx.conf, fx.codec, s, wait, Some((msg, p)), nonces, replies).result == Ok(false) ==>
                        !OwnOnWire(fx.conf, fx.codec, s, wait, msg, p, nonces, replies))
                   <==> (forall q: Priority :: q > p ==> QueueOf(kept.box.queue, q) == []))
               && forall replies :: Write(fx.conf, fx.codec, s, wait, Some((msg, p)), nonces, replies).result.Ok? ==>
                    var t := Write(fx.conf, fx.codec, s, wait, Some((msg, p)), nonces, replies).sender;
                    && WellFormed(t.box.queue) && OwnPlace(kept, p) < |Starts(t)|
                    && Starts(t)[OwnPlace(kept, p)].entry.msg ==
                         Item(msg, Serialized(fx.codec, s.enc, nonces, msg).value, s.enc)
  {
    InvInEveryRun(fx, enc, dec, evs);
    RunKeepsReady(fx, Start(enc, dec), evs);
    FalseMeansUnwrittenIff(fx.conf, fx.codec, Run(fx, Start(enc, dec), evs).snd, wait, msg, p, nonces);
  }

  /** In every run up to the first fatal error, `true` means that the message is fully on the wire. */
  lemma TrueMeansWrittenInRuns<T>(fx: Fixed<T>, enc: EncryptContext, dec: DecryptContext, evs: seq<Event<T>>,
                                  wait: nat, msg: T, p: Priority, nonces: (nat, nat), replies: seq<WriteReply>)
    requires var s := Run(fx, Start(enc, dec), evs).snd;
             && WellFormed(s.box.queue) && !s.failed
             && Write(fx.conf, fx.codec, s, wait, Some((msg, p)), nonces, replies).result == Ok(true)
    ensures var s := Run(fx, Start(enc, dec), evs).snd;
            && WellFormed(AfterExpiry(fx.conf, s, wait).box.queue)
            && OwnOnWire(fx.conf, fx.codec, s, wait, msg, p, nonces, replies)
  {
    InvInEveryRun(fx, enc, dec, evs);
    TrueMeansWritten(fx.conf, fx.codec, Run(fx, Start(enc, dec), evs).snd, wait, msg, p, nonces, replies);
  }
}
