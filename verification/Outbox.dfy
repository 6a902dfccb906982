/**
 An outgoing queue together with its history: what was accepted, and what left it, started or
 dropped.  The history is what end-to-end statements speak about.
 */
module Outboxes {
  import opened Base
  import opened Config
  import opened OutQueues

  datatype Record<+M> = Record(priority: Priority, entry: Stamped<M>)

  /**
   `now` is the latest clock reading.  `gone` lists all records that left the queue, in order;
   `started` those taken for sending, `readings` the clock at each of these takings, and
   `dropped` those that expired.
   */
  datatype Outbox<+M> = Outbox(
    queue: seq<Slot<M>>, now: nat, accepted: seq<Record<M>>,
    gone: seq<Record<M>>, started: seq<Record<M>>, readings: seq<nat>, dropped: seq<Record<M>>)

  ghost function EmptyOutbox<M>(): Outbox<M> {
    Outbox([], 0, [], [], [], [], [])
  }

  // ---------------------------------------------------------------- logs by priority

  /** The entries of one priority, in log order. */
  ghost function Of<M>(log: seq<Record<M>>, p: Priority): seq<Stamped<M>> {
    if log == [] then []
    else
      var last := log[|log| - 1];
      Of(log[..|log| - 1], p) + if last.priority == p then [last.entry] else []
  }

  lemma OfSnoc<M>(log: seq<Record<M>>, x: Record<M>, p: Priority)
    ensures Of(log + [x], p) == Of(log, p) + if x.priority == p then [x.entry] else []
  {
    assert (log + [x])[..|log|] == log;
  }

  lemma {:induction false} OfConcat<M>(a: seq<Record<M>>, b: seq<Record<M>>, p: Priority)
    ensures Of(a + b, p) == Of(a, p) + Of(b, p)
  {
    if b == [] {
      assert a + b == a;
    } else {
      var n := |b| - 1;
      OfConcat(a, b[..n], p);
      assert (a + b)[..|a + b| - 1] == a + b[..n];
    }
  }

  lemma OfCons<M>(x: Record<M>, log: seq<Record<M>>, p: Priority)
    ensures Of([x] + log, p) == (if x.priority == p then [x.entry] else []) + Of(log, p)
  {
    OfConcat([x], log, p);
    assert [x][..0] == [] && Of([x][..0], p) == [];
  }

  ghost function Flatten<M>(slots: seq<Slot<M>>): seq<Record<M>> {
    if slots == [] then [] else FlattenSlot(slots[0]) + Flatten(slots[1..])
  }

  ghost function FlattenSlot<M>(slot: Slot<M>): (r: seq<Record<M>>)
    ensures |r| == |slot.queue|
    ensures forall i :: 0 <= i < |r| ==> r[i] == Record(slot.priority, slot.queue[i])
  {
    seq(|slot.queue|, i requires 0 <= i < |slot.queue| => Record(slot.priority, slot.queue[i]))
  }

  lemma {:induction false} OfUniform<M>(log: seq<Record<M>>, entries: seq<Stamped<M>>, q: Priority, p: Priority)
    requires |log| == |entries|
    requires forall i :: 0 <= i < |log| ==> log[i] == Record(q, entries[i])
    ensures Of(log, p) == if p == q then entries else []
  {
    if log != [] {
      var n := |log| - 1;
      OfUniform(log[..n], entries[..n], q, p);
      assert entries == entries[..n] + [entries[n]];
    }
  }

  lemma {:induction false} OfFlatten<M>(slots: seq<Slot<M>>, p: Priority)
    requires Sorted(slots)
    ensures Of(Flatten(slots), p) == QueueOf(slots, p)
  {
    if slots != [] {
      OfFlatten(slots[1..], p);
      OfConcat(FlattenSlot(slots[0]), Flatten(slots[1..]), p);
      OfUniform(FlattenSlot(slots[0]), slots[0].queue, slots[0].priority, p);
      if p == slots[0].priority {
        QueueOfAbsent(slots[1..], p);
      }
    }
  }

  // ---------------------------------------------------------------- transitions

  ghost function Push<M>(o: Outbox<M>, wait: nat, msg: M, p: Priority): Outbox<M> {
    var x := Stamped(o.now + wait, msg);
    o.(queue := Pushed(o.queue, p, x), now := o.now + wait, accepted := o.accepted + [Record(p, x)])
  }

  ghost function DropExpired<M>(o: Outbox<M>, conf: SocketConfig, wait: nat): Outbox<M> {
    var now := o.now + wait;
    var lost := Flatten(Condemned(o.queue, conf, now));
    o.(queue := Survivors(o.queue, conf, now), now := now, gone := o.gone + lost, dropped := o.dropped + lost)
  }

  /** The record that is next to leave. */
  ghost function Front<M>(slots: seq<Slot<M>>): Record<M>
    requires slots != [] && slots[0].queue != []
  {
    Record(slots[0].priority, slots[0].queue[0])
  }

  ghost function Next<M>(o: Outbox<M>): Outbox<M>
    requires o.queue != [] && o.queue[0].queue != []
  {
    var front := Front(o.queue);
    o.(queue := AfterNext(o.queue), gone := o.gone + [front],
       started := o.started + [front], readings := o.readings + [o.now])
  }

  // ---------------------------------------------------------------- invariant

  /**
   For one priority: accepted is what left, in order, followed by what is queued, in order; what
   left is started and dropped, each in order; and nothing is dropped of a protected priority.
   */
  ghost predicate ConservesAt<M>(conf: SocketConfig, o: Outbox<M>, p: Priority) {
    && Of(o.accepted, p) == Of(o.gone, p) + QueueOf(o.queue, p)
    && IsMerge(Of(o.started, p), Of(o.dropped, p), Of(o.gone, p))
    && (p < conf.msgDropPriority ==> Of(o.dropped, p) == [])
  }

  ghost predicate BoxInv<M>(conf: SocketConfig, o: Outbox<M>) {
    && WellFormed(o.queue)
    && Timely(o.queue, o.now)
    && (forall p: Priority :: ConservesAt(conf, o, p))
    && |o.gone| == |o.started| + |o.dropped|
    && |o.accepted| == |o.gone| + Total(o.queue)
    && |o.readings| == |o.started|
  }

  /** Whenever a droppable message was taken for sending, it was within the age limit. */
  ghost predicate FreshStarts<M>(conf: SocketConfig, o: Outbox<M>) {
    && |o.readings| == |o.started|
    && forall i :: 0 <= i < |o.started| && o.started[i].priority >= conf.msgDropPriority ==>
         !TooOld(conf, o.readings[i], o.started[i].entry.when)
  }

  lemma PushConserves<M>(conf: SocketConfig, o: Outbox<M>, wait: nat, msg: M, p: Priority, q: Priority)
    requires WellFormed(o.queue) && ConservesAt(conf, o, q)
    ensures ConservesAt(conf, Push(o, wait, msg, p), q)
  {
    var x := Stamped(o.now + wait, msg);
    PushedQueue(o.queue, p, x, q);
    OfSnoc(o.accepted, Record(p, x), q);
    if p == q {
      ConcatAssociative(Of(o.gone, q), QueueOf(o.queue, q), [x]);
    } else {
      NothingBehind(Of(o.accepted, q));
    }
  }

  lemma PushKeepsInv<M>(conf: SocketConfig, o: Outbox<M>, wait: nat, msg: M, p: Priority)
    requires BoxInv(conf, o)
    ensures BoxInv(conf, Push(o, wait, msg, p))
  {
    forall q: Priority ensures ConservesAt(conf, Push(o, wait, msg, p), q) {
      PushConserves(conf, o, wait, msg, p, q);
    }
    assert WellFormed(Push(o, wait, msg, p).queue) && Total(Push(o, wait, msg, p).queue) == Total(o.queue) + 1 by {
      PushedWellFormed(o.queue, p, Stamped(o.now + wait, msg));
      PushedTotal(o.queue, p, Stamped(o.now + wait, msg));
    }
    PushKeepsTime(o.queue, conf, p, o.now, o.now + wait, msg);
  }

  lemma NextConserves<M>(conf: SocketConfig, o: Outbox<M>, q: Priority)
    requires WellFormed(o.queue) && o.queue != [] && ConservesAt(conf, o, q)
    ensures ConservesAt(conf, Next(o), q)
  {
    var front := Front(o.queue);
    NextQueue(o.queue, q);
    OfSnoc(o.gone, front, q);
    OfSnoc(o.started, front, q);
    if front.priority == q {
      MergeSnocLeft(Of(o.started, q), Of(o.dropped, q), Of(o.gone, q), front.entry);
      ConcatAssociative(Of(o.gone, q), [front.entry], QueueOf(AfterNext(o.queue), q));
    } else {
      NothingBehind(Of(o.started, q));
      NothingBehind(Of(o.gone, q));
    }
  }

  lemma NextKeepsInv<M>(conf: SocketConfig, o: Outbox<M>)
    requires BoxInv(conf, o) && o.queue != []
    ensures BoxInv(conf, Next(o))
  {
    forall q: Priority ensures ConservesAt(conf, Next(o), q) {
      NextConserves(conf, o, q);
    }
    assert WellFormed(AfterNext(o.queue)) && Total(AfterNext(o.queue)) == Total(o.queue) - 1 by {
      NextKeepsWellFormed(o.queue);
    }
    NextKeepsTime(o.queue, conf, o.now);
  }

  lemma NextKeepsFresh<M>(conf: SocketConfig, o: Outbox<M>)
    requires BoxInv(conf, o) && o.queue != [] && Fresh(o.queue, conf, o.now) && FreshStarts(conf, o)
    ensures BoxInv(conf, Next(o)) && Fresh(Next(o).queue, conf, o.now) && FreshStarts(conf, Next(o))
  {
    NextKeepsInv(conf, o);
    NextKeepsTime(o.queue, conf, o.now);
  }

  lemma {:induction false} FlattenLength<M>(slots: seq<Slot<M>>)
    ensures |Flatten(slots)| == Total(slots)
  {
    if slots != [] {
      FlattenLength(slots[1..]);
    }
  }

  /** What an expiry takes from one deque, it takes whole and in order. */
  lemma DroppedOf<M>(conf: SocketConfig, slots: seq<Slot<M>>, now: nat, q: Priority)
    requires WellFormed(slots)
    ensures QueueOf(slots, q) == Of(Flatten(Condemned(slots, conf, now)), q) + QueueOf(Survivors(slots, conf, now), q)
    ensures q < conf.msgDropPriority ==> Of(Flatten(Condemned(slots, conf, now)), q) == []
  {
    ExpirySplits(slots, conf, now);
    ExpiryRule(slots, conf, now, q);
    OfFlatten(Condemned(slots, conf, now), q);
    assert q < conf.msgDropPriority ==> !Doomed(slots, conf, now, q);
  }

  lemma LosingConserves<M>(conf: SocketConfig, o: Outbox<M>, lost: seq<Record<M>>, r: Outbox<M>, q: Priority)
    requires ConservesAt(conf, o, q)
    requires r.accepted == o.accepted && r.started == o.started
    requires r.gone == o.gone + lost && r.dropped == o.dropped + lost
    requires QueueOf(o.queue, q) == Of(lost, q) + QueueOf(r.queue, q)
    requires q < conf.msgDropPriority ==> Of(lost, q) == []
    ensures ConservesAt(conf, r, q)
  {
    OfConcat(o.gone, lost, q);
    OfConcat(o.dropped, lost, q);
    MergeAppendRight(Of(o.started, q), Of(o.dropped, q), Of(o.gone, q), Of(lost, q));
  }

  lemma DropConserves<M>(conf: SocketConfig, o: Outbox<M>, wait: nat, q: Priority)
    requires WellFormed(o.queue) && ConservesAt(conf, o, q)
    ensures ConservesAt(conf, DropExpired(o, conf, wait), q)
  {
    var r := DropExpired(o, conf, wait);
    DroppedOf(conf, o.queue, r.now, q);
    LosingConserves(conf, o, Flatten(Condemned(o.queue, conf, r.now)), r, q);
  }

  lemma DropKeepsTime<M>(conf: SocketConfig, slots: seq<Slot<M>>, before: nat, now: nat)
    requires WellFormed(slots) && Timely(slots, before) && before <= now
    ensures Timely(Survivors(slots, conf, now), now) && Fresh(Survivors(slots, conf, now), conf, now)
  {
    forall p: Priority ensures Ordered(QueueOf(slots, p), now) {
      assert Ordered(QueueOf(slots, p), before);
    }
    SurvivorsAreFresh(slots, conf, now);
  }

  lemma DropKeepsInv<M>(conf: SocketConfig, o: Outbox<M>, wait: nat)
    requires BoxInv(conf, o)
    ensures BoxInv(conf, DropExpired(o, conf, wait))
    ensures Fresh(DropExpired(o, conf, wait).queue, conf, o.now + wait)
  {
    forall q: Priority ensures ConservesAt(conf, DropExpired(o, conf, wait), q) {
      DropConserves(conf, o, wait, q);
    }
    DropKeepsTime(conf, o.queue, o.now, o.now + wait);
    ExpirySplits(o.queue, conf, o.now + wait);
    FlattenLength(Condemned(o.queue, conf, o.now + wait));
  }

  /** Expiry and then a push at the same reading: the queue is consistent and fresh. */
  lemma PushAfterDropKeepsInv<M>(conf: SocketConfig, o: Outbox<M>, wait: nat, msg: M, p: Priority)
    requires BoxInv(conf, o)
    ensures BoxInv(conf, Push(DropExpired(o, conf, wait), 0, msg, p))
    ensures Fresh(Push(DropExpired(o, conf, wait), 0, msg, p).queue, conf, o.now + wait)
  {
    DropKeepsInv(conf, o, wait);
    var box := DropExpired(o, conf, wait);
    PushKeepsInv(conf, box, 0, msg, p);
    PushKeepsFresh(box.queue, conf, p, o.now + wait, msg);
  }

  // ---------------------------------------------------------------- what a write call does to a queue

  /** Between the two states records were started, all at the same reading, and nothing else happened. */
  ghost predicate OnlyStarts<M>(before: Outbox<M>, after: Outbox<M>) {
    && after.now == before.now && after.accepted == before.accepted && after.dropped == before.dropped
    && before.started <= after.started && before.readings <= after.readings
    && forall i :: |before.readings| <= i < |after.readings| ==> after.readings[i] == before.now
  }

  lemma NextOnlyStarts<M>(o: Outbox<M>)
    requires WellFormed(o.queue) && o.queue != []
    ensures OnlyStarts(o, Next(o))
  {
  }

  lemma OnlyStartsTwice<M>(a: Outbox<M>, b: Outbox<M>, c: Outbox<M>)
    requires OnlyStarts(a, b) && OnlyStarts(b, c)
    ensures OnlyStarts(a, c)
  {
    forall i | |a.readings| <= i < |c.readings| ensures c.readings[i] == a.now {
      assert i < |b.readings| ==> c.readings[i] == b.readings[i];
    }
  }

  /**
   A whole write call at this reading.  Of each priority it has dropped exactly what is doomed at the
   reading; it has accepted this record, if any; and whatever it has started, it started at the reading, the
   droppable ones less than a second older than the limit, in nanoseconds.
   */
  ghost predicate CalledAt<M>(conf: SocketConfig, before: Outbox<M>, after: Outbox<M>, now: nat,
                              added: Option<Record<M>>)
  {
    match added
    case None => after.accepted == before.accepted && ExpiredAndStarted(conf, before, after, now)
    case Some(own) => after.accepted == before.accepted + [own] && ExpiredAndStarted(conf, before, after, now)
  }

  ghost predicate ExpiredAndStarted<M>(conf: SocketConfig, before: Outbox<M>, after: Outbox<M>, now: nat) {
    && after.now == now
    && (forall p: Priority :: DroppedAt(conf, before, after, now, p))
    && before.started <= after.started && |after.readings| == |after.started|
    && (forall i :: |before.started| <= i < |after.started| ==> after.readings[i] == now)
    && (forall i :: |before.started| <= i < |after.started| && after.started[i].priority >= conf.msgDropPriority ==>
          now - after.started[i].entry.when < (conf.maxMsgAgeSecs + 1) * 1_000_000_000)
  }

  ghost predicate DroppedAt<M>(conf: SocketConfig, before: Outbox<M>, after: Outbox<M>, now: nat, p: Priority) {
    Of(after.dropped, p) ==
    Of(before.dropped, p) + if Doomed(before.queue, conf, now, p) then QueueOf(before.queue, p) else []
  }

  lemma DropsDoomed<M>(conf: SocketConfig, o: Outbox<M>, wait: nat, p: Priority)
    requires WellFormed(o.queue)
    ensures DroppedAt(conf, o, DropExpired(o, conf, wait), o.now + wait, p)
  {
    CondemnedAreDoomed(conf, o.queue, o.now + wait, p);
    OfConcat(o.dropped, Flatten(Condemned(o.queue, conf, o.now + wait)), p);
  }

  lemma CondemnedAreDoomed<M>(conf: SocketConfig, slots: seq<Slot<M>>, now: nat, p: Priority)
    requires WellFormed(slots)
    ensures Of(Flatten(Condemned(slots, conf, now)), p) ==
            if Doomed(slots, conf, now, p) then QueueOf(slots, p) else []
  {
    ExpirySplits(slots, conf, now);
    ExpiryRule(slots, conf, now, p);
    OfFlatten(Condemned(slots, conf, now), p);
  }

  lemma CallEffect<M>(conf: SocketConfig, before: Outbox<M>, middle: Outbox<M>, after: Outbox<M>, wait: nat)
    requires WellFormed(before.queue) && |before.readings| == |before.started|
    requires middle == DropExpired(before, conf, wait).(queue := middle.queue, accepted := middle.accepted)
    requires OnlyStarts(middle, after) && FreshStarts(conf, after)
    ensures ExpiredAndStarted(conf, before, after, before.now + wait)
  {
    var now := before.now + wait;
    forall p: Priority ensures DroppedAt(conf, before, after, now, p) {
      DropsDoomed(conf, before, wait, p);
    }
  }

  // ---------------------------------------------------------------- runs of a queue

  /** One call on a queue; `wait` is the time that passed since the clock was last read. */
  datatype Op<+M> =
    | OpPush(wait: nat, msg: M, priority: Priority)
    | OpDropExpired(wait: nat)
    | OpNext

  ghost function Apply<M>(conf: SocketConfig, o: Outbox<M>, op: Op<M>): Outbox<M>
    requires WellFormed(o.queue)
  {
    match op
    case OpPush(wait, msg, p) => Push(o, wait, msg, p)
    case OpDropExpired(wait) => DropExpired(o, conf, wait)
    case OpNext => if o.queue == [] then o else Next(o)
  }

  ghost function RunOps<M>(conf: SocketConfig, ops: seq<Op<M>>): (o: Outbox<M>)
    ensures WellFormed(o.queue)
  {
    if ops == [] then EmptyOutbox()
    else
      var o := RunOps(conf, ops[..|ops| - 1]);
      ApplyKeepsWellFormed(conf, o, ops[|ops| - 1]);
      Apply(conf, o, ops[|ops| - 1])
  }

  lemma ApplyKeepsWellFormed<M>(conf: SocketConfig, o: Outbox<M>, op: Op<M>)
    requires WellFormed(o.queue)
    ensures WellFormed(Apply(conf, o, op).queue)
  {
    match op
    case OpPush(wait, msg, p) => PushedWellFormed(o.queue, p, Stamped(o.now + wait, msg));
    case OpDropExpired(wait) => ExpirySplits(o.queue, conf, o.now + wait);
    case OpNext => if o.queue != [] { NextKeepsWellFormed(o.queue); }
  }

  lemma {:induction false} RunOpsInv<M>(conf: SocketConfig, ops: seq<Op<M>>)
    ensures BoxInv(conf, RunOps(conf, ops))
  {
    if ops == [] {
      EmptyBoxInv<M>(conf);
    } else {
      RunOpsInv(conf, ops[..|ops| - 1]);
      ApplyKeepsInv(conf, RunOps(conf, ops[..|ops| - 1]), ops[|ops| - 1]);
    }
  }

  lemma EmptyBoxInv<M>(conf: SocketConfig)
    ensures BoxInv(conf, EmptyOutbox<M>())
    ensures Fresh(EmptyOutbox<M>().queue, conf, 0)
  {
    assert forall p: Priority :: ConservesAt(conf, EmptyOutbox<M>(), p);
  }

  lemma ApplyKeepsInv<M>(conf: SocketConfig, o: Outbox<M>, op: Op<M>)
    requires BoxInv(conf, o)
    ensures BoxInv(conf, Apply(conf, o, op))
  {
    match op
    case OpPush(wait, msg, p) => PushKeepsInv(conf, o, wait, msg, p);
    case OpDropExpired(wait) => DropKeepsInv(conf, o, wait);
    case OpNext => if o.queue != [] { NextKeepsInv(conf, o); }
  }

  /**
   Conservation over every run of pushes, expiries and takings, for one priority.  Accepted is what
   left followed by what is queued, in order, and what left is the started and the dropped messages
   interleaved: every accepted message is exactly one of started, dropped and still queued, and none
   is anything else.  Of a protected priority nothing is dropped.
   */
  lemma QueueConservation<M>(conf: SocketConfig, ops: seq<Op<M>>, p: Priority)
    ensures var o := RunOps(conf, ops);
            && Of(o.accepted, p) == Of(o.gone, p) + QueueOf(o.queue, p)
            && IsMerge(Of(o.started, p), Of(o.dropped, p), Of(o.gone, p))
            && multiset(Of(o.accepted, p)) ==
                 multiset(Of(o.started, p)) + multiset(Of(o.dropped, p)) + multiset(QueueOf(o.queue, p))
            && IsSubsequence(Of(o.started, p), Of(o.accepted, p))
            && IsSubsequence(Of(o.dropped, p), Of(o.accepted, p))
            && (p < conf.msgDropPriority ==>
                  Of(o.dropped, p) == [] && Of(o.accepted, p) == Of(o.started, p) + QueueOf(o.queue, p))
  {
    RunOpsInv(conf, ops);
    var o := RunOps(conf, ops);
    StartedAgainstAccepted(conf, o, p);
    DroppedAgainstAccepted(conf, o, p);
  }

  lemma StartedAgainstAccepted<M>(conf: SocketConfig, o: Outbox<M>, p: Priority)
    requires BoxInv(conf, o)
    ensures Of(o.accepted, p) == Of(o.gone, p) + QueueOf(o.queue, p)
    ensures p < conf.msgDropPriority ==> Of(o.accepted, p) == Of(o.started, p) + QueueOf(o.queue, p)
    ensures IsSubsequence(Of(o.started, p), Of(o.accepted, p))
  {
    assert ConservesAt(conf, o, p);
    MergeParts(Of(o.started, p), Of(o.dropped, p), Of(o.gone, p));
    SubsequenceAppend(Of(o.started, p), Of(o.gone, p), QueueOf(o.queue, p));
    if p < conf.msgDropPriority {
      MergeWithNothing(Of(o.started, p), Of(o.gone, p));
    }
  }

  lemma DroppedAgainstAccepted<M>(conf: SocketConfig, o: Outbox<M>, p: Priority)
    requires BoxInv(conf, o)
    ensures IsMerge(Of(o.started, p), Of(o.dropped, p), Of(o.gone, p))
    ensures IsSubsequence(Of(o.dropped, p), Of(o.accepted, p))
    ensures multiset(Of(o.accepted, p)) ==
            multiset(Of(o.started, p)) + multiset(Of(o.dropped, p)) + multiset(QueueOf(o.queue, p))
    ensures p < conf.msgDropPriority ==> Of(o.dropped, p) == []
  {
    assert ConservesAt(conf, o, p);
    MergeParts(Of(o.started, p), Of(o.dropped, p), Of(o.gone, p));
    SubsequenceAppend(Of(o.dropped, p), Of(o.gone, p), QueueOf(o.queue, p));
  }

  lemma OfPrefix<M>(log: seq<Record<M>>, n: nat, p: Priority)
    requires n <= |log|
    ensures Of(log[..n], p) <= Of(log, p)
  {
    assert log == log[..n] + log[n..];
    OfConcat(log[..n], log[n..], p);
  }

  /** The first records started, seen by priority against the accepted ones. */
  lemma FirstStarted<M>(conf: SocketConfig, box: Outbox<M>, n: nat, p: Priority)
    requires BoxInv(conf, box) && n <= |box.started|
    ensures p < conf.msgDropPriority ==> Of(box.started[..n], p) <= Of(box.accepted, p)
    ensures p < conf.msgDropPriority && n == |box.started| && box.queue == [] ==>
              Of(box.started[..n], p) == Of(box.accepted, p)
    ensures IsSubsequence(Of(box.started[..n], p), Of(box.accepted, p))
  {
    StartedAgainstAccepted(conf, box, p);
    OfPrefix(box.started, n, p);
    var k := |Of(box.started[..n], p)|;
    assert Of(box.started, p)[..k] == Of(box.started[..n], p);
    PrefixIsSubsequence(Of(box.started, p), Of(box.accepted, p), k);
    assert n == |box.started| ==> box.started[..n] == box.started;
  }

  /** In every run, an expiry leaves no droppable message older than the limit at its reading. */
  lemma FreshAfterExpiry<M>(conf: SocketConfig, ops: seq<Op<M>>, wait: nat)
    ensures var o := RunOps(conf, ops + [OpDropExpired(wait)]);
            Fresh(o.queue, conf, o.now)
  {
    assert (ops + [OpDropExpired(wait)])[..|ops|] == ops;
    RunOpsInv(conf, ops);
    DropKeepsInv(conf, RunOps(conf, ops), wait);
  }

  // ---------------------------------------------------------------- the queue against a flat arrival log

  /** The queue holds the arrivals of the log, each priority in order of arrival. */
  ghost predicate Represents<M>(log: seq<Record<M>>, slots: seq<Slot<M>>) {
    forall p: Priority :: Of(log, p) == QueueOf(slots, p)
  }

  /** The earliest of the most urgent records. */
  ghost function FirstLeast<M>(log: seq<Record<M>>): (i: nat)
    requires log != []
    ensures i < |log|
    ensures forall j :: 0 <= j < i ==> log[i].priority < log[j].priority
    ensures forall j :: i <= j < |log| ==> log[i].priority <= log[j].priority
  {
    if |log| == 1 then 0
    else
      var n := |log| - 1;
      var i := FirstLeast(log[..n]);
      if log[n].priority < log[i].priority then n else i
  }

  lemma {:induction false} OfNone<M>(log: seq<Record<M>>, p: Priority)
    requires forall i :: 0 <= i < |log| ==> log[i].priority != p
    ensures Of(log, p) == []
  {
    if log != [] {
      OfNone(log[..|log| - 1], p);
    }
  }

  lemma OfSplit<M>(log: seq<Record<M>>, i: nat, p: Priority)
    requires i < |log|
    ensures Of(log, p) == Of(log[..i], p) + (if log[i].priority == p then [log[i].entry] else []) + Of(log[i + 1..], p)
  {
    assert log == log[..i] + ([log[i]] + log[i + 1..]);
    OfConcat(log[..i], [log[i]] + log[i + 1..], p);
    OfCons(log[i], log[i + 1..], p);
  }

  /** Where the earliest of the most urgent arrivals is stored: at the front of the first slot. */
  lemma FirstLeastIsFront<M>(log: seq<Record<M>>, slots: seq<Slot<M>>)
    requires WellFormed(slots) && Represents(log, slots) && log != []
    ensures slots != [] && Front(slots) == log[FirstLeast(log)]
  {
    var i := FirstLeast(log);
    var p := log[i].priority;
    OfSplit(log, i, p);
    OfNone(log[..i], p);
    assert Of(log, p) == QueueOf(slots, p);
    var j := SlotOf(slots, p);
    if j > 0 {
      QueueOfAt(slots, 0);
      assert Of(log, slots[0].priority) == QueueOf(slots, slots[0].priority);
      OfNone(log, slots[0].priority);
    }
  }

  lemma RestRepresents<M>(log: seq<Record<M>>, slots: seq<Slot<M>>, i: nat, q: Priority)
    requires WellFormed(slots) && slots != [] && Of(log, q) == QueueOf(slots, q)
    requires log != [] && i == FirstLeast(log) && Front(slots) == log[i]
    ensures Of(log[..i] + log[i + 1..], q) == QueueOf(AfterNext(slots), q)
  {
    NextQueue(slots, q);
    OfSplit(log, i, q);
    OfConcat(log[..i], log[i + 1..], q);
    var before, after := Of(log[..i], q), Of(log[i + 1..], q);
    if q == log[i].priority {
      OfNone(log[..i], q);
      NothingBefore([log[i].entry]);
      NothingBefore(after);
      SameTail(log[i].entry, after, QueueOf(AfterNext(slots), q));
    } else {
      EmptyBetween(before, after);
    }
  }

  /** The next message is the earliest arrival of the least priority number present. */
  lemma NextIsEarliestOfLeast<M>(log: seq<Record<M>>, slots: seq<Slot<M>>)
    requires WellFormed(slots) && Represents(log, slots)
    ensures slots == [] <==> log == []
    ensures log != [] ==>
              var i := FirstLeast(log);
              && Front(slots) == log[i]
              && WellFormed(AfterNext(slots))
              && Represents(log[..i] + log[i + 1..], AfterNext(slots))
  {
    if log == [] {
      if slots != [] {
        NonEmptySomewhere(slots);
      }
    } else {
      var i := FirstLeast(log);
      FirstLeastIsFront(log, slots);
      NextKeepsWellFormed(slots);
      forall q: Priority ensures Of(log[..i] + log[i + 1..], q) == QueueOf(AfterNext(slots), q) {
        assert Of(log, q) == QueueOf(slots, q);
        RestRepresents(log, slots, i, q);
      }
    }
  }

  /** The messages in the order in which a drain without pushes in between takes them. */
  ghost function Drain<M>(slots: seq<Slot<M>>): seq<Record<M>>
    requires WellFormed(slots)
    decreases Total(slots)
  {
    if slots == [] then []
    else
      NextKeepsWellFormed(slots);
      [Front(slots)] + Drain(AfterNext(slots))
  }

  /** Taking a message moves the head of the drain order behind what was taken before. */
  lemma DrainNext<M>(taken: seq<Record<M>>, slots: seq<Slot<M>>)
    requires WellFormed(slots) && slots != []
    ensures WellFormed(AfterNext(slots))
    ensures Drain(slots) == [Front(slots)] + Drain(AfterNext(slots))
    ensures (taken + [Front(slots)]) + Drain(AfterNext(slots)) == taken + Drain(slots)
  {
    NextKeepsWellFormed(slots);
    ConcatAssociative(taken, [Front(slots)], Drain(AfterNext(slots)));
  }

  ghost predicate SortedLog<M>(log: seq<Record<M>>) {
    forall i, j :: 0 <= i < j < |log| ==> log[i].priority <= log[j].priority
  }

  /** Insertion behind everything of the same or a smaller priority number. */
  ghost function Insert<M>(log: seq<Record<M>>, x: Record<M>): seq<Record<M>> {
    if log == [] || log[|log| - 1].priority <= x.priority then log + [x]
    else Insert(log[..|log| - 1], x) + [log[|log| - 1]]
  }

  ghost function StableSort<M>(log: seq<Record<M>>): seq<Record<M>> {
    if log == [] then [] else Insert(StableSort(log[..|log| - 1]), log[|log| - 1])
  }

  lemma {:induction false} InsertBound<M>(log: seq<Record<M>>, x: Record<M>, bound: Priority)
    requires x.priority <= bound && forall i :: 0 <= i < |log| ==> log[i].priority <= bound
    ensures forall i :: 0 <= i < |Insert(log, x)| ==> Insert(log, x)[i].priority <= bound
  {
    if log != [] && log[|log| - 1].priority > x.priority {
      InsertBound(log[..|log| - 1], x, bound);
    }
  }

  lemma {:induction false} InsertSorted<M>(log: seq<Record<M>>, x: Record<M>)
    requires SortedLog(log)
    ensures SortedLog(Insert(log, x))
  {
    if log != [] && log[|log| - 1].priority > x.priority {
      var n := |log| - 1;
      InsertSorted(log[..n], x);
      InsertBound(log[..n], x, log[n].priority);
    }
  }

  lemma {:induction false} InsertOf<M>(log: seq<Record<M>>, x: Record<M>, p: Priority)
    ensures Of(Insert(log, x), p) == Of(log, p) + if x.priority == p then [x.entry] else []
  {
    if log == [] || log[|log| - 1].priority <= x.priority {
      OfSnoc(log, x, p);
    } else {
      var n := |log| - 1;
      InsertOf(log[..n], x, p);
      OfSnoc(Insert(log[..n], x), log[n], p);
      OneSideEmpty(Of(log[..n], p), if x.priority == p then [x.entry] else [],
                   if log[n].priority == p then [log[n].entry] else []);
    }
  }

  /** The sort is a sort, and it is stable: every priority keeps its order. */
  lemma {:induction false} StableSortEffect<M>(log: seq<Record<M>>, p: Priority)
    ensures SortedLog(StableSort(log))
    ensures Of(StableSort(log), p) == Of(log, p)
  {
    if log != [] {
      var n := |log| - 1;
      StableSortEffect(log[..n], p);
      InsertSorted(StableSort(log[..n]), log[n]);
      InsertOf(StableSort(log[..n]), log[n], p);
    }
  }

  /** Two sorted logs that agree on every priority are the same log. */
  lemma {:induction false} SortedLogUnique<M>(a: seq<Record<M>>, b: seq<Record<M>>)
    requires SortedLog(a) && SortedLog(b)
    requires forall p: Priority :: Of(a, p) == Of(b, p)
    ensures a == b
  {
    if a == [] {
      assert b != [] ==> Of(a, b[|b| - 1].priority) == Of(b, b[|b| - 1].priority);
    } else {
      assert Of(a, a[|a| - 1].priority) == Of(b, a[|a| - 1].priority);
      HeadAtMost(a, b);
      HeadAtMost(b, a);
      SameHead(a, b);
      forall p: Priority ensures Of(a[1..], p) == Of(b[1..], p) {
        assert Of(a, p) == Of(b, p);
        OfRest(a, b, p);
      }
      SortedLogUnique(a[1..], b[1..]);
      assert a == [a[0]] + a[1..] && b == [b[0]] + b[1..];
    }
  }

  lemma OfHead<M>(log: seq<Record<M>>, p: Priority)
    requires log != []
    ensures Of(log, p) == (if log[0].priority == p then [log[0].entry] else []) + Of(log[1..], p)
  {
    assert log == [log[0]] + log[1..];
    OfCons(log[0], log[1..], p);
  }

  lemma OfRest<M>(a: seq<Record<M>>, b: seq<Record<M>>, p: Priority)
    requires a != [] && b != [] && a[0] == b[0] && Of(a, p) == Of(b, p)
    ensures Of(a[1..], p) == Of(b[1..], p)
  {
    OfHead(a, p);
    OfHead(b, p);
    var n := if a[0].priority == p then 1 else 0;
    assert Of(a[1..], p) == Of(a, p)[n..];
    assert Of(b[1..], p) == Of(b, p)[n..];
  }

  lemma HeadAtMost<M>(a: seq<Record<M>>, b: seq<Record<M>>)
    requires SortedLog(b) && a != [] && b != []
    requires forall p: Priority :: Of(a, p) == Of(b, p)
    ensures b[0].priority <= a[0].priority
  {
    OfHead(a, a[0].priority);
    if a[0].priority < b[0].priority {
      OfNone(b, a[0].priority);
    }
  }

  lemma SameHead<M>(a: seq<Record<M>>, b: seq<Record<M>>)
    requires a != [] && b != [] && a[0].priority == b[0].priority
    requires Of(a, a[0].priority) == Of(b, a[0].priority)
    ensures a[0] == b[0]
  {
    OfHead(a, a[0].priority);
    OfHead(b, a[0].priority);
    assert a[0].entry == Of(a, a[0].priority)[0] == b[0].entry;
  }

  lemma {:induction false} DrainSorted<M>(slots: seq<Slot<M>>)
    requires WellFormed(slots)
    ensures SortedLog(Drain(slots))
    ensures forall i :: 0 <= i < |Drain(slots)| ==> slots != [] && slots[0].priority <= Drain(slots)[i].priority
    decreases Total(slots)
  {
    if slots != [] {
      NextKeepsWellFormed(slots);
      DrainSorted(AfterNext(slots));
    }
  }

  lemma {:induction false} DrainOf<M>(slots: seq<Slot<M>>, p: Priority)
    requires WellFormed(slots)
    ensures Of(Drain(slots), p) == QueueOf(slots, p)
    decreases Total(slots)
  {
    if slots != [] {
      NextKeepsWellFormed(slots);
      NextQueue(slots, p);
      DrainOf(AfterNext(slots), p);
      OfCons(Front(slots), Drain(AfterNext(slots)), p);
    }
  }

  /** Draining the queue yields the stable sort by priority of the arrivals it holds. */
  lemma DrainIsStableSort<M>(log: seq<Record<M>>, slots: seq<Slot<M>>)
    requires WellFormed(slots) && Represents(log, slots)
    ensures Drain(slots) == StableSort(log)
  {
    forall p: Priority ensures Of(Drain(slots), p) == Of(StableSort(log), p) {
      DrainOf(slots, p);
      StableSortEffect(log, p);
      assert Of(log, p) == QueueOf(slots, p);
    }
    DrainSorted(slots);
    StableSortEffect(log, 0);
    SortedLogUnique(Drain(slots), StableSort(log));
  }

  // ---------------------------------------------------------------- every run against its arrival log

  /** The queue as a plain log of arrivals, with the messages taken from it so far. */
  datatype FlatQueue<+M> = FlatQueue(log: seq<Record<M>>, now: nat, taken: seq<Record<M>>)

  /** The earliest arrival of priority k still in the log is droppable and too old. */
  ghost predicate ExpiredIn<M>(log: seq<Record<M>>, conf: SocketConfig, now: nat, k: Priority) {
    && k >= conf.msgDropPriority
    && Of(log, k) != []
    && TooOld(conf, now, Of(log, k)[0].when)
  }

  ghost predicate DoomedIn<M>(log: seq<Record<M>>, conf: SocketConfig, now: nat, p: Priority) {
    exists k: Priority :: k <= p && ExpiredIn(log, conf, now, k)
  }

  /** The records of `log` whose priority is not doomed in `all`. */
  ghost function Spared<M>(log: seq<Record<M>>, all: seq<Record<M>>, conf: SocketConfig, now: nat): seq<Record<M>> {
    if log == [] then []
    else
      var n := |log| - 1;
      Spared(log[..n], all, conf, now) + if DoomedIn(all, conf, now, log[n].priority) then [] else [log[n]]
  }

  ghost function FlatApply<M>(conf: SocketConfig, f: FlatQueue<M>, op: Op<M>): FlatQueue<M> {
    match op
    case OpPush(wait, msg, p) => f.(log := f.log + [Record(p, Stamped(f.now + wait, msg))], now := f.now + wait)
    case OpDropExpired(wait) => f.(log := Spared(f.log, f.log, conf, f.now + wait), now := f.now + wait)
    case OpNext =>
      if f.log == [] then f
      else
        var i := FirstLeast(f.log);
        f.(log := f.log[..i] + f.log[i + 1..], taken := f.taken + [f.log[i]])
  }

  ghost function RunFlat<M>(conf: SocketConfig, ops: seq<Op<M>>): FlatQueue<M> {
    if ops == [] then FlatQueue([], 0, []) else FlatApply(conf, RunFlat(conf, ops[..|ops| - 1]), ops[|ops| - 1])
  }

  ghost predicate Refines<M>(o: Outbox<M>, f: FlatQueue<M>) {
    o.now == f.now && o.started == f.taken && Represents(f.log, o.queue)
  }

  lemma {:induction false} OfSpared<M>(log: seq<Record<M>>, all: seq<Record<M>>, conf: SocketConfig, now: nat,
                                       p: Priority)
    ensures Of(Spared(log, all, conf, now), p) == if DoomedIn(all, conf, now, p) then [] else Of(log, p)
  {
    if log != [] {
      var n := |log| - 1;
      OfSpared(log[..n], all, conf, now, p);
      if DoomedIn(all, conf, now, log[n].priority) {
        assert Spared(log[..n], all, conf, now) + [] == Spared(log[..n], all, conf, now);
      } else {
        OfSnoc(Spared(log[..n], all, conf, now), log[n], p);
      }
    }
  }

  lemma DoomedAlike<M>(log: seq<Record<M>>, slots: seq<Slot<M>>, conf: SocketConfig, now: nat, p: Priority)
    requires Represents(log, slots)
    ensures DoomedIn(log, conf, now, p) <==> Doomed(slots, conf, now, p)
  {
    forall k: Priority ensures ExpiredIn(log, conf, now, k) <==> Expired(slots, conf, now, k) {
      assert Of(log, k) == QueueOf(slots, k);
    }
  }

  lemma ExpiryRefines<M>(log: seq<Record<M>>, slots: seq<Slot<M>>, conf: SocketConfig, now: nat)
    requires WellFormed(slots) && Represents(log, slots)
    ensures Represents(Spared(log, log, conf, now), Survivors(slots, conf, now))
  {
    forall p: Priority ensures Of(Spared(log, log, conf, now), p) == QueueOf(Survivors(slots, conf, now), p) {
      assert Of(log, p) == QueueOf(slots, p);
      OfSpared(log, log, conf, now, p);
      DoomedAlike(log, slots, conf, now, p);
      ExpiryRule(slots, conf, now, p);
    }
  }

  lemma PushRefines<M>(log: seq<Record<M>>, slots: seq<Slot<M>>, p: Priority, x: Stamped<M>)
    requires WellFormed(slots) && Represents(log, slots)
    ensures Represents(log + [Record(p, x)], Pushed(slots, p, x))
  {
    forall q: Priority ensures Of(log + [Record(p, x)], q) == QueueOf(Pushed(slots, p, x), q) {
      assert Of(log, q) == QueueOf(slots, q);
      OfSnoc(log, Record(p, x), q);
      PushedQueue(slots, p, x, q);
    }
  }

  lemma NextRefines<M>(conf: SocketConfig, o: Outbox<M>, f: FlatQueue<M>)
    requires WellFormed(o.queue) && Refines(o, f)
    ensures Refines(Apply(conf, o, OpNext), FlatApply(conf, f, OpNext))
  {
    NextIsEarliestOfLeast(f.log, o.queue);
  }

  lemma DropRefines<M>(conf: SocketConfig, o: Outbox<M>, f: FlatQueue<M>, wait: nat)
    requires WellFormed(o.queue) && Refines(o, f)
    ensures Refines(Apply(conf, o, OpDropExpired(wait)), FlatApply(conf, f, OpDropExpired(wait)))
  {
    ExpiryRefines(f.log, o.queue, conf, o.now + wait);
  }

  lemma ApplyRefines<M>(conf: SocketConfig, o: Outbox<M>, f: FlatQueue<M>, op: Op<M>)
    requires WellFormed(o.queue) && Refines(o, f)
    ensures Refines(Apply(conf, o, op), FlatApply(conf, f, op))
  {
    match op
    case OpPush(wait, msg, p) => PushRefines(f.log, o.queue, p, Stamped(o.now + wait, msg));
    case OpDropExpired(wait) => DropRefines(conf, o, f, wait);
    case OpNext => NextRefines(conf, o, f);
  }

  lemma {:induction false} RunRefines<M>(conf: SocketConfig, ops: seq<Op<M>>)
    ensures Refines(RunOps(conf, ops), RunFlat(conf, ops))
  {
    if ops == [] {
      assert Represents([], EmptyOutbox<M>().queue);
    } else {
      RunRefines(conf, ops[..|ops| - 1]);
      ApplyRefines(conf, RunOps(conf, ops[..|ops| - 1]), RunFlat(conf, ops[..|ops| - 1]), ops[|ops| - 1]);
    }
  }

  /**
   In every run the map of deques is the flat log of arrivals in disguise.  Where the log appends a
   push, filters out the doomed priorities at an expiry, and takes the earliest of the most urgent
   arrivals, the queue hands out the same messages, and would drain in the stable order by priority.
   */
  lemma QueueRefinesArrivalLog<M>(conf: SocketConfig, ops: seq<Op<M>>)
    ensures var o, f := RunOps(conf, ops), RunFlat(conf, ops);
            && o.started == f.taken
            && Represents(f.log, o.queue)
            && (o.queue == [] <==> f.log == [])
            && (f.log != [] ==> Front(o.queue) == f.log[FirstLeast(f.log)])
            && Drain(o.queue) == StableSort(f.log)
  {
    RunRefines(conf, ops);
    NextIsEarliestOfLeast(RunFlat(conf, ops).log, RunOps(conf, ops).queue);
    DrainIsStableSort(RunFlat(conf, ops).log, RunOps(conf, ops).queue);
  }

  lemma {:induction false} DrainPriorities<M>(slots: seq<Slot<M>>, p: Priority)
    requires WellFormed(slots)
    ensures (forall i :: 0 <= i < |Drain(slots)| ==> Drain(slots)[i].priority <= p)
            <==> forall q: Priority :: q > p ==> QueueOf(slots, q) == []
  {
    var order := Drain(slots);
    if forall i :: 0 <= i < |order| ==> order[i].priority <= p {
      forall q: Priority | q > p ensures QueueOf(slots, q) == [] {
        DrainOf(slots, q);
        OfNone(order, q);
      }
    } else {
      var i :| 0 <= i < |order| && order[i].priority > p;
      DrainOf(slots, order[i].priority);
      OfSplit(order, i, order[i].priority);
    }
  }

  /**
   A newly pushed message goes out after everything already queued if and only if nothing queued is
   less urgent; otherwise it overtakes.
   */
  lemma PushedGoesLastIff<M>(slots: seq<Slot<M>>, p: Priority, x: Stamped<M>)
    requires WellFormed(slots)
    ensures WellFormed(Pushed(slots, p, x))
    ensures Drain(Pushed(slots, p, x)) == Drain(slots) + [Record(p, x)]
            <==> forall q: Priority :: q > p ==> QueueOf(slots, q) == []
  {
    PushedPlace(slots, p, x);
    DrainPriorities(slots, p);
    DrainSorted(slots);
    InsertedLastIff(Drain(slots), Record(p, x));
    LastPriorityIff(Drain(slots), p);
  }

  lemma InsertedLastIff<M>(order: seq<Record<M>>, x: Record<M>)
    ensures var n := UrgentPrefix(order, x.priority);
            order[..n] + [x] + order[n..] == order + [x] <==> n == |order|
  {
    var n := UrgentPrefix(order, x.priority);
    if n < |order| {
      InsertedBefore(order, x, n);
    } else {
      CutAtEnd(order);
      NothingBehind(order + [x]);
    }
  }

  lemma CutAtEnd<X>(s: seq<X>)
    ensures s[..|s|] == s && s[|s|..] == []
  {
  }

  lemma InsertedBefore<M>(order: seq<Record<M>>, x: Record<M>, n: nat)
    requires n < |order| && order[n] != x
    ensures order[..n] + [x] + order[n..] != order + [x]
  {
    assert (order[..n] + [x] + order[n..])[n] == x && (order + [x])[n] == order[n];
  }

  lemma LastPriorityIff<M>(order: seq<Record<M>>, p: Priority)
    requires SortedLog(order)
    ensures UrgentPrefix(order, p) == |order| <==> forall i :: 0 <= i < |order| ==> order[i].priority <= p
  {
  }

  lemma PushedDrainOf<M>(slots: seq<Slot<M>>, p: Priority, x: Stamped<M>, q: Priority)
    requires WellFormed(slots) && WellFormed(Pushed(slots, p, x))
    ensures Of(Drain(Pushed(slots, p, x)), q) == Of(Drain(slots) + [Record(p, x)], q)
  {
    PushedQueue(slots, p, x, q);
    DrainOf(slots, q);
    DrainOf(Pushed(slots, p, x), q);
    OfSnoc(Drain(slots), Record(p, x), q);
  }

  /** How many of the first records are at least as urgent as p. */
  ghost function UrgentPrefix<M>(log: seq<Record<M>>, p: Priority): (n: nat)
    ensures n <= |log|
    ensures forall i :: 0 <= i < n ==> log[i].priority <= p
    ensures n < |log| ==> log[n].priority > p
  {
    if log == [] || log[0].priority > p then 0 else 1 + UrgentPrefix(log[1..], p)
  }

  /** A newly pushed message goes out behind all that are at least as urgent and before all others. */
  lemma PushedPlace<M>(slots: seq<Slot<M>>, p: Priority, x: Stamped<M>)
    requires WellFormed(slots)
    ensures WellFormed(Pushed(slots, p, x))
    ensures var order := Drain(slots);
            var n := UrgentPrefix(order, p);
            Drain(Pushed(slots, p, x)) == order[..n] + [Record(p, x)] + order[n..]
  {
    PushedWellFormed(slots, p, x);
    DrainSorted(slots);
    DrainSorted(Pushed(slots, p, x));
    var order, n := Drain(slots), UrgentPrefix(Drain(slots), p);
    InsertedSorted(order, Record(p, x), n);
    forall q: Priority ensures Of(Drain(Pushed(slots, p, x)), q) == Of(order[..n] + [Record(p, x)] + order[n..], q) {
      PushedDrainOf(slots, p, x, q);
      InsertedOf(order, Record(p, x), n, q);
    }
    SortedLogUnique(Drain(Pushed(slots, p, x)), order[..n] + [Record(p, x)] + order[n..]);
  }

  lemma InsertedSorted<M>(order: seq<Record<M>>, x: Record<M>, n: nat)
    requires SortedLog(order) && n == UrgentPrefix(order, x.priority)
    ensures SortedLog(order[..n] + [x] + order[n..])
  {
  }

  lemma InsertedOf<M>(order: seq<Record<M>>, x: Record<M>, n: nat, q: Priority)
    requires SortedLog(order) && n == UrgentPrefix(order, x.priority)
    ensures Of(order[..n] + [x] + order[n..], q) == Of(order + [x], q)
  {
    OfConcat(order[..n] + [x], order[n..], q);
    OfSnoc(order[..n], x, q);
    OfSnoc(order, x, q);
    OfCut(order, n, q);
    if q == x.priority {
      OfNone(order[n..], q);
    }
    OneSideEmpty(Of(order[..n], q), if x.priority == q then [x.entry] else [], Of(order[n..], q));
  }

  lemma OfCut<M>(log: seq<Record<M>>, n: nat, q: Priority)
    requires n <= |log|
    ensures Of(log, q) == Of(log[..n], q) + Of(log[n..], q)
  {
    assert log == log[..n] + log[n..];
    OfConcat(log[..n], log[n..], q);
  }

  lemma OneSideEmpty<X>(a: seq<X>, b: seq<X>, c: seq<X>)
    requires b == [] || c == []
    ensures a + b + c == a + c + b
  {
  }
}
