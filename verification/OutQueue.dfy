/**
 The outgoing message queue: priorities with expiry.  The ordered map from priorities to deques
 is a key-sorted sequence of slots, so walking it is walking the map in key order.
 */
module OutQueues {
  import opened Base
  import opened Config

  const NANOS_PER_SEC: nat := 1_000_000_000

  datatype Stamped<+T> = Stamped(when: nat, msg: T)
  datatype Slot<+T> = Slot(priority: Priority, queue: seq<Stamped<T>>)

  // ---------------------------------------------------------------- representation

  ghost predicate Sorted<T>(slots: seq<Slot<T>>) {
    forall i, j :: 0 <= i < j < |slots| ==> slots[i].priority < slots[j].priority
  }

  ghost predicate NoneEmpty<T>(slots: seq<Slot<T>>) {
    forall i :: 0 <= i < |slots| ==> slots[i].queue != []
  }

  ghost predicate WellFormed<T>(slots: seq<Slot<T>>) {
    Sorted(slots) && NoneEmpty(slots)
  }

  /** The deque stored for a priority; empty when there is none. */
  ghost function QueueOf<T>(slots: seq<Slot<T>>, p: Priority): seq<Stamped<T>> {
    if slots == [] then []
    else if slots[0].priority == p then slots[0].queue
    else QueueOf(slots[1..], p)
  }

  ghost function Total<T>(slots: seq<Slot<T>>): nat {
    if slots == [] then 0 else |slots[0].queue| + Total(slots[1..])
  }

  lemma {:induction false} QueueOfAt<T>(slots: seq<Slot<T>>, i: nat)
    requires Sorted(slots) && i < |slots|
    ensures QueueOf(slots, slots[i].priority) == slots[i].queue
  {
    if i > 0 {
      assert slots[1..][i - 1] == slots[i];
      assert slots[0].priority < slots[i].priority;
      QueueOfAt(slots[1..], i - 1);
    }
  }

  lemma {:induction false} QueueOfAbsent<T>(slots: seq<Slot<T>>, p: Priority)
    requires forall i :: 0 <= i < |slots| ==> slots[i].priority != p
    ensures QueueOf(slots, p) == []
  {
    if slots != [] {
      QueueOfAbsent(slots[1..], p);
    }
  }

  /** A non-empty deque is stored in a slot. */
  lemma {:induction false} SlotOf<T>(slots: seq<Slot<T>>, p: Priority) returns (i: nat)
    requires QueueOf(slots, p) != []
    ensures i < |slots| && slots[i].priority == p && slots[i].queue == QueueOf(slots, p)
  {
    if slots[0].priority == p {
      i := 0;
    } else {
      i := SlotOf(slots[1..], p);
      i := i + 1;
    }
  }

  lemma {:induction false} QueueOfConcat<T>(a: seq<Slot<T>>, b: seq<Slot<T>>, p: Priority)
    requires Sorted(a + b) && NoneEmpty(a)
    ensures QueueOf(a + b, p) == if QueueOf(a, p) != [] then QueueOf(a, p) else QueueOf(b, p)
  {
    if a == [] {
      assert a + b == b;
    } else {
      assert (a + b)[1..] == a[1..] + b;
      assert forall i :: 0 <= i < |a[1..]| ==> a[1..][i] == a[i + 1];
      QueueOfConcat(a[1..], b, p);
    }
  }

  lemma {:induction false} TotalConcat<T>(a: seq<Slot<T>>, b: seq<Slot<T>>)
    ensures Total(a + b) == Total(a) + Total(b)
  {
    if a == [] {
      assert a + b == b;
    } else {
      assert (a + b)[1..] == a[1..] + b;
      TotalConcat(a[1..], b);
    }
  }

  lemma NonEmptySomewhere<T>(slots: seq<Slot<T>>)
    requires NoneEmpty(slots) && slots != []
    ensures exists p: Priority :: QueueOf(slots, p) != []
  {
    assert QueueOf(slots, slots[0].priority) == slots[0].queue;
  }

  /** A well-formed queue is determined by its deques: no other representation stores the same. */
  lemma {:induction false} Extensional<T>(a: seq<Slot<T>>, b: seq<Slot<T>>)
    requires WellFormed(a) && WellFormed(b)
    requires forall p: Priority :: QueueOf(a, p) == QueueOf(b, p)
    ensures a == b
  {
    if a == [] {
      if b != [] {
        NonEmptySomewhere(b);
      }
    } else {
      QueueOfAt(a, 0);
      var i := SlotOf(b, a[0].priority);
      QueueOfAt(b, 0);
      var j := SlotOf(a, b[0].priority);
      assert a[0] == b[0];
      forall p: Priority ensures QueueOf(a[1..], p) == QueueOf(b[1..], p) {
        assert QueueOf(a, p) == QueueOf(b, p);
        if p == a[0].priority {
          QueueOfAbsent(a[1..], p);
          QueueOfAbsent(b[1..], p);
        }
      }
      Extensional(a[1..], b[1..]);
    }
  }

  // ---------------------------------------------------------------- push

  ghost function Pushed<T>(slots: seq<Slot<T>>, p: Priority, x: Stamped<T>): seq<Slot<T>> {
    if slots == [] || p < slots[0].priority then [Slot(p, [x])] + slots
    else if slots[0].priority == p then [Slot(p, slots[0].queue + [x])] + slots[1..]
    else [slots[0]] + Pushed(slots[1..], p, x)
  }

  lemma {:induction false} PushedQueue<T>(slots: seq<Slot<T>>, p: Priority, x: Stamped<T>, o: Priority)
    requires WellFormed(slots)
    ensures QueueOf(Pushed(slots, p, x), o) == if o == p then QueueOf(slots, o) + [x] else QueueOf(slots, o)
  {
    var r := Pushed(slots, p, x);
    if slots == [] || p < slots[0].priority {
      assert r[1..] == slots;
      QueueOfAbsent(slots, p);
      assert [] + [x] == [x];
    } else if slots[0].priority == p {
      assert r[1..] == slots[1..];
    } else {
      assert r[1..] == Pushed(slots[1..], p, x);
      PushedQueue(slots[1..], p, x, o);
    }
  }

  lemma {:induction false} PushedTotal<T>(slots: seq<Slot<T>>, p: Priority, x: Stamped<T>)
    ensures Total(Pushed(slots, p, x)) == Total(slots) + 1
  {
    var r := Pushed(slots, p, x);
    if slots == [] || p < slots[0].priority {
      assert r[1..] == slots;
    } else if slots[0].priority == p {
      assert r[1..] == slots[1..];
    } else {
      assert r[1..] == Pushed(slots[1..], p, x);
      PushedTotal(slots[1..], p, x);
    }
  }

  lemma {:induction false} PushedWellFormed<T>(slots: seq<Slot<T>>, p: Priority, x: Stamped<T>)
    requires WellFormed(slots)
    ensures WellFormed(Pushed(slots, p, x))
  {
    var r := Pushed(slots, p, x);
    if slots == [] || p < slots[0].priority {
      assert r[1..] == slots;
    } else if slots[0].priority == p {
      assert r[1..] == slots[1..];
    } else {
      PushedWellFormed(slots[1..], p, x);
      assert r[1..] == Pushed(slots[1..], p, x);
      PushedKeys(slots[1..], p, x);
    }
  }

  /** A push appends to the deque of its priority and touches no other. */
  lemma PushedEffect<T>(slots: seq<Slot<T>>, p: Priority, x: Stamped<T>)
    requires WellFormed(slots)
    ensures WellFormed(Pushed(slots, p, x))
    ensures QueueOf(Pushed(slots, p, x), p) == QueueOf(slots, p) + [x]
    ensures forall o: Priority :: o != p ==> QueueOf(Pushed(slots, p, x), o) == QueueOf(slots, o)
    ensures Total(Pushed(slots, p, x)) == Total(slots) + 1
  {
    PushedWellFormed(slots, p, x);
    PushedTotal(slots, p, x);
    PushedQueue(slots, p, x, p);
    forall o: Priority | o != p ensures QueueOf(Pushed(slots, p, x), o) == QueueOf(slots, o) {
      PushedQueue(slots, p, x, o);
    }
  }

  lemma {:induction false} PushedKeys<T>(slots: seq<Slot<T>>, p: Priority, x: Stamped<T>)
    ensures forall i :: 0 <= i < |Pushed(slots, p, x)| ==>
              || Pushed(slots, p, x)[i].priority == p
              || exists j :: 0 <= j < |slots| && slots[j].priority == Pushed(slots, p, x)[i].priority
  {
    var r := Pushed(slots, p, x);
    if slots == [] || p < slots[0].priority {
      assert r[1..] == slots;
      forall i | 0 < i < |r| ensures exists j :: 0 <= j < |slots| && slots[j].priority == r[i].priority {
        assert slots[i - 1].priority == r[i].priority;
      }
    } else if slots[0].priority == p {
      assert r[1..] == slots[1..];
      forall i | 0 < i < |r| ensures exists j :: 0 <= j < |slots| && slots[j].priority == r[i].priority {
        assert slots[i].priority == r[i].priority;
      }
    } else {
      PushedKeys(slots[1..], p, x);
      assert r[1..] == Pushed(slots[1..], p, x);
      forall i | 0 <= i < |r| && r[i].priority != p
        ensures exists j :: 0 <= j < |slots| && slots[j].priority == r[i].priority
      {
        if i == 0 {
          assert slots[0].priority == r[0].priority;
        } else {
          assert r[1..][i - 1] == r[i];
          var j :| 0 <= j < |slots[1..]| && slots[1..][j].priority == r[i].priority;
          assert slots[j + 1].priority == r[i].priority;
        }
      }
    }
  }

  /** Where a push lands: behind the more urgent slots. */
  lemma {:induction false} PushedAt<T>(slots: seq<Slot<T>>, p: Priority, x: Stamped<T>, i: nat)
    requires i <= |slots|
    requires forall j :: 0 <= j < i ==> slots[j].priority < p
    ensures Pushed(slots, p, x) == slots[..i] + Pushed(slots[i..], p, x)
  {
    if i > 0 {
      var tail := slots[1..];
      assert forall j :: 0 <= j < i - 1 ==> tail[j] == slots[j + 1];
      PushedAt(tail, p, x, i - 1);
      SliceTail(slots, i);
      ConcatAssociative([slots[0]], tail[..i - 1], Pushed(tail[i - 1..], p, x));
    }
  }

  lemma SliceTail<T>(s: seq<T>, i: nat)
    requires 0 < i <= |s|
    ensures s[..i] == [s[0]] + s[1..][..i - 1] && s[i..] == s[1..][i - 1..]
  {
  }

  // ---------------------------------------------------------------- next message

  /** What is left after taking the next message of a non-empty queue. */
  ghost function AfterNext<T>(slots: seq<Slot<T>>): seq<Slot<T>>
    requires slots != [] && slots[0].queue != []
  {
    if |slots[0].queue| == 1 then slots[1..]
    else [Slot(slots[0].priority, slots[0].queue[1..])] + slots[1..]
  }

  lemma NextKeepsWellFormed<T>(slots: seq<Slot<T>>)
    requires WellFormed(slots) && slots != []
    ensures WellFormed(AfterNext(slots))
    ensures Total(AfterNext(slots)) == Total(slots) - 1
  {
    if |slots[0].queue| > 1 {
      assert AfterNext(slots)[1..] == slots[1..];
    }
  }

  lemma NextQueue<T>(slots: seq<Slot<T>>, p: Priority)
    requires WellFormed(slots) && slots != []
    ensures p == slots[0].priority ==> QueueOf(slots, p) == [slots[0].queue[0]] + QueueOf(AfterNext(slots), p)
    ensures p != slots[0].priority ==> QueueOf(AfterNext(slots), p) == QueueOf(slots, p)
    ensures p < slots[0].priority ==> QueueOf(slots, p) == []
  {
    if |slots[0].queue| > 1 {
      assert AfterNext(slots)[1..] == slots[1..];
    } else if p == slots[0].priority {
      QueueOfAbsent(slots[1..], p);
    }
    if p < slots[0].priority {
      QueueOfAbsent(slots, p);
    }
  }

  /** Taking the next message removes the front of the least non-empty deque and nothing else. */
  lemma NextEffect<T>(slots: seq<Slot<T>>)
    requires WellFormed(slots) && slots != []
    ensures WellFormed(AfterNext(slots))
    ensures QueueOf(slots, slots[0].priority) == [slots[0].queue[0]] + QueueOf(AfterNext(slots), slots[0].priority)
    ensures forall p: Priority :: p != slots[0].priority ==> QueueOf(AfterNext(slots), p) == QueueOf(slots, p)
    ensures forall p: Priority :: p < slots[0].priority ==> QueueOf(slots, p) == []
    ensures Total(AfterNext(slots)) == Total(slots) - 1
  {
    NextKeepsWellFormed(slots);
    NextQueue(slots, slots[0].priority);
    forall p: Priority
      ensures p != slots[0].priority ==> QueueOf(AfterNext(slots), p) == QueueOf(slots, p)
      ensures p < slots[0].priority ==> QueueOf(slots, p) == []
    {
      NextQueue(slots, p);
    }
  }

  // ---------------------------------------------------------------- expiry

  function ElapsedSecs(now: nat, when: nat): nat {
    if when <= now then (now - when) / NANOS_PER_SEC else 0
  }

  /** In nanoseconds: a message stamped `when` has waited for more whole seconds than the limit. */
  ghost predicate TooOld(conf: SocketConfig, now: nat, when: nat) {
    now - when >= (conf.maxMsgAgeSecs + 1) * 1_000_000_000
  }

  /** Age in whole seconds exceeds the limit exactly when that many nanoseconds have passed. */
  lemma AgeInNanoseconds(conf: SocketConfig, now: nat, when: nat)
    ensures ElapsedSecs(now, when) > conf.maxMsgAgeSecs <==>
              now - when >= (conf.maxMsgAgeSecs + 1) * 1_000_000_000
  {
    if when <= now {
      var age, secs: nat := now - when, (now - when) / NANOS_PER_SEC;
      assert secs * 1_000_000_000 <= age < (secs + 1) * 1_000_000_000;
    }
  }

  /** Urgent priorities never expire; other deques are judged by their front alone. */
  predicate IsQueueValid<T>(priority: Priority, queue: seq<Stamped<T>>, conf: SocketConfig, now: nat) {
    || priority < conf.msgDropPriority
    || |queue| == 0
    || ElapsedSecs(now, queue[0].when) <= conf.maxMsgAgeSecs
  }

  /** How many slots are skipped before the first expired one. */
  function FirstInvalid<T>(slots: seq<Slot<T>>, conf: SocketConfig, now: nat): (k: nat)
    ensures k <= |slots|
  {
    if slots == [] then 0
    else if IsQueueValid(slots[0].priority, slots[0].queue, conf, now) then 1 + FirstInvalid(slots[1..], conf, now)
    else 0
  }

  lemma {:induction false} FirstInvalidIsFirst<T>(slots: seq<Slot<T>>, conf: SocketConfig, now: nat)
    ensures var k := FirstInvalid(slots, conf, now);
            && (forall i :: 0 <= i < k ==> IsQueueValid(slots[i].priority, slots[i].queue, conf, now))
            && (k < |slots| ==> !IsQueueValid(slots[k].priority, slots[k].queue, conf, now))
  {
    if slots != [] && IsQueueValid(slots[0].priority, slots[0].queue, conf, now) {
      FirstInvalidIsFirst(slots[1..], conf, now);
      assert forall i :: 0 < i < |slots| ==> slots[i] == slots[1..][i - 1];
    }
  }

  function Keys<T>(slots: seq<Slot<T>>): (keys: seq<Priority>)
    ensures |keys| == |slots|
    ensures forall i :: 0 <= i < |keys| ==> keys[i] == slots[i].priority
  {
    if slots == [] then [] else [slots[0].priority] + Keys(slots[1..])
  }

  ghost function Survivors<T>(slots: seq<Slot<T>>, conf: SocketConfig, now: nat): seq<Slot<T>> {
    if slots == [] || !IsQueueValid(slots[0].priority, slots[0].queue, conf, now) then []
    else [slots[0]] + Survivors(slots[1..], conf, now)
  }

  ghost function Condemned<T>(slots: seq<Slot<T>>, conf: SocketConfig, now: nat): seq<Slot<T>> {
    if slots == [] || !IsQueueValid(slots[0].priority, slots[0].queue, conf, now) then slots
    else Condemned(slots[1..], conf, now)
  }

  /** The first invalid deque is where the survivors end and the condemned begin. */
  lemma {:induction false} CutAtFirstInvalid<T>(slots: seq<Slot<T>>, conf: SocketConfig, now: nat)
    ensures Survivors(slots, conf, now) == slots[..FirstInvalid(slots, conf, now)]
    ensures Condemned(slots, conf, now) == slots[FirstInvalid(slots, conf, now)..]
  {
    if slots != [] && IsQueueValid(slots[0].priority, slots[0].queue, conf, now) {
      CutAtFirstInvalid(slots[1..], conf, now);
      SliceTail(slots, FirstInvalid(slots, conf, now));
    }
  }

  lemma {:induction false} KeptAndLost<T>(slots: seq<Slot<T>>, conf: SocketConfig, now: nat)
    ensures slots == Survivors(slots, conf, now) + Condemned(slots, conf, now)
  {
    if slots != [] && IsQueueValid(slots[0].priority, slots[0].queue, conf, now) {
      KeptAndLost(slots[1..], conf, now);
      ConcatAssociative([slots[0]], Survivors(slots[1..], conf, now), Condemned(slots[1..], conf, now));
      assert slots == [slots[0]] + slots[1..];
    }
  }

  lemma KeysOfCondemned<T>(slots: seq<Slot<T>>, conf: SocketConfig, now: nat)
    ensures Keys(slots[FirstInvalid(slots, conf, now)..]) == Keys(Condemned(slots, conf, now))
  {
    CutAtFirstInvalid(slots, conf, now);
  }

  lemma KeysTail<T>(slots: seq<Slot<T>>, keys: seq<Priority>, n: nat)
    requires n < |keys| && keys[n..] == Keys(slots)
    ensures slots != [] && keys[n] == slots[0].priority && keys[n + 1..] == Keys(slots[1..])
  {
    assert keys[n + 1..] == keys[n..][1..];
    assert keys[n] == keys[n..][0];
  }

  /** The deque of priority k is droppable and its front is too old. */
  ghost predicate Expired<T>(slots: seq<Slot<T>>, conf: SocketConfig, now: nat, k: Priority) {
    && k >= conf.msgDropPriority
    && QueueOf(slots, k) != []
    && TooOld(conf, now, QueueOf(slots, k)[0].when)
  }

  /** Some priority at least as urgent as p is expired. */
  ghost predicate Doomed<T>(slots: seq<Slot<T>>, conf: SocketConfig, now: nat, p: Priority) {
    exists k: Priority :: k <= p && Expired(slots, conf, now, k)
  }

  /** The slots from the first expired one onwards are those of the doomed priorities. */
  lemma DoomedFromFirstInvalid<T>(slots: seq<Slot<T>>, conf: SocketConfig, now: nat, i: nat)
    requires WellFormed(slots) && i < |slots|
    ensures Doomed(slots, conf, now, slots[i].priority) <==> FirstInvalid(slots, conf, now) <= i
  {
    var f := FirstInvalid(slots, conf, now);
    FirstInvalidIsFirst(slots, conf, now);
    if f <= i {
      QueueOfAt(slots, f);
      AgeInNanoseconds(conf, now, slots[f].queue[0].when);
      assert Expired(slots, conf, now, slots[f].priority);
    } else {
      forall k: Priority | k <= slots[i].priority ensures !Expired(slots, conf, now, k) {
        if QueueOf(slots, k) != [] {
          var j := SlotOf(slots, k);
          AgeInNanoseconds(conf, now, slots[j].queue[0].when);
          assert j <= i;
        }
      }
    }
  }

  /**
   The exact expiry rule: a deque is dropped, whole, if and only if some droppable priority at
   least as urgent has a front that is a whole second or more older than the limit; every other deque
   is kept unchanged.
   */
  lemma ExpiryRule<T>(slots: seq<Slot<T>>, conf: SocketConfig, now: nat, p: Priority)
    requires WellFormed(slots)
    ensures QueueOf(Survivors(slots, conf, now), p) ==
            if Doomed(slots, conf, now, p) then [] else QueueOf(slots, p)
    ensures QueueOf(Condemned(slots, conf, now), p) ==
            if Doomed(slots, conf, now, p) then QueueOf(slots, p) else []
  {
    var f := FirstInvalid(slots, conf, now);
    var kept, lost := slots[..f], slots[f..];
    CutAtFirstInvalid(slots, conf, now);
    assert slots == kept + lost;
    QueueOfConcat(kept, lost, p);
    if QueueOf(slots, p) != [] {
      var i := SlotOf(slots, p);
      DoomedFromFirstInvalid(slots, conf, now, i);
      if i < f {
        QueueOfAbsent(lost, p);
      } else {
        QueueOfAbsent(kept, p);
      }
    }
  }

  /** The messages dropped and the messages kept make up the queue. */
  lemma ExpirySplits<T>(slots: seq<Slot<T>>, conf: SocketConfig, now: nat)
    requires WellFormed(slots)
    ensures WellFormed(Survivors(slots, conf, now)) && WellFormed(Condemned(slots, conf, now))
    ensures Total(slots) == Total(Survivors(slots, conf, now)) + Total(Condemned(slots, conf, now))
  {
    KeptAndLost(slots, conf, now);
    PartsWellFormed(Survivors(slots, conf, now), Condemned(slots, conf, now));
    TotalConcat(Survivors(slots, conf, now), Condemned(slots, conf, now));
  }

  lemma PartsWellFormed<T>(a: seq<Slot<T>>, b: seq<Slot<T>>)
    requires WellFormed(a + b)
    ensures WellFormed(a) && WellFormed(b)
  {
    assert forall i :: 0 <= i < |a| ==> a[i] == (a + b)[i];
    assert forall i :: 0 <= i < |b| ==> b[i] == (a + b)[|a| + i];
  }

  // ---------------------------------------------------------------- freshness

  /** A deque filled through push alone: time stamps do not decrease and lie in the past. */
  ghost predicate Ordered<T>(queue: seq<Stamped<T>>, now: nat) {
    && (forall i, j :: 0 <= i < j < |queue| ==> queue[i].when <= queue[j].when)
    && (forall i :: 0 <= i < |queue| ==> queue[i].when <= now)
  }

  ghost predicate Timely<T>(slots: seq<Slot<T>>, now: nat) {
    forall p: Priority :: Ordered(QueueOf(slots, p), now)
  }

  /** No droppable message in the queue is older, at this reading, than the limit. */
  ghost predicate Fresh<T>(slots: seq<Slot<T>>, conf: SocketConfig, now: nat) {
    forall p: Priority :: p >= conf.msgDropPriority ==> FreshQueue(QueueOf(slots, p), conf, now)
  }

  ghost predicate FreshQueue<T>(queue: seq<Stamped<T>>, conf: SocketConfig, now: nat) {
    forall i :: 0 <= i < |queue| ==> !TooOld(conf, now, queue[i].when)
  }

  /** Checking only the fronts is enough: what survives an expiry is fresh throughout. */
  lemma SurvivorsAreFresh<T>(slots: seq<Slot<T>>, conf: SocketConfig, now: nat)
    requires WellFormed(slots) && Timely(slots, now)
    ensures Fresh(Survivors(slots, conf, now), conf, now)
    ensures Timely(Survivors(slots, conf, now), now)
  {
    forall p: Priority
      ensures Ordered(QueueOf(Survivors(slots, conf, now), p), now)
      ensures p >= conf.msgDropPriority ==> FreshQueue(QueueOf(Survivors(slots, conf, now), p), conf, now)
    {
      ExpiryRule(slots, conf, now, p);
      var queue := QueueOf(Survivors(slots, conf, now), p);
      assert Ordered(QueueOf(slots, p), now);
      if p >= conf.msgDropPriority && queue != [] {
        assert !Expired(slots, conf, now, p);
        assert forall i :: 0 <= i < |queue| ==> queue[0].when <= queue[i].when;
      }
    }
  }

  lemma OrderedSnoc<T>(queue: seq<Stamped<T>>, before: nat, now: nat, msg: T)
    requires Ordered(queue, before) && before <= now
    ensures Ordered(queue, now) && Ordered(queue + [Stamped(now, msg)], now)
  {
  }

  lemma FreshSnoc<T>(queue: seq<Stamped<T>>, conf: SocketConfig, now: nat, msg: T)
    requires FreshQueue(queue, conf, now)
    ensures FreshQueue(queue + [Stamped(now, msg)], conf, now)
  {
  }

  lemma PushKeepsTimely<T>(slots: seq<Slot<T>>, p: Priority, before: nat, now: nat, msg: T)
    requires WellFormed(slots) && Timely(slots, before) && before <= now
    ensures Timely(Pushed(slots, p, Stamped(now, msg)), now)
  {
    forall o: Priority ensures Ordered(QueueOf(Pushed(slots, p, Stamped(now, msg)), o), now) {
      PushedQueue(slots, p, Stamped(now, msg), o);
      assert Ordered(QueueOf(slots, o), before);
      OrderedSnoc(QueueOf(slots, o), before, now, msg);
    }
  }

  lemma PushKeepsFresh<T>(slots: seq<Slot<T>>, conf: SocketConfig, p: Priority, now: nat, msg: T)
    requires WellFormed(slots) && Fresh(slots, conf, now)
    ensures Fresh(Pushed(slots, p, Stamped(now, msg)), conf, now)
  {
    forall o: Priority | o >= conf.msgDropPriority
      ensures FreshQueue(QueueOf(Pushed(slots, p, Stamped(now, msg)), o), conf, now)
    {
      PushedQueue(slots, p, Stamped(now, msg), o);
      assert FreshQueue(QueueOf(slots, o), conf, now);
      FreshSnoc(QueueOf(slots, o), conf, now, msg);
    }
  }

  /** Pushing at a reading no earlier than all before keeps stamps ordered, and fresh ones fresh. */
  lemma PushKeepsTime<T>(slots: seq<Slot<T>>, conf: SocketConfig, p: Priority, before: nat, now: nat, msg: T)
    requires WellFormed(slots) && Timely(slots, before) && before <= now
    ensures Timely(Pushed(slots, p, Stamped(now, msg)), now)
    ensures Fresh(slots, conf, now) ==> Fresh(Pushed(slots, p, Stamped(now, msg)), conf, now)
  {
    PushKeepsTimely(slots, p, before, now, msg);
    if Fresh(slots, conf, now) {
      PushKeepsFresh(slots, conf, p, now, msg);
    }
  }

  lemma NextKeepsTime<T>(slots: seq<Slot<T>>, conf: SocketConfig, now: nat)
    requires WellFormed(slots) && slots != [] && Timely(slots, now)
    ensures Timely(AfterNext(slots), now)
    ensures Fresh(slots, conf, now) ==> Fresh(AfterNext(slots), conf, now)
    ensures Fresh(slots, conf, now) && slots[0].priority >= conf.msgDropPriority ==>
              !TooOld(conf, now, slots[0].queue[0].when)
  {
    var least := slots[0].priority;
    forall p: Priority
      ensures Ordered(QueueOf(AfterNext(slots), p), now)
      ensures Fresh(slots, conf, now) && p >= conf.msgDropPriority ==>
                FreshQueue(QueueOf(AfterNext(slots), p), conf, now)
    {
      NextQueue(slots, p);
      assert p == least ==> QueueOf(AfterNext(slots), p) == QueueOf(slots, p)[1..];
      assert Ordered(QueueOf(slots, p), now);
      if Fresh(slots, conf, now) && p >= conf.msgDropPriority {
        assert FreshQueue(QueueOf(slots, p), conf, now);
      }
    }
    assert QueueOf(slots, least)[0] == slots[0].queue[0];
    assert Fresh(slots, conf, now) && least >= conf.msgDropPriority ==> FreshQueue(QueueOf(slots, least), conf, now);
  }

  // ---------------------------------------------------------------- the queue itself

  /** The map without one of its keys. */
  ghost function Without<T>(slots: seq<Slot<T>>, key: Priority): seq<Slot<T>> {
    if slots == [] then []
    else if slots[0].priority == key then slots[1..]
    else [slots[0]] + Without(slots[1..], key)
  }

  lemma {:induction false} WithoutAt<T>(slots: seq<Slot<T>>, i: nat)
    requires Sorted(slots) && i < |slots|
    ensures Without(slots, slots[i].priority) == slots[..i] + slots[i + 1..]
  {
    if i > 0 {
      assert slots[0].priority < slots[i].priority;
      WithoutAt(slots[1..], i - 1);
      SliceTail(slots, i);
      SliceTail(slots, i + 1);
      ConcatAssociative([slots[0]], slots[1..][..i - 1], slots[i + 1..]);
    }
  }

  lemma {:induction false} WithoutAbsent<T>(slots: seq<Slot<T>>, key: Priority)
    requires forall i :: 0 <= i < |slots| ==> slots[i].priority != key
    ensures Without(slots, key) == slots
  {
    if slots != [] {
      WithoutAbsent(slots[1..], key);
    }
  }

  lemma CutWellFormed<T>(slots: seq<Slot<T>>, i: nat)
    requires WellFormed(slots) && i < |slots|
    ensures WellFormed(slots[..i] + slots[i + 1..])
  {
  }

  /** Removing the first condemned key that is left. */
  lemma WithoutFirstLost<T>(kept: seq<Slot<T>>, lost: seq<Slot<T>>)
    requires WellFormed(kept + lost) && lost != []
    ensures QueueOf(kept + lost, lost[0].priority) == lost[0].queue && lost[0].queue != []
    ensures Without(kept + lost, lost[0].priority) == kept + lost[1..]
  {
    var all := kept + lost;
    assert all[|kept|] == lost[0];
    QueueOfAt(all, |kept|);
    WithoutAt(all, |kept|);
    assert all[..|kept|] == kept && all[|kept| + 1..] == lost[1..];
  }

  class OutQueue<T> {
    var inner: seq<Slot<T>>
    const conf: SocketConfig

    ghost predicate Valid()
      reads this
    {
      WellFormed(inner)
    }

    constructor (conf: SocketConfig)
      ensures Valid() && inner == [] && this.conf == conf
    {
      this.conf := conf;
      inner := [];
    }

    method Push(now: nat, msg: T, priority: Priority)
      requires Valid()
      modifies this`inner
      ensures Valid() && inner == Pushed(old(inner), priority, Stamped(now, msg))
    {
      PushAt(now, msg, priority);
    }

    /** Walks to the entry of the priority, inserts an empty deque if there is none, and appends. */
    method PushAt(when: nat, msg: T, priority: Priority)
      requires Valid()
      modifies this`inner
      ensures Valid() && inner == Pushed(old(inner), priority, Stamped(when, msg))
      ensures QueueOf(inner, priority) == QueueOf(old(inner), priority) + [Stamped(when, msg)]
      ensures forall o: Priority :: o != priority ==> QueueOf(inner, o) == QueueOf(old(inner), o)
    {
      PushedEffect(inner, priority, Stamped(when, msg));
      var i := 0;
      while i < |inner| && inner[i].priority < priority
        invariant i <= |inner| && inner == old(inner)
        invariant forall j :: 0 <= j < i ==> inner[j].priority < priority
      {
        i := i + 1;
      }
      PushedAt(inner, priority, Stamped(when, msg), i);
      assert i < |inner| ==> inner[i..][0] == inner[i] && inner[i..][1..] == inner[i + 1..];
      var found := i < |inner| && inner[i].priority == priority;
      var entry := if found then inner[i].queue else [];
      var rest := if found then inner[i + 1..] else inner[i..];
      assert entry + [Stamped(when, msg)] ==
             if found then inner[i].queue + [Stamped(when, msg)] else [Stamped(when, msg)];
      inner := inner[..i] + ([Slot(priority, entry + [Stamped(when, msg)])] + rest);
    }

    /** The priorities from the first expired deque onwards. */
    function ExpiredQueues(now: nat): seq<Priority>
      reads this
    {
      Keys(inner[FirstInvalid(inner, conf, now)..])
    }

    /** Removes the entry of a priority, as the map's own removal does. */
    method Remove(key: Priority) returns (removed: Option<seq<Stamped<T>>>)
      requires Valid()
      modifies this`inner
      ensures Valid() && inner == Without(old(inner), key)
      ensures removed == if QueueOf(old(inner), key) == [] then None else Some(QueueOf(old(inner), key))
    {
      var i := 0;
      while i < |inner| && inner[i].priority < key
        invariant i <= |inner| && inner == old(inner)
        invariant forall j :: 0 <= j < i ==> inner[j].priority < key
      {
        i := i + 1;
      }
      if i < |inner| && inner[i].priority == key {
        QueueOfAt(inner, i);
        WithoutAt(inner, i);
        CutWellFormed(inner, i);
        removed := Some(inner[i].queue);
        inner := inner[..i] + inner[i + 1..];
      } else {
        QueueOfAbsent(inner, key);
        WithoutAbsent(inner, key);
        removed := None;
      }
    }

    /** Drops expired messages and tells how many. */
    method DropExpired(now: nat) returns (dropped: nat)
      requires Valid()
      modifies this`inner
      ensures Valid() && inner == Survivors(old(inner), conf, now)
      ensures dropped == Total(Condemned(old(inner), conf, now)) == Total(old(inner)) - Total(inner)
    {
      ghost var kept, lost := Survivors(inner, conf, now), Condemned(inner, conf, now);
      ExpirySplits(inner, conf, now);
      KeptAndLost(inner, conf, now);
      KeysOfCondemned(inner, conf, now);
      var expiredKeys := ExpiredQueues(now);
      ghost var total := Total(lost);
      dropped := 0;
      assert expiredKeys[0..] == expiredKeys;
      for n := 0 to |expiredKeys|
        invariant Valid() && inner == kept + lost
        invariant expiredKeys[n..] == Keys(lost)
        invariant dropped + Total(lost) == total
      {
        WithoutFirstLost(kept, lost);
        KeysTail(lost, expiredKeys, n);
        var queue := Remove(expiredKeys[n]);
        if queue.Some? {
          dropped := dropped + |queue.value|;
        }
        lost := lost[1..];
      }
      assert lost == [] && kept + [] == kept;
    }

    /** The next outgoing message: the front of the first deque, whose entry goes when it empties. */
    method NextMsg() returns (msg: Option<T>)
      requires Valid()
      modifies this`inner
      ensures Valid()
      ensures msg.None? <==> old(inner) == []
      ensures msg.None? ==> inner == old(inner)
      ensures msg.Some? ==> msg.value == old(inner)[0].queue[0].msg && inner == AfterNext(old(inner))
    {
      if |inner| == 0 {
        return None;
      }
      NextEffect(inner);
      var front := inner[0].queue[0];
      var rest := inner[0].queue[1..];
      inner := inner[0 := Slot(inner[0].priority, rest)];
      if |rest| == 0 {
        inner := inner[1..];
      }
      assert old(inner)[0].queue == [front] + rest;
      msg := Some(front.msg);
    }
  }
}
