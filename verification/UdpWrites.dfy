/** What the result of a datagram write says of the message it was given. */
module UdpWrites {
  import opened Base
  import opened Config
  import opened OutQueues
  import opened Outboxes
  import opened UdpSender

  // ---------------------------------------------------------------- what has become of a datagram

  /** The last attempts of the datagrams that the lane is done with, in order. */
  ghost function Finished<M>(attempts: seq<Attempt<M>>): seq<Attempt<M>> {
    if attempts == [] then []
    else
      var last := attempts[|attempts| - 1];
      Finished(attempts[..|attempts| - 1]) + if last.outcome.Partial? then [] else [last]
  }

  lemma FinishedSnoc<M>(attempts: seq<Attempt<M>>, x: Attempt<M>)
    ensures Finished(attempts + [x]) == Finished(attempts) + if x.outcome.Partial? then [] else [x]
  {
    assert (attempts + [x])[..|attempts|] == attempts;
  }

  lemma {:induction false} FinishedMessages<M>(attempts: seq<Attempt<M>>)
    ensures |Finished(attempts)| == |DoneWith(attempts)|
    ensures forall i :: 0 <= i < |Finished(attempts)| ==> Finished(attempts)[i].msg == DoneWith(attempts)[i]
  {
    if attempts != [] {
      FinishedMessages(attempts[..|attempts| - 1]);
    }
  }

  /** All datagrams in the order of their starts, made and to come. */
  ghost function Starts<M>(lane: SendLane<M>): seq<Record<M>>
    requires WellFormed(lane.box.queue)
  {
    lane.box.started + Drain(lane.box.queue)
  }

  /** Where a message that is queued now will stand in that order. */
  ghost function OwnPlace<M>(lane: SendLane<M>, p: Priority): nat
    requires WellFormed(lane.box.queue)
  {
    |lane.box.started| + UrgentPrefix(Drain(lane.box.queue), p)
  }

  /** The socket has accepted the i-th datagram in full. */
  ghost predicate SentInFull<M>(lane: SendLane<M>, i: nat) {
    i < |Finished(lane.attempts)| && Finished(lane.attempts)[i].outcome.Full?
  }

  /** As many datagrams are finished as were started, but for one in progress. */
  lemma FinishedCount<M>(conf: SocketConfig, lane: SendLane<M>)
    requires LaneInv(conf, lane)
    ensures |Finished(lane.attempts)| + |InProgress(lane)| == |lane.box.started|
  {
    FinishedMessages(lane.attempts);
  }

  /** What is finished is, in order, what was started. */
  lemma FinishedIsStarted<M>(conf: SocketConfig, lane: SendLane<M>, i: nat)
    requires LaneInv(conf, lane) && i < |Finished(lane.attempts)|
    ensures i < |lane.box.started| && Finished(lane.attempts)[i].msg == lane.box.started[i].entry.msg
  {
    FinishedMessages(lane.attempts);
    FinishedCount(conf, lane);
    assert DoneWith(lane.attempts)[i] == (DoneWith(lane.attempts) + InProgress(lane))[i];
  }

  // ---------------------------------------------------------------- flushes

  /** Without a fatal error, everything that a flush finishes is accepted in full. */
  ghost predicate FinishesInFull<M>(before: seq<Attempt<M>>, after: seq<Attempt<M>>) {
    && |Finished(before)| <= |Finished(after)|
    && forall i :: |Finished(before)| <= i < |Finished(after)| ==> Finished(after)[i].outcome.Full?
  }

  lemma TurnFinishes<M>(size: M -> nat, lane: SendLane<M>, reply: SendReply)
    requires WellFormed(lane.box.queue) && !LaneIdle(lane) && !reply.SendFatal?
    ensures Finished(lane.attempts) <= Finished(SendTurn(size, lane, reply).attempts)
    ensures FinishesInFull(lane.attempts, SendTurn(size, lane, reply).attempts)
  {
    if reply.Sent? {
      var msg := TakeDatagram(lane).current.value;
      FinishedSnoc(lane.attempts, Attempt(msg, if reply.n < size(msg) then Partial else Full));
    }
  }

  lemma {:induction false} FlushFinishes<M>(size: M -> nat, lane: SendLane<M>, replies: seq<SendReply>)
    requires WellFormed(lane.box.queue) && FlushLane(size, lane, replies).result.Ok?
    ensures Finished(lane.attempts) <= Finished(FlushLane(size, lane, replies).lane.attempts)
    ensures FinishesInFull(lane.attempts, FlushLane(size, lane, replies).lane.attempts)
    decreases |replies|
  {
    if !LaneIdle(lane) {
      var reply := if replies == [] then SendWouldBlock else replies[0];
      TurnKeepsWellFormed(size, lane, reply);
      TurnFinishes(size, lane, reply);
      if reply.Sent? {
        FlushFinishes(size, SendTurn(size, lane, reply), replies[1..]);
      }
    }
  }

  /** A turn in which the socket accepts the datagram in full. */
  lemma FullTurn<M>(size: M -> nat, lane: SendLane<M>) returns (reply: SendReply)
    requires WellFormed(lane.box.queue) && !LaneIdle(lane)
    ensures reply.Sent?
    ensures var t := SendTurn(size, lane, reply);
            && WellFormed(t.box.queue) && Pending(t) == Pending(lane) - 1
            && |Finished(t.attempts)| == |Finished(lane.attempts)| + 1
  {
    var msg := TakeDatagram(lane).current.value;
    reply := Sent(size(msg));
    if lane.current.None? {
      NextKeepsWellFormed(lane.box.queue);
    }
    FinishedSnoc(lane.attempts, Attempt(msg, Full));
  }

  /** A socket can accept any number of the pending datagrams and then block. */
  lemma {:induction false} CanFinish<M>(size: M -> nat, lane: SendLane<M>, k: nat) returns (replies: seq<SendReply>)
    requires WellFormed(lane.box.queue) && k < Pending(lane)
    ensures FlushLane(size, lane, replies).result == Ok(false)
    ensures |Finished(FlushLane(size, lane, replies).lane.attempts)| == |Finished(lane.attempts)| + k
    decreases k
  {
    replies := [];
    if k > 0 {
      var reply := FullTurn(size, lane);
      var more := CanFinish(size, SendTurn(size, lane, reply), k - 1);
      replies := [reply] + more;
      assert replies[1..] == more;
    }
  }

  lemma {:induction false} DrainLength<M>(slots: seq<Slot<M>>)
    requires WellFormed(slots)
    ensures |Drain(slots)| == Total(slots)
    decreases Total(slots)
  {
    if slots != [] {
      NextKeepsWellFormed(slots);
      DrainLength(AfterNext(slots));
    }
  }

  // ---------------------------------------------------------------- one write

  ghost function WithMessage<M>(lane: SendLane<M>, p: Priority, msg: M): SendLane<M> {
    lane.(box := Push(lane.box, 0, msg, p))
  }

  lemma OwnStart<M>(lane: SendLane<M>, p: Priority, msg: M)
    requires WellFormed(lane.box.queue)
    ensures WellFormed(WithMessage(lane, p, msg).box.queue)
    ensures var all, i := Starts(WithMessage(lane, p, msg)), OwnPlace(lane, p);
            && i < |all| && all[i] == Record(p, Stamped(lane.box.now, msg))
            && |all| == |lane.box.started| + |Drain(lane.box.queue)| + 1
  {
    var order, own := Drain(lane.box.queue), Record(p, Stamped(lane.box.now, msg));
    PushedPlace(lane.box.queue, p, own.entry);
    InsertedAt(lane.box.started, order, own, UrgentPrefix(order, p));
  }

  lemma InsertedAt<X>(started: seq<X>, order: seq<X>, x: X, n: nat)
    requires n <= |order|
    ensures var all := started + (order[..n] + [x] + order[n..]);
            all[|started| + n] == x && |all| == |started| + |order| + 1
  {
  }

  /** What a flush without fatal error makes of the message queued last. */
  ghost predicate OwnOutcome<M>(lane: SendLane<M>, p: Priority, msg: M, r: LaneFlushed<M>)
    requires WellFormed(lane.box.queue)
  {
    var i, t := OwnPlace(lane, p), r.lane;
    && WellFormed(t.box.queue)
    && i < |Starts(t)| && Starts(t)[i] == Record(p, Stamped(lane.box.now, msg))
    && |Starts(t)| == |lane.box.started| + |Drain(lane.box.queue)| + 1
    && (SentInFull(t, i) <==> i + |InProgress(t)| < |t.box.started|)
    && (SentInFull(t, i) ==> Finished(t.attempts)[i].msg == msg)
  }

  lemma OwnAfterFlush<M>(conf: SocketConfig, size: M -> nat, lane: SendLane<M>, p: Priority, msg: M,
                         replies: seq<SendReply>)
    requires WellFormed(lane.box.queue) && LaneInv(conf, WithMessage(lane, p, msg))
    requires FlushLane(size, WithMessage(lane, p, msg), replies).result.Ok?
    ensures OwnOutcome(lane, p, msg, FlushLane(size, WithMessage(lane, p, msg), replies))
  {
    var start := WithMessage(lane, p, msg);
    var t := FlushLane(size, start, replies).lane;
    OwnStart(lane, p, msg);
    FlushKeepsLane(conf, size, start, replies);
    FlushLaneResult(size, start, replies);
    FlushFinishes(size, start, replies);
    FinishedCount(conf, start);
    FinishedCount(conf, t);
    if SentInFull(t, OwnPlace(lane, p)) {
      FinishedIsStarted(conf, t, OwnPlace(lane, p));
    }
  }

  /** The lane once a write call has dropped what expired. */
  ghost function AfterExpiry<M>(conf: SocketConfig, lane: SendLane<M>, wait: nat): SendLane<M> {
    lane.(box := DropExpired(lane.box, conf, wait))
  }

  /** A write call of a message that was encrypted. */
  ghost function WriteOwn<M>(conf: SocketConfig, size: M -> nat, lane: SendLane<M>, wait: nat, msg: M, p: Priority,
                             replies: seq<SendReply>): LaneFlushed<M>
    requires WellFormed(lane.box.queue)
  {
    WriteLane(conf, size, lane, wait, Some((Ok(msg), p)), replies)
  }

  /** The documented reading of `false`: whatever the socket answers, the given message has not been sent in full. */
  ghost predicate FalseMeansUnsent<M>(conf: SocketConfig, size: M -> nat, lane: SendLane<M>, wait: nat, msg: M,
                                      p: Priority)
    requires WellFormed(lane.box.queue) && WellFormed(AfterExpiry(conf, lane, wait).box.queue)
  {
    forall replies :: WriteOwn(conf, size, lane, wait, msg, p, replies).result == Ok(false) ==>
                        !SentInFull(WriteOwn(conf, size, lane, wait, msg, p, replies).lane,
                                    OwnPlace(AfterExpiry(conf, lane, wait), p))
  }

  /** The documented reading of `true`. */
  ghost predicate TrueMeansSent<M>(conf: SocketConfig, size: M -> nat, lane: SendLane<M>, wait: nat, msg: M,
                                   p: Priority)
    requires WellFormed(lane.box.queue) && WellFormed(AfterExpiry(conf, lane, wait).box.queue)
  {
    forall replies :: WriteOwn(conf, size, lane, wait, msg, p, replies).result == Ok(true) ==>
                        var t := WriteOwn(conf, size, lane, wait, msg, p, replies).lane;
                        var i := OwnPlace(AfterExpiry(conf, lane, wait), p);
                        SentInFull(t, i) && Finished(t.attempts)[i].msg == msg
  }

  lemma LastIsUnsent<M>(conf: SocketConfig, size: M -> nat, lane: SendLane<M>, p: Priority, msg: M,
                        replies: seq<SendReply>)
    requires WellFormed(lane.box.queue) && LaneInv(conf, WithMessage(lane, p, msg))
    requires UrgentPrefix(Drain(lane.box.queue), p) == |Drain(lane.box.queue)|
    requires FlushLane(size, WithMessage(lane, p, msg), replies).result == Ok(false)
    ensures !SentInFull(FlushLane(size, WithMessage(lane, p, msg), replies).lane, OwnPlace(lane, p))
  {
    OwnAfterFlush(conf, size, lane, p, msg, replies);
    FlushLaneResult(size, WithMessage(lane, p, msg), replies);
  }

  lemma AllAreSent<M>(conf: SocketConfig, size: M -> nat, lane: SendLane<M>, p: Priority, msg: M,
                      replies: seq<SendReply>)
    requires WellFormed(lane.box.queue) && LaneInv(conf, WithMessage(lane, p, msg))
    requires FlushLane(size, WithMessage(lane, p, msg), replies).result == Ok(true)
    ensures var t := FlushLane(size, WithMessage(lane, p, msg), replies).lane;
            SentInFull(t, OwnPlace(lane, p)) && Finished(t.attempts)[OwnPlace(lane, p)].msg == msg
  {
    OwnAfterFlush(conf, size, lane, p, msg, replies);
    FlushLaneResult(size, WithMessage(lane, p, msg), replies);
  }

  lemma OthersCanFollow<M>(conf: SocketConfig, size: M -> nat, lane: SendLane<M>, p: Priority, msg: M)
    returns (replies: seq<SendReply>)
    requires WellFormed(lane.box.queue) && LaneInv(conf, WithMessage(lane, p, msg))
    requires UrgentPrefix(Drain(lane.box.queue), p) < |Drain(lane.box.queue)|
    ensures FlushLane(size, WithMessage(lane, p, msg), replies).result == Ok(false)
    ensures SentInFull(FlushLane(size, WithMessage(lane, p, msg), replies).lane, OwnPlace(lane, p))
  {
    var start := WithMessage(lane, p, msg);
    OwnStart(lane, p, msg);
    FinishedCount(conf, start);
    DrainLength(start.box.queue);
    replies := CanFinish(size, start, OwnPlace(lane, p) + 1 - |Finished(start.attempts)|);
    OwnAfterFlush(conf, size, lane, p, msg, replies);
    FlushKeepsLane(conf, size, start, replies);
    FinishedCount(conf, FlushLane(size, start, replies).lane);
  }

  lemma WriteIsFlush<M>(conf: SocketConfig, size: M -> nat, lane: SendLane<M>, wait: nat, msg: M, p: Priority)
    requires LaneInv(conf, lane)
    ensures var kept := AfterExpiry(conf, lane, wait);
            && WellFormed(kept.box.queue) && LaneInv(conf, WithMessage(kept, p, msg))
            && forall replies :: WriteOwn(conf, size, lane, wait, msg, p, replies) ==
                                 FlushLane(size, WithMessage(kept, p, msg), replies)
  {
    QueueKeepsLane(conf, lane, wait, None);
    QueueKeepsLane(conf, lane, wait, Some((Ok(msg), p)));
    assert WithMessage(AfterExpiry(conf, lane, wait), p, msg) == QueueLane(conf, lane, wait, Some((Ok(msg), p)));
  }

  lemma TrueAlwaysMeansSent<M>(conf: SocketConfig, size: M -> nat, lane: SendLane<M>, wait: nat, msg: M, p: Priority)
    requires LaneInv(conf, lane) && WellFormed(AfterExpiry(conf, lane, wait).box.queue)
    ensures TrueMeansSent(conf, size, lane, wait, msg, p)
  {
    WriteIsFlush(conf, size, lane, wait, msg, p);
    forall replies | WriteOwn(conf, size, lane, wait, msg, p, replies).result == Ok(true)
      ensures var t := WriteOwn(conf, size, lane, wait, msg, p, replies).lane;
              var i := OwnPlace(AfterExpiry(conf, lane, wait), p);
              SentInFull(t, i) && Finished(t.attempts)[i].msg == msg
    {
      AllAreSent(conf, size, AfterExpiry(conf, lane, wait), p, msg, replies);
    }
  }

  lemma FalseOfLast<M>(conf: SocketConfig, size: M -> nat, lane: SendLane<M>, wait: nat, msg: M, p: Priority)
    requires LaneInv(conf, lane) && WellFormed(AfterExpiry(conf, lane, wait).box.queue)
    requires var order := Drain(AfterExpiry(conf, lane, wait).box.queue); UrgentPrefix(order, p) == |order|
    ensures FalseMeansUnsent(conf, size, lane, wait, msg, p)
  {
    WriteIsFlush(conf, size, lane, wait, msg, p);
    forall replies | WriteOwn(conf, size, lane, wait, msg, p, replies).result == Ok(false)
      ensures !SentInFull(WriteOwn(conf, size, lane, wait, msg, p, replies).lane,
                          OwnPlace(AfterExpiry(conf, lane, wait), p))
    {
      LastIsUnsent(conf, size, AfterExpiry(conf, lane, wait), p, msg, replies);
    }
  }

  lemma FalseOfOvertaking<M>(conf: SocketConfig, size: M -> nat, lane: SendLane<M>, wait: nat, msg: M, p: Priority)
    requires LaneInv(conf, lane) && WellFormed(AfterExpiry(conf, lane, wait).box.queue)
    requires var order := Drain(AfterExpiry(conf, lane, wait).box.queue); UrgentPrefix(order, p) < |order|
    ensures !FalseMeansUnsent(conf, size, lane, wait, msg, p)
  {
    WriteIsFlush(conf, size, lane, wait, msg, p);
    var replies := OthersCanFollow(conf, size, AfterExpiry(conf, lane, wait), p, msg);
    assert WriteOwn(conf, size, lane, wait, msg, p, replies).result == Ok(false);
  }

  /**
   For a write call on either lane: `false` means that the given message has not been sent in full,
   whatever the socket answers, if and only if the queue, after the expiry, holds nothing less urgent;
   `true` always means that it has.
   */
  lemma FalseMeansUnsentIff<M>(conf: SocketConfig, size: M -> nat, lane: SendLane<M>, wait: nat, msg: M, p: Priority)
    requires LaneInv(conf, lane)
    ensures var kept := AfterExpiry(conf, lane, wait);
            && WellFormed(kept.box.queue)
            && (FalseMeansUnsent(conf, size, lane, wait, msg, p)
                <==> forall q: Priority :: q > p ==> QueueOf(kept.box.queue, q) == [])
            && TrueMeansSent(conf, size, lane, wait, msg, p)
  {
    var kept := AfterExpiry(conf, lane, wait);
    WriteIsFlush(conf, size, lane, wait, msg, p);
    DrainPriorities(kept.box.queue, p);
    TrueAlwaysMeansSent(conf, size, lane, wait, msg, p);
    if UrgentPrefix(Drain(kept.box.queue), p) == |Drain(kept.box.queue)| {
      FalseOfLast(conf, size, lane, wait, msg, p);
    } else {
      FalseOfOvertaking(conf, size, lane, wait, msg, p);
    }
  }

  /** In particular after every interleaving of calls on the two lanes. */
  lemma FalseMeansUnsentInRuns<M1, M2>(conf: SocketConfig, sizes: Sizes<M1, M2>, calls: seq<UdpWrite<M1, M2>>,
                                       wait: nat, msg1: M1, msg2: M2, p: Priority)
    ensures var s := RunWrites(conf, sizes, calls);
            var kept1, kept2 := AfterExpiry(conf, s.lane1, wait), AfterExpiry(conf, s.lane2, wait);
            && WellFormed(kept1.box.queue) && WellFormed(kept2.box.queue)
            && (FalseMeansUnsent(conf, sizes.size1, s.lane1, wait, msg1, p)
                <==> forall q: Priority :: q > p ==> QueueOf(kept1.box.queue, q) == [])
            && TrueMeansSent(conf, sizes.size1, s.lane1, wait, msg1, p)
            && (FalseMeansUnsent(conf, sizes.size2, s.lane2, wait, msg2, p)
                <==> forall q: Priority :: q > p ==> QueueOf(kept2.box.queue, q) == [])
            && TrueMeansSent(conf, sizes.size2, s.lane2, wait, msg2, p)
  {
    RunWritesInv(conf, sizes, calls);
    FalseMeansUnsentIff(conf, sizes.size1, RunWrites(conf, sizes, calls).lane1, wait, msg1, p);
    FalseMeansUnsentIff(conf, sizes.size2, RunWrites(conf, sizes, calls).lane2, wait, msg2, p);
  }
}
