/**
 Sending datagrams.  `write` and `write_to` each have a lane of their own: a priority queue and one
 datagram in progress, which is sent whole or retried whole.
 */
module UdpSender {
  import opened Base
  import opened Config
  import opened OutQueues
  import opened Outboxes

  /** What the socket answers to a send. */
  datatype SendReply = Sent(n: nat) | SendWouldBlock | SendInterrupted | SendFatal

  /** What came of one send: all of the datagram, a part of it, or a fatal error. */
  datatype Outcome = Full | Partial | Fatal
  datatype Attempt<+M> = Attempt(msg: M, outcome: Outcome)

  /**
   `current` is the datagram to be retried, `attempts` all sends but those that would have blocked,
   `sent` the datagrams accepted in full.
   */
  datatype SendLane<+M> = SendLane(box: Outbox<M>, current: Option<M>, attempts: seq<Attempt<M>>, sent: seq<M>)

  ghost function EmptyLane<M>(): SendLane<M> {
    SendLane(EmptyOutbox(), None, [], [])
  }

  /** The socket took the whole datagram. */
  ghost predicate InFull(sendRes: SendReply, msgLen: nat) {
    sendRes.Sent? && sendRes.n >= msgLen
  }

  /**
   Requeues a message that was not sent in full; `true` tells the caller to go on.  Short of a fatal
   error a datagram is accepted in full or kept whole for a retry, never both and never in part.
   */
  method HandleSendRes<M>(sendRes: SendReply, currentWrite: Option<M>, msgLen: nat, msg: M)
    returns (current: Option<M>, r: Res<bool>)
    ensures r.Ok? && !InFull(sendRes, msgLen) ==> current == Some(msg)
    ensures r.Err? || InFull(sendRes, msgLen) ==> current == currentWrite
    ensures r == Ok(true) <==> sendRes.Sent?
    ensures r == Err(Io) <==> sendRes.SendFatal?
    ensures r.Err? ==> r.error == Io
  {
    current := currentWrite;
    match sendRes
    case Sent(bytesTxd) =>
      if bytesTxd < msgLen {
        current := Some(msg);
      }
      r := Ok(true);
    case SendFatal =>
      r := Err(Io);
    case _ =>
      current := Some(msg);
      r := Ok(false);
  }

  // ---------------------------------------------------------------- transitions

  ghost predicate LaneIdle<M>(lane: SendLane<M>) {
    lane.current.None? && lane.box.queue == []
  }

  ghost function TakeDatagram<M>(lane: SendLane<M>): SendLane<M>
    requires WellFormed(lane.box.queue) && !LaneIdle(lane)
  {
    if lane.current.Some? then lane
    else lane.(box := Next(lane.box), current := Some(Front(lane.box.queue).entry.msg))
  }

  /** How a send of so many bytes ended, for the log of sends; one that would block leaves no entry. */
  function Logged<M>(msg: M, msgLen: nat, reply: SendReply): seq<Attempt<M>> {
    match reply
    case Sent(n) => [Attempt(msg, if n < msgLen then Partial else Full)]
    case SendFatal => [Attempt(msg, Fatal)]
    case _ => []
  }

  ghost function TrySend<M>(size: M -> nat, lane: SendLane<M>, reply: SendReply): SendLane<M>
    requires lane.current.Some?
  {
    var msg := lane.current.value;
    match reply
    case Sent(n) =>
      if n < size(msg) then lane.(attempts := lane.attempts + [Attempt(msg, Partial)])
      else lane.(current := None, attempts := lane.attempts + [Attempt(msg, Full)], sent := lane.sent + [msg])
    case SendFatal => lane.(current := None, attempts := lane.attempts + [Attempt(msg, Fatal)])
    case _ => lane
  }

  /** One turn of the flush loop. */
  ghost function SendTurn<M>(size: M -> nat, lane: SendLane<M>, reply: SendReply): SendLane<M>
    requires WellFormed(lane.box.queue) && !LaneIdle(lane)
  {
    TrySend(size, TakeDatagram(lane), reply)
  }

  datatype LaneFlushed<+M> = LaneFlushed(lane: SendLane<M>, replies: seq<SendReply>, result: Res<bool>)

  ghost function FlushLane<M>(size: M -> nat, lane: SendLane<M>, replies: seq<SendReply>): LaneFlushed<M>
    requires WellFormed(lane.box.queue)
    decreases |replies|
  {
    if LaneIdle(lane) then LaneFlushed(lane, replies, Ok(true))
    else if replies == [] then LaneFlushed(SendTurn(size, lane, SendWouldBlock), [], Ok(false))
    else
      TurnKeepsWellFormed(size, lane, replies[0]);
      var t := SendTurn(size, lane, replies[0]);
      match replies[0]
      case Sent(_) => FlushLane(size, t, replies[1..])
      case SendFatal => LaneFlushed(t, replies[1..], Err(Io))
      case _ => LaneFlushed(t, replies[1..], Ok(false))
  }

  lemma TurnKeepsWellFormed<M>(size: M -> nat, lane: SendLane<M>, reply: SendReply)
    requires WellFormed(lane.box.queue) && !LaneIdle(lane)
    ensures WellFormed(SendTurn(size, lane, reply).box.queue)
  {
    if lane.current.None? {
      NextKeepsWellFormed(lane.box.queue);
    }
  }

  /** A turn is one send of the datagram in progress or, if there is none, of the next. */
  lemma TurnIsLogged<M>(size: M -> nat, lane: SendLane<M>, reply: SendReply, earlier: seq<Attempt<M>>)
    requires WellFormed(lane.box.queue) && !LaneIdle(lane)
    ensures var msg := TakeDatagram(lane).current.value;
            earlier + SendTurn(size, lane, reply).attempts ==
              (earlier + lane.attempts) + Logged(msg, size(msg), reply)
  {
    var msg := TakeDatagram(lane).current.value;
    ConcatAssociative(earlier, lane.attempts, Logged(msg, size(msg), reply));
    NothingBehind(lane.attempts);
  }

  /** A write call: expire, queue the encrypted message unless encryption failed, flush. */
  ghost function WriteLane<M>(conf: SocketConfig, size: M -> nat, lane: SendLane<M>, wait: nat,
                              msg: Option<(Res<M>, Priority)>, replies: seq<SendReply>): LaneFlushed<M>
    requires WellFormed(lane.box.queue)
  {
    QueueLaneKeepsWellFormed(conf, lane, wait, msg);
    var t := QueueLane(conf, lane, wait, msg);
    if msg.Some? && msg.value.0.Err? then LaneFlushed(t, replies, Err(msg.value.0.error))
    else FlushLane(size, t, replies)
  }

  ghost function QueueLane<M>(conf: SocketConfig, lane: SendLane<M>, wait: nat,
                              msg: Option<(Res<M>, Priority)>): SendLane<M> {
    var box := DropExpired(lane.box, conf, wait);
    if msg.Some? && msg.value.0.Ok? then lane.(box := Push(box, 0, msg.value.0.value, msg.value.1))
    else lane.(box := box)
  }

  lemma QueueLaneKeepsWellFormed<M>(conf: SocketConfig, lane: SendLane<M>, wait: nat, msg: Option<(Res<M>, Priority)>)
    requires WellFormed(lane.box.queue)
    ensures WellFormed(QueueLane(conf, lane, wait, msg).box.queue)
  {
    var box := DropExpired(lane.box, conf, wait);
    ExpirySplits(lane.box.queue, conf, box.now);
    if msg.Some? && msg.value.0.Ok? {
      PushedWellFormed(box.queue, msg.value.1, Stamped(box.now, msg.value.0.value));
    }
  }

  // ---------------------------------------------------------------- invariant

  ghost function TakenDatagrams<M>(records: seq<Record<M>>): (r: seq<M>)
    ensures |r| == |records|
    ensures forall i :: 0 <= i < |r| ==> r[i] == records[i].entry.msg
  {
    seq(|records|, i requires 0 <= i < |records| => records[i].entry.msg)
  }

  ghost function InProgress<M>(lane: SendLane<M>): seq<M> {
    match lane.current
    case None => []
    case Some(msg) => [msg]
  }

  ghost function FullOnes<M>(attempts: seq<Attempt<M>>): seq<M> {
    if attempts == [] then []
    else
      var last := attempts[|attempts| - 1];
      FullOnes(attempts[..|attempts| - 1]) + if last.outcome.Full? then [last.msg] else []
  }

  /** The datagrams that the lane is done with: accepted in full, or given up at a fatal error. */
  ghost function DoneWith<M>(attempts: seq<Attempt<M>>): seq<M> {
    if attempts == [] then []
    else
      var last := attempts[|attempts| - 1];
      DoneWith(attempts[..|attempts| - 1]) + if last.outcome.Partial? then [] else [last.msg]
  }

  /** Behind a send that was accepted in part comes another send of the same datagram. */
  ghost predicate RetriedNext<M>(attempts: seq<Attempt<M>>) {
    if |attempts| < 2 then true
    else
      var n := |attempts| - 1;
      RetriedNext(attempts[..n]) && (attempts[n - 1].outcome.Partial? ==> attempts[n].msg == attempts[n - 1].msg)
  }

  /** A datagram accepted in part is what the lane sends next, or still has in progress. */
  ghost predicate Retried<M>(lane: SendLane<M>) {
    && RetriedNext(lane.attempts)
    && (lane.attempts != [] && lane.attempts[|lane.attempts| - 1].outcome.Partial? ==>
          lane.current == Some(lane.attempts[|lane.attempts| - 1].msg))
  }

  /** The lane has finished datagrams, and has one in progress, in the order in which they were taken. */
  ghost predicate LaneInv<M>(conf: SocketConfig, lane: SendLane<M>) {
    && BoxInv(conf, lane.box)
    && Fresh(lane.box.queue, conf, lane.box.now)
    && FreshStarts(conf, lane.box)
    && lane.sent == FullOnes(lane.attempts)
    && DoneWith(lane.attempts) + InProgress(lane) == TakenDatagrams(lane.box.started)
    && Retried(lane)
  }

  lemma AttemptSnoc<M>(attempts: seq<Attempt<M>>, x: Attempt<M>)
    ensures FullOnes(attempts + [x]) == FullOnes(attempts) + if x.outcome.Full? then [x.msg] else []
    ensures DoneWith(attempts + [x]) == DoneWith(attempts) + if x.outcome.Partial? then [] else [x.msg]
    ensures RetriedNext(attempts + [x]) <==>
              && RetriedNext(attempts)
              && (attempts != [] && attempts[|attempts| - 1].outcome.Partial? ==>
                    x.msg == attempts[|attempts| - 1].msg)
  {
    assert (attempts + [x])[..|attempts|] == attempts;
  }

  lemma TakenSnoc<M>(records: seq<Record<M>>, x: Record<M>)
    ensures TakenDatagrams(records + [x]) == TakenDatagrams(records) + [x.entry.msg]
  {
  }

  lemma TakeKeepsLane<M>(conf: SocketConfig, lane: SendLane<M>)
    requires LaneInv(conf, lane) && !LaneIdle(lane)
    ensures LaneInv(conf, TakeDatagram(lane))
  {
    if lane.current.None? {
      NextKeepsFresh(conf, lane.box);
      TakenSnoc(lane.box.started, Front(lane.box.queue));
      NothingBehind(DoneWith(lane.attempts));
    }
  }

  lemma TryKeepsLane<M>(conf: SocketConfig, size: M -> nat, lane: SendLane<M>, reply: SendReply)
    requires LaneInv(conf, lane) && lane.current.Some?
    ensures LaneInv(conf, TrySend(size, lane, reply))
  {
    var msg := lane.current.value;
    if reply.Sent? || reply.SendFatal? {
      AttemptSnoc(lane.attempts, if reply.SendFatal? then Attempt(msg, Fatal)
                                 else if reply.n < size(msg) then Attempt(msg, Partial) else Attempt(msg, Full));
      NothingBehind(FullOnes(lane.attempts));
      NothingBehind(DoneWith(lane.attempts));
      NothingBehind(DoneWith(lane.attempts) + [msg]);
    }
  }

  lemma TurnKeepsLane<M>(conf: SocketConfig, size: M -> nat, lane: SendLane<M>, reply: SendReply)
    requires LaneInv(conf, lane) && !LaneIdle(lane)
    ensures LaneInv(conf, SendTurn(size, lane, reply))
  {
    TakeKeepsLane(conf, lane);
    TryKeepsLane(conf, size, TakeDatagram(lane), reply);
  }

  lemma QueueKeepsLane<M>(conf: SocketConfig, lane: SendLane<M>, wait: nat, msg: Option<(Res<M>, Priority)>)
    requires LaneInv(conf, lane)
    ensures LaneInv(conf, QueueLane(conf, lane, wait, msg))
  {
    if msg.Some? && msg.value.0.Ok? {
      PushAfterDropKeepsInv(conf, lane.box, wait, msg.value.0.value, msg.value.1);
    } else {
      DropKeepsInv(conf, lane.box, wait);
    }
  }

  lemma {:induction false} FlushKeepsLane<M>(conf: SocketConfig, size: M -> nat, lane: SendLane<M>,
                                             replies: seq<SendReply>)
    requires LaneInv(conf, lane)
    ensures LaneInv(conf, FlushLane(size, lane, replies).lane)
    decreases |replies|
  {
    if !LaneIdle(lane) {
      var reply := if replies == [] then SendWouldBlock else replies[0];
      TurnKeepsLane(conf, size, lane, reply);
      if reply.Sent? {
        FlushKeepsLane(conf, size, SendTurn(size, lane, reply), replies[1..]);
      }
    }
  }

  // ---------------------------------------------------------------- what a flush does

  lemma TurnConserves<M>(size: M -> nat, lane: SendLane<M>, reply: SendReply)
    requires WellFormed(lane.box.queue) && !LaneIdle(lane)
    ensures WellFormed(SendTurn(size, lane, reply).box.queue)
    ensures var t := SendTurn(size, lane, reply);
            t.box.started + Drain(t.box.queue) == lane.box.started + Drain(lane.box.queue)
  {
    TurnKeepsWellFormed(size, lane, reply);
    if lane.current.None? {
      DrainNext(lane.box.started, lane.box.queue);
    }
  }

  /**
   A flush starts datagrams in the order in which the queue drains.  `true` says that nothing is
   left, `false` that a datagram is to be retried, an error that the last one sent is given up.
   */
  lemma {:induction false} FlushLaneResult<M>(size: M -> nat, lane: SendLane<M>, replies: seq<SendReply>)
    requires WellFormed(lane.box.queue)
    ensures var r := FlushLane(size, lane, replies);
            && WellFormed(r.lane.box.queue)
            && r.lane.box.started + Drain(r.lane.box.queue) == lane.box.started + Drain(lane.box.queue)
            && (r.result == Ok(true) ==> LaneIdle(r.lane))
            && (r.result == Ok(false) ==> r.lane.current.Some?)
            && (r.result.Err? ==>
                  && r.lane.current.None? && r.lane.attempts != []
                  && r.lane.attempts[|r.lane.attempts| - 1].outcome.Fatal?)
    decreases |replies|
  {
    if !LaneIdle(lane) {
      var reply := if replies == [] then SendWouldBlock else replies[0];
      TurnConserves(size, lane, reply);
      if reply.Sent? {
        FlushLaneResult(size, SendTurn(size, lane, reply), replies[1..]);
      }
    }
  }

  /** Which replies a flush uses, and how its result depends on them. */
  lemma {:induction false} FlushLaneStops<M>(size: M -> nat, lane: SendLane<M>, replies: seq<SendReply>)
    returns (used: nat)
    requires WellFormed(lane.box.queue)
    ensures var r := FlushLane(size, lane, replies);
            && used <= |replies| && r.replies == replies[used..]
            && (forall i :: 0 <= i < used - 1 ==> replies[i].Sent?)
            && (r.result.Err? <==> used > 0 && replies[used - 1].SendFatal?)
            && (r.result.Err? ==> r.result == Err(Io))
            && (r.result == Ok(true) <==> r.result.Ok? && LaneIdle(r.lane))
            && (r.result == Ok(false) <==> r.lane.current.Some?)
            && (r.result == Ok(false) <==>
                  || (used > 0 && (replies[used - 1].SendWouldBlock? || replies[used - 1].SendInterrupted?))
                  || (used == |replies| && (used > 0 ==> replies[used - 1].Sent?) && !LaneIdle(r.lane)))
    decreases |replies|
  {
    used := 0;
    if !LaneIdle(lane) && replies != [] {
      TurnKeepsWellFormed(size, lane, replies[0]);
      used := 1;
      if replies[0].Sent? {
        used := FlushLaneStops(size, SendTurn(size, lane, replies[0]), replies[1..]);
        used := used + 1;
      }
    }
  }

  /**
   The result of a write call, with or without a message.  A message that fails to encrypt makes the call
   return that error, use no reply and send nothing.  Otherwise the replies used are sends but for the
   last, and `true` says that nothing is in progress or queued and no send failed, `false` that a datagram
   is in progress, the error that the last send used failed.
   */
  lemma WriteLaneResult<M>(conf: SocketConfig, size: M -> nat, lane: SendLane<M>, wait: nat,
                           msg: Option<(Res<M>, Priority)>, replies: seq<SendReply>) returns (used: nat)
    requires WellFormed(lane.box.queue)
    ensures var r := WriteLane(conf, size, lane, wait, msg, replies);
            && used <= |replies| && r.replies == replies[used..]
            && (forall i :: 0 <= i < used - 1 ==> replies[i].Sent?)
            && if msg.Some? && msg.value.0.Err? then
                 && r.result == Err(msg.value.0.error) && used == 0
                 && r.lane.attempts == lane.attempts && r.lane.current == lane.current
                 && r.lane.box.started == lane.box.started
               else
                 var fatal := used > 0 && replies[used - 1].SendFatal?;
                 && (r.result == Ok(true) <==> LaneIdle(r.lane) && !fatal)
                 && (r.result == Ok(false) <==> r.lane.current.Some?)
                 && (r.result == Err(Io) <==> fatal)
                 && (r.result.Err? ==> r.result == Err(Io))
  {
    QueueLaneKeepsWellFormed(conf, lane, wait, msg);
    used := 0;
    if !(msg.Some? && msg.value.0.Err?) {
      used := FlushLaneStops(size, QueueLane(conf, lane, wait, msg), replies);
    }
  }

  lemma {:induction false} FlushLaneOnlyStarts<M>(size: M -> nat, lane: SendLane<M>, replies: seq<SendReply>)
    requires WellFormed(lane.box.queue)
    ensures OnlyStarts(lane.box, FlushLane(size, lane, replies).lane.box)
    decreases |replies|
  {
    if !LaneIdle(lane) {
      var reply := if replies == [] then SendWouldBlock else replies[0];
      TurnKeepsWellFormed(size, lane, reply);
      if lane.current.None? {
        NextOnlyStarts(lane.box);
      }
      if reply.Sent? {
        FlushLaneOnlyStarts(size, SendTurn(size, lane, reply), replies[1..]);
        OnlyStartsTwice(lane.box, SendTurn(size, lane, reply).box, FlushLane(size, lane, replies).lane.box);
      }
    }
  }

  /** The record that a write call at this reading queues, if it is given a message that encrypts. */
  ghost function OwnRecord<M>(now: nat, msg: Option<(Res<M>, Priority)>): Option<Record<M>> {
    match msg
    case Some((Ok(datagram), p)) => Some(Record(p, Stamped(now, datagram)))
    case _ => None
  }

  /**
   What a write call does to the queue of its lane, with or without a message and whatever the socket
   answers: it reads the clock, drops exactly what is doomed at the reading, accepts its own message if
   it is given one that encrypts, and starts records at the reading, none of the droppable ones too old.
   */
  lemma WriteLaneEffect<M>(conf: SocketConfig, size: M -> nat, lane: SendLane<M>, wait: nat,
                           msg: Option<(Res<M>, Priority)>, replies: seq<SendReply>)
    requires LaneInv(conf, lane)
    ensures CalledAt(conf, lane.box, WriteLane(conf, size, lane, wait, msg, replies).lane.box, lane.box.now + wait,
                     OwnRecord(lane.box.now + wait, msg))
  {
    WriteLaneOnlyStarts(conf, size, lane, wait, msg, replies);
    WriteLaneExpires(conf, size, lane, wait, msg, replies);
  }

  lemma WriteLaneOnlyStarts<M>(conf: SocketConfig, size: M -> nat, lane: SendLane<M>, wait: nat,
                               msg: Option<(Res<M>, Priority)>, replies: seq<SendReply>)
    requires WellFormed(lane.box.queue)
    ensures OnlyStarts(QueueLane(conf, lane, wait, msg).box, WriteLane(conf, size, lane, wait, msg, replies).lane.box)
  {
    QueueLaneKeepsWellFormed(conf, lane, wait, msg);
    FlushLaneOnlyStarts(size, QueueLane(conf, lane, wait, msg), replies);
  }

  lemma WriteLaneExpires<M>(conf: SocketConfig, size: M -> nat, lane: SendLane<M>, wait: nat,
                            msg: Option<(Res<M>, Priority)>, replies: seq<SendReply>)
    requires LaneInv(conf, lane)
    ensures ExpiredAndStarted(conf, lane.box, WriteLane(conf, size, lane, wait, msg, replies).lane.box,
                              lane.box.now + wait)
  {
    var start := QueueLane(conf, lane, wait, msg);
    QueueKeepsLane(conf, lane, wait, msg);
    FlushKeepsLane(conf, size, start, replies);
    WriteLaneOnlyStarts(conf, size, lane, wait, msg, replies);
    CallEffect(conf, lane.box, start.box, WriteLane(conf, size, lane, wait, msg, replies).lane.box, wait);
  }

  // ---------------------------------------------------------------- termination

  /** How many datagrams wait or are in progress. */
  ghost function Pending<M>(lane: SendLane<M>): nat {
    (if lane.current.Some? then 1 else 0) + Total(lane.box.queue)
  }

  ghost function PartialOnes<M>(attempts: seq<Attempt<M>>): nat {
    if attempts == [] then 0
    else PartialOnes(attempts[..|attempts| - 1]) + if attempts[|attempts| - 1].outcome.Partial? then 1 else 0
  }

  lemma PartialSnoc<M>(attempts: seq<Attempt<M>>, x: Attempt<M>)
    ensures PartialOnes(attempts + [x]) == PartialOnes(attempts) + if x.outcome.Partial? then 1 else 0
  {
    assert (attempts + [x])[..|attempts|] == attempts;
  }

  /** A send that is not refused finishes a datagram or is a partial one. */
  lemma TurnCounts<M>(size: M -> nat, lane: SendLane<M>, n: nat)
    requires WellFormed(lane.box.queue) && !LaneIdle(lane)
    ensures var t := SendTurn(size, lane, Sent(n));
            && WellFormed(t.box.queue)
            && Pending(t) - PartialOnes(t.attempts) == Pending(lane) - PartialOnes(lane.attempts) - 1
            && PartialOnes(t.attempts) >= PartialOnes(lane.attempts)
  {
    if lane.current.None? {
      NextKeepsWellFormed(lane.box.queue);
    }
    var msg := TakeDatagram(lane).current.value;
    PartialSnoc(lane.attempts, if n < size(msg) then Attempt(msg, Partial) else Attempt(msg, Full));
  }

  /**
   A flush asks the socket at most once for every datagram pending, once for every send that was
   accepted in part, and once more to learn that it would block.
   */
  lemma {:induction false} FlushLaneTerminates<M>(size: M -> nat, lane: SendLane<M>, replies: seq<SendReply>)
    requires WellFormed(lane.box.queue)
    ensures var r := FlushLane(size, lane, replies);
            && PartialOnes(r.lane.attempts) >= PartialOnes(lane.attempts)
            && |replies| - |r.replies| <=
                 Pending(lane) + (PartialOnes(r.lane.attempts) - PartialOnes(lane.attempts)) + 1
    decreases |replies|
  {
    if !LaneIdle(lane) && replies != [] {
      TurnKeepsWellFormed(size, lane, replies[0]);
      if replies[0].SendFatal? {
        PartialSnoc(lane.attempts, Attempt(TakeDatagram(lane).current.value, Fatal));
      }
      if replies[0].Sent? {
        TurnCounts(size, lane, replies[0].n);
        FlushLaneTerminates(size, SendTurn(size, lane, replies[0]), replies[1..]);
      }
    }
  }

  /** A socket that keeps accepting only a part is asked without end, and the datagram stays where it is. */
  lemma {:induction false} PartialSendsMakeNoProgress<M>(size: M -> nat, lane: SendLane<M>, n: nat, k: nat)
    requires WellFormed(lane.box.queue) && lane.current.Some? && n < size(lane.current.value)
    ensures var r := FlushLane(size, lane, seq(k, _ => Sent(n)));
            && r == LaneFlushed(lane.(attempts := r.lane.attempts), [], Ok(false))
            && |r.lane.attempts| == |lane.attempts| + k && lane.attempts <= r.lane.attempts
    decreases k
  {
    var replies := seq(k, _ => Sent(n));
    if k > 0 {
      assert replies[1..] == seq(k - 1, _ => Sent(n));
      PartialSendsMakeNoProgress(size, SendTurn(size, lane, Sent(n)), n, k - 1);
    }
  }

  // ---------------------------------------------------------------- runs of both lanes

  /** The two lanes of a socket; M1 and M2 are what they queue. */
  datatype UdpSend<M1, M2> = UdpSend(lane1: SendLane<M1>, lane2: SendLane<M2>)

  datatype UdpWrite<M1, M2> =
    | WriteCall(wait: nat, msg: Option<(Res<M1>, Priority)>, replies: seq<SendReply>)
    | WriteToCall(wait: nat, msgTo: Option<(Res<M2>, Priority)>, replies: seq<SendReply>)

  /** How long a datagram of either lane is. */
  datatype Sizes<!M1, !M2> = Sizes(size1: M1 -> nat, size2: M2 -> nat)

  ghost function CallWrite<M1, M2>(conf: SocketConfig, sizes: Sizes<M1, M2>, s: UdpSend<M1, M2>,
                                   call: UdpWrite<M1, M2>): UdpSend<M1, M2>
    requires WellFormed(s.lane1.box.queue) && WellFormed(s.lane2.box.queue)
  {
    match call
    case WriteCall(wait, msg, replies) =>
      s.(lane1 := WriteLane(conf, sizes.size1, s.lane1, wait, msg, replies).lane)
    case WriteToCall(wait, msg, replies) =>
      s.(lane2 := WriteLane(conf, sizes.size2, s.lane2, wait, msg, replies).lane)
  }

  lemma WriteKeepsLane<M>(conf: SocketConfig, size: M -> nat, lane: SendLane<M>, wait: nat,
                          msg: Option<(Res<M>, Priority)>, replies: seq<SendReply>)
    requires LaneInv(conf, lane)
    ensures LaneInv(conf, WriteLane(conf, size, lane, wait, msg, replies).lane)
  {
    QueueKeepsLane(conf, lane, wait, msg);
    if !(msg.Some? && msg.value.0.Err?) {
      FlushKeepsLane(conf, size, QueueLane(conf, lane, wait, msg), replies);
    }
  }

  lemma CallKeepsWellFormed<M1, M2>(conf: SocketConfig, sizes: Sizes<M1, M2>, s: UdpSend<M1, M2>,
                                   call: UdpWrite<M1, M2>)
    requires WellFormed(s.lane1.box.queue) && WellFormed(s.lane2.box.queue)
    ensures WellFormed(CallWrite(conf, sizes, s, call).lane1.box.queue)
    ensures WellFormed(CallWrite(conf, sizes, s, call).lane2.box.queue)
  {
    match call
    case WriteCall(wait, msg, replies) =>
      QueueLaneKeepsWellFormed(conf, s.lane1, wait, msg);
      FlushLaneResult(sizes.size1, QueueLane(conf, s.lane1, wait, msg), replies);
    case WriteToCall(wait, msg, replies) =>
      QueueLaneKeepsWellFormed(conf, s.lane2, wait, msg);
      FlushLaneResult(sizes.size2, QueueLane(conf, s.lane2, wait, msg), replies);
  }

  ghost function RunWrites<M1, M2>(conf: SocketConfig, sizes: Sizes<M1, M2>,
                                   calls: seq<UdpWrite<M1, M2>>): (s: UdpSend<M1, M2>)
    ensures WellFormed(s.lane1.box.queue) && WellFormed(s.lane2.box.queue)
  {
    if calls == [] then UdpSend(EmptyLane(), EmptyLane())
    else
      var s := RunWrites(conf, sizes, calls[..|calls| - 1]);
      CallKeepsWellFormed(conf, sizes, s, calls[|calls| - 1]);
      CallWrite(conf, sizes, s, calls[|calls| - 1])
  }

  lemma {:induction false} RunWritesInv<M1, M2>(conf: SocketConfig, sizes: Sizes<M1, M2>, calls: seq<UdpWrite<M1, M2>>)
    ensures LaneInv(conf, RunWrites(conf, sizes, calls).lane1) && LaneInv(conf, RunWrites(conf, sizes, calls).lane2)
  {
    if calls == [] {
      EmptyLaneInv<M1>(conf);
      EmptyLaneInv<M2>(conf);
    } else {
      RunWritesInv(conf, sizes, calls[..|calls| - 1]);
      CallKeepsLanes(conf, sizes, RunWrites(conf, sizes, calls[..|calls| - 1]), calls[|calls| - 1]);
    }
  }

  lemma EmptyLaneInv<M>(conf: SocketConfig)
    ensures LaneInv(conf, EmptyLane<M>())
  {
    EmptyBoxInv<M>(conf);
  }

  lemma CallKeepsLanes<M1, M2>(conf: SocketConfig, sizes: Sizes<M1, M2>, s: UdpSend<M1, M2>, call: UdpWrite<M1, M2>)
    requires LaneInv(conf, s.lane1) && LaneInv(conf, s.lane2)
    ensures LaneInv(conf, CallWrite(conf, sizes, s, call).lane1) && LaneInv(conf, CallWrite(conf, sizes, s, call).lane2)
  {
    match call
    case WriteCall(wait, msg, replies) => WriteKeepsLane(conf, sizes.size1, s.lane1, wait, msg, replies);
    case WriteToCall(wait, msg, replies) => WriteKeepsLane(conf, sizes.size2, s.lane2, wait, msg, replies);
  }

  /** The calls on one lane only. */
  ghost function Only<M1, M2>(calls: seq<UdpWrite<M1, M2>>, first: bool): seq<UdpWrite<M1, M2>> {
    if calls == [] then []
    else
      var earlier := Only(calls[..|calls| - 1], first);
      if calls[|calls| - 1].WriteCall? == first then earlier + [calls[|calls| - 1]] else earlier
  }

  /** What one lane guarantees, whichever calls were interleaved with its own. */
  ghost predicate LaneGuarantee<M>(conf: SocketConfig, lane: SendLane<M>, p: Priority) {
    && DoneWith(lane.attempts) + InProgress(lane) == TakenDatagrams(lane.box.started)
    && lane.sent == FullOnes(lane.attempts)
    && Retried(lane)
    && (p < conf.msgDropPriority ==>
          Of(lane.box.accepted, p) == Of(lane.box.started, p) + QueueOf(lane.box.queue, p))
    && multiset(Of(lane.box.accepted, p)) ==
         multiset(Of(lane.box.started, p)) + multiset(Of(lane.box.dropped, p)) + multiset(QueueOf(lane.box.queue, p))
    && IsSubsequence(Of(lane.box.started, p), Of(lane.box.accepted, p))
    && FreshStarts(conf, lane.box)
  }

  lemma LaneInvGuarantees<M>(conf: SocketConfig, lane: SendLane<M>, p: Priority)
    requires LaneInv(conf, lane)
    ensures LaneGuarantee(conf, lane, p)
  {
    StartedAgainstAccepted(conf, lane.box, p);
    DroppedAgainstAccepted(conf, lane.box, p);
  }

  /**
   Send lanes.  In every interleaving of the two kinds of calls, the datagrams of a lane leave it
   whole, in the order in which its queue gave them out, each accepted in full or given up at a fatal
   error; one that was accepted in part is sent again, whole, before anything else of that lane; every
   accepted message is exactly one of started, dropped and queued, and none of a protected priority is
   dropped; and no stale droppable datagram is started.
   */
  lemma SendLanesGuarantee<M1, M2>(conf: SocketConfig, sizes: Sizes<M1, M2>, calls: seq<UdpWrite<M1, M2>>, p: Priority)
    ensures var s := RunWrites(conf, sizes, calls);
            LaneGuarantee(conf, s.lane1, p) && LaneGuarantee(conf, s.lane2, p)
  {
    var s := RunWrites(conf, sizes, calls);
    RunWritesInv(conf, sizes, calls);
    LaneInvGuarantees(conf, s.lane1, p);
    LaneInvGuarantees(conf, s.lane2, p);
  }

  /** Each lane is what it would be had the calls on the other never been made. */
  lemma {:induction false} LanesAreIndependent<M1, M2>(conf: SocketConfig, sizes: Sizes<M1, M2>,
                                                       calls: seq<UdpWrite<M1, M2>>)
    ensures RunWrites(conf, sizes, calls).lane1 == RunWrites(conf, sizes, Only(calls, true)).lane1
    ensures RunWrites(conf, sizes, calls).lane2 == RunWrites(conf, sizes, Only(calls, false)).lane2
  {
    if calls != [] {
      var n := |calls| - 1;
      LanesAreIndependent(conf, sizes, calls[..n]);
      OnlySnoc(conf, sizes, Only(calls[..n], calls[n].WriteCall?), calls[n]);
    }
  }

  lemma OnlySnoc<M1, M2>(conf: SocketConfig, sizes: Sizes<M1, M2>, calls: seq<UdpWrite<M1, M2>>, call: UdpWrite<M1, M2>)
    ensures RunWrites(conf, sizes, calls + [call]) == CallWrite(conf, sizes, RunWrites(conf, sizes, calls), call)
  {
    assert (calls + [call])[..|calls|] == calls;
  }

  lemma FirstLaneInv<M1, M2>(conf: SocketConfig, sizes: Sizes<M1, M2>, calls: seq<UdpWrite<M1, M2>>)
    ensures LaneInv(conf, RunWrites(conf, sizes, calls).lane1)
  {
    RunWritesInv(conf, sizes, calls);
  }

  lemma SecondLaneInv<M1, M2>(conf: SocketConfig, sizes: Sizes<M1, M2>, calls: seq<UdpWrite<M1, M2>>)
    ensures LaneInv(conf, RunWrites(conf, sizes, calls).lane2)
  {
    RunWritesInv(conf, sizes, calls);
  }

  /** Every `write`, after any calls, with or without a message, expires at its reading. */
  lemma WritesExpireInRuns<M1, M2>(conf: SocketConfig, sizes: Sizes<M1, M2>, calls: seq<UdpWrite<M1, M2>>,
                                   lane: SendLane<M1>, wait: nat, msg: Option<(Res<M1>, Priority)>,
                                   replies: seq<SendReply>)
    requires lane == RunWrites(conf, sizes, calls).lane1
    ensures WellFormed(lane.box.queue)
    ensures CalledAt(conf, lane.box, WriteLane(conf, sizes.size1, lane, wait, msg, replies).lane.box,
                     lane.box.now + wait, OwnRecord(lane.box.now + wait, msg))
  {
    FirstLaneInv(conf, sizes, calls);
    WriteLaneEffect(conf, sizes.size1, lane, wait, msg, replies);
  }

  /** So does every `write_to`. */
  lemma WriteTosExpireInRuns<M1, M2>(conf: SocketConfig, sizes: Sizes<M1, M2>, calls: seq<UdpWrite<M1, M2>>,
                                     lane: SendLane<M2>, wait: nat, msg: Option<(Res<M2>, Priority)>,
                                     replies: seq<SendReply>)
    requires lane == RunWrites(conf, sizes, calls).lane2
    ensures WellFormed(lane.box.queue)
    ensures CalledAt(conf, lane.box, WriteLane(conf, sizes.size2, lane, wait, msg, replies).lane.box,
                     lane.box.now + wait, OwnRecord(lane.box.now + wait, msg))
  {
    SecondLaneInv(conf, sizes, calls);
    WriteLaneEffect(conf, sizes.size2, lane, wait, msg, replies);
  }
}
