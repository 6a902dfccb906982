/**
 Receiving datagrams.  One socket feeds two buffers: `read` keeps payloads, `read_frm` keeps
 payloads with their senders; each call fills its own buffer until the socket would block.
 */
module UdpReceiver {
  import opened Base
  import opened Crypto

  type Address = nat

  /** What the socket answers to a receive. */
  datatype RecvReply = Datagram(bytes: Bytes, from: Address) | RecvWouldBlock | RecvInterrupted | RecvFatal

  /** The outcome of one receive, already in the form in which its lane buffers datagrams. */
  datatype Received<+M> = Message(msg: M) | Blocked | Broken

  datatype RecvResult<+M> = WouldBlock(next: Option<M>) | ContinueRecv

  /** How a lane buffers a datagram, and which buffered messages count as empty. */
  datatype LaneKind<!M> = LaneKind(wrap: (Bytes, Address) -> M, payload: M -> Bytes)
  {
    function Receive(reply: RecvReply): Received<M> {
      match reply
      case Datagram(bytes, from) => Message(wrap(bytes, from))
      case RecvFatal => Broken
      case _ => Blocked
    }
  }

  const PAYLOADS: LaneKind<Bytes> := LaneKind((bytes: Bytes, from: Address) => bytes, (m: Bytes) => m)
  const WITH_SENDER: LaneKind<(Bytes, Address)> :=
    LaneKind((bytes: Bytes, from: Address) => (bytes, from), (m: (Bytes, Address)) => m.0)

  /** A payload survives being wrapped. */
  ghost predicate KeepsPayload<M>(kind: LaneKind<M>) {
    forall bytes: Bytes, from: Address :: kind.payload(kind.wrap(bytes, from)) == bytes
  }

  lemma BothLanesKeepPayload()
    ensures KeepsPayload(PAYLOADS) && KeepsPayload(WITH_SENDER)
  {
  }

  /** What a receive adds to the messages of its lane: empty datagrams are ignored. */
  ghost function Arrived<M>(kind: LaneKind<M>, recvRes: Received<M>): seq<M> {
    if recvRes.Message? && kind.payload(recvRes.msg) != [] then [recvRes.msg] else []
  }

  ghost function HandedOut<M>(r: Res<RecvResult<M>>): seq<M> {
    if r.Ok? && r.value.WouldBlock? && r.value.next.Some? then [r.value.next.value] else []
  }

  /**
   Buffers what was received, or says to stop and hands out the oldest buffered message.  No message
   is lost, duplicated or overtaken: what is handed out and what is buffered are what was buffered
   and what arrived, in that order.
   */
  method HandleRecvRes<M>(kind: LaneKind<M>, recvRes: Received<M>, readBuffer: seq<M>)
    returns (buffer: seq<M>, r: Res<RecvResult<M>>)
    ensures HandedOut(r) + buffer == readBuffer + Arrived(kind, recvRes)
    ensures r == Ok(ContinueRecv) <==> recvRes.Message?
    ensures r == Ok(WouldBlock(None)) <==> recvRes.Blocked? && readBuffer == []
    ensures r.Err? <==> recvRes.Broken?
    ensures r.Err? ==> r.error == Io
  {
    buffer := readBuffer;
    match recvRes
    case Message(msg) =>
      if |kind.payload(msg)| > 0 {
        buffer := buffer + [msg];
      }
      r := Ok(ContinueRecv);
    case Blocked =>
      if |buffer| == 0 {
        return [], Ok(WouldBlock(None));
      }
      r := Ok(WouldBlock(Some(buffer[0])));
      buffer := buffer[1..];
    case Broken =>
      r := Err(Io);
  }

  /** What these promises leave of the buffer, case by case. */
  lemma HandledCases<M>(kind: LaneKind<M>, recvRes: Received<M>, readBuffer: seq<M>, buffer: seq<M>,
                        r: Res<RecvResult<M>>)
    requires HandedOut(r) + buffer == readBuffer + Arrived(kind, recvRes)
    requires r == Ok(ContinueRecv) <==> recvRes.Message?
    requires r == Ok(WouldBlock(None)) <==> recvRes.Blocked? && readBuffer == []
    requires r.Err? <==> recvRes.Broken?
    ensures !recvRes.Blocked? ==> buffer == readBuffer + Arrived(kind, recvRes)
    ensures recvRes.Broken? ==> buffer == readBuffer
    ensures recvRes.Blocked? && readBuffer == [] ==> buffer == []
    ensures recvRes.Blocked? && readBuffer != [] ==>
              r == Ok(WouldBlock(Some(readBuffer[0]))) && buffer == readBuffer[1..]
  {
    NothingBefore(buffer);
    NothingBehind(readBuffer);
    if recvRes.Blocked? && readBuffer != [] {
      assert (HandedOut(r) + buffer)[0] == readBuffer[0];
      HeadTail(readBuffer);
      SameTail(readBuffer[0], buffer, readBuffer[1..]);
    }
  }

  /** The outcome of a call on one lane: the message it takes out, before decryption. */
  datatype LaneRead<+M> = LaneRead(buffer: seq<M>, incoming: seq<RecvReply>, taken: Res<Option<M>>)

  ghost function NextReply(incoming: seq<RecvReply>): RecvReply {
    if incoming == [] then RecvWouldBlock else incoming[0]
  }

  ghost function LaterReplies(incoming: seq<RecvReply>): seq<RecvReply> {
    if incoming == [] then [] else incoming[1..]
  }

  ghost function DrainSocket<M>(kind: LaneKind<M>, buffer: seq<M>, incoming: seq<RecvReply>): LaneRead<M>
    decreases |incoming|
  {
    var recvRes, later := kind.Receive(NextReply(incoming)), LaterReplies(incoming);
    match recvRes
    case Message(_) => DrainSocket(kind, buffer + Arrived(kind, recvRes), later)
    case Blocked =>
      if buffer == [] then LaneRead([], later, Ok(None)) else LaneRead(buffer[1..], later, Ok(Some(buffer[0])))
    case Broken => LaneRead(buffer, later, Err(Io))
  }

  ghost function ReadLane<M>(kind: LaneKind<M>, buffer: seq<M>, incoming: seq<RecvReply>): LaneRead<M> {
    if buffer != [] then LaneRead(buffer[1..], incoming, Ok(Some(buffer[0])))
    else DrainSocket(kind, buffer, incoming)
  }

  // ---------------------------------------------------------------- one call, case by case

  /** How many replies are datagrams before the first that is none. */
  ghost function DatagramCount(replies: seq<RecvReply>): (k: nat)
    ensures k <= |replies|
    ensures forall i :: 0 <= i < k ==> replies[i].Datagram?
    ensures k < |replies| ==> !replies[k].Datagram?
  {
    if replies != [] && replies[0].Datagram? then 1 + DatagramCount(replies[1..]) else 0
  }

  /** The reply behind the datagrams; a socket whose replies are used up would block. */
  ghost function StopAfter(incoming: seq<RecvReply>, k: nat): RecvReply {
    if k < |incoming| then incoming[k] else RecvWouldBlock
  }

  /** A drain of the socket in one step, given all messages there are then. */
  ghost predicate DrainsTo<M>(incoming: seq<RecvReply>, all: seq<M>, r: LaneRead<M>) {
    var k := DatagramCount(incoming);
    var stop := StopAfter(incoming, k);
    && r.incoming == incoming[Min(k + 1, |incoming|)..]
    && (r.taken.Err? <==> stop.RecvFatal?)
    && (stop.RecvFatal? ==> r.taken == Err(Io) && r.buffer == all)
    && (!stop.RecvFatal? && all == [] ==> r.taken == Ok(None) && r.buffer == [])
    && (!stop.RecvFatal? && all != [] ==> r.taken == Ok(Some(all[0])) && r.buffer == all[1..])
  }

  lemma CountOne(incoming: seq<RecvReply>)
    requires incoming != [] && incoming[0].Datagram?
    ensures var k := DatagramCount(incoming[1..]);
            && DatagramCount(incoming) == k + 1
            && StopAfter(incoming[1..], k) == StopAfter(incoming, k + 1)
            && incoming[1..][Min(k + 1, |incoming[1..]|)..] == incoming[Min(k + 2, |incoming|)..]
  {
  }

  lemma WrappedOne<M>(kind: LaneKind<M>, incoming: seq<RecvReply>, k: nat)
    requires KeepsPayload(kind) && incoming != [] && incoming[0].Datagram? && k <= |incoming| - 1
    ensures Wrapped(kind, incoming[..k + 1]) ==
            Arrived(kind, kind.Receive(incoming[0])) + Wrapped(kind, incoming[1..][..k])
  {
    WrappedCons(kind, incoming, k);
    assert kind.payload(kind.wrap(incoming[0].bytes, incoming[0].from)) == incoming[0].bytes;
  }

  lemma {:induction false} SocketDrainsTo<M>(kind: LaneKind<M>, buffer: seq<M>, incoming: seq<RecvReply>)
    requires KeepsPayload(kind)
    ensures DrainsTo(incoming, buffer + Wrapped(kind, incoming[..DatagramCount(incoming)]),
                     DrainSocket(kind, buffer, incoming))
    decreases |incoming|
  {
    if NextReply(incoming).Datagram? {
      var arrived := Arrived(kind, kind.Receive(incoming[0]));
      SocketDrainsTo(kind, buffer + arrived, incoming[1..]);
      CountOne(incoming);
      WrappedOne(kind, incoming, DatagramCount(incoming[1..]));
      ConcatAssociative(buffer, arrived, Wrapped(kind, incoming[1..][..DatagramCount(incoming[1..])]));
    } else {
      assert DatagramCount(incoming) == 0 && Wrapped(kind, incoming[..0]) == [];
      NothingBehind(buffer);
    }
  }

  /**
   A call, case by case.  It hands out the oldest buffered message, if there is one, and leaves the socket
   alone.  Otherwise it uses the datagrams at hand and the reply behind them, no more.  It fails if and
   only if that reply is a fatal error, whatever has been received, and then keeps all of it; else it
   hands out the oldest, and keeps the others, or finds that there is none.
   */
  lemma ReadLaneCases<M>(kind: LaneKind<M>, buffer: seq<M>, incoming: seq<RecvReply>)
    requires KeepsPayload(kind)
    ensures buffer != [] ==> ReadLane(kind, buffer, incoming) == LaneRead(buffer[1..], incoming, Ok(Some(buffer[0])))
    ensures buffer == [] ==>
              var r, k := ReadLane(kind, buffer, incoming), DatagramCount(incoming);
              var stop, all := StopAfter(incoming, k), Wrapped(kind, incoming[..k]);
              && r.incoming == incoming[Min(k + 1, |incoming|)..]
              && (r.taken.Err? <==> stop.RecvFatal?)
              && (stop.RecvFatal? ==> r.taken == Err(Io) && r.buffer == all)
              && (!stop.RecvFatal? && all == [] ==> r.taken == Ok(None) && r.buffer == [])
              && (!stop.RecvFatal? && all != [] ==> r.taken == Ok(Some(all[0])) && r.buffer == all[1..])
  {
    if buffer == [] {
      SocketDrainsTo(kind, buffer, incoming);
      NothingBefore(Wrapped(kind, incoming[..DatagramCount(incoming)]));
    }
  }

  // ---------------------------------------------------------------- one call

  ghost function Wrapped<M>(kind: LaneKind<M>, replies: seq<RecvReply>): seq<M> {
    if replies == [] then []
    else
      (if replies[0].Datagram? && replies[0].bytes != [] then [kind.wrap(replies[0].bytes, replies[0].from)] else [])
      + Wrapped(kind, replies[1..])
  }

  ghost function TakenMessages<M>(taken: Res<Option<M>>): seq<M> {
    if taken.Ok? && taken.value.Some? then [taken.value.value] else []
  }

  /** The last reply used says that the socket would block. */
  ghost predicate StopsReceiving(replies: seq<RecvReply>) {
    replies != [] && (replies[|replies| - 1].RecvWouldBlock? || replies[|replies| - 1].RecvInterrupted?)
  }

  /** Which replies a call used, what stopped it, and that no non-empty datagram is lost or duplicated. */
  ghost predicate CallConserves<M>(kind: LaneKind<M>, buffer: seq<M>, incoming: seq<RecvReply>, r: LaneRead<M>,
                                   used: nat) {
    && used <= |incoming| && r.incoming == incoming[used..]
    && TakenMessages(r.taken) + r.buffer == buffer + Wrapped(kind, incoming[..used])
    && (r.taken == Ok(None) ==> r.buffer == [] && (used == |incoming| || StopsReceiving(incoming[..used])))
    && (r.taken.Err? ==> used > 0 && incoming[used - 1].RecvFatal? && r.taken.error == Io)
  }

  lemma StopConserves<M>(kind: LaneKind<M>, buffer: seq<M>, incoming: seq<RecvReply>) returns (used: nat)
    requires !NextReply(incoming).Datagram?
    ensures CallConserves(kind, buffer, incoming, DrainSocket(kind, buffer, incoming), used)
  {
    used := if incoming == [] then 0 else 1;
    assert incoming[..used] == if incoming == [] then [] else [incoming[0]];
    assert Wrapped(kind, incoming[..used]) == [];
    assert buffer != [] ==> [buffer[0]] + buffer[1..] == buffer;
    assert buffer + [] == buffer && [] + buffer == buffer;
  }

  lemma {:induction false} DrainConserves<M>(kind: LaneKind<M>, buffer: seq<M>, incoming: seq<RecvReply>)
    returns (used: nat)
    requires KeepsPayload(kind)
    ensures CallConserves(kind, buffer, incoming, DrainSocket(kind, buffer, incoming), used)
    decreases |incoming|
  {
    if NextReply(incoming).Datagram? {
      var b := buffer + Arrived(kind, kind.Receive(incoming[0]));
      used := DrainConserves(kind, b, incoming[1..]);
      WrappedCons(kind, incoming, used);
      assert b == buffer + Wrapped(kind, [incoming[0]]) by {
        assert kind.payload(kind.wrap(incoming[0].bytes, incoming[0].from)) == incoming[0].bytes;
      }
      ConcatAssociative(buffer, Wrapped(kind, [incoming[0]]), Wrapped(kind, incoming[1..][..used]));
      StopsLater(incoming, used);
      used := used + 1;
    } else {
      used := StopConserves(kind, buffer, incoming);
    }
  }

  lemma StopsLater(incoming: seq<RecvReply>, used: nat)
    requires incoming != [] && used <= |incoming| - 1
    ensures StopsReceiving(incoming[1..][..used]) ==> StopsReceiving(incoming[..used + 1])
  {
  }

  lemma WrappedCons<M>(kind: LaneKind<M>, incoming: seq<RecvReply>, used: nat)
    requires incoming != [] && used <= |incoming| - 1
    ensures Wrapped(kind, incoming[..used + 1]) ==
            Wrapped(kind, [incoming[0]]) + Wrapped(kind, incoming[1..][..used])
    ensures Wrapped(kind, [incoming[0]]) ==
            if incoming[0].Datagram? && incoming[0].bytes != [] then [kind.wrap(incoming[0].bytes,
                                                                                incoming[0].from)] else []
    ensures incoming[1..][used..] == incoming[used + 1..]
  {
    assert incoming[..used + 1][1..] == incoming[1..][..used];
  }

  lemma ReadConserves<M>(kind: LaneKind<M>, buffer: seq<M>, incoming: seq<RecvReply>) returns (used: nat)
    requires KeepsPayload(kind)
    ensures CallConserves(kind, buffer, incoming, ReadLane(kind, buffer, incoming), used)
  {
    if buffer != [] {
      used := 0;
      assert incoming[..0] == [] && [buffer[0]] + buffer[1..] == buffer;
    } else {
      used := DrainConserves(kind, buffer, incoming);
    }
  }

  // ---------------------------------------------------------------- runs of both lanes

  datatype Lane = ReadCall | ReadFrmCall

  /** A non-empty datagram that was taken from the socket, by a call of this kind. */
  datatype Arrival = Arrival(lane: Lane, bytes: Bytes, from: Address)

  datatype Receiver = Receiver(
    buffer1: seq<Bytes>, buffer2: seq<(Bytes, Address)>, incoming: seq<RecvReply>,
    arrived: seq<Arrival>, taken1: seq<Bytes>, taken2: seq<(Bytes, Address)>)

  ghost function Arrivals(lane: Lane, replies: seq<RecvReply>): seq<Arrival> {
    Wrapped(LaneKind((bytes: Bytes, from: Address) => Arrival(lane, bytes, from), (a: Arrival) => a.bytes), replies)
  }

  ghost function UsedReplies(before: seq<RecvReply>, after: seq<RecvReply>): seq<RecvReply> {
    if |after| <= |before| then before[..|before| - |after|] else []
  }

  ghost function CallLane(rcv: Receiver, lane: Lane): Receiver {
    match lane
    case ReadCall =>
      var r := ReadLane(PAYLOADS, rcv.buffer1, rcv.incoming);
      rcv.(buffer1 := r.buffer, incoming := r.incoming, taken1 := rcv.taken1 + TakenMessages(r.taken),
           arrived := rcv.arrived + Arrivals(lane, UsedReplies(rcv.incoming, r.incoming)))
    case ReadFrmCall =>
      var r := ReadLane(WITH_SENDER, rcv.buffer2, rcv.incoming);
      rcv.(buffer2 := r.buffer, incoming := r.incoming, taken2 := rcv.taken2 + TakenMessages(r.taken),
           arrived := rcv.arrived + Arrivals(lane, UsedReplies(rcv.incoming, r.incoming)))
  }

  ghost function RunCalls(incoming: seq<RecvReply>, calls: seq<Lane>): Receiver {
    if calls == [] then Receiver([], [], incoming, [], [], [])
    else CallLane(RunCalls(incoming, calls[..|calls| - 1]), calls[|calls| - 1])
  }

  ghost function OfReads(arrived: seq<Arrival>): seq<Bytes> {
    if arrived == [] then []
    else (if arrived[0].lane.ReadCall? then [arrived[0].bytes] else []) + OfReads(arrived[1..])
  }

  ghost function OfReadFrms(arrived: seq<Arrival>): seq<(Bytes, Address)> {
    if arrived == [] then []
    else (if arrived[0].lane.ReadFrmCall? then [(arrived[0].bytes, arrived[0].from)] else []) + OfReadFrms(arrived[1..])
  }

  /** All non-empty datagrams, in the order in which the socket handed them out. */
  ghost function Datagrams(replies: seq<RecvReply>): seq<(Bytes, Address)> {
    Wrapped(WITH_SENDER, replies)
  }

  ghost function Untagged(arrived: seq<Arrival>): (r: seq<(Bytes, Address)>)
    ensures |r| == |arrived|
    ensures forall i :: 0 <= i < |r| ==> r[i] == (arrived[i].bytes, arrived[i].from)
  {
    seq(|arrived|, i requires 0 <= i < |arrived| => (arrived[i].bytes, arrived[i].from))
  }

  lemma {:induction false} OfReadsConcat(a: seq<Arrival>, b: seq<Arrival>)
    ensures OfReads(a + b) == OfReads(a) + OfReads(b)
  {
    if a == [] {
      assert a + b == b;
    } else {
      assert (a + b)[1..] == a[1..] + b;
      OfReadsConcat(a[1..], b);
      ConcatAssociative(OfReads([a[0]]), OfReads(a[1..]), OfReads(b));
      assert [a[0]][1..] == [];
    }
  }

  lemma {:induction false} OfReadFrmsConcat(a: seq<Arrival>, b: seq<Arrival>)
    ensures OfReadFrms(a + b) == OfReadFrms(a) + OfReadFrms(b)
  {
    if a == [] {
      assert a + b == b;
    } else {
      assert (a + b)[1..] == a[1..] + b;
      OfReadFrmsConcat(a[1..], b);
      ConcatAssociative(OfReadFrms([a[0]]), OfReadFrms(a[1..]), OfReadFrms(b));
      assert [a[0]][1..] == [];
    }
  }

  /** The arrivals of one reply, and of those behind it. */
  lemma ArrivalsHead(lane: Lane, replies: seq<RecvReply>) returns (first: seq<Arrival>)
    requires replies != []
    ensures Arrivals(lane, replies) == first + Arrivals(lane, replies[1..])
    ensures first == if replies[0].Datagram? && replies[0].bytes != []
                     then [Arrival(lane, replies[0].bytes, replies[0].from)] else []
  {
    first := if replies[0].Datagram? && replies[0].bytes != []
             then [Arrival(lane, replies[0].bytes, replies[0].from)] else [];
  }

  lemma {:induction false} ArrivalsOfReads(lane: Lane, replies: seq<RecvReply>)
    ensures OfReads(Arrivals(lane, replies)) == if lane.ReadCall? then Wrapped(PAYLOADS, replies) else []
  {
    if replies != [] {
      ArrivalsOfReads(lane, replies[1..]);
      var first := ArrivalsHead(lane, replies);
      OfReadsConcat(first, Arrivals(lane, replies[1..]));
      assert OfReads(first) == if lane.ReadCall? && first != [] then [replies[0].bytes] else [];
    }
  }

  lemma {:induction false} ArrivalsOfReadFrms(lane: Lane, replies: seq<RecvReply>)
    ensures OfReadFrms(Arrivals(lane, replies)) == if lane.ReadCall? then [] else Wrapped(WITH_SENDER, replies)
  {
    if replies != [] {
      ArrivalsOfReadFrms(lane, replies[1..]);
      var first := ArrivalsHead(lane, replies);
      OfReadFrmsConcat(first, Arrivals(lane, replies[1..]));
      assert OfReadFrms(first) == if lane.ReadFrmCall? && first != [] then [(replies[0].bytes,
                        replies[0].from)] else [];
    }
  }

  lemma {:induction false} ArrivalsUntagged(lane: Lane, replies: seq<RecvReply>)
    ensures Untagged(Arrivals(lane, replies)) == Datagrams(replies)
  {
    if replies != [] {
      ArrivalsUntagged(lane, replies[1..]);
      var first := ArrivalsHead(lane, replies);
      UntaggedConcat(first, Arrivals(lane, replies[1..]));
      assert Untagged(first) == if first != [] then [(replies[0].bytes, replies[0].from)] else [];
    }
  }

  lemma {:induction false} WrappedConcat<M>(kind: LaneKind<M>, a: seq<RecvReply>, b: seq<RecvReply>)
    ensures Wrapped(kind, a + b) == Wrapped(kind, a) + Wrapped(kind, b)
  {
    if a == [] {
      assert a + b == b;
    } else {
      assert (a + b)[1..] == a[1..] + b;
      WrappedConcat(kind, a[1..], b);
    }
  }

  ghost predicate ReceiverInv(incoming: seq<RecvReply>, rcv: Receiver) {
    && |rcv.incoming| <= |incoming| && rcv.incoming == incoming[|incoming| - |rcv.incoming|..]
    && Untagged(rcv.arrived) == Datagrams(UsedReplies(incoming, rcv.incoming))
    && OfReads(rcv.arrived) == rcv.taken1 + rcv.buffer1
    && OfReadFrms(rcv.arrived) == rcv.taken2 + rcv.buffer2
  }

  lemma UsedGrows(incoming: seq<RecvReply>, middle: seq<RecvReply>, used: nat)
    requires |middle| <= |incoming| && middle == incoming[|incoming| - |middle|..] && used <= |middle|
    ensures var after := middle[used..];
            && after == incoming[|incoming| - |after|..]
            && UsedReplies(middle, after) == middle[..used]
            && UsedReplies(incoming, after) == UsedReplies(incoming, middle) + middle[..used]
  {
  }

  lemma Rotate<M>(taken: seq<M>, buffer: seq<M>, now: seq<M>, rest: seq<M>, more: seq<M>)
    requires now + rest == buffer + more
    ensures taken + buffer + more == taken + now + rest
  {
    assert taken + buffer + more == taken + (buffer + more);
    assert taken + now + rest == taken + (now + rest);
  }

  lemma CallKeepsInv(incoming: seq<RecvReply>, rcv: Receiver, lane: Lane)
    requires ReceiverInv(incoming, rcv)
    ensures ReceiverInv(incoming, CallLane(rcv, lane))
  {
    BothLanesKeepPayload();
    match lane
    case ReadCall =>
      var used := ReadConserves(PAYLOADS, rcv.buffer1, rcv.incoming);
      var r := ReadLane(PAYLOADS, rcv.buffer1, rcv.incoming);
      ArrivalsInOrder(incoming, rcv, lane, used);
      ArrivalsByLane(rcv.arrived, lane, rcv.incoming[..used]);
      Rotate(rcv.taken1, rcv.buffer1, TakenMessages(r.taken), r.buffer, Wrapped(PAYLOADS, rcv.incoming[..used]));
    case ReadFrmCall =>
      var used := ReadConserves(WITH_SENDER, rcv.buffer2, rcv.incoming);
      var r := ReadLane(WITH_SENDER, rcv.buffer2, rcv.incoming);
      ArrivalsInOrder(incoming, rcv, lane, used);
      ArrivalsByLane(rcv.arrived, lane, rcv.incoming[..used]);
      Rotate(rcv.taken2, rcv.buffer2, TakenMessages(r.taken), r.buffer, Wrapped(WITH_SENDER, rcv.incoming[..used]));
  }

  lemma UntaggedConcat(a: seq<Arrival>, b: seq<Arrival>)
    ensures Untagged(a + b) == Untagged(a) + Untagged(b)
  {
  }

  lemma ArrivalsInOrder(incoming: seq<RecvReply>, rcv: Receiver, lane: Lane, used: nat)
    requires ReceiverInv(incoming, rcv) && used <= |rcv.incoming|
    ensures var after := rcv.incoming[used..];
            && after == incoming[|incoming| - |after|..]
            && UsedReplies(rcv.incoming, after) == rcv.incoming[..used]
            && Untagged(rcv.arrived + Arrivals(lane, rcv.incoming[..used])) == Datagrams(UsedReplies(incoming, after))
  {
    UsedGrows(incoming, rcv.incoming, used);
    ArrivalsUntagged(lane, rcv.incoming[..used]);
    UntaggedConcat(rcv.arrived, Arrivals(lane, rcv.incoming[..used]));
    WrappedConcat(WITH_SENDER, UsedReplies(incoming, rcv.incoming), rcv.incoming[..used]);
  }

  lemma ArrivalsByLane(arrived: seq<Arrival>, lane: Lane, replies: seq<RecvReply>)
    ensures OfReads(arrived + Arrivals(lane, replies)) ==
            OfReads(arrived) + (if lane.ReadCall? then Wrapped(PAYLOADS, replies) else [])
    ensures OfReadFrms(arrived + Arrivals(lane, replies)) ==
            OfReadFrms(arrived) + (if lane.ReadCall? then [] else Wrapped(WITH_SENDER, replies))
  {
    ArrivalsOfReads(lane, replies);
    ArrivalsOfReadFrms(lane, replies);
    OfReadsConcat(arrived, Arrivals(lane, replies));
    OfReadFrmsConcat(arrived, Arrivals(lane, replies));
  }

  /**
   Receive conservation.  Over every interleaving of the two kinds of calls, every non-empty
   datagram handed out by the socket enters exactly one buffer, that of the call that received it,
   and leaves it exactly once, in order of arrival.
   */
  lemma {:induction false} ReceiveConservation(incoming: seq<RecvReply>, calls: seq<Lane>)
    ensures var rcv := RunCalls(incoming, calls);
            && Untagged(rcv.arrived) == Datagrams(UsedReplies(incoming, rcv.incoming))
            && OfReads(rcv.arrived) == rcv.taken1 + rcv.buffer1
            && OfReadFrms(rcv.arrived) == rcv.taken2 + rcv.buffer2
    ensures ReceiverInv(incoming, RunCalls(incoming, calls))
  {
    if calls == [] {
      assert incoming[..0] == [];
    } else {
      ReceiveConservation(incoming, calls[..|calls| - 1]);
      CallKeepsInv(incoming, RunCalls(incoming, calls[..|calls| - 1]), calls[|calls| - 1]);
    }
  }

  // ---------------------------------------------------------------- results of calls

  /** The taken datagram decrypted, together with the form in which its lane buffered it. */
  ghost function OpenTaken<T, M>(kind: LaneKind<M>, dec: DecryptContext, codec: Codec<T>, taken: Res<Option<M>>)
    : Res<Option<(T, M)>>
  {
    match taken
    case Err(e) => Err(e)
    case Ok(None) => Ok(None)
    case Ok(Some(datagram)) =>
      match dec.Decrypt(codec, kind.payload(datagram))
      case Err(e) => Err(e)
      case Ok(m) => Ok(Some((m, datagram)))
  }

  ghost function ReadCallResult<T>(dec: DecryptContext, codec: Codec<T>, taken: Res<Option<Bytes>>): Res<Option<T>> {
    match OpenTaken(PAYLOADS, dec, codec, taken)
    case Err(e) => Err(e)
    case Ok(None) => Ok(None)
    case Ok(Some((m, _))) => Ok(Some(m))
  }

  ghost function ReadFrmCallResult<T>(dec: DecryptContext, codec: Codec<T>, taken: Res<Option<(Bytes, Address)>>)
    : Res<Option<(T, Address)>>
  {
    match OpenTaken(WITH_SENDER, dec, codec, taken)
    case Err(e) => Err(e)
    case Ok(None) => Ok(None)
    case Ok(Some((m, datagram))) => Ok(Some((m, datagram.1)))
  }
}
