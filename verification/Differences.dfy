/**
 Inputs on which the code does not do what its documentation says, one lemma each.  Messages are
 byte strings that serialise to themselves, and nothing is encrypted.
 */
module Differences {
  import opened Base
  import opened Crypto
  import opened Config
  import opened OutQueues
  import opened Outboxes
  import opened Framing
  import opened Reader
  import opened TcpSender
  import opened TcpReceiver
  import UdpReceiver
  import UdpSender
  import UdpSockets

  function RawCodec(): Codec<Bytes> {
    Codec((m: Bytes) => Some(m), (b: Bytes) => Some(b))
  }

  function RawDecoder(limit: nat): Decoder<Bytes> {
    Decoder(NullDecrypt, RawCodec(), limit)
  }

  ghost function NewSender(): Sender<Bytes> {
    Sender<Bytes>.Sender(EmptyOutbox(), None, [], NullEncrypt, false)
  }

  /** The header of a frame of n bytes. */
  lemma SmallHeader(n: Byte)
    ensures EncodeU32(n) == [n, 0, 0, 0]
    ensures DecodeU32([n, 0, 0, 0]) == n
  {
  }

  /**
   `Ok(None)` although a complete frame was received: a zero-length frame stood before it.  The next
   call hands the message out without another byte.
   */
  lemma ZeroFrameHidesMessage()
    ensures var d, open := RawDecoder(10), Incoming([], false);
            var bytes: Bytes := [0, 0, 0, 0, 1, 0, 0, 0, 7];
            var first := Read(d, EMPTY_READER, Incoming([Chunk(bytes)], false));
            && first == ReadResult(ReaderState(bytes[4..], 0), open, Ok(None))
            && Read(d, first.state, open) == ReadResult(EMPTY_READER, open, Ok(Some([7])))
  {
    var d, open := RawDecoder(10), Incoming([], false);
    var bytes: Bytes := [0, 0, 0, 0, 1, 0, 0, 0, 7];
    SmallHeader(0);
    assert EMPTY_READER.Put(bytes) == ReaderState(bytes, 0);
    assert bytes[..4] == [0, 0, 0, 0];
    assert TryStep(d, ReaderState(bytes, 0)) == Step(ReaderState(bytes[4..], 0), Ok(None));
    assert Incoming([Chunk(bytes)], false).Rest() == open;
    OneByteFrame(d, 7);
    assert bytes[4..] == [1, 0, 0, 0, 7];
  }

  lemma OneByteFrame(d: Decoder<Bytes>, b: Byte)
    requires d == RawDecoder(d.maxPayloadSize) && d.maxPayloadSize > 0
    ensures TryStep(d, ReaderState([1, 0, 0, 0, b], 0)) == Step(EMPTY_READER, Ok(Some([b])))
  {
    var bytes: Bytes := [1, 0, 0, 0, b];
    SmallHeader(1);
    assert bytes[..4] == [1, 0, 0, 0] && bytes[4..] == [b];
    assert [b][..1] == [b] && [b][1..] == [];
  }

  lemma RawFrame(msg: Bytes)
    requires |msg| < 256
    ensures Serialized(RawCodec(), NullEncrypt, (0, 0), msg) == Ok([|msg|, 0, 0, 0] + msg)
  {
    SmallHeader(|msg|);
    assert NullEncrypt.Encrypt(RawCodec(), 0, msg) == Ok(msg);
    assert LengthHeader(msg) == |msg|;
  }

  lemma RawByteFrame(b: Byte)
    ensures Serialized(RawCodec(), NullEncrypt, (0, 0), [b]) == Ok([1, 0, 0, 0, b])
  {
    RawFrame([b]);
    assert [1, 0, 0, 0] + [b] == [1, 0, 0, 0, b];
  }

  /** A flush with something to send and a reply to come, one turn on. */
  lemma FlushTurn(s: Sender<Bytes>, reply: WriteReply, rest: seq<WriteReply>)
    requires WellFormed(s.box.queue) && !Idle(s)
    ensures WellFormed(Send(s, reply).box.queue)
    ensures Flush(s, [reply] + rest) ==
            match reply
            case Accept(_) => Flush(Send(s, reply), rest)
            case WriteFatal => Flushed(Send(s, reply), rest, Err(Io))
            case _ => Flushed(Send(s, reply), rest, Ok(false))
  {
    SendKeepsWellFormed(s, reply);
    assert ([reply] + rest)[1..] == rest;
  }

  ghost function OneByteItem(b: Byte): Item<Bytes> {
    Item([b], [1, 0, 0, 0, b], NullEncrypt)
  }

  ghost function WriteByte(conf: SocketConfig, s: Sender<Bytes>, b: Byte, p: Priority, replies: seq<WriteReply>)
    : Flushed<Bytes>
    requires WellFormed(s.box.queue)
  {
    Write(conf, RawCodec(), s, 0, Some(([b], p)), (0, 0), replies)
  }

  /** A sender with a frame in progress and this queue, at clock reading 0. */
  ghost predicate Writing(s: Sender<Bytes>, b: Byte, queue: seq<Slot<Item<Bytes>>>, wire: Bytes) {
    && s.current == Some([1, 0, 0, 0, b]) && s.box.queue == queue && s.wire == wire
    && s.box.now == 0 && s.enc == NullEncrypt
  }

  lemma FirstWrite(conf: SocketConfig)
    ensures Writing(WriteByte(conf, NewSender(), 8, 1, [WriteWouldBlock]).sender, 8, [], [])
  {
    RawByteFrame(8);
    var t := Enqueue(conf, RawCodec(), NewSender(), 0, Some(([8], 1)), (0, 0)).0;
    assert t.box.queue == [Slot(1, [Stamped(0, OneByteItem(8))])];
    FlushTurn(t, WriteWouldBlock, []);
    assert [WriteWouldBlock] + [] == [WriteWouldBlock];
  }

  lemma SecondWrite(conf: SocketConfig, s: Sender<Bytes>)
    requires Writing(s, 8, [], [])
    ensures Writing(WriteByte(conf, s, 9, 1, [WriteWouldBlock]).sender, 8, [Slot(1, [Stamped(0, OneByteItem(9))])], [])
  {
    RawByteFrame(9);
    var t := Enqueue(conf, RawCodec(), s, 0, Some(([9], 1)), (0, 0)).0;
    assert t.box.queue == [Slot(1, [Stamped(0, OneByteItem(9))])];
    FlushTurn(t, WriteWouldBlock, []);
    assert [WriteWouldBlock] + [] == [WriteWouldBlock];
  }

  lemma ThirdWrite(conf: SocketConfig, s: Sender<Bytes>)
    requires Writing(s, 8, [Slot(1, [Stamped(0, OneByteItem(9))])], [])
    ensures var r := WriteByte(conf, s, 7, 0, [Accept(5), Accept(5), WriteWouldBlock]);
            r.result == Ok(false) && r.sender.wire == [1, 0, 0, 0, 8, 1, 0, 0, 0, 7]
  {
    var t := Enqueue(conf, RawCodec(), s, 0, Some(([7], 0)), (0, 0)).0;
    assert ReadyForThird(t) by { ThirdQueued(conf, s); }
    ThirdFlushed(t);
  }

  /** The state in which the third write flushes. */
  ghost predicate ReadyForThird(t: Sender<Bytes>) {
    && t.box.queue == [Slot(0, [Stamped(0, OneByteItem(7))]), Slot(1, [Stamped(0, OneByteItem(9))])]
    && t.current == Some([1, 0, 0, 0, 8]) && t.wire == []
  }

  lemma ThirdQueued(conf: SocketConfig, s: Sender<Bytes>)
    requires Writing(s, 8, [Slot(1, [Stamped(0, OneByteItem(9))])], [])
    ensures ReadyForThird(Enqueue(conf, RawCodec(), s, 0, Some(([7], 0)), (0, 0)).0)
    ensures Enqueue(conf, RawCodec(), s, 0, Some(([7], 0)), (0, 0)).1.None?
  {
    RawByteFrame(7);
    var slots := [Slot(1, [Stamped(0, OneByteItem(9))])];
    assert slots[1..] == [] && Survivors(slots, conf, 0) == slots;
  }

  lemma ThirdFlushed(t: Sender<Bytes>)
    requires ReadyForThird(t)
    ensures var r := Flush(t, [Accept(5), Accept(5), WriteWouldBlock]);
            r.result == Ok(false) && r.sender.wire == [1, 0, 0, 0, 8, 1, 0, 0, 0, 7]
  {
    var t1 := Send(t, Accept(5));
    assert t1.current == None && t1.wire == [1, 0, 0, 0, 8];
    var t2 := Send(t1, Accept(5));
    assert t2.current == None && t2.box.queue == t.box.queue[1..];
    assert t2.wire == [1, 0, 0, 0, 8, 1, 0, 0, 0, 7];
    assert [Accept(5), Accept(5), WriteWouldBlock] == [Accept(5)] + [Accept(5), WriteWouldBlock];
    FlushTurn(t, Accept(5), [Accept(5), WriteWouldBlock]);
    assert [Accept(5), WriteWouldBlock] == [Accept(5)] + [WriteWouldBlock];
    FlushTurn(t1, Accept(5), [WriteWouldBlock]);
    assert [WriteWouldBlock] == [WriteWouldBlock] + [];
    FlushTurn(t2, WriteWouldBlock, []);
  }

  /**
   `Ok(false)` although the message that the call was given is on the wire in full: what is in
   progress is a less urgent message queued before.
   */
  lemma FalseThoughFullyWritten(conf: SocketConfig)
    ensures var s1 := WriteByte(conf, NewSender(), 8, 1, [WriteWouldBlock]).sender;
            && WellFormed(s1.box.queue)
            && var s2 := WriteByte(conf, s1, 9, 1, [WriteWouldBlock]).sender;
               && WellFormed(s2.box.queue)
               && var r := WriteByte(conf, s2, 7, 0, [Accept(5), Accept(5), WriteWouldBlock]);
                  r.result == Ok(false) && r.sender.wire == [1, 0, 0, 0, 8, 1, 0, 0, 0, 7]
  {
    FirstWrite(conf);
    var s1 := WriteByte(conf, NewSender(), 8, 1, [WriteWouldBlock]).sender;
    SecondWrite(conf, s1);
    ThirdWrite(conf, WriteByte(conf, s1, 9, 1, [WriteWouldBlock]).sender);
  }

  lemma WriteAlone(conf: SocketConfig, msg: Bytes)
    requires |msg| < 256
    ensures var r := Write(conf, RawCodec(), NewSender(), 0, Some((msg, 0)), (0, 0), [Accept(4 + |msg|)]);
            r.result == Ok(true) && r.sender.wire == [|msg|, 0, 0, 0] + msg
  {
    RawFrame(msg);
    var frame := [|msg|, 0, 0, 0] + msg;
    var t := Enqueue(conf, RawCodec(), NewSender(), 0, Some((msg, 0)), (0, 0)).0;
    assert t.box.queue == [Slot(0, [Stamped(0, Item(msg, frame, NullEncrypt))])];
    FlushTurn(t, Accept(4 + |msg|), []);
    NothingBehind([Accept(4 + |msg|)]);
    NothingBefore(frame);
    assert frame[..|frame|] == frame;
    assert Idle(Send(t, Accept(4 + |msg|)));
  }

  /** A message above the limit is written without an error; only the reader reports it. */
  lemma OversizedIsWritten(conf: SocketConfig)
    ensures var r := Write(conf, RawCodec(), NewSender(), 0, Some(([7, 7], 0)), (0, 0), [Accept(6)]);
            && r.result == Ok(true) && r.sender.wire == [2, 0, 0, 0, 7, 7]
            && TryStep(RawDecoder(1), ReaderState(r.sender.wire, 0)).result == Err(PayloadSizeProhibitive)
  {
    WriteAlone(conf, [7, 7]);
    assert [2, 0, 0, 0] + [7, 7] == [2, 0, 0, 0, 7, 7];
    OversizedIsReadAfterAll();
  }

  /** An empty message is written without an error too, and the reader finds nothing. */
  lemma EmptyIsWrittenButNotRead(conf: SocketConfig)
    ensures var r := Write(conf, RawCodec(), NewSender(), 0, Some(([], 0)), (0, 0), [Accept(4)]);
            && r.result == Ok(true) && r.sender.wire == [0, 0, 0, 0]
            && TryStep(RawDecoder(1), ReaderState(r.sender.wire, 0)) == Step(EMPTY_READER, Ok(None))
  {
    WriteAlone(conf, []);
    SmallHeader(0);
    var wire: Bytes := [0, 0, 0, 0];
    NothingBehind(wire);
    assert wire[..4] == wire && wire[4..] == [];
  }

  /** After an oversized frame the reader does not report it again: it takes the header for the body. */
  lemma OversizedIsReadAfterAll()
    ensures var d := RawDecoder(1);
            var first := TryStep(d, ReaderState([2, 0, 0, 0, 7, 7], 0));
            && first == Step(ReaderState([2, 0, 0, 0, 7, 7], 2), Err(PayloadSizeProhibitive))
            && TryStep(d, first.state) == Step(ReaderState([0, 0, 7, 7], 0), Ok(Some([2, 0])))
  {
    var bytes: Bytes := [2, 0, 0, 0, 7, 7];
    SmallHeader(2);
    assert bytes[..4] == [2, 0, 0, 0] && bytes[..2] == [2, 0] && bytes[2..] == [0, 0, 7, 7];
  }

  /** A datagram that carries an empty message is ignored: the call that receives it finds nothing. */
  lemma EmptyDatagramVanishes(sender: UdpReceiver.Address)
    ensures var datagram := NullEncrypt.Encrypt(RawCodec(), 0, []).value;
            UdpReceiver.ReadLane(UdpReceiver.PAYLOADS, [], [UdpReceiver.Datagram(datagram, sender)]) ==
            UdpReceiver.LaneRead([], [], Ok(None))
  {
    var incoming := [UdpReceiver.Datagram([], sender)];
    assert incoming[1..] == [] && [] + UdpReceiver.Arrived(UdpReceiver.PAYLOADS, UdpReceiver.Message([])) == [];
    assert UdpReceiver.DrainSocket(UdpReceiver.PAYLOADS, [], []) == UdpReceiver.LaneRead([], [], Ok(None));
  }

  /**
   The context of a UDP socket, documented as changeable at any time, decrypts what is still buffered:
   of two datagrams received together, the second fails once the context is changed, and is gone.
   */
  lemma SwitchLosesBufferedDatagram(sender: UdpReceiver.Address)
    ensures var earlier, later := ToyKey(1), ToyKey(2);
            var datagram := AuthenticatedEncrypt(earlier).Encrypt(RawCodec(), 0, [7]).value;
            var both := [UdpReceiver.Datagram(datagram, sender), UdpReceiver.Datagram(datagram, sender)];
            var first := UdpReceiver.ReadLane(UdpReceiver.PAYLOADS, [], both);
            var second := UdpReceiver.ReadLane(UdpReceiver.PAYLOADS, first.buffer, []);
            && UdpReceiver.ReadCallResult(AuthenticatedDecrypt(earlier), RawCodec(), first.taken) == Ok(Some([7]))
            && UdpReceiver.ReadCallResult(AuthenticatedDecrypt(later), RawCodec(), second.taken) ==
                 Err(SocketError.Crypto)
            && second.buffer == []
  {
    var datagram := AuthenticatedEncrypt(ToyKey(1)).Encrypt(RawCodec(), 0, [7]).value;
    var one := UdpReceiver.Datagram(datagram, sender);
    ToyKeyOpens(1, 0, [7]);
    ToyKeyRejects(1, 2, 0, [7]);
    TwoReceived(one);
  }

  lemma TwoReceived(one: UdpReceiver.RecvReply)
    requires one.Datagram? && one.bytes != []
    ensures UdpReceiver.ReadLane(UdpReceiver.PAYLOADS, [], [one, one]) ==
            UdpReceiver.LaneRead([one.bytes], [], Ok(Some(one.bytes)))
    ensures UdpReceiver.ReadLane(UdpReceiver.PAYLOADS, [one.bytes], []) ==
            UdpReceiver.LaneRead([], [], Ok(Some(one.bytes)))
  {
    var b := one.bytes;
    assert [one, one][1..] == [one] && [one][1..] == [];
    var none: seq<Bytes> := [];
    assert none + [b] == [b] && [b] + [b] == [b, b] && [b, b][1..] == [b] && [b][1..] == none;
    assert UdpReceiver.DrainSocket(UdpReceiver.PAYLOADS, [b, b], []) == UdpReceiver.LaneRead([b], [], Ok(Some(b)));
    assert UdpReceiver.DrainSocket(UdpReceiver.PAYLOADS, [b], [one]) ==
           UdpReceiver.DrainSocket(UdpReceiver.PAYLOADS, [b, b], []);
  }

  /**
   The context of a TCP socket is documented in the same words.  Of two frames received together, the
   second fails once the context is changed, and goes on failing.
   */
  lemma SwitchFailsOnHeldFrame()
    ensures var earlier := Decoder(AuthenticatedDecrypt(ToyKey(1)), RawCodec(), 100);
            var later := Decoder(AuthenticatedDecrypt(ToyKey(2)), RawCodec(), 100);
            var frame := Serialized(RawCodec(), AuthenticatedEncrypt(ToyKey(1)), (0, 0), [7]);
            && frame.Ok?
            && var first := TryStep(earlier, ReaderState(frame.value + frame.value, 0));
               && first == Step(ReaderState(frame.value, 0), Ok(Some([7])))
               && TryStep(later, first.state) == Step(first.state, Err(SocketError.Crypto))
  {
    var earlier := Decoder(AuthenticatedDecrypt(ToyKey(1)), RawCodec(), 100);
    var enc := AuthenticatedEncrypt(ToyKey(1));
    ToyKeysPaired(1, 2, 0, [7]);
    ToyKeyOpens(1, 0, [7]);
    ToyKeyOpens(1, 0, EncodeU32(49));
    ToyKeyRejects(1, 2, 0, EncodeU32(49));
    assert enc.Encrypt(RawCodec(), 0, [7]).Ok? && |enc.Encrypt(RawCodec(), 0, [7]).value| == 49;
    var header := ToyKey(1).seal(0, EncodeU32(49)).value;
    var frame := Serialized(RawCodec(), enc, (0, 0), [7]).value;
    assert frame == header + enc.Encrypt(RawCodec(), 0, [7]).value && frame[..52] == header;
    FrameReadsBackIff(earlier, enc, (0, 0), [7]);
    TryWholeFrame(earlier, frame, [7], frame);
  }

  // ---------------------------------------------------------------- writes of datagrams

  ghost function PostByte(conf: SocketConfig, lane: UdpSender.SendLane<Bytes>, b: Byte, p: Priority,
                          replies: seq<UdpSender.SendReply>): UdpSender.LaneFlushed<Bytes>
    requires WellFormed(lane.box.queue)
  {
    UdpSender.WriteLane(conf, UdpSockets.PAYLOAD_SIZE, lane, 0, Some((Ok([b]), p)), replies)
  }

  /** A lane with a datagram in progress and this queue, at clock reading 0. */
  ghost predicate Posting(lane: UdpSender.SendLane<Bytes>, b: Byte, queue: seq<Slot<Bytes>>, sent: seq<Bytes>) {
    lane.current == Some([b]) && lane.box.queue == queue && lane.sent == sent && lane.box.now == 0
  }

  lemma FirstPost(conf: SocketConfig)
    ensures Posting(PostByte(conf, UdpSender.EmptyLane(), 8, 1, []).lane, 8, [], [])
  {
    var t := UdpSender.QueueLane(conf, UdpSender.EmptyLane<Bytes>(), 0, Some((Ok([8]), 1)));
    assert t.box.queue == [Slot(1, [Stamped(0, [8])])];
  }

  lemma SecondPost(conf: SocketConfig, lane: UdpSender.SendLane<Bytes>)
    requires Posting(lane, 8, [], [])
    ensures Posting(PostByte(conf, lane, 9, 1, []).lane, 8, [Slot(1, [Stamped(0, [9])])], [])
  {
    var t := UdpSender.QueueLane(conf, lane, 0, Some((Ok([9]), 1)));
    assert t.box.queue == [Slot(1, [Stamped(0, [9])])];
  }

  lemma ThirdPost(conf: SocketConfig, lane: UdpSender.SendLane<Bytes>)
    requires Posting(lane, 8, [Slot(1, [Stamped(0, [9])])], [])
    ensures var r := PostByte(conf, lane, 7, 0, [UdpSender.Sent(1), UdpSender.Sent(1)]);
            r.result == Ok(false) && Posting(r.lane, 9, [], [[8], [7]])
  {
    var t := UdpSender.QueueLane(conf, lane, 0, Some((Ok([7]), 0)));
    assert lane.box.queue[1..] == [] && Survivors(lane.box.queue, conf, 0) == lane.box.queue;
    assert t.box.queue == [Slot(0, [Stamped(0, [7])]), Slot(1, [Stamped(0, [9])])];
    ThirdPosted(t);
  }

  lemma ThirdPosted(t: UdpSender.SendLane<Bytes>)
    requires Posting(t, 8, [Slot(0, [Stamped(0, [7])]), Slot(1, [Stamped(0, [9])])], [])
    ensures var r := UdpSender.FlushLane(UdpSockets.PAYLOAD_SIZE, t, [UdpSender.Sent(1), UdpSender.Sent(1)]);
            r.result == Ok(false) && Posting(r.lane, 9, [], [[8], [7]])
  {
    var one := UdpSender.Sent(1);
    var t1 := UdpSender.SendTurn(UdpSockets.PAYLOAD_SIZE, t, one);
    assert t1.current == None && t1.box.queue == t.box.queue && t1.sent == [[8]];
    var t2 := UdpSender.SendTurn(UdpSockets.PAYLOAD_SIZE, t1, one);
    assert t2.current == None && t2.box.queue == t.box.queue[1..] && t2.sent == [[8], [7]];
    assert [one, one][1..] == [one] && [one][1..] == [];
  }

  /** `Ok(false)` although the datagram that the call was given has been sent in full. */
  lemma FalseThoughFullySent(conf: SocketConfig)
    ensures var lane1 := PostByte(conf, UdpSender.EmptyLane(), 8, 1, []).lane;
            && WellFormed(lane1.box.queue)
            && var lane2 := PostByte(conf, lane1, 9, 1, []).lane;
               && WellFormed(lane2.box.queue)
               && var r := PostByte(conf, lane2, 7, 0, [UdpSender.Sent(1), UdpSender.Sent(1)]);
                  r.result == Ok(false) && r.lane.sent == [[8], [7]]
  {
    FirstPost(conf);
    var lane1 := PostByte(conf, UdpSender.EmptyLane(), 8, 1, []).lane;
    SecondPost(conf, lane1);
    ThirdPost(conf, PostByte(conf, lane1, 9, 1, []).lane);
  }
}
