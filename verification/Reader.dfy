/** The incremental reader of length-delimited frames. */
module Reader {
  import opened Base
  import opened Crypto
  import opened Framing

  /** Bytes not consumed yet, and the size of the announced body (0 while a header is awaited). */
  datatype ReaderState = ReaderState(buffer: Bytes, readLen: nat)
  {
    ghost function Put(bytes: Bytes): ReaderState {
      this.(buffer := buffer + bytes)
    }
  }

  ghost const EMPTY_READER: ReaderState := ReaderState([], 0)

  datatype Step<+V> = Step(state: ReaderState, result: Res<V>)

  ghost function HeaderStep<T>(d: Decoder<T>, st: ReaderState): Step<bool> {
    var h := d.HeaderLen();
    if |st.buffer| < h then Step(st, Ok(false))
    else
      match d.Header(st.buffer[..h])
      case Err(e) => Step(st, Err(e))
      case Ok(n) =>
        if n > d.maxPayloadSize then Step(st.(readLen := n), Err(PayloadSizeProhibitive))
        else Step(ReaderState(st.buffer[h..], n), Ok(n > 0))
  }

  ghost function BodyStep<T>(d: Decoder<T>, st: ReaderState): Step<Option<T>> {
    if st.readLen > |st.buffer| then Step(st, Ok(None))
    else
      match d.Body(st.buffer[..st.readLen])
      case Err(e) => Step(st, Err(e))
      case Ok(m) => Step(ReaderState(st.buffer[st.readLen..], 0), Ok(Some(m)))
  }

  ghost function TryStep<T>(d: Decoder<T>, st: ReaderState): Step<Option<T>> {
    if st.readLen > 0 then BodyStep(d, st)
    else
      var header := HeaderStep(d, st);
      match header.result
      case Err(e) => Step(header.state, Err(e))
      case Ok(false) => Step(header.state, Ok(None))
      case Ok(true) => BodyStep(d, header.state)
  }

  // ---------------------------------------------------------------- the reader itself

  class LenDelimitedReader<T> {
    var readBuffer: Bytes
    var readLen: nat
    const maxPayloadSize: nat
    var decCtx: DecryptContext
    const codec: Codec<T>

    ghost function State(): ReaderState
      reads this
    {
      ReaderState(readBuffer, readLen)
    }

    ghost function Dec(): Decoder<T>
      reads this
    {
      Decoder(decCtx, codec, maxPayloadSize)
    }

    constructor (maxPayloadSize: nat, codec: Codec<T>)
      ensures State() == EMPTY_READER && Dec() == Decoder(NullDecrypt, codec, maxPayloadSize)
    {
      readBuffer := [];
      readLen := 0;
      this.maxPayloadSize := maxPayloadSize;
      this.codec := codec;
      decCtx := NullDecrypt;
    }

    method PutBuf(buf: Bytes)
      modifies this`readBuffer
      ensures State() == old(State()).Put(buf)
    {
      readBuffer := readBuffer + buf;
    }

    method TryRead() returns (r: Res<Option<T>>)
      modifies this`readBuffer, this`readLen
      ensures Step(State(), r) == TryStep(Dec(), old(State()))
    {
      if readLen == 0 {
        var complete := TryReadHeader();
        if complete.Err? {
          return Err(complete.error);
        }
        if !complete.value {
          return Ok(None);
        }
      }
      if readLen > |readBuffer| {
        return Ok(None);
      }
      var result := decCtx.Decrypt(codec, readBuffer[..readLen]);
      if result.Err? {
        return Err(result.error);
      }
      MarkRead();
      r := Ok(Some(result.value));
    }

    method TryReadHeader() returns (r: Res<bool>)
      modifies this`readBuffer, this`readLen
      ensures Step(State(), r) == HeaderStep(Dec(), old(State()))
    {
      if |readBuffer| < decCtx.EncryptedSizeLen() {
        return Ok(false);
      }
      var dataLen := decCtx.Decrypt(U32Codec(), readBuffer[..decCtx.EncryptedSizeLen()]);
      if dataLen.Err? {
        return Err(dataLen.error);
      }
      readLen := dataLen.value;
      if readLen > maxPayloadSize {
        return Err(PayloadSizeProhibitive);
      }
      readBuffer := readBuffer[decCtx.EncryptedSizeLen()..];
      r := Ok(readLen > 0);
    }

    method MarkRead()
      requires readLen <= |readBuffer|
      modifies this`readBuffer, this`readLen
      ensures State() == ReaderState(old(readBuffer)[old(readLen)..], 0)
    {
      readBuffer := readBuffer[readLen..];
      readLen := 0;
    }
  }

  // ---------------------------------------------------------------- against the one-shot parse

  /** The one-shot parse of what the reader still holds. */
  ghost function Remaining<T>(d: Decoder<T>, st: ReaderState): Parsed<T> {
    if st.readLen == 0 then ParseAll(d, st.buffer)
    else if st.readLen > |st.buffer| then Parsed([], None)
    else
      match d.Body(st.buffer[..st.readLen])
      case Err(e) => Parsed([], Some(e))
      case Ok(m) => ParseAll(d, st.buffer[st.readLen..]).After([m])
  }

  /** How one attempt moves along the one-shot parse, whatever bytes come later. */
  ghost predicate Follows<T>(d: Decoder<T>, before: ReaderState, step: Step<Option<T>>, more: Bytes) {
    Remaining(d, before.Put(more)) ==
    match step.result
    case Ok(Some(m)) => Remaining(d, step.state.Put(more)).After([m])
    case Ok(None) => Remaining(d, step.state.Put(more))
    case Err(e) => Parsed([], Some(e))
  }

  lemma BodyFollows<T>(d: Decoder<T>, st: ReaderState, more: Bytes)
    requires st.readLen > 0
    ensures Follows(d, st, BodyStep(d, st), more)
  {
    if st.readLen <= |st.buffer| {
      assert (st.buffer + more)[..st.readLen] == st.buffer[..st.readLen];
      assert (st.buffer + more)[st.readLen..] == st.buffer[st.readLen..] + more;
    }
  }

  lemma HeaderPrefix(bytes: Bytes, more: Bytes, h: nat)
    requires h <= |bytes|
    ensures (bytes + more)[..h] == bytes[..h] && (bytes + more)[h..] == bytes[h..] + more
  {
  }

  /** A complete header in front: what the parse does with it and with the rest. */
  lemma ParseHeader<T>(d: Decoder<T>, all: Bytes)
    requires |all| >= d.HeaderLen()
    ensures match d.Header(all[..d.HeaderLen()])
            case Err(e) => ParseAll(d, all) == Parsed([], Some(e))
            case Ok(n) =>
              if n > d.maxPayloadSize then ParseAll(d, all) == Parsed([], Some(PayloadSizeProhibitive))
              else ParseAll(d, all) == Remaining(d, ReaderState(all[d.HeaderLen()..], n))
  {
    var h := d.HeaderLen();
    if d.Header(all[..h]).Ok? {
      var n := d.Header(all[..h]).value;
      if h + n <= |all| {
        assert all[h..][..n] == all[h..h + n];
        assert all[h..][n..] == all[h + n..];
      }
    }
  }

  /** Reading a header does not change what remains to be parsed. */
  lemma HeaderFollows<T>(d: Decoder<T>, st: ReaderState, more: Bytes)
    requires st.readLen == 0
    ensures match HeaderStep(d, st).result
            case Ok(_) => Remaining(d, st.Put(more)) == Remaining(d, HeaderStep(d, st).state.Put(more))
            case Err(e) => Remaining(d, st.Put(more)) == Parsed([], Some(e))
  {
    if |st.buffer| >= d.HeaderLen() {
      HeaderPrefix(st.buffer, more, d.HeaderLen());
      ParseHeader(d, st.buffer + more);
    }
  }

  lemma TryFollows<T>(d: Decoder<T>, st: ReaderState, more: Bytes)
    ensures Follows(d, st, TryStep(d, st), more)
  {
    if st.readLen > 0 {
      BodyFollows(d, st, more);
    } else {
      HeaderFollows(d, st, more);
      if HeaderStep(d, st).result == Ok(true) {
        BodyFollows(d, HeaderStep(d, st).state, more);
      }
    }
  }

  // ---------------------------------------------------------------- chunking independence

  /** One call on a reader: bytes arrive, or a read is attempted. */
  datatype ReaderOp = PutOp(bytes: Bytes) | TryOp

  /** What a sequence of calls has led to, up to the first error. */
  datatype Trace<+T> = Trace(state: ReaderState, fed: Bytes, delivered: seq<T>, error: Option<SocketError>)

  ghost function Call<T>(d: Decoder<T>, t: Trace<T>, op: ReaderOp): Trace<T> {
    if t.error.Some? then t
    else
      match op
      case PutOp(bytes) => t.(state := t.state.Put(bytes), fed := t.fed + bytes)
      case TryOp =>
        var step := TryStep(d, t.state);
        match step.result
        case Ok(Some(m)) => t.(state := step.state, delivered := t.delivered + [m])
        case Ok(None) => t.(state := step.state)
        case Err(e) => t.(state := step.state, error := Some(e))
  }

  ghost function Calls<T>(d: Decoder<T>, ops: seq<ReaderOp>): Trace<T> {
    if ops == [] then Trace(EMPTY_READER, [], [], None)
    else Call(d, Calls(d, ops[..|ops| - 1]), ops[|ops| - 1])
  }

  /** Whatever is fed later, a one-shot parse of everything starts with what was delivered. */
  ghost predicate OnCourse<T>(d: Decoder<T>, t: Trace<T>, more: Bytes) {
    ParseAll(d, t.fed + more) ==
    match t.error
    case None => Remaining(d, t.state.Put(more)).After(t.delivered)
    case Some(e) => Parsed(t.delivered, Some(e))
  }

  lemma PutStaysOnCourse<T>(d: Decoder<T>, t: Trace<T>, bytes: Bytes, more: Bytes)
    requires t.error.None? && OnCourse(d, t, bytes + more)
    ensures OnCourse(d, Call(d, t, PutOp(bytes)), more)
  {
    ConcatAssociative(t.fed, bytes, more);
    ConcatAssociative(t.state.buffer, bytes, more);
  }

  lemma TryStaysOnCourse<T>(d: Decoder<T>, t: Trace<T>, more: Bytes)
    requires t.error.None? && OnCourse(d, t, more)
    ensures OnCourse(d, Call(d, t, TryOp), more)
  {
    TryFollows(d, t.state, more);
    var step := TryStep(d, t.state);
    match step.result
    case Ok(None) =>
    case Ok(Some(m)) => AfterTwice(Remaining(d, step.state.Put(more)), t.delivered, [m]);
    case Err(e) => assert t.delivered + [] == t.delivered;
  }

  lemma {:induction false} CallsStayOnCourse<T>(d: Decoder<T>, ops: seq<ReaderOp>, more: Bytes)
    ensures OnCourse(d, Calls(d, ops), more)
  {
    if ops == [] {
      NoFrames(d, more);
      assert [] + more == more;
    } else {
      var t, op := Calls(d, ops[..|ops| - 1]), ops[|ops| - 1];
      if t.error.None? && op.PutOp? {
        CallsStayOnCourse(d, ops[..|ops| - 1], op.bytes + more);
        PutStaysOnCourse(d, t, op.bytes, more);
      } else {
        CallsStayOnCourse(d, ops[..|ops| - 1], more);
        if t.error.None? {
          TryStaysOnCourse(d, t, more);
        }
      }
    }
  }

  /** All bytes that the calls feed. */
  ghost function AllPut(ops: seq<ReaderOp>): Bytes {
    if ops == [] then []
    else AllPut(ops[..|ops| - 1]) + if ops[|ops| - 1].PutOp? then ops[|ops| - 1].bytes else []
  }

  lemma PrefixGrows(a: Bytes, b: Bytes, more: Bytes)
    requires a <= b
    ensures a <= b + more
  {
  }

  lemma {:induction false} FedOfAllPut<T>(d: Decoder<T>, ops: seq<ReaderOp>)
    ensures Calls(d, ops).fed <= AllPut(ops)
    ensures Calls(d, ops).error.None? ==> Calls(d, ops).fed == AllPut(ops)
    ensures |Calls(d, ops).state.buffer| <= |AllPut(ops)|
  {
    if ops != [] {
      var t, op := Calls(d, ops[..|ops| - 1]), ops[|ops| - 1];
      FedOfAllPut(d, ops[..|ops| - 1]);
      if op.PutOp? {
        PrefixGrows(t.fed, AllPut(ops[..|ops| - 1]), op.bytes);
      } else {
        NothingBehind(AllPut(ops[..|ops| - 1]));
      }
    }
  }

  /**
   Chunking independence, safety: for arbitrary bytes in arbitrary pieces, with attempts to read in
   between at will, the messages delivered are a prefix of the one-shot parse of all the bytes,
   and an error is reported only if it is that parse's error, after all its messages.
   */
  lemma DeliveredIsPrefixOfParse<T>(d: Decoder<T>, ops: seq<ReaderOp>)
    ensures var t := Calls(d, ops);
            var whole := ParseAll(d, AllPut(ops));
            && t.delivered <= whole.msgs
            && (t.error.Some? ==> whole == Parsed(t.delivered, t.error))
  {
    var t := Calls(d, ops);
    FedOfAllPut(d, ops);
    var later := AllPut(ops)[|t.fed|..];
    CallsStayOnCourse(d, ops, later);
    assert t.fed + later == AllPut(ops);
  }

  ghost function Tries(n: nat): seq<ReaderOp> {
    seq(n, _ => TryOp)
  }

  /** An attempt that consumes nothing leaves a reader that holds no complete frame. */
  lemma StuckOrProgress<T>(d: Decoder<T>, st: ReaderState)
    ensures TryStep(d, st).result.Ok? ==>
              || |TryStep(d, st).state.buffer| < |st.buffer|
              || (TryStep(d, st) == Step(st, Ok(None)) && Remaining(d, st) == Parsed([], None))
  {
  }

  lemma TriesSnoc<T>(d: Decoder<T>, ops: seq<ReaderOp>, n: nat)
    ensures Calls(d, ops + Tries(n + 1)) == Call(d, Calls(d, ops + Tries(n)), TryOp)
    ensures AllPut(ops + Tries(n + 1)) == AllPut(ops + Tries(n))
  {
    var all := ops + Tries(n + 1);
    assert all[|all| - 1] == TryOp && all[..|all| - 1] == ops + Tries(n);
  }

  lemma NoTries(ops: seq<ReaderOp>)
    ensures ops + Tries(0) == ops
  {
  }

  lemma {:induction false} TriesPutNothing<T>(d: Decoder<T>, ops: seq<ReaderOp>, n: nat)
    ensures AllPut(ops + Tries(n)) == AllPut(ops)
  {
    if n == 0 {
      NoTries(ops);
    } else {
      TriesPutNothing(d, ops, n - 1);
      TriesSnoc(d, ops, n - 1);
    }
  }

  /** The reader is stuck, or it has failed, or it has shrunk at every attempt. */
  ghost predicate Exhausted<T>(d: Decoder<T>, t: Trace<T>, size: nat, tries: nat) {
    t.error.None? && |t.state.buffer| + tries > size ==>
      Remaining(d, t.state) == Parsed([], None) && TryStep(d, t.state) == Step(t.state, Ok(None))
  }

  lemma TryExhausts<T>(d: Decoder<T>, t: Trace<T>, size: nat, tries: nat)
    requires Exhausted(d, t, size, tries)
    ensures Exhausted(d, Call(d, t, TryOp), size, tries + 1)
  {
    StuckOrProgress(d, t.state);
  }

  lemma {:induction false} EnoughTriesExhaust<T>(d: Decoder<T>, ops: seq<ReaderOp>, n: nat)
    ensures Exhausted(d, Calls(d, ops + Tries(n)), |Calls(d, ops).state.buffer|, n)
  {
    if n == 0 {
      NoTries(ops);
    } else {
      EnoughTriesExhaust(d, ops, n - 1);
      TriesSnoc(d, ops, n - 1);
      TryExhausts(d, Calls(d, ops + Tries(n - 1)), |Calls(d, ops).state.buffer|, n - 1);
    }
  }

  /** Chunking independence, completeness: enough attempts reach exactly the one-shot parse. */
  lemma EnoughTriesReachParse<T>(d: Decoder<T>, ops: seq<ReaderOp>, n: nat)
    requires n > |AllPut(ops)|
    ensures var t := Calls(d, ops + Tries(n));
            Parsed(t.delivered, t.error) == ParseAll(d, AllPut(ops))
  {
    FedOfAllPut(d, ops);
    FedOfAllPut(d, ops + Tries(n));
    TriesPutNothing(d, ops, n);
    EnoughTriesExhaust(d, ops, n);
    DeliveredIsPrefixOfParse(d, ops + Tries(n));
    var t := Calls(d, ops + Tries(n));
    CallsStayOnCourse(d, ops + Tries(n), []);
    assert t.fed + [] == t.fed && t.state.buffer + [] == t.state.buffer;
  }

  /** Two readers fed the same bytes, however cut, end with the same messages and the same error. */
  lemma ChunkingIndependence<T>(d: Decoder<T>, ops1: seq<ReaderOp>, ops2: seq<ReaderOp>, n: nat)
    requires AllPut(ops1) == AllPut(ops2) && n > |AllPut(ops1)|
    ensures Calls(d, ops1 + Tries(n)).delivered == Calls(d, ops2 + Tries(n)).delivered
    ensures Calls(d, ops1 + Tries(n)).error == Calls(d, ops2 + Tries(n)).error
  {
    EnoughTriesReachParse(d, ops1, n);
    EnoughTriesReachParse(d, ops2, n);
  }

  // ---------------------------------------------------------------- reading frames

  lemma TryWholeFrame<T>(d: Decoder<T>, frame: Bytes, msg: T, rest: Bytes)
    requires IsFrame(d, frame, msg)
    ensures TryStep(d, ReaderState(frame + rest, 0)) == Step(ReaderState(rest, 0), Ok(Some(msg)))
  {
    FirstFrameLocal(d, frame, rest);
    var h := d.HeaderLen();
    assert (frame + rest)[h..][..|frame| - h] == (frame + rest)[h..|frame|];
    assert (frame + rest)[h..][|frame| - h..] == rest;
  }

  lemma FeedOnce<T>(d: Decoder<T>, bytes: Bytes)
    ensures Calls(d, [PutOp(bytes)] + Tries(0)) == Trace(ReaderState(bytes, 0), bytes, [], None)
  {
    assert [PutOp(bytes)] + Tries(0) == [] + [PutOp(bytes)];
    CallsSnoc(d, [], PutOp(bytes));
    assert [] + bytes == bytes;
  }

  lemma TriesHead(ops: seq<ReaderOp>, n: nat)
    requires n > 0
    ensures ops + Tries(n) == ops + [TryOp] + Tries(n - 1)
  {
  }

  lemma TryNextFrame<T>(d: Decoder<T>, frames: seq<Bytes>, msg: T, suffix: Bytes, t: Trace<T>)
    requires frames != [] && IsFrame(d, frames[0], msg)
    requires t.state == ReaderState(Concat(frames) + suffix, 0) && t.error.None?
    ensures Call(d, t, TryOp) ==
            t.(state := ReaderState(Concat(frames[1..]) + suffix, 0), delivered := t.delivered + [msg])
  {
    ConcatHead(frames, suffix);
    TryWholeFrame(d, frames[0], msg, Concat(frames[1..]) + suffix);
  }

  lemma {:induction false} TryFrames<T>(d: Decoder<T>, ops: seq<ReaderOp>, frames: seq<Bytes>, msgs: seq<T>,
                                        suffix: Bytes)
    requires AreFrames(d, frames, msgs)
    requires Calls(d, ops).state == ReaderState(Concat(frames) + suffix, 0) && Calls(d, ops).error.None?
    ensures var t := Calls(d, ops + Tries(|frames|));
            && t.state == ReaderState(suffix, 0)
            && t.delivered == Calls(d, ops).delivered + msgs && t.error.None?
    decreases |frames|
  {
    if frames == [] {
      NoTries(ops);
      assert Concat(frames) + suffix == suffix;
    } else {
      FramesTail(d, frames, msgs);
      CallsSnoc(d, ops, TryOp);
      TryNextFrame(d, frames, msgs[0], suffix, Calls(d, ops));
      TriesHead(ops, |frames|);
      TryFrames(d, ops + [TryOp], frames[1..], msgs[1..], suffix);
      HeadTail(msgs);
      ConcatAssociative(Calls(d, ops).delivered, [msgs[0]], msgs[1..]);
    }
  }

  lemma CallsSnoc<T>(d: Decoder<T>, ops: seq<ReaderOp>, op: ReaderOp)
    ensures Calls(d, ops + [op]) == Call(d, Calls(d, ops), op)
  {
    assert (ops + [op])[..|ops|] == ops;
  }

  /**
   Frame round trip: fed the concatenated frames and any suffix, the reader delivers exactly the
   messages, one attempt each, and keeps exactly the suffix.
   */
  lemma FramesAreDelivered<T>(d: Decoder<T>, frames: seq<Bytes>, msgs: seq<T>, suffix: Bytes)
    requires AreFrames(d, frames, msgs)
    ensures var t := Calls(d, [PutOp(Concat(frames) + suffix)] + Tries(|frames|));
            t.delivered == msgs && t.state == ReaderState(suffix, 0) && t.error == None
  {
    var ops := [PutOp(Concat(frames) + suffix)];
    FeedOnce(d, Concat(frames) + suffix);
    assert ops + Tries(0) == ops;
    TryFrames(d, ops, frames, msgs, suffix);
  }

  /** A message, the context that encrypts it and the random inputs used. */
  datatype Outgoing<T> = Outgoing(msg: T, enc: EncryptContext, nonces: (nat, nat))

  /** Each frame is what the writer makes of its message, under some context that the reader's goes with. */
  ghost predicate AreSerialized<T>(d: Decoder<T>, frames: seq<Bytes>, outgoing: seq<Outgoing<T>>) {
    && |frames| == |outgoing|
    && forall i :: 0 <= i < |frames| ==>
         && Paired(outgoing[i].enc, d.ctx)
         && Serialized(d.codec, outgoing[i].enc, outgoing[i].nonces, outgoing[i].msg) == Ok(frames[i])
  }

  ghost predicate AllFit<T>(d: Decoder<T>, outgoing: seq<Outgoing<T>>) {
    forall i :: 0 <= i < |outgoing| ==> FitsIn(d, outgoing[i])
  }

  ghost predicate FitsIn<T>(d: Decoder<T>, out: Outgoing<T>) {
    var body := out.enc.Encrypt(d.codec, out.nonces.0, out.msg);
    body.Ok? && Fits(d.maxPayloadSize, body.value)
  }

  ghost function MessagesOf<T>(outgoing: seq<Outgoing<T>>): (r: seq<T>)
    ensures |r| == |outgoing|
    ensures forall i :: 0 <= i < |r| ==> r[i] == outgoing[i].msg
  {
    seq(|outgoing|, i requires 0 <= i < |outgoing| => outgoing[i].msg)
  }

  /** Written messages are frames of their own, one by one, if and only if all of them fit. */
  lemma SerializedAreFramesIff<T(!new)>(d: Decoder<T>, frames: seq<Bytes>, outgoing: seq<Outgoing<T>>)
    requires Lawful(d.codec) && AreSerialized(d, frames, outgoing)
    ensures AreFrames(d, frames, MessagesOf(outgoing)) <==> AllFit(d, outgoing)
  {
    forall i | 0 <= i < |frames|
      ensures IsFrame(d, frames[i], MessagesOf(outgoing)[i]) <==> FitsIn(d, outgoing[i])
    {
      FrameReadsBackIff(d, outgoing[i].enc, outgoing[i].nonces, outgoing[i].msg);
    }
  }

  /**
   Write and read: whatever messages are written one behind the other, if they fit, an empty reader that
   is fed their bytes and any suffix delivers exactly these messages, in order, and keeps the suffix.
   */
  lemma WrittenIsDelivered<T(!new)>(d: Decoder<T>, frames: seq<Bytes>, outgoing: seq<Outgoing<T>>, suffix: Bytes)
    requires Lawful(d.codec) && AreSerialized(d, frames, outgoing) && AllFit(d, outgoing)
    ensures ParseAll(d, Concat(frames) + suffix) == ParseAll(d, suffix).After(MessagesOf(outgoing))
    ensures var t := Calls(d, [PutOp(Concat(frames) + suffix)] + Tries(|frames|));
            t.delivered == MessagesOf(outgoing) && t.state == ReaderState(suffix, 0) && t.error == None
  {
    SerializedAreFramesIff(d, frames, outgoing);
    FramesRoundTrip(d, frames, MessagesOf(outgoing), suffix);
    FramesAreDelivered(d, frames, MessagesOf(outgoing), suffix);
  }

  /**
   Written alone, a message comes out of an empty reader, leaving it empty, if and only if its
   encrypted form is not empty, not above the receiver's limit and shorter than 2^32 bytes.
   */
  lemma AloneDeliveredIff<T(!new)>(d: Decoder<T>, enc: EncryptContext, nonces: (nat, nat), msg: T)
    requires Paired(enc, d.ctx) && Lawful(d.codec)
    requires Serialized(d.codec, enc, nonces, msg).Ok?
    ensures TryStep(d, EMPTY_READER.Put(Serialized(d.codec, enc, nonces, msg).value)) ==
            Step(EMPTY_READER, Ok(Some(msg)))
            <==> Fits(d.maxPayloadSize, enc.Encrypt(d.codec, nonces.0, msg).value)
  {
    var frame := Serialized(d.codec, enc, nonces, msg).value;
    var body := enc.Encrypt(d.codec, nonces.0, msg).value;
    FrameReadsBackIff(d, enc, nonces, msg);
    assert [] + frame == frame && frame + [] == frame;
    if Fits(d.maxPayloadSize, body) {
      TryWholeFrame(d, frame, msg, []);
    } else {
      MisfitNotDelivered(d, enc, nonces, msg);
    }
  }

  lemma MisfitNotDelivered<T(!new)>(d: Decoder<T>, enc: EncryptContext, nonces: (nat, nat), msg: T)
    requires Paired(enc, d.ctx) && Lawful(d.codec)
    requires Serialized(d.codec, enc, nonces, msg).Ok?
    requires !Fits(d.maxPayloadSize, enc.Encrypt(d.codec, nonces.0, msg).value)
    ensures TryStep(d, ReaderState(Serialized(d.codec, enc, nonces, msg).value, 0)) != Step(EMPTY_READER, Ok(Some(msg)))
  {
    SerializedParts(d, enc, nonces, msg);
    var frame := Serialized(d.codec, enc, nonces, msg).value;
    var body := enc.Encrypt(d.codec, nonces.0, msg).value;
    var n := LengthHeader(body);
    assert |body| >= U32_RANGE ==> n < |body|;
    assert |body| < U32_RANGE ==> n == |body|;
    if 0 < n <= d.maxPayloadSize {
      assert |frame[d.HeaderLen()..][n..]| > 0;
    }
  }

  /**
   An error is reported again by every further attempt if and only if it is not that of an oversized
   frame: then the announced size is kept as if its header had been consumed.
   */
  lemma ErrorRepeatsIff<T>(d: Decoder<T>, st: ReaderState)
    requires TryStep(d, st).result.Err?
    ensures TryStep(d, TryStep(d, st).state).result == TryStep(d, st).result
            <==> TryStep(d, st).result.error != PayloadSizeProhibitive
    ensures var after := TryStep(d, st).state;
            TryStep(d, st).result.error == PayloadSizeProhibitive && after.readLen > |after.buffer| ==>
              TryStep(d, after) == Step(after, Ok(None))
  {
  }

  // ---------------------------------------------------------------- zero-length frames

  /** The reader stands at the header of a zero-length frame. */
  ghost predicate AtZeroFrame<T>(d: Decoder<T>, st: ReaderState) {
    st.readLen == 0 && FirstFrame(d, st.buffer).Skip?
  }

  /** The reader holds neither a complete frame nor a faulty one. */
  ghost predicate Waiting<T>(d: Decoder<T>, st: ReaderState) {
    if st.readLen > 0 then st.readLen > |st.buffer| else FirstFrame(d, st.buffer).Incomplete?
  }

  /** What the reader holds once a zero-length header is consumed. */
  ghost function PastZeroFrame<T>(d: Decoder<T>, st: ReaderState): ReaderState
    requires AtZeroFrame(d, st)
  {
    ReaderState(st.buffer[d.HeaderLen()..], 0)
  }

  /**
   An attempt finds no message exactly when the reader waits for bytes or stands at a zero-length
   frame; in the second case one or more complete frames may follow unnoticed.
   */
  lemma NothingReadIff<T>(d: Decoder<T>, st: ReaderState)
    ensures TryStep(d, st).result == Ok(None) <==> Waiting(d, st) || AtZeroFrame(d, st)
    ensures AtZeroFrame(d, st) ==> TryStep(d, st).state == PastZeroFrame(d, st)
    ensures Waiting(d, st) ==> Waiting(d, TryStep(d, st).state)
    ensures Waiting(d, st) ==> Remaining(d, st) == Parsed([], None)
  {
    if st.readLen == 0 && |st.buffer| >= d.HeaderLen() && d.Header(st.buffer[..d.HeaderLen()]).Ok? {
      var h, n := d.HeaderLen(), d.Header(st.buffer[..d.HeaderLen()]).value;
      if 0 < n <= d.maxPayloadSize && h + n <= |st.buffer| {
        assert st.buffer[h..][..n] == st.buffer[h..h + n];
      }
    }
  }

  /** What stands behind the zero-length frames at the front. */
  ghost function BehindZeroFrames<T>(d: Decoder<T>, bytes: Bytes): Bytes
    decreases |bytes|
  {
    match FirstFrame(d, bytes)
    case Skip(k) => BehindZeroFrames(d, bytes[k..])
    case _ => bytes
  }

  /** There is something to read if and only if a complete or faulty frame stands there. */
  lemma {:induction false} SomethingToReadIff<T>(d: Decoder<T>, bytes: Bytes)
    ensures ParseAll(d, bytes) == Parsed([], None) <==> FirstFrame(d, BehindZeroFrames(d, bytes)).Incomplete?
    decreases |bytes|
  {
    if FirstFrame(d, bytes).Skip? {
      SomethingToReadIff(d, bytes[FirstFrame(d, bytes).size..]);
    }
  }

  /**
   What an attempt takes out of the buffer: the rest of the frame that it delivers, or else nothing
   or one whole header, whose number it keeps.
   */
  lemma AttemptTakes<T>(d: Decoder<T>, st: ReaderState) returns (k: nat)
    ensures var step, h := TryStep(d, st), d.HeaderLen();
            && k <= |st.buffer| && step.state.buffer == st.buffer[k..]
            && match step.result
               case Ok(Some(_)) =>
                 if st.readLen > 0 then k == st.readLen
                 else h <= k && d.Header(st.buffer[..h]) == Ok(k - h)
               case _ => k == 0 || (k == h && st.readLen == 0 && d.Header(st.buffer[..h]) == Ok(step.state.readLen))
  {
    var step := TryStep(d, st);
    k := |st.buffer| - |step.state.buffer|;
    if st.readLen == 0 && Delivers(step.result) {
      var behind := st.buffer[d.HeaderLen()..];
      assert behind[k - d.HeaderLen()..] == st.buffer[k..];
    }
  }

  ghost predicate Delivers<T>(r: Res<Option<T>>) {
    r.Ok? && r.value.Some?
  }

  /** No zero-length frame is met before the bytes end or turn out faulty. */
  ghost predicate ZeroFree<T>(d: Decoder<T>, bytes: Bytes)
    decreases |bytes|
  {
    match FirstFrame(d, bytes)
    case Skip(_) => false
    case Whole(_, k) => ZeroFree(d, bytes[k..])
    case _ => true
  }

  ghost predicate ZeroFreeFrom<T>(d: Decoder<T>, st: ReaderState) {
    if st.readLen == 0 then ZeroFree(d, st.buffer)
    else st.readLen <= |st.buffer| && d.Body(st.buffer[..st.readLen]).Ok? ==> ZeroFree(d, st.buffer[st.readLen..])
  }

  lemma BodyStaysZeroFree<T>(d: Decoder<T>, st: ReaderState, more: Bytes)
    requires st.readLen > 0 && ZeroFreeFrom(d, st.Put(more))
    ensures BodyStep(d, st).result.Ok? ==> ZeroFreeFrom(d, BodyStep(d, st).state.Put(more))
  {
    if st.readLen <= |st.buffer| {
      assert (st.buffer + more)[..st.readLen] == st.buffer[..st.readLen];
      assert (st.buffer + more)[st.readLen..] == st.buffer[st.readLen..] + more;
    }
  }

  lemma HeaderStaysZeroFree<T>(d: Decoder<T>, st: ReaderState, more: Bytes)
    requires st.readLen == 0 && ZeroFreeFrom(d, st.Put(more))
    ensures HeaderStep(d, st).result.Ok? ==> ZeroFreeFrom(d, HeaderStep(d, st).state.Put(more))
    ensures !AtZeroFrame(d, st)
  {
    var h := d.HeaderLen();
    var all := st.buffer + more;
    if |st.buffer| >= h {
      assert all[..h] == st.buffer[..h];
      assert all[h..] == st.buffer[h..] + more;
      if d.Header(st.buffer[..h]).Ok? {
        var n := d.Header(st.buffer[..h]).value;
        if 0 < n <= d.maxPayloadSize && h + n <= |all| {
          assert all[h..][..n] == all[h..h + n];
          assert all[h..][n..] == all[h + n..];
        }
      }
    }
  }

  lemma TryStaysZeroFree<T>(d: Decoder<T>, st: ReaderState, more: Bytes)
    requires ZeroFreeFrom(d, st.Put(more))
    ensures TryStep(d, st).result.Ok? ==> ZeroFreeFrom(d, TryStep(d, st).state.Put(more))
    ensures !AtZeroFrame(d, st)
  {
    if st.readLen > 0 {
      BodyStaysZeroFree(d, st, more);
    } else {
      HeaderStaysZeroFree(d, st, more);
      if HeaderStep(d, st).result == Ok(true) {
        BodyStaysZeroFree(d, HeaderStep(d, st).state, more);
      }
    }
  }
}
