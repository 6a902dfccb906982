/**
 Length-delimited frames: how a message becomes a frame, and the one-shot reading of a complete
 byte string that an incremental reader has to agree with.
 */
module Framing {
  import opened Base
  import opened Crypto

  // ---------------------------------------------------------------- writing

  /** The length is cast to `u32` before it is encrypted. */
  function LengthHeader(body: Bytes): U32 {
    |body| % U32_RANGE
  }

  /** Encrypted length followed by encrypted data. */
  function Serialized<T>(codec: Codec<T>, enc: EncryptContext, nonces: (nat, nat), msg: T): Res<Bytes> {
    match enc.Encrypt(codec, nonces.0, msg)
    case Err(e) => Err(e)
    case Ok(body) =>
      match enc.Encrypt(U32Codec(), nonces.1, LengthHeader(body))
      case Err(e) => Err(e)
      case Ok(header) => Ok(header + body)
  }

  method SerializeWithLen<T>(codec: Codec<T>, enc: EncryptContext, nonces: (nat, nat), msg: T) returns (r: Res<Bytes>)
    ensures r == Serialized(codec, enc, nonces, msg)
  {
    var encryptedData := enc.Encrypt(codec, nonces.0, msg);
    if encryptedData.Err? {
      return Err(encryptedData.error);
    }
    var encryptedLen := enc.Encrypt(U32Codec(), nonces.1, LengthHeader(encryptedData.value));
    if encryptedLen.Err? {
      return Err(encryptedLen.error);
    }
    var data := new Byte[|encryptedLen.value| + |encryptedData.value|];
    var position := WriteAt(data, 0, encryptedLen.value);
    position := WriteAt(data, position, encryptedData.value);
    assert data[..position] == data[..|encryptedLen.value|] + data[|encryptedLen.value|..position];
    r := Ok(data[..position]);
  }

  /** Copies bytes into a buffer at a cursor and moves the cursor behind them. */
  method WriteAt(data: array<Byte>, position: nat, bytes: Bytes) returns (end: nat)
    requires position + |bytes| <= data.Length
    modifies data
    ensures end == position + |bytes|
    ensures data[position..end] == bytes
    ensures data[..position] == old(data[..position])
  {
    for i := 0 to |bytes|
      invariant data[position..position + i] == bytes[..i]
      invariant data[..position] == old(data[..position])
    {
      data[position + i] := bytes[i];
    }
    end := position + |bytes|;
  }

  // ---------------------------------------------------------------- one-shot reading

  /** What a receiver decodes with. */
  datatype Decoder<!T> = Decoder(ctx: DecryptContext, codec: Codec<T>, maxPayloadSize: nat)
  {
    function HeaderLen(): (h: nat)
      ensures h > 0
    {
      ctx.EncryptedSizeLen()
    }

    function Header(bytes: Bytes): Res<U32> {
      ctx.Decrypt(U32Codec(), bytes)
    }

    function Body(bytes: Bytes): Res<T> {
      ctx.Decrypt(codec, bytes)
    }
  }

  /** What stands at the beginning of a byte string. */
  datatype View<+T> =
    | Incomplete
    | Bad(error: SocketError)
    | Skip(size: nat)
    | Whole(msg: T, size: nat)

  ghost function FirstFrame<T>(d: Decoder<T>, bytes: Bytes): View<T> {
    var h := d.HeaderLen();
    if |bytes| < h then Incomplete
    else
      match d.Header(bytes[..h])
      case Err(e) => Bad(e)
      case Ok(n) =>
        if n > d.maxPayloadSize then Bad(PayloadSizeProhibitive)
        else if n == 0 then Skip(h)
        else if |bytes| < h + n then Incomplete
        else
          match d.Body(bytes[h..h + n])
          case Err(e) => Bad(e)
          case Ok(m) => Whole(m, h + n)
  }

  /** The messages of a byte string up to its first error, if it has one. */
  datatype Parsed<+T> = Parsed(msgs: seq<T>, error: Option<SocketError>)
  {
    ghost function After(earlier: seq<T>): Parsed<T> {
      Parsed(earlier + msgs, error)
    }
  }

  ghost function ParseAll<T>(d: Decoder<T>, bytes: Bytes): Parsed<T>
    decreases |bytes|
  {
    match FirstFrame(d, bytes)
    case Incomplete => Parsed([], None)
    case Bad(e) => Parsed([], Some(e))
    case Skip(k) => ParseAll(d, bytes[k..])
    case Whole(m, k) => ParseAll(d, bytes[k..]).After([m])
  }

  // ---------------------------------------------------------------- round trip

  /** The byte string is one whole frame, and it holds this message. */
  ghost predicate IsFrame<T>(d: Decoder<T>, frame: Bytes, msg: T) {
    FirstFrame(d, frame) == Whole(msg, |frame|)
  }

  /** The encrypted data can be announced by a header and is accepted by the receiver. */
  ghost predicate Fits(maxPayloadSize: nat, body: Bytes) {
    0 < |body| <= maxPayloadSize && |body| < U32_RANGE
  }

  lemma SerializedParts<T(!new)>(d: Decoder<T>, enc: EncryptContext, nonces: (nat, nat), msg: T)
    requires Paired(enc, d.ctx) && Lawful(d.codec)
    requires Serialized(d.codec, enc, nonces, msg).Ok?
    ensures var frame := Serialized(d.codec, enc, nonces, msg).value;
            var body := enc.Encrypt(d.codec, nonces.0, msg).value;
            && |frame| == d.HeaderLen() + |body|
            && d.HeaderLen() == enc.EncryptedSizeLen()
            && d.Header(frame[..d.HeaderLen()]) == Ok(|body| % 0x1_0000_0000)
            && frame[d.HeaderLen()..] == body
            && d.Body(body) == Ok(msg)
  {
    var body := enc.Encrypt(d.codec, nonces.0, msg).value;
    DecryptUndoesEncrypt(enc, d.ctx, d.codec, nonces.0, msg);
    EncryptedHeader(enc, d.ctx, nonces.1, LengthHeader(body));
    var header := enc.Encrypt(U32Codec(), nonces.1, LengthHeader(body)).value;
    assert (header + body)[..d.HeaderLen()] == header;
  }

  /**
   A written message reads back as exactly that message if and only if its encrypted form is not
   empty, not above the receiver's limit and shorter than 2^32 bytes; the writer checks none of these.
   */
  lemma FrameReadsBackIff<T(!new)>(d: Decoder<T>, enc: EncryptContext, nonces: (nat, nat), msg: T)
    requires Paired(enc, d.ctx) && Lawful(d.codec)
    requires Serialized(d.codec, enc, nonces, msg).Ok?
    ensures IsFrame(d, Serialized(d.codec, enc, nonces, msg).value, msg)
            <==> Fits(d.maxPayloadSize, enc.Encrypt(d.codec, nonces.0, msg).value)
  {
    SerializedParts(d, enc, nonces, msg);
    var frame := Serialized(d.codec, enc, nonces, msg).value;
    var body := enc.Encrypt(d.codec, nonces.0, msg).value;
    var h := d.HeaderLen();
    if |body| < U32_RANGE {
      assert LengthHeader(body) == |body|;
      assert frame[h..h + |body|] == body;
    } else {
      assert LengthHeader(body) < |body|;
    }
  }

  /** What follows a frame does not change how the frame is read. */
  lemma FirstFrameLocal<T>(d: Decoder<T>, bytes: Bytes, more: Bytes)
    requires !FirstFrame(d, bytes).Incomplete?
    ensures FirstFrame(d, bytes + more) == FirstFrame(d, bytes)
    ensures FirstFrame(d, bytes).Skip? || FirstFrame(d, bytes).Whole? ==>
              0 < FirstFrame(d, bytes).size <= |bytes|
  {
    var h := d.HeaderLen();
    assert (bytes + more)[..h] == bytes[..h];
    if d.Header(bytes[..h]).Ok? {
      var n := d.Header(bytes[..h]).value;
      if h + n <= |bytes| {
        assert (bytes + more)[h..h + n] == bytes[h..h + n];
      }
    }
  }

  /** A list of messages and the frames that hold them. */
  ghost predicate AreFrames<T>(d: Decoder<T>, frames: seq<Bytes>, msgs: seq<T>) {
    |frames| == |msgs| && forall i :: 0 <= i < |frames| ==> IsFrame(d, frames[i], msgs[i])
  }

  ghost function Concat(parts: seq<Bytes>): Bytes {
    if parts == [] then [] else parts[0] + Concat(parts[1..])
  }

  lemma FrameThenRest<T>(d: Decoder<T>, frame: Bytes, msg: T, rest: Bytes)
    requires IsFrame(d, frame, msg)
    ensures ParseAll(d, frame + rest) == ParseAll(d, rest).After([msg])
  {
    FirstFrameLocal(d, frame, rest);
    assert (frame + rest)[|frame|..] == rest;
  }

  lemma AfterTwice<T>(p: Parsed<T>, first: seq<T>, second: seq<T>)
    ensures p.After(second).After(first) == p.After(first + second)
  {
    assert first + (second + p.msgs) == (first + second) + p.msgs;
  }

  lemma ConcatHead(frames: seq<Bytes>, suffix: Bytes)
    requires frames != []
    ensures Concat(frames) + suffix == frames[0] + (Concat(frames[1..]) + suffix)
  {
  }

  lemma FramesTail<T>(d: Decoder<T>, frames: seq<Bytes>, msgs: seq<T>)
    requires AreFrames(d, frames, msgs) && frames != []
    ensures IsFrame(d, frames[0], msgs[0]) && AreFrames(d, frames[1..], msgs[1..])
  {
  }

  lemma NoFrames<T>(d: Decoder<T>, suffix: Bytes)
    ensures Concat([]) + suffix == suffix
    ensures ParseAll(d, suffix).After([]) == ParseAll(d, suffix)
  {
    assert [] + ParseAll(d, suffix).msgs == ParseAll(d, suffix).msgs;
  }

  /** Concatenated frames, whatever follows them, are read as exactly their messages, in order. */
  lemma {:induction false} FramesRoundTrip<T>(d: Decoder<T>, frames: seq<Bytes>, msgs: seq<T>, suffix: Bytes)
    requires AreFrames(d, frames, msgs)
    ensures ParseAll(d, Concat(frames) + suffix) == ParseAll(d, suffix).After(msgs)
  {
    if frames == [] {
      NoFrames(d, suffix);
    } else {
      FramesTail(d, frames, msgs);
      FramesRoundTrip(d, frames[1..], msgs[1..], suffix);
      FrameThenRest(d, frames[0], msgs[0], Concat(frames[1..]) + suffix);
      ConcatHead(frames, suffix);
      AfterTwice(ParseAll(d, suffix), [msgs[0]], msgs[1..]);
      HeadTail(msgs);
    }
  }
}
