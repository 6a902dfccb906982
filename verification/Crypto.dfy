/**
 Serialisation and encryption contexts.  The cipher itself is not part of this model:
 a key is a value whose sealing and opening operations are functions.  Sealing is randomised,
 so it takes the random input as a nonce, and it may fail.
 */
module Crypto {
  import opened Base

  const ENCRYPTED_U32_LEN: nat := 52
  const SERIALIZED_U32_LEN: nat := 4

  type Sealer = (nat, Bytes) -> Option<Bytes>
  type Opener = Bytes -> Option<Bytes>

  datatype SharedSecretKey = SharedSecretKey(seal: Sealer, open: Opener)
  datatype PublicEncryptKey = PublicEncryptKey(seal: Sealer)
  datatype SecretEncryptKey = SecretEncryptKey(openWith: (PublicEncryptKey, Bytes) -> Option<Bytes>)

  /** How values of a message type become bytes and back. */
  datatype Codec<!T> = Codec(ser: T -> Option<Bytes>, de: Bytes -> Option<T>)

  /** Deserialising what was serialised gives the value back. */
  ghost predicate Lawful<T(!new)>(codec: Codec<T>) {
    forall m: T :: codec.ser(m).Some? ==> codec.de(codec.ser(m).value) == Some(m)
  }

  // ---------------------------------------------------------------- the u32 header

  /** The 4-byte little-endian form of a `u32`. */
  function EncodeU32(n: U32): (b: Bytes)
    ensures |b| == SERIALIZED_U32_LEN
  {
    var q1: nat, q2: nat, q3: nat := n / 0x100, n / 0x100 / 0x100, n / 0x100 / 0x100 / 0x100;
    [n % 0x100, q1 % 0x100, q2 % 0x100, q3]
  }

  function DecodeU32(b: Bytes): U32
    requires |b| == SERIALIZED_U32_LEN
  {
    var b0: int, b1: int, b2: int, b3: int := b[0], b[1], b[2], b[3];
    b0 + 0x100 * b1 + 0x1_0000 * b2 + 0x100_0000 * b3
  }

  function U32Codec(): Codec<U32> {
    Codec((n: U32) => Some(EncodeU32(n)),
          (b: Bytes) => if |b| == SERIALIZED_U32_LEN then Some(DecodeU32(b)) else None)
  }

  /** The least significant byte comes first. */
  lemma LittleEndian(n: U32)
    ensures var b := EncodeU32(n);
            b[0] as int + 0x100 * b[1] as int + 0x1_0000 * b[2] as int + 0x100_0000 * b[3] as int == n
  {
    DecodeEncoded(n);
  }

  lemma DecodeEncoded(n: U32)
    ensures DecodeU32(EncodeU32(n)) == n
  {
    var q1: nat, q2: nat, q3: nat := n / 0x100, n / 0x100 / 0x100, n / 0x100 / 0x100 / 0x100;
    assert n == 0x100 * q1 + n % 0x100 && q1 == 0x100 * q2 + q1 % 0x100 && q2 == 0x100 * q3 + q2 % 0x100;
  }

  lemma LowByte(low: Byte, high: nat)
    ensures (low + 0x100 * high) % 0x100 == low && (low + 0x100 * high) / 0x100 == high
  {
  }

  lemma EncodeDecoded(b: Bytes)
    requires |b| == SERIALIZED_U32_LEN
    ensures EncodeU32(DecodeU32(b)) == b
  {
    var b1: int, b2: int, b3: int := b[1], b[2], b[3];
    LowByte(b[0], b1 + 0x100 * (b2 + 0x100 * b3));
    LowByte(b[1], b2 + 0x100 * b3);
    LowByte(b[2], b3);
  }

  /** Encoding and decoding a header are inverse to each other, and the least significant byte comes first. */
  lemma U32RoundTrip(n: U32, b: Bytes)
    requires |b| == SERIALIZED_U32_LEN
    ensures DecodeU32(EncodeU32(n)) == n
    ensures EncodeU32(DecodeU32(b)) == b
    ensures var e := EncodeU32(n);
            e[0] as int + 0x100 * e[1] as int + 0x1_0000 * e[2] as int + 0x100_0000 * e[3] as int == n
  {
    LittleEndian(n);
    DecodeEncoded(n);
    EncodeDecoded(b);
  }

  lemma U32CodecLawful()
    ensures Lawful(U32Codec())
  {
    forall n: U32 ensures U32Codec().de(EncodeU32(n)) == Some(n) {
      DecodeEncoded(n);
    }
  }

  // ---------------------------------------------------------------- contexts

  datatype EncryptContext =
    | NullEncrypt
    | AuthenticatedEncrypt(sharedKey: SharedSecretKey)
    | AnonymousEncrypt(theirPk: PublicEncryptKey)
  {
    function Seal(nonce: nat, plain: Bytes): Option<Bytes> {
      match this
      case NullEncrypt => Some(plain)
      case AuthenticatedEncrypt(key) => key.seal(nonce, plain)
      case AnonymousEncrypt(pk) => pk.seal(nonce, plain)
    }

    /** Serialise a value and encrypt it. */
    function Encrypt<T>(codec: Codec<T>, nonce: nat, msg: T): Res<Bytes> {
      match codec.ser(msg)
      case None => Err(if NullEncrypt? then Serialisation else SocketError.Crypto)
      case Some(plain) =>
        match Seal(nonce, plain)
        case None => Err(SocketError.Crypto)
        case Some(cipher) => Ok(cipher)
    }

    function EncryptedSizeLen(): nat {
      match this
      case NullEncrypt => SERIALIZED_U32_LEN
      case AuthenticatedEncrypt(_) => ENCRYPTED_U32_LEN
      case AnonymousEncrypt(_) => ENCRYPTED_U32_LEN
    }
  }

  datatype DecryptContext =
    | NullDecrypt
    | AuthenticatedDecrypt(sharedKey: SharedSecretKey)
    | AnonymousDecrypt(ourPk: PublicEncryptKey, ourSk: SecretEncryptKey)
  {
    function Open(cipher: Bytes): Option<Bytes> {
      match this
      case NullDecrypt => Some(cipher)
      case AuthenticatedDecrypt(key) => key.open(cipher)
      case AnonymousDecrypt(pk, sk) => sk.openWith(pk, cipher)
    }

    /** Decrypt a buffer and deserialise it. */
    function Decrypt<T>(codec: Codec<T>, cipher: Bytes): Res<T> {
      match Open(cipher)
      case None => Err(SocketError.Crypto)
      case Some(plain) =>
        match codec.de(plain)
        case None => Err(if NullDecrypt? then Serialisation else SocketError.Crypto)
        case Some(msg) => Ok(msg)
    }

    function EncryptedSizeLen(): nat {
      match this
      case NullDecrypt => SERIALIZED_U32_LEN
      case AuthenticatedDecrypt(_) => ENCRYPTED_U32_LEN
      case AnonymousDecrypt(_, _) => ENCRYPTED_U32_LEN
    }
  }

  /**
   When encryption and decryption fail, and with which error.  Without encryption it is the serialiser's;
   a key's operations serialise by themselves, so whatever goes wrong there is the cipher's error.
   */
  lemma ErrorKinds<T>(enc: EncryptContext, dec: DecryptContext, codec: Codec<T>, nonce: nat, msg: T, cipher: Bytes)
    ensures enc.Encrypt(codec, nonce, msg).Err?
            <==> codec.ser(msg) == None || enc.Seal(nonce, codec.ser(msg).value) == None
    ensures enc.Encrypt(codec, nonce, msg).Err? ==>
              enc.Encrypt(codec, nonce, msg).error == if enc.NullEncrypt? then Serialisation else SocketError.Crypto
    ensures dec.Decrypt(codec, cipher).Err?
            <==> dec.Open(cipher) == None || codec.de(dec.Open(cipher).value) == None
    ensures dec.Decrypt(codec, cipher).Err? ==>
              dec.Decrypt(codec, cipher).error == if dec.NullDecrypt? then Serialisation else SocketError.Crypto
  {
  }

  /** What the framing expects of a cipher: opening undoes sealing, and 4 bytes seal to 52. */
  ghost predicate Opens(seal: Sealer, open: Opener) {
    forall nonce: nat, plain: Bytes ::
      seal(nonce, plain).Some? ==>
        && open(seal(nonce, plain).value) == Some(plain)
        && (|plain| == SERIALIZED_U32_LEN ==> |seal(nonce, plain).value| == ENCRYPTED_U32_LEN)
  }

  /** The two contexts are of the same kind and hold corresponding keys. */
  ghost predicate Paired(enc: EncryptContext, dec: DecryptContext) {
    match enc
    case NullEncrypt => dec.NullDecrypt?
    case AuthenticatedEncrypt(key) => dec.AuthenticatedDecrypt? && Opens(key.seal, dec.sharedKey.open)
    case AnonymousEncrypt(pk) =>
      dec.AnonymousDecrypt? && Opens(pk.seal, (cipher: Bytes) => dec.ourSk.openWith(dec.ourPk, cipher))
  }

  /** Decryption undoes encryption for every kind of paired contexts. */
  lemma DecryptUndoesEncrypt<T(!new)>(enc: EncryptContext, dec: DecryptContext, codec: Codec<T>, nonce: nat, msg: T)
    requires Paired(enc, dec) && Lawful(codec)
    requires enc.Encrypt(codec, nonce, msg).Ok?
    ensures dec.Decrypt(codec, enc.Encrypt(codec, nonce, msg).value) == Ok(msg)
  {
    var plain := codec.ser(msg).value;
    var cipher := enc.Seal(nonce, plain).value;
    assert dec.Open(cipher) == Some(plain) by {
      match enc
      case NullEncrypt =>
      case AuthenticatedEncrypt(key) => assert key.seal(nonce, plain) == Some(cipher);
      case AnonymousEncrypt(pk) => assert pk.seal(nonce, plain) == Some(cipher);
    }
  }

  /** An encrypted header decrypts to its number and has the one length both contexts announce. */
  lemma EncryptedHeader(enc: EncryptContext, dec: DecryptContext, nonce: nat, n: U32)
    requires Paired(enc, dec)
    requires enc.Encrypt(U32Codec(), nonce, n).Ok?
    ensures dec.Decrypt(U32Codec(), enc.Encrypt(U32Codec(), nonce, n).value) == Ok(n)
    ensures |enc.Encrypt(U32Codec(), nonce, n).value| == enc.EncryptedSizeLen() == dec.EncryptedSizeLen()
  {
    U32CodecLawful();
    DecryptUndoesEncrypt(enc, dec, U32Codec(), nonce, n);
    var plain := EncodeU32(n);
    match enc
    case NullEncrypt =>
    case AuthenticatedEncrypt(key) => assert key.seal(nonce, plain).Some?;
    case AnonymousEncrypt(pk) => assert pk.seal(nonce, plain).Some?;
  }

  // ---------------------------------------------------------------- a cipher that keeps the contract

  const TAG_LEN: nat := 48

  function Tag(secret: Byte): (t: Bytes)
    ensures |t| == TAG_LEN
  {
    seq(TAG_LEN, i => secret)
  }

  function Shift(d: int, s: Bytes): (r: Bytes)
    ensures |r| == |s|
  {
    seq(|s|, i requires 0 <= i < |s| => (s[i] + d) % 256)
  }

  /** A shift cipher with a 48-byte tag: it keeps the contract, and it rejects a foreign key. */
  function ToyKey(secret: Byte): SharedSecretKey {
    var back: int := -(secret as int);
    SharedSecretKey(
      (nonce: nat, plain: Bytes) => Some(Tag(secret) + Shift(secret, plain)),
      (cipher: Bytes) =>
        if |cipher| >= TAG_LEN && cipher[..TAG_LEN] == Tag(secret)
        then Some(Shift(back, cipher[TAG_LEN..])) else None)
  }

  lemma ShiftByteBack(b: Byte, d: int)
    ensures ((b + d) % 256 - d) % 256 == b
  {
    var q := (b + d) / 256;
    assert (b + d) % 256 == b + d - 256 * q;
    assert (b - 256 * q) % 256 == b;
  }

  lemma ShiftBack(d: int, s: Bytes)
    ensures Shift(-d, Shift(d, s)) == s
  {
    forall i | 0 <= i < |s| ensures Shift(-d, Shift(d, s))[i] == s[i] {
      ShiftByteBack(s[i], d);
    }
  }

  /** The same cipher for anonymous encryption: the two halves of a key pair share the secret. */
  function ToyPublicKey(secret: Byte): PublicEncryptKey {
    PublicEncryptKey(ToyKey(secret).seal)
  }

  function ToySecretKey(secret: Byte): SecretEncryptKey {
    SecretEncryptKey((pk: PublicEncryptKey, cipher: Bytes) => ToyKey(secret).open(cipher))
  }

  lemma ToyKeyOpens(secret: Byte, nonce: nat, plain: Bytes)
    ensures ToyKey(secret).seal(nonce, plain).Some?
    ensures ToyKey(secret).open(ToyKey(secret).seal(nonce, plain).value) == Some(plain)
    ensures |ToyKey(secret).seal(nonce, plain).value| == TAG_LEN + |plain|
  {
    var cipher := ToyKey(secret).seal(nonce, plain).value;
    assert cipher[..TAG_LEN] == Tag(secret) && cipher[TAG_LEN..] == Shift(secret, plain);
    ShiftBack(secret, plain);
  }

  lemma ToyKeyRejects(secret: Byte, other: Byte, nonce: nat, plain: Bytes)
    requires secret != other
    ensures ToyKey(other).open(ToyKey(secret).seal(nonce, plain).value) == None
  {
    var cipher := ToyKey(secret).seal(nonce, plain).value;
    assert cipher[..TAG_LEN][0] == secret && Tag(other)[0] == other;
  }

  /** The cipher contract can be met for both kinds of keys, by a cipher that tells foreign keys apart. */
  lemma ToyKeysPaired(secret: Byte, other: Byte, nonce: nat, plain: Bytes)
    ensures Paired(AuthenticatedEncrypt(ToyKey(secret)), AuthenticatedDecrypt(ToyKey(secret)))
    ensures Paired(AnonymousEncrypt(ToyPublicKey(secret)),
                   AnonymousDecrypt(ToyPublicKey(secret), ToySecretKey(secret)))
    ensures secret != other ==>
              && ToyKey(other).open(ToyKey(secret).seal(nonce, plain).value) == None
              && ToySecretKey(other).openWith(ToyPublicKey(other), ToyPublicKey(secret).seal(nonce, plain).value) ==
                   None
  {
    forall n: nat, s: Bytes
      ensures ToyKey(secret).seal(n, s).Some?
      ensures ToyKey(secret).open(ToyKey(secret).seal(n, s).value) == Some(s)
      ensures |ToyKey(secret).seal(n, s).value| == TAG_LEN + |s|
    {
      ToyKeyOpens(secret, n, s);
    }
    if secret != other {
      ToyKeyRejects(secret, other, nonce, plain);
    }
  }
}
