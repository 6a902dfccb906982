/**
 What reads of one receive lane return.  All statements hold for both lanes: that of `read`, which
 buffers payloads, and that of `read_frm`, which buffers them with their senders.
 */
module UdpDelivery {
  import opened Base
  import opened Crypto
  import opened UdpReceiver

  /** A message, how its datagram was made, and who sent it. */
  datatype Posted<T> = Posted(msg: T, enc: EncryptContext, nonce: nat, from: Address)

  ghost function DatagramOf<T>(codec: Codec<T>, m: Posted<T>): Res<Bytes> {
    m.enc.Encrypt(codec, m.nonce, m.msg)
  }

  // ---------------------------------------------------------------- reads

  /** A sequence of reads: what they return and what they leave. */
  datatype Reads<T, M> = Reads(buffer: seq<M>, incoming: seq<RecvReply>, results: seq<Res<Option<(T, M)>>>)

  /** Reads of one lane, each with the context that is set at the time. */
  ghost function ReadAll<T, M>(kind: LaneKind<M>, codec: Codec<T>, buffer: seq<M>, incoming: seq<RecvReply>,
                               decs: seq<DecryptContext>): Reads<T, M>
    decreases |decs|
  {
    if decs == [] then Reads(buffer, incoming, [])
    else
      var call := ReadLane(kind, buffer, incoming);
      var rest := ReadAll(kind, codec, call.buffer, call.incoming, decs[1..]);
      rest.(results := [OpenTaken(kind, decs[0], codec, call.taken)] + rest.results)
  }

  /** n reads with the same context. */
  ghost function ReadMany<T, M>(kind: LaneKind<M>, codec: Codec<T>, buffer: seq<M>, incoming: seq<RecvReply>,
                                dec: DecryptContext, n: nat): Reads<T, M>
  {
    ReadAll(kind, codec, buffer, incoming, seq(n, _ => dec))
  }

  /** What was returned: messages, with the datagrams they came in. */
  ghost function Returned<T, M>(results: seq<Res<Option<(T, M)>>>): seq<(T, M)> {
    if results == [] then []
    else
      (if results[0].Ok? && results[0].value.Some? then [results[0].value.value] else []) + Returned(results[1..])
  }

  /** No read fails but for a failure of the socket. */
  ghost predicate NoneFails<T, M>(results: seq<Res<Option<(T, M)>>>) {
    forall i :: 0 <= i < |results| ==> results[i].Ok? || results[i].error == Io
  }

  lemma ResultsCons<T, M>(first: Res<Option<(T, M)>>, rest: seq<Res<Option<(T, M)>>>)
    ensures Returned([first] + rest) ==
            (if first.Ok? && first.value.Some? then [first.value.value] else []) + Returned(rest)
    ensures NoneFails([first] + rest) <==> (first.Ok? || first.error == Io) && NoneFails(rest)
  {
    assert ([first] + rest)[1..] == rest;
    if NoneFails([first] + rest) {
      assert ([first] + rest)[0] == first;
      forall i | 0 <= i < |rest| ensures rest[i].Ok? || rest[i].error == Io {
        assert ([first] + rest)[i + 1] == rest[i];
      }
    }
  }

  // ---------------------------------------------------------------- datagrams and their messages

  ghost predicate IsDatagramOf<T, M>(kind: LaneKind<M>, codec: Codec<T>, datagram: M, m: Posted<T>) {
    DatagramOf(codec, m).Ok? && datagram == kind.wrap(DatagramOf(codec, m).value, m.from)
  }

  /** The datagrams are, in order, those of these messages. */
  ghost predicate Carries<T, M>(kind: LaneKind<M>, codec: Codec<T>, datagrams: seq<M>, posted: seq<Posted<T>>) {
    && |datagrams| == |posted|
    && forall i :: 0 <= i < |posted| ==> IsDatagramOf(kind, codec, datagrams[i], posted[i])
  }

  /** The replies hold exactly the datagrams of these messages, empty ones included, in order. */
  ghost predicate Brings<T>(codec: Codec<T>, incoming: seq<RecvReply>, posted: seq<Posted<T>>)
    decreases |incoming|
  {
    if incoming == [] then posted == []
    else if incoming[0].Datagram? then
      && posted != []
      && DatagramOf(codec, posted[0]) == Ok(incoming[0].bytes) && posted[0].from == incoming[0].from
      && Brings(codec, incoming[1..], posted[1..])
    else Brings(codec, incoming[1..], posted)
  }

  ghost function NonEmptyOnes<T>(codec: Codec<T>, posted: seq<Posted<T>>): (r: seq<Posted<T>>)
    ensures |r| <= |posted|
  {
    if posted == [] then []
    else (if DatagramOf(codec, posted[0]) == Ok([]) then [] else [posted[0]]) + NonEmptyOnes(codec, posted[1..])
  }

  /** What a read is to return for a message. */
  ghost function Handout<T, M>(kind: LaneKind<M>, codec: Codec<T>, m: Posted<T>): (T, M) {
    var bytes := DatagramOf(codec, m);
    (m.msg, kind.wrap(if bytes.Ok? then bytes.value else [], m.from))
  }

  ghost function Handouts<T, M>(kind: LaneKind<M>, codec: Codec<T>, posted: seq<Posted<T>>): (r: seq<(T, M)>)
    ensures |r| == |posted|
  {
    if posted == [] then [] else [Handout(kind, codec, posted[0])] + Handouts(kind, codec, posted[1..])
  }

  ghost predicate AllPaired<T>(posted: seq<Posted<T>>, dec: DecryptContext) {
    forall i :: 0 <= i < |posted| ==> Paired(posted[i].enc, dec)
  }

  /** All datagrams that reads can still take, in order. */
  ghost function Available<M>(kind: LaneKind<M>, buffer: seq<M>, incoming: seq<RecvReply>): seq<M> {
    buffer + Wrapped(kind, incoming)
  }

  lemma CarriesConcat<T, M>(kind: LaneKind<M>, codec: Codec<T>, a: seq<M>, held: seq<Posted<T>>, b: seq<M>,
                            posted: seq<Posted<T>>)
    requires Carries(kind, codec, a, held) && Carries(kind, codec, b, posted)
    ensures Carries(kind, codec, a + b, held + posted)
  {
  }

  lemma CarriesOne<T, M>(kind: LaneKind<M>, codec: Codec<T>, datagram: M, m: Posted<T>)
    requires IsDatagramOf(kind, codec, datagram, m)
    ensures Carries(kind, codec, [datagram], [m])
  {
  }

  /** What the replies bring to the lane are the messages whose datagrams are not empty. */
  lemma {:induction false} BroughtIsCarried<T, M>(kind: LaneKind<M>, codec: Codec<T>, incoming: seq<RecvReply>,
                                                  posted: seq<Posted<T>>)
    requires Brings(codec, incoming, posted)
    ensures Carries(kind, codec, Wrapped(kind, incoming), NonEmptyOnes(codec, posted))
    ensures |posted| <= |incoming|
    decreases |incoming|
  {
    if incoming == [] {
    } else if incoming[0].Datagram? {
      BroughtIsCarried(kind, codec, incoming[1..], posted[1..]);
      var later := Wrapped(kind, incoming[1..]);
      if incoming[0].bytes == [] {
        NothingBefore(later);
        NothingBefore(NonEmptyOnes(codec, posted[1..]));
      } else {
        var first := kind.wrap(incoming[0].bytes, incoming[0].from);
        CarriesOne(kind, codec, first, posted[0]);
        CarriesConcat(kind, codec, [first], [posted[0]], later, NonEmptyOnes(codec, posted[1..]));
      }
    } else {
      BroughtIsCarried(kind, codec, incoming[1..], posted);
      NothingBefore(Wrapped(kind, incoming[1..]));
    }
  }

  lemma CarriesTail<T, M>(kind: LaneKind<M>, codec: Codec<T>, first: M, rest: seq<M>, posted: seq<Posted<T>>)
    requires Carries(kind, codec, [first] + rest, posted)
    ensures posted != [] && IsDatagramOf(kind, codec, first, posted[0])
    ensures Carries(kind, codec, rest, posted[1..])
  {
    assert IsDatagramOf(kind, codec, ([first] + rest)[0], posted[0]);
    forall i | 0 <= i < |posted[1..]| ensures IsDatagramOf(kind, codec, rest[i], posted[1..][i]) {
      assert IsDatagramOf(kind, codec, ([first] + rest)[i + 1], posted[i + 1]);
    }
  }

  // ---------------------------------------------------------------- what reads return

  /** Whenever a read takes a datagram, its context goes with the one that the datagram was made with. */
  ghost predicate MatchedReads<T, M>(kind: LaneKind<M>, buffer: seq<M>, incoming: seq<RecvReply>,
                                     posted: seq<Posted<T>>, decs: seq<DecryptContext>)
    decreases |decs|
  {
    if decs == [] then true
    else
      var call := ReadLane(kind, buffer, incoming);
      if TakenMessages(call.taken) == [] then MatchedReads(kind, call.buffer, call.incoming, posted, decs[1..])
      else
        && posted != [] && Paired(posted[0].enc, decs[0])
        && MatchedReads(kind, call.buffer, call.incoming, posted[1..], decs[1..])
  }

  /** One read takes the first datagram available, or uses up replies, or finds that nothing is there. */
  lemma ReadTakesFirst<M>(kind: LaneKind<M>, buffer: seq<M>, incoming: seq<RecvReply>)
    requires KeepsPayload(kind)
    ensures var call := ReadLane(kind, buffer, incoming);
            && TakenMessages(call.taken) + Available(kind, call.buffer, call.incoming) ==
                 Available(kind, buffer, incoming)
            && (call.taken.Err? ==> call.taken.error == Io)
            && |call.incoming| <= |incoming|
            && (TakenMessages(call.taken) == [] && incoming != [] ==> |call.incoming| < |incoming|)
  {
    var used := ReadConserves(kind, buffer, incoming);
    var call := ReadLane(kind, buffer, incoming);
    assert incoming == incoming[..used] + incoming[used..];
    WrappedConcat(kind, incoming[..used], incoming[used..]);
    ConcatAssociative(TakenMessages(call.taken), call.buffer, Wrapped(kind, call.incoming));
    ConcatAssociative(buffer, Wrapped(kind, incoming[..used]), Wrapped(kind, call.incoming));
  }

  lemma OpensTaken<T(!new), M>(kind: LaneKind<M>, codec: Codec<T>, dec: DecryptContext, datagram: M, m: Posted<T>)
    requires KeepsPayload(kind) && Lawful(codec) && IsDatagramOf(kind, codec, datagram, m) && Paired(m.enc, dec)
    ensures OpenTaken(kind, dec, codec, Ok(Some(datagram))) == Ok(Some(Handout(kind, codec, m)))
  {
    assert kind.payload(kind.wrap(DatagramOf(codec, m).value, m.from)) == DatagramOf(codec, m).value;
    DecryptUndoesEncrypt(m.enc, dec, codec, m.nonce, m.msg);
  }

  /**
   What `read` and `read_frm` return for the datagram they take: the message, and its sender, or the error
   of a datagram that does not decrypt; and nothing, or the error, if they take none.
   */
  lemma CallResults<T(!new)>(codec: Codec<T>, dec: DecryptContext, m: Posted<T>, payload: Bytes,
                             datagram: (Bytes, Address))
    requires Lawful(codec) && Paired(m.enc, dec)
    ensures IsDatagramOf(PAYLOADS, codec, payload, m) ==>
              ReadCallResult(dec, codec, Ok(Some(payload))) == Ok(Some(m.msg))
    ensures IsDatagramOf(WITH_SENDER, codec, datagram, m) ==>
              ReadFrmCallResult(dec, codec, Ok(Some(datagram))) == Ok(Some((m.msg, m.from)))
    ensures dec.Decrypt(codec, payload).Err? ==>
              ReadCallResult(dec, codec, Ok(Some(payload))) == Err(dec.Decrypt(codec, payload).error)
    ensures dec.Decrypt(codec, datagram.0).Err? ==>
              ReadFrmCallResult(dec, codec, Ok(Some(datagram))) == Err(dec.Decrypt(codec, datagram.0).error)
    ensures ReadCallResult(dec, codec, Ok(None)) == Ok(None) && ReadCallResult(dec, codec, Err(Io)) == Err(Io)
    ensures ReadFrmCallResult(dec, codec, Ok(None)) == Ok(None) && ReadFrmCallResult(dec, codec, Err(Io)) == Err(Io)
  {
    BothLanesKeepPayload();
    if IsDatagramOf(PAYLOADS, codec, payload, m) {
      OpensTaken(PAYLOADS, codec, dec, payload, m);
    }
    if IsDatagramOf(WITH_SENDER, codec, datagram, m) {
      OpensTaken(WITH_SENDER, codec, dec, datagram, m);
      assert datagram == (DatagramOf(codec, m).value, m.from);
    }
  }

  /** What has been returned, what can still be returned, and that nothing fails. */
  ghost predicate GoodReads<T, M>(kind: LaneKind<M>, codec: Codec<T>, posted: seq<Posted<T>>, r: Reads<T, M>) {
    var n := |Returned(r.results)|;
    && n <= |posted|
    && Returned(r.results) == Handouts(kind, codec, posted[..n])
    && Carries(kind, codec, Available(kind, r.buffer, r.incoming), posted[n..])
    && NoneFails(r.results)
  }

  lemma GoodReadsCons<T, M>(kind: LaneKind<M>, codec: Codec<T>, posted: seq<Posted<T>>, r: Reads<T, M>,
                            rest: Reads<T, M>, first: Res<Option<(T, M)>>)
    requires r == rest.(results := [first] + rest.results)
    requires posted != [] && GoodReads(kind, codec, posted[1..], rest)
    requires first == Ok(Some(Handout(kind, codec, posted[0])))
    ensures GoodReads(kind, codec, posted, r) && |Returned(r.results)| == |Returned(rest.results)| + 1
  {
    ResultsCons(first, rest.results);
    var n := |Returned(rest.results)|;
    assert posted[..n + 1][1..] == posted[1..][..n] && posted[n + 1..] == posted[1..][n..];
  }

  lemma GoodReadsSkip<T, M>(kind: LaneKind<M>, codec: Codec<T>, posted: seq<Posted<T>>, r: Reads<T, M>,
                            rest: Reads<T, M>, first: Res<Option<(T, M)>>)
    requires r == rest.(results := [first] + rest.results)
    requires GoodReads(kind, codec, posted, rest)
    requires first == Ok(None) || first == Err(Io)
    ensures GoodReads(kind, codec, posted, r) && Returned(r.results) == Returned(rest.results)
  {
    ResultsCons(first, rest.results);
    NothingBefore(Returned(rest.results));
  }

  lemma NoReads<T, M>(kind: LaneKind<M>, codec: Codec<T>, buffer: seq<M>, incoming: seq<RecvReply>,
                      posted: seq<Posted<T>>)
    requires Carries(kind, codec, Available(kind, buffer, incoming), posted)
    ensures GoodReads(kind, codec, posted, Reads(buffer, incoming, []))
  {
    assert posted[0..] == posted && posted[..0] == [];
  }

  /**
   Reads that each use the context that goes with what they take return the messages available, in
   order, and fail only where the socket does; what they have not returned can still be read.  Enough
   reads, as many as there are messages and replies, return them all.
   */
  lemma {:induction false} ReadsReturnMessages<T(!new), M>(kind: LaneKind<M>, codec: Codec<T>, buffer: seq<M>,
      incoming: seq<RecvReply>, posted: seq<Posted<T>>, decs: seq<DecryptContext>)
    requires KeepsPayload(kind) && Lawful(codec)
    requires Carries(kind, codec, Available(kind, buffer, incoming), posted)
    requires MatchedReads(kind, buffer, incoming, posted, decs)
    ensures var r := ReadAll(kind, codec, buffer, incoming, decs);
            && GoodReads(kind, codec, posted, r)
            && (|decs| >= |posted| + |incoming| ==> |Returned(r.results)| == |posted|)
    decreases |decs|
  {
    if decs == [] {
      NoReads(kind, codec, buffer, incoming, posted);
    } else {
      var call := ReadLane(kind, buffer, incoming);
      var r := ReadAll(kind, codec, buffer, incoming, decs);
      var rest := ReadAll(kind, codec, call.buffer, call.incoming, decs[1..]);
      var first := OpenTaken(kind, decs[0], codec, call.taken);
      ReadTakesFirst(kind, buffer, incoming);
      if TakenMessages(call.taken) == [] {
        NothingBefore(Available(kind, call.buffer, call.incoming));
        ReadsReturnMessages(kind, codec, call.buffer, call.incoming, posted, decs[1..]);
        GoodReadsSkip(kind, codec, posted, r, rest, first);
      } else {
        CarriesTail(kind, codec, call.taken.value.value, Available(kind, call.buffer, call.incoming), posted);
        ReadsReturnMessages(kind, codec, call.buffer, call.incoming, posted[1..], decs[1..]);
        OpensTaken(kind, codec, decs[0], call.taken.value.value, posted[0]);
        GoodReadsCons(kind, codec, posted, r, rest, first);
      }
    }
  }

  /** A context that goes with every message goes with each of them when it is taken. */
  lemma {:induction false} OneContextMatches<T, M>(kind: LaneKind<M>, codec: Codec<T>, buffer: seq<M>,
      incoming: seq<RecvReply>, posted: seq<Posted<T>>, dec: DecryptContext, n: nat)
    requires KeepsPayload(kind) && AllPaired(posted, dec)
    requires Carries(kind, codec, Available(kind, buffer, incoming), posted)
    ensures MatchedReads(kind, buffer, incoming, posted, seq(n, _ => dec))
    decreases n
  {
    if n > 0 {
      var call := ReadLane(kind, buffer, incoming);
      ReadTakesFirst(kind, buffer, incoming);
      assert seq(n, _ => dec)[1..] == seq(n - 1, _ => dec);
      if TakenMessages(call.taken) == [] {
        NothingBefore(Available(kind, call.buffer, call.incoming));
        OneContextMatches(kind, codec, call.buffer, call.incoming, posted, dec, n - 1);
      } else {
        CarriesTail(kind, codec, call.taken.value.value, Available(kind, call.buffer, call.incoming), posted);
        OneContextMatches(kind, codec, call.buffer, call.incoming, posted[1..], dec, n - 1);
      }
    }
  }

  // ---------------------------------------------------------------- round trip

  lemma {:induction false} AllNonEmptyIff<T>(codec: Codec<T>, posted: seq<Posted<T>>)
    ensures |NonEmptyOnes(codec, posted)| == |posted|
            <==> forall i :: 0 <= i < |posted| ==> DatagramOf(codec, posted[i]) != Ok([])
    ensures |NonEmptyOnes(codec, posted)| == |posted| ==> NonEmptyOnes(codec, posted) == posted
  {
    if posted != [] {
      AllNonEmptyIff(codec, posted[1..]);
      HeadTail(posted);
      assert forall i :: 0 < i < |posted| ==> posted[i] == posted[1..][i - 1];
    }
  }

  lemma {:induction false} NonEmptyOnesPaired<T>(codec: Codec<T>, posted: seq<Posted<T>>, dec: DecryptContext)
    requires AllPaired(posted, dec)
    ensures AllPaired(NonEmptyOnes(codec, posted), dec)
  {
    if posted != [] {
      NonEmptyOnesPaired(codec, posted[1..], dec);
    }
  }

  /** The messages that reads return: those buffered and, of those in the replies, all but the empty ones. */
  ghost function Expected<T>(codec: Codec<T>, held: seq<Posted<T>>, posted: seq<Posted<T>>): seq<Posted<T>> {
    held + NonEmptyOnes(codec, posted)
  }

  lemma ExpectedAvailable<T, M>(kind: LaneKind<M>, codec: Codec<T>, buffer: seq<M>, held: seq<Posted<T>>,
                                incoming: seq<RecvReply>, posted: seq<Posted<T>>, dec: DecryptContext)
    requires Carries(kind, codec, buffer, held) && Brings(codec, incoming, posted)
    requires AllPaired(held, dec) && AllPaired(posted, dec)
    ensures Carries(kind, codec, Available(kind, buffer, incoming), Expected(codec, held, posted))
    ensures AllPaired(Expected(codec, held, posted), dec)
  {
    BroughtIsCarried(kind, codec, incoming, posted);
    CarriesConcat(kind, codec, buffer, held, Wrapped(kind, incoming), NonEmptyOnes(codec, posted));
    NonEmptyOnesPaired(codec, posted, dec);
  }

  /**
   Datagram round trip, for both lanes, over any buffer and any replies of the socket, whether it
   blocks, is interrupted or fails in between.  Enough reads with the matching context return, in
   order, the messages buffered and those received, with their senders, and nothing else; and these
   are all messages sent if and only if none of them has an empty encrypted form.
   */
  lemma DatagramRoundTripIff<T(!new), M>(kind: LaneKind<M>, codec: Codec<T>, dec: DecryptContext, buffer: seq<M>,
      held: seq<Posted<T>>, incoming: seq<RecvReply>, posted: seq<Posted<T>>, n: nat)
    requires KeepsPayload(kind) && Lawful(codec)
    requires Carries(kind, codec, buffer, held) && Brings(codec, incoming, posted)
    requires AllPaired(held, dec) && AllPaired(posted, dec)
    requires n >= |held| + |posted| + |incoming|
    ensures var results := ReadMany(kind, codec, buffer, incoming, dec, n).results;
            && NoneFails(results)
            && Returned(results) == Handouts(kind, codec, Expected(codec, held, posted))
            && (Returned(results) == Handouts(kind, codec, held + posted)
                <==> forall i :: 0 <= i < |posted| ==> DatagramOf(codec, posted[i]) != Ok([]))
  {
    var expected := Expected(codec, held, posted);
    ExpectedAvailable(kind, codec, buffer, held, incoming, posted, dec);
    OneContextMatches(kind, codec, buffer, incoming, expected, dec, n);
    ReadsReturnMessages(kind, codec, buffer, incoming, expected, seq(n, _ => dec));
    assert expected[..|expected|] == expected;
    AllNonEmptyIff(codec, posted);
  }
}
