/** Changing the decryption context of a UDP socket, for both receive lanes. */
module UdpSwitch {
  import opened Base
  import opened Crypto
  import opened UdpReceiver
  import opened UdpDelivery

  /**
   Let every read that takes a datagram use the context that goes with it, however often the context is
   changed in between.  Then reads return the messages available in order, fail only where the socket
   does, and return all of them if there are enough reads.
   */
  lemma DatagramSwitchIsSafe<T(!new), M>(kind: LaneKind<M>, codec: Codec<T>, buffer: seq<M>, held: seq<Posted<T>>,
      incoming: seq<RecvReply>, posted: seq<Posted<T>>, decs: seq<DecryptContext>)
    requires KeepsPayload(kind) && Lawful(codec)
    requires Carries(kind, codec, buffer, held) && Brings(codec, incoming, posted)
    requires MatchedReads(kind, buffer, incoming, Expected(codec, held, posted), decs)
    ensures var r := ReadAll(kind, codec, buffer, incoming, decs);
            && GoodReads(kind, codec, Expected(codec, held, posted), r)
            && (|decs| >= |held| + |posted| + |incoming| ==>
                  Returned(r.results) == Handouts(kind, codec, Expected(codec, held, posted)))
  {
    var expected := Expected(codec, held, posted);
    BroughtIsCarried(kind, codec, incoming, posted);
    CarriesConcat(kind, codec, buffer, held, Wrapped(kind, incoming), NonEmptyOnes(codec, posted));
    ReadsReturnMessages(kind, codec, buffer, incoming, expected, decs);
    assert expected[..|expected|] == expected;
  }

  // ---------------------------------------------------------------- when a change is safe

  /** What is buffered is read first, one datagram a call, and the socket is not asked. */
  lemma {:induction false} BufferedAreReadFirst<T, M>(kind: LaneKind<M>, codec: Codec<T>, buffer: seq<M>,
      incoming: seq<RecvReply>, dec: DecryptContext, n: nat)
    requires n <= |buffer|
    ensures var r := ReadMany(kind, codec, buffer, incoming, dec, n);
            && r.buffer == buffer[n..] && r.incoming == incoming && |r.results| == n
            && forall i :: 0 <= i < n ==> r.results[i] == OpenTaken(kind, dec, codec, Ok(Some(buffer[i])))
    decreases n
  {
    if n == 0 {
      assert buffer[0..] == buffer;
    } else {
      assert seq(n, _ => dec)[1..] == seq(n - 1, _ => dec);
      BufferedAreReadFirst(kind, codec, buffer[1..], incoming, dec, n - 1);
      assert buffer[1..][n - 1..] == buffer[n..];
      var rest := ReadMany(kind, codec, buffer[1..], incoming, dec, n - 1).results;
      forall i | 0 < i < n
        ensures ReadMany(kind, codec, buffer, incoming, dec, n).results[i] ==
                OpenTaken(kind, dec, codec, Ok(Some(buffer[i])))
      {
        assert rest[i - 1] == OpenTaken(kind, dec, codec, Ok(Some(buffer[1..][i - 1])));
      }
    }
  }

  /** Reads go on where earlier reads have stopped. */
  lemma {:induction false} ReadAllConcat<T, M>(kind: LaneKind<M>, codec: Codec<T>, buffer: seq<M>,
      incoming: seq<RecvReply>, a: seq<DecryptContext>, b: seq<DecryptContext>)
    ensures var first := ReadAll(kind, codec, buffer, incoming, a);
            var second := ReadAll(kind, codec, first.buffer, first.incoming, b);
            ReadAll(kind, codec, buffer, incoming, a + b) == second.(results := first.results + second.results)
    decreases |a|
  {
    if a == [] {
      NothingBefore(b);
      NothingBefore(ReadAll(kind, codec, buffer, incoming, b).results);
    } else {
      var call := ReadLane(kind, buffer, incoming);
      assert (a + b)[1..] == a[1..] + b;
      ReadAllConcat(kind, codec, call.buffer, call.incoming, a[1..], b);
      var first := ReadAll(kind, codec, call.buffer, call.incoming, a[1..]);
      ConcatAssociative([OpenTaken(kind, a[0], codec, call.taken)], first.results,
                        ReadAll(kind, codec, first.buffer, first.incoming, b).results);
    }
  }

  lemma NoneFailsConcat<T, M>(a: seq<Res<Option<(T, M)>>>, b: seq<Res<Option<(T, M)>>>)
    requires NoneFails(a) && NoneFails(b)
    ensures NoneFails(a + b)
  {
  }

  /** What comes from the socket after the change is read without failure. */
  lemma LaterNeverFail<T(!new), M>(kind: LaneKind<M>, codec: Codec<T>, incoming: seq<RecvReply>,
      posted: seq<Posted<T>>, later: DecryptContext, n: nat)
    requires KeepsPayload(kind) && Lawful(codec) && Brings(codec, incoming, posted) && AllPaired(posted, later)
    ensures NoneFails(ReadMany(kind, codec, [], incoming, later, n).results)
  {
    var expected := Expected(codec, [], posted);
    ExpectedAvailable(kind, codec, [], [], incoming, posted, later);
    OneContextMatches(kind, codec, [], incoming, expected, later, n);
    ReadsReturnMessages(kind, codec, [], incoming, expected, seq(n, _ => later));
  }

  lemma ReadableNeverFail<T(!new), M>(kind: LaneKind<M>, codec: Codec<T>, buffer: seq<M>, incoming: seq<RecvReply>,
      posted: seq<Posted<T>>, later: DecryptContext, n: nat)
    requires KeepsPayload(kind) && Lawful(codec) && Brings(codec, incoming, posted) && AllPaired(posted, later)
    requires forall i :: 0 <= i < |buffer| ==> later.Decrypt(codec, kind.payload(buffer[i])).Ok?
    ensures NoneFails(ReadMany(kind, codec, buffer, incoming, later, n).results)
  {
    if n <= |buffer| {
      BufferedAreReadFirst(kind, codec, buffer, incoming, later, n);
    } else {
      var k := |buffer|;
      BufferedAreReadFirst(kind, codec, buffer, incoming, later, k);
      LaterNeverFail(kind, codec, incoming, posted, later, n - k);
      assert seq(n, _ => later) == seq(k, _ => later) + seq(n - k, _ => later);
      ReadAllConcat(kind, codec, buffer, incoming, seq(k, _ => later), seq(n - k, _ => later));
      assert buffer[k..] == [];
      NoneFailsConcat(ReadMany(kind, codec, buffer, incoming, later, k).results,
                      ReadMany(kind, codec, [], incoming, later, n - k).results);
    }
  }

  /**
   Exactly when a change of context is safe.  Let the context be changed to `later`, and let everything
   that still comes from the socket be made for it.  However many reads follow, none fails but for the
   socket, if and only if `later` decrypts every buffered datagram.
   */
  lemma SwitchIsSafeIff<T(!new), M>(kind: LaneKind<M>, codec: Codec<T>, buffer: seq<M>, incoming: seq<RecvReply>,
      posted: seq<Posted<T>>, later: DecryptContext)
    requires KeepsPayload(kind) && Lawful(codec) && Brings(codec, incoming, posted) && AllPaired(posted, later)
    ensures (forall n: nat :: NoneFails(ReadMany(kind, codec, buffer, incoming, later, n).results))
            <==> (forall i :: 0 <= i < |buffer| ==> later.Decrypt(codec, kind.payload(buffer[i])).Ok?)
  {
    if forall i :: 0 <= i < |buffer| ==> later.Decrypt(codec, kind.payload(buffer[i])).Ok? {
      forall n: nat ensures NoneFails(ReadMany(kind, codec, buffer, incoming, later, n).results) {
        ReadableNeverFail(kind, codec, buffer, incoming, posted, later, n);
      }
    } else {
      var i :| 0 <= i < |buffer| && later.Decrypt(codec, kind.payload(buffer[i])).Err?;
      BufferedAreReadFirst(kind, codec, buffer, incoming, later, |buffer|);
      var results := ReadMany(kind, codec, buffer, incoming, later, |buffer|).results;
      assert results[i].Err? && results[i].error != Io;
    }
  }

  /**
   A context that rejects what was made for another is set safely if and only if nothing is buffered.
   Otherwise every buffered datagram is lost: one call each fails and uses it up.
   */
  lemma ForeignSwitchIsSafeIff<T(!new), M>(kind: LaneKind<M>, codec: Codec<T>, buffer: seq<M>,
      incoming: seq<RecvReply>, posted: seq<Posted<T>>, later: DecryptContext)
    requires KeepsPayload(kind) && Lawful(codec) && Brings(codec, incoming, posted) && AllPaired(posted, later)
    requires forall i :: 0 <= i < |buffer| ==> later.Open(kind.payload(buffer[i])) == None
    ensures (forall n: nat :: NoneFails(ReadMany(kind, codec, buffer, incoming, later, n).results)) <==> buffer == []
    ensures var r := ReadMany(kind, codec, buffer, incoming, later, |buffer|);
            && r.buffer == [] && r.incoming == incoming && |r.results| == |buffer|
            && forall i :: 0 <= i < |buffer| ==> r.results[i] == Err(SocketError.Crypto)
  {
    SwitchIsSafeIff(kind, codec, buffer, incoming, posted, later);
    BufferedAreReadFirst(kind, codec, buffer, incoming, later, |buffer|);
    if buffer != [] {
      assert later.Open(kind.payload(buffer[0])) == None;
    }
  }

  /** How a caller can tell: right after a read that found no message, nothing is buffered. */
  lemma NothingBufferedAfterNone<M>(kind: LaneKind<M>, buffer: seq<M>, incoming: seq<RecvReply>)
    requires KeepsPayload(kind) && ReadLane(kind, buffer, incoming).taken == Ok(None)
    ensures ReadLane(kind, buffer, incoming).buffer == []
  {
    var used := ReadConserves(kind, buffer, incoming);
  }
}
