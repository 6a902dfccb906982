/**
 The reading half of a TCP socket: drain the stream into the reader until it would block, then
 hand out one message.
 */
module TcpReceiver {
  import opened Base
  import opened Framing
  import opened Reader

  /** What the stream answers to a read; an empty chunk is the end of the stream. */
  datatype ReadReply = Chunk(bytes: Bytes) | ReadWouldBlock | ReadInterrupted | ReadFatal

  /** The replies to come; when they are used up, a closed stream is at its end, for good. */
  datatype Incoming = Incoming(replies: seq<ReadReply>, closed: bool)
  {
    function Reply(): ReadReply {
      if replies != [] then replies[0] else if closed then Chunk([]) else ReadWouldBlock
    }

    function Rest(): Incoming {
      if replies != [] then this.(replies := replies[1..]) else this
    }
  }

  datatype ReadResult<+T> = ReadResult(state: ReaderState, incoming: Incoming, result: Res<Option<T>>)

  /** The outcome of an attempt, with another result in place of no message. */
  ghost function TryOr<T>(d: Decoder<T>, st: ReaderState, inc: Incoming, otherwise: Res<Option<T>>): ReadResult<T> {
    var step := TryStep(d, st);
    ReadResult(step.state, inc, if step.result == Ok(None) then otherwise else step.result)
  }

  ghost function ReadLoop<T>(d: Decoder<T>, st: ReaderState, inc: Incoming, somethingRead: bool): ReadResult<T>
    decreases |inc.replies|
  {
    match inc.Reply()
    case Chunk(bytes) =>
      if bytes != [] then ReadLoop(d, st.Put(bytes), inc.Rest(), true)
      else if somethingRead then TryOr(d, st, inc.Rest(), Err(ZeroByteRead))
      else ReadResult(st, inc.Rest(), Err(ZeroByteRead))
    case ReadFatal => ReadResult(st, inc.Rest(), Err(Io))
    case _ => if somethingRead then TryOr(d, st, inc.Rest(), Ok(None)) else ReadResult(st, inc.Rest(), Ok(None))
  }

  ghost function Read<T>(d: Decoder<T>, st: ReaderState, inc: Incoming): ReadResult<T> {
    var step := TryStep(d, st);
    if step.result == Ok(None) then ReadLoop(d, step.state, inc, false)
    else ReadResult(step.state, inc, step.result)
  }

  // ---------------------------------------------------------------- the parse goes on where it was

  ghost function ChunkBytes(replies: seq<ReadReply>): Bytes {
    if replies == [] then []
    else (if replies[0].Chunk? then replies[0].bytes else []) + ChunkBytes(replies[1..])
  }

  /** The one-shot parse of everything held and everything still to come. */
  ghost function Total<T>(d: Decoder<T>, st: ReaderState, inc: Incoming): Parsed<T> {
    Remaining(d, st.Put(ChunkBytes(inc.replies)))
  }

  ghost predicate IsParseError<T>(r: Res<T>) {
    r.Err? && r.error != Io && r.error != ZeroByteRead
  }

  /** What a call delivers comes off the front of what held and coming bytes parse to. */
  ghost predicate Accounts<T>(d: Decoder<T>, st: ReaderState, inc: Incoming, r: ReadResult<T>) {
    Total(d, st, inc) ==
    if IsParseError(r.result) then Parsed([], Some(r.result.error))
    else if r.result.Ok? && r.result.value.Some? then Total(d, r.state, r.incoming).After([r.result.value.value])
    else Total(d, r.state, r.incoming)
  }

  lemma TryErrors<T>(d: Decoder<T>, st: ReaderState)
    ensures TryStep(d, st).result.Err? ==> IsParseError(TryStep(d, st).result)
  {
  }

  lemma TryAccounts<T>(d: Decoder<T>, st: ReaderState, inc: Incoming, otherwise: Res<Option<T>>)
    requires otherwise == Ok(None) || (otherwise.Err? && !IsParseError(otherwise))
    ensures Accounts(d, st, inc, TryOr(d, st, inc, otherwise))
  {
    TryFollows(d, st, ChunkBytes(inc.replies));
    TryErrors(d, st);
  }

  lemma RestTotal<T>(d: Decoder<T>, st: ReaderState, inc: Incoming)
    ensures Total(d, st, inc) ==
            Total(d, if inc.Reply().Chunk? then st.Put(inc.Reply().bytes) else st, inc.Rest())
  {
    if inc.replies != [] {
      var reply := inc.replies[0];
      var first := if reply.Chunk? then reply.bytes else [];
      assert st.buffer + (first + ChunkBytes(inc.replies[1..])) == st.buffer + first + ChunkBytes(inc.replies[1..]);
      assert st.buffer + [] == st.buffer;
    } else {
      assert st.Put([]) == st;
    }
  }

  lemma {:induction false} LoopAccounts<T>(d: Decoder<T>, st: ReaderState, inc: Incoming, somethingRead: bool)
    ensures Accounts(d, st, inc, ReadLoop(d, st, inc, somethingRead))
    decreases |inc.replies|
  {
    RestTotal(d, st, inc);
    var reply := inc.Reply();
    if reply.Chunk? && reply.bytes != [] {
      LoopAccounts(d, st.Put(reply.bytes), inc.Rest(), true);
    } else {
      assert st.Put([]) == st;
      if somethingRead && !reply.ReadFatal? {
        TryAccounts(d, st, inc.Rest(), if reply.Chunk? then Err(ZeroByteRead) else Ok(None));
      }
    }
  }

  /**
   A read moves along the one-shot parse, also when it ends at the end of the stream or in a fatal
   error: held and coming bytes before the call parse to what it delivers followed by what held
   and coming bytes parse to after it.
   */
  lemma ReadAccounts<T>(d: Decoder<T>, st: ReaderState, inc: Incoming)
    ensures Accounts(d, st, inc, Read(d, st, inc))
  {
    TryFollows(d, st, ChunkBytes(inc.replies));
    TryErrors(d, st);
    LoopAccounts(d, TryStep(d, st).state, inc, false);
  }

  // ---------------------------------------------------------------- no byte is lost

  /** What a call did with its stream: it used the first replies, and its last attempt was made here or not at all. */
  ghost predicate Drains<T>(d: Decoder<T>, inc: Incoming, r: ReadResult<T>, used: nat, attempt: ReaderState) {
    && used <= |inc.replies| && r.incoming == inc.(replies := inc.replies[used..])
    && (r.state == attempt || r.state == TryStep(d, attempt).state)
    && (r.result == Err(Io) ==> r.state == attempt)
    && (Delivers(r.result) || IsParseError(r.result) ==> TryStep(d, attempt) == Step(r.state, r.result))
    && (NoMessage(r.result) ==> TryStep(d, attempt).result == Ok(None) || r.state == attempt)
  }

  /** A call that finds no message says either that the stream would block or that it has ended. */
  ghost predicate NoMessage<T>(r: Res<Option<T>>) {
    r == Ok(None) || r == Err(ZeroByteRead)
  }

  lemma UsedBytes(inc: Incoming, used: nat)
    requires inc.replies != [] && used < |inc.replies|
    ensures ChunkBytes(inc.replies[..used + 1]) ==
            (if inc.replies[0].Chunk? then inc.replies[0].bytes else []) + ChunkBytes(inc.Rest().replies[..used])
    ensures inc.Rest().replies[used..] == inc.replies[used + 1..]
  {
    assert inc.replies[..used + 1][1..] == inc.replies[1..][..used];
  }

  lemma {:induction false} LoopDrains<T>(d: Decoder<T>, st: ReaderState, inc: Incoming, somethingRead: bool)
    returns (used: nat)
    ensures used <= |inc.replies|
    ensures Drains(d, inc, ReadLoop(d, st, inc, somethingRead), used, st.Put(ChunkBytes(inc.replies[..used])))
    decreases |inc.replies|
  {
    var reply := inc.Reply();
    if reply.Chunk? && reply.bytes != [] {
      used := LoopDrains(d, st.Put(reply.bytes), inc.Rest(), true);
      UsedBytes(inc, used);
      ConcatAssociative(st.buffer, reply.bytes, ChunkBytes(inc.Rest().replies[..used]));
      used := used + 1;
    } else {
      used := if inc.replies == [] then 0 else 1;
      StopsWithoutBytes(inc, used);
      NothingBehind(st.buffer);
      TryErrors(d, st);
    }
  }

  lemma StopsWithoutBytes(inc: Incoming, used: nat)
    requires !(inc.Reply().Chunk? && inc.Reply().bytes != []) && used == if inc.replies == [] then 0 else 1
    ensures ChunkBytes(inc.replies[..used]) == [] && inc.Rest() == inc.(replies := inc.replies[used..])
  {
    if inc.replies != [] {
      UsedBytes(inc, 0);
      assert inc.replies[..1] == [inc.replies[0]] && ChunkBytes(inc.replies[1..][..0]) == [];
    }
  }

  /** What a whole call did: a first attempt and, if it found nothing, a drain of the stream and perhaps another. */
  ghost predicate Attempts<T>(d: Decoder<T>, st: ReaderState, inc: Incoming, r: ReadResult<T>, used: nat,
                              attempt: ReaderState) {
    var first := TryStep(d, st);
    && Drains(d, inc, r, used, attempt)
    && if first.result == Ok(None) then attempt == first.state.Put(ChunkBytes(inc.replies[..used]))
       else used == 0 && attempt == st && Step(r.state, r.result) == first
  }

  /** What is left in the reader is a suffix of what it held and was given; only headers and a delivered body go. */
  ghost predicate KeepsBytes<T>(d: Decoder<T>, all: Bytes, r: ReadResult<T>) {
    && |r.state.buffer| <= |all|
    && var taken := |all| - |r.state.buffer|;
       && r.state.buffer == all[taken..]
       && (!Delivers(r.result) ==> taken == 0 || taken == d.HeaderLen() || taken == 2 * d.HeaderLen())
       && (r.result == Err(Io) ==> taken == 0 || taken == d.HeaderLen())
  }

  lemma ReadAttempts<T>(d: Decoder<T>, st: ReaderState, inc: Incoming) returns (used: nat, attempt: ReaderState)
    ensures Attempts(d, st, inc, Read(d, st, inc), used, attempt)
  {
    var first := TryStep(d, st);
    TryErrors(d, st);
    if first.result == Ok(None) {
      used := LoopDrains(d, first.state, inc, false);
      attempt := first.state.Put(ChunkBytes(inc.replies[..used]));
    } else {
      used, attempt := 0, st;
      assert inc.replies[0..] == inc.replies;
    }
  }

  lemma TwoCuts(held: Bytes, k: nat, more: Bytes, j: nat)
    requires k <= |held| && j <= |held[k..] + more|
    ensures (held[k..] + more)[j..] == (held + more)[k + j..]
  {
  }

  lemma DrainKeepsBytes<T>(d: Decoder<T>, st: ReaderState, more: Bytes, attempt: ReaderState, r: ReadResult<T>)
    requires TryStep(d, st).result == Ok(None) && attempt == TryStep(d, st).state.Put(more)
    requires r.state == attempt || (r.state == TryStep(d, attempt).state && r.result != Err(Io))
    requires Delivers(TryStep(d, attempt).result) && r.state == TryStep(d, attempt).state ==> Delivers(r.result)
    ensures KeepsBytes(d, st.buffer + more, r)
  {
    var k := AttemptTakes(d, st);
    if r.state == attempt {
      TwoCuts(st.buffer, k, more, 0);
    } else {
      var j := AttemptTakes(d, attempt);
      TwoCuts(st.buffer, k, more, j);
    }
  }

  lemma OneAttemptKeepsBytes<T>(d: Decoder<T>, st: ReaderState, r: ReadResult<T>)
    requires Step(r.state, r.result) == TryStep(d, st)
    ensures KeepsBytes(d, st.buffer, r)
  {
    var j := AttemptTakes(d, st);
    TryErrors(d, st);
  }

  lemma AttemptsKeepBytes<T>(d: Decoder<T>, st: ReaderState, inc: Incoming, r: ReadResult<T>, used: nat,
                             attempt: ReaderState)
    requires Attempts(d, st, inc, r, used, attempt)
    ensures KeepsBytes(d, st.buffer + ChunkBytes(inc.replies[..used]), r)
  {
    if TryStep(d, st).result == Ok(None) {
      StateOfAttempt(d, inc, r, used, attempt);
      DrainKeepsBytes(d, st, ChunkBytes(inc.replies[..used]), attempt, r);
    } else {
      NothingBehind(st.buffer);
      OneAttemptKeepsBytes(d, st, r);
    }
  }

  lemma StateOfAttempt<T>(d: Decoder<T>, inc: Incoming, r: ReadResult<T>, used: nat, attempt: ReaderState)
    requires Drains(d, inc, r, used, attempt)
    ensures r.state == attempt || (r.state == TryStep(d, attempt).state && r.result != Err(Io))
    ensures Delivers(TryStep(d, attempt).result) && r.state == TryStep(d, attempt).state ==> Delivers(r.result)
  {
    TryErrors(d, attempt);
    var k := AttemptTakes(d, attempt);
  }

  /**
   No byte is lost by a read, however it ends.  The call uses up the first replies; what the reader
   then holds is a suffix of what it held and was given.  A call that delivers no message takes at most
   the headers at which its first and its last attempt stood, and keeps their numbers; a fatal error
   leaves everything but such a header of the first attempt.
   */
  lemma ReadKeepsBytes<T>(d: Decoder<T>, st: ReaderState, inc: Incoming) returns (used: nat, attempt: ReaderState)
    ensures Attempts(d, st, inc, Read(d, st, inc), used, attempt)
    ensures KeepsBytes(d, st.buffer + ChunkBytes(inc.replies[..used]), Read(d, st, inc))
  {
    used, attempt := ReadAttempts(d, st, inc);
    AttemptsKeepBytes(d, st, inc, Read(d, st, inc), used, attempt);
  }

  // ---------------------------------------------------------------- what a call does, case by case

  /** How many replies hand over data before the first that does not. */
  ghost function PieceCount(replies: seq<ReadReply>): (k: nat)
    ensures k <= |replies|
    ensures forall i :: 0 <= i < k ==> replies[i].Chunk? && replies[i].bytes != []
    ensures k < |replies| ==> !(replies[k].Chunk? && replies[k].bytes != [])
  {
    if replies != [] && replies[0].Chunk? && replies[0].bytes != [] then 1 + PieceCount(replies[1..]) else 0
  }

  /** The reply behind the data: the first that hands none over, or what a used-up stream answers. */
  ghost function StopAfter(inc: Incoming, k: nat): ReadReply {
    if k < |inc.replies| then inc.replies[k] else if inc.closed then Chunk([]) else ReadWouldBlock
  }

  /** What a call returns that finds no message. */
  ghost function Nothing<T>(stop: ReadReply): Res<Option<T>> {
    if stop == Chunk([]) then Err(ZeroByteRead) else Ok(None)
  }

  /** A drain of the stream in one step. */
  ghost predicate DrainsTo<T>(d: Decoder<T>, st: ReaderState, inc: Incoming, somethingRead: bool, r: ReadResult<T>) {
    var k := PieceCount(inc.replies);
    var stop, drained := StopAfter(inc, k), st.Put(ChunkBytes(inc.replies[..k]));
    && r.incoming == inc.(replies := inc.replies[Min(k + 1, |inc.replies|)..])
    && (r.result == Err(Io) <==> stop.ReadFatal?)
    && (stop.ReadFatal? ==> r.state == drained)
    && (!stop.ReadFatal? && !somethingRead && k == 0 ==> r.state == st && r.result == Nothing(stop))
    && (!stop.ReadFatal? && (somethingRead || k > 0) ==>
          var last := TryStep(d, drained);
          r.state == last.state && r.result == if last.result == Ok(None) then Nothing(stop) else last.result)
  }

  lemma DrainsOnePiece(inc: Incoming)
    requires inc.Reply().Chunk? && inc.Reply().bytes != []
    ensures var k := PieceCount(inc.Rest().replies);
            && PieceCount(inc.replies) == k + 1
            && StopAfter(inc.Rest(), k) == StopAfter(inc, k + 1)
            && ChunkBytes(inc.replies[..k + 1]) == inc.Reply().bytes + ChunkBytes(inc.Rest().replies[..k])
            && inc.Rest().replies[Min(k + 1, |inc.Rest().replies|)..] == inc.replies[Min(k + 2, |inc.replies|)..]
  {
    assert inc.replies[..PieceCount(inc.Rest().replies) + 1][1..] ==
           inc.Rest().replies[..PieceCount(inc.Rest().replies)];
  }

  lemma DrainsNothing<T>(d: Decoder<T>, st: ReaderState, inc: Incoming, somethingRead: bool)
    requires !(inc.Reply().Chunk? && inc.Reply().bytes != [])
    ensures DrainsTo(d, st, inc, somethingRead, ReadLoop(d, st, inc, somethingRead))
  {
    assert PieceCount(inc.replies) == 0 && ChunkBytes(inc.replies[..0]) == [];
    NothingBehind(st.buffer);
    TryErrors(d, st);
  }

  lemma {:induction false} LoopDrainsTo<T>(d: Decoder<T>, st: ReaderState, inc: Incoming, somethingRead: bool)
    ensures DrainsTo(d, st, inc, somethingRead, ReadLoop(d, st, inc, somethingRead))
    decreases |inc.replies|
  {
    if inc.Reply().Chunk? && inc.Reply().bytes != [] {
      LoopDrainsTo(d, st.Put(inc.Reply().bytes), inc.Rest(), true);
      DrainsOnePiece(inc);
      ConcatAssociative(st.buffer, inc.Reply().bytes,
                        ChunkBytes(inc.Rest().replies[..PieceCount(inc.Rest().replies)]));
    } else {
      DrainsNothing(d, st, inc, somethingRead);
    }
  }

  /**
   A read, case by case.  If the reader holds a message or a fault, the call returns it and leaves the
   stream alone.  Otherwise it uses the data at hand and the reply behind it, no more.  It returns a
   fatal error if and only if that reply is one, whatever has been received, and then keeps all of the
   data; else one more attempt decides, if there was data.
   */
  lemma ReadCases<T>(d: Decoder<T>, st: ReaderState, inc: Incoming)
    ensures var r, first := Read(d, st, inc), TryStep(d, st);
            if first.result != Ok(None) then r == ReadResult(first.state, inc, first.result)
            else
              var k := PieceCount(inc.replies);
              var stop, drained := StopAfter(inc, k), first.state.Put(ChunkBytes(inc.replies[..k]));
              && r.incoming == inc.(replies := inc.replies[Min(k + 1, |inc.replies|)..])
              && (r.result == Err(Io) <==> stop.ReadFatal?)
              && (stop.ReadFatal? ==> r.state == drained)
              && (!stop.ReadFatal? && k == 0 ==> r.state == first.state && r.result == Nothing(stop))
              && (!stop.ReadFatal? && k > 0 ==>
                    var last := TryStep(d, drained);
                    && r.state == last.state
                    && r.result == if last.result == Ok(None) then Nothing(stop) else last.result)
  {
    if TryStep(d, st).result == Ok(None) {
      LoopDrainsTo(d, TryStep(d, st).state, inc, false);
    }
  }

  // ---------------------------------------------------------------- no message is missed

  /** The data that a drain of the stream puts into the reader: all pieces before the first other reply. */
  ghost function Pieces(inc: Incoming): Bytes
    decreases |inc.replies|
  {
    if inc.Reply().Chunk? && inc.Reply().bytes != [] then inc.Reply().bytes + Pieces(inc.Rest()) else []
  }

  /** The reply that ends a drain of the stream: the first that is not a piece of data. */
  ghost function StopReply(inc: Incoming): ReadReply
    decreases |inc.replies|
  {
    if inc.Reply().Chunk? && inc.Reply().bytes != [] then StopReply(inc.Rest()) else inc.Reply()
  }

  /** The state in which a call that returns without a message made its last attempt. */
  ghost function LastAttempt<T>(d: Decoder<T>, st: ReaderState, inc: Incoming): ReaderState {
    if Pieces(inc) == [] then st else TryStep(d, st).state.Put(Pieces(inc))
  }

  lemma {:induction false} LoopStops<T>(d: Decoder<T>, st: ReaderState, inc: Incoming, somethingRead: bool)
    requires NoMessage(ReadLoop(d, st, inc, somethingRead).result)
    ensures ReadLoop(d, st, inc, somethingRead).result == Ok(None) <==>
              StopReply(inc).ReadWouldBlock? || StopReply(inc).ReadInterrupted?
    ensures ReadLoop(d, st, inc, somethingRead).result == Err(ZeroByteRead) <==> StopReply(inc) == Chunk([])
    decreases |inc.replies|
  {
    if inc.Reply().Chunk? && inc.Reply().bytes != [] {
      LoopStops(d, st.Put(inc.Reply().bytes), inc.Rest(), true);
    } else {
      TryErrors(d, st);
    }
  }

  lemma {:induction false} LoopAttempts<T>(d: Decoder<T>, st: ReaderState, inc: Incoming, somethingRead: bool)
    requires somethingRead || Pieces(inc) != []
    requires NoMessage(ReadLoop(d, st, inc, somethingRead).result)
    ensures TryStep(d, st.Put(Pieces(inc))) == Step(ReadLoop(d, st, inc, somethingRead).state, Ok(None))
    decreases |inc.replies|
  {
    if inc.Reply().Chunk? && inc.Reply().bytes != [] {
      LoopAttempts(d, st.Put(inc.Reply().bytes), inc.Rest(), true);
      ConcatAssociative(st.buffer, inc.Reply().bytes, Pieces(inc.Rest()));
    } else {
      NothingBehind(st.buffer);
      TryErrors(d, st);
    }
  }

  /** Some message, or some error, can be read from what the reader holds, without another byte. */
  ghost predicate HoldsSomething<T>(d: Decoder<T>, st: ReaderState) {
    Remaining(d, st) != Parsed([], None)
  }

  /**
   A read returns no message only because the stream would block, and reports the end only because
   the stream has ended.  Either way it has then read everything there is to read in the bytes it held
   and received, unless these begin with zero-length frames and a complete or faulty frame stands
   behind them: exactly then is something missed, and it is what the bytes behind that header parse to.
   */
  lemma NoMessageMissedIff<T>(d: Decoder<T>, st: ReaderState, inc: Incoming)
    requires NoMessage(Read(d, st, inc).result)
    ensures Read(d, st, inc).result == Ok(None) <==> StopReply(inc).ReadWouldBlock? || StopReply(inc).ReadInterrupted?
    ensures Read(d, st, inc).result == Err(ZeroByteRead) <==> StopReply(inc) == Chunk([])
    ensures var attempt := LastAttempt(d, st, inc);
            && (HoldsSomething(d, Read(d, st, inc).state) <==>
                  AtZeroFrame(d, attempt) && !FirstFrame(d, BehindZeroFrames(d, attempt.buffer)).Incomplete?)
            && (AtZeroFrame(d, attempt) ==>
                  Remaining(d, Read(d, st, inc).state) == ParseAll(d, attempt.buffer[d.HeaderLen()..]))
  {
    var first := TryStep(d, st).state;
    var attempt := LastAttempt(d, st, inc);
    TryErrors(d, st);
    LoopStops(d, first, inc, false);
    if Pieces(inc) != [] {
      LoopAttempts(d, first, inc, false);
    }
    NothingReadIff(d, attempt);
    StaysEmpty(d, attempt);
    SomethingToReadIff(d, attempt.buffer);
  }

  lemma StaysEmpty<T>(d: Decoder<T>, st: ReaderState)
    ensures Waiting(d, st) ==> !HoldsSomething(d, TryStep(d, st).state)
  {
    NothingReadIff(d, st);
    NothingReadIff(d, TryStep(d, st).state);
  }

  // ---------------------------------------------------------------- the end of the stream

  /** A stream without fatal errors that ends for good when its replies are used up. */
  ghost predicate EndsCleanly(inc: Incoming) {
    && inc.closed
    && forall i :: 0 <= i < |inc.replies| ==> !inc.replies[i].ReadFatal? && inc.replies[i] != Chunk([])
  }

  ghost predicate TotalZeroFree<T>(d: Decoder<T>, st: ReaderState, inc: Incoming) {
    ZeroFreeFrom(d, st.Put(ChunkBytes(inc.replies)))
  }

  lemma RestZeroFree<T>(d: Decoder<T>, st: ReaderState, inc: Incoming)
    requires TotalZeroFree(d, st, inc)
    ensures TotalZeroFree(d, if inc.Reply().Chunk? then st.Put(inc.Reply().bytes) else st, inc.Rest())
  {
    if inc.replies != [] {
      var reply := inc.replies[0];
      var first := if reply.Chunk? then reply.bytes else [];
      assert st.buffer + (first + ChunkBytes(inc.replies[1..])) == st.buffer + first + ChunkBytes(inc.replies[1..]);
      assert st.buffer + [] == st.buffer;
    } else {
      assert st.Put([]) == st;
    }
  }

  /** How a read goes on a stream that ends cleanly and has no zero-length frames. */
  ghost predicate CleanRead<T>(d: Decoder<T>, inc: Incoming, r: ReadResult<T>) {
    && EndsCleanly(r.incoming)
    && |r.incoming.replies| <= |inc.replies|
    && (r.result.Ok? ==> TotalZeroFree(d, r.state, r.incoming))
    && (r.result.Err? ==> r.result.error != Io)
    && (r.result == Ok(None) ==> |r.incoming.replies| < |inc.replies|)
    && (r.result == Err(ZeroByteRead) ==> r.incoming.replies == [] && Waiting(d, r.state))
  }

  lemma {:induction false} LoopIsClean<T>(d: Decoder<T>, st: ReaderState, inc: Incoming, somethingRead: bool)
    requires EndsCleanly(inc) && TotalZeroFree(d, st, inc)
    requires !somethingRead ==> Waiting(d, st)
    ensures CleanRead(d, inc, ReadLoop(d, st, inc, somethingRead))
    ensures var r := ReadLoop(d, st, inc, somethingRead);
            (r.result.Ok? && r.result.value.Some? && !somethingRead) ==> |r.incoming.replies| < |inc.replies|
    decreases |inc.replies|
  {
    RestZeroFree(d, st, inc);
    NothingBehind(st.buffer);
    var reply := inc.Reply();
    if reply.Chunk? && reply.bytes != [] {
      LoopIsClean(d, st.Put(reply.bytes), inc.Rest(), true);
    } else {
      StopIsClean(d, st, inc, somethingRead);
    }
  }

  lemma StopIsClean<T>(d: Decoder<T>, st: ReaderState, inc: Incoming, somethingRead: bool)
    requires EndsCleanly(inc) && TotalZeroFree(d, st, inc.Rest())
    requires !somethingRead ==> Waiting(d, st)
    requires !(inc.Reply().Chunk? && inc.Reply().bytes != [])
    ensures CleanRead(d, inc, ReadLoop(d, st, inc, somethingRead))
    ensures !somethingRead ==> !Delivers(ReadLoop(d, st, inc, somethingRead).result)
  {
    TryStaysZeroFree(d, st, ChunkBytes(inc.Rest().replies));
    NothingReadIff(d, st);
    TryErrors(d, st);
  }

  lemma ReadIsClean<T>(d: Decoder<T>, st: ReaderState, inc: Incoming)
    requires EndsCleanly(inc) && TotalZeroFree(d, st, inc)
    ensures CleanRead(d, inc, Read(d, st, inc))
    ensures var r := Read(d, st, inc);
            r.result.Ok? && r.result.value.Some? && |r.incoming.replies| == |inc.replies| ==>
              |r.state.buffer| < |st.buffer|
  {
    TryStaysZeroFree(d, st, ChunkBytes(inc.replies));
    NothingReadIff(d, st);
    TryErrors(d, st);
    StuckOrProgress(d, st);
    if TryStep(d, st).result == Ok(None) {
      LoopIsClean(d, TryStep(d, st).state, inc, false);
    }
  }

  /** The messages that repeated reads hand out up to the first error, and that error. */
  ghost function ReadUntilError<T>(d: Decoder<T>, st: ReaderState, inc: Incoming): (seq<T>, SocketError)
    requires EndsCleanly(inc) && TotalZeroFree(d, st, inc)
    decreases |inc.replies|, |st.buffer|
  {
    ReadIsClean(d, st, inc);
    var r := Read(d, st, inc);
    match r.result
    case Err(e) => ([], e)
    case Ok(None) => ReadUntilError(d, r.state, r.incoming)
    case Ok(Some(m)) =>
      var (msgs, e) := ReadUntilError(d, r.state, r.incoming);
      ([m] + msgs, e)
  }

  /**
   The end of the stream comes last: repeated reads hand out every complete frame that was received
   and only then report the end; a trailing partial frame is never handed out.  If the bytes are
   faulty, reads hand out what precedes the fault and then report it.
   */
  lemma {:induction false} EverythingBeforeTheEnd<T>(d: Decoder<T>, st: ReaderState, inc: Incoming)
    requires EndsCleanly(inc) && TotalZeroFree(d, st, inc)
    ensures var total := Total(d, st, inc);
            ReadUntilError(d, st, inc) ==
              (total.msgs, if total.error.Some? then total.error.value else ZeroByteRead)
    decreases |inc.replies|, |st.buffer|
  {
    ReadIsClean(d, st, inc);
    ReadAccounts(d, st, inc);
    var r := Read(d, st, inc);
    if r.result.Ok? {
      EverythingBeforeTheEnd(d, r.state, r.incoming);
    } else if r.result.error == ZeroByteRead {
      NothingReadIff(d, r.state);
      assert r.state.Put([]) == r.state;
    }
  }
}
