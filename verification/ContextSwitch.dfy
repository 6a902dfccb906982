/** Changing the encryption context of both ends while messages are under way. */
module ContextSwitch {
  import opened Base
  import opened Crypto
  import opened OutQueues
  import opened Outboxes
  import opened Framing
  import opened Reader
  import opened TcpSender
  import opened TcpSystem
  import opened TcpCalls

  ghost predicate AllUnder<T>(queue: seq<Stamped<Item<T>>>, enc: EncryptContext) {
    forall i :: 0 <= i < |queue| ==> queue[i].msg.enc == enc
  }

  ghost predicate QueuedUnder<T>(slots: seq<Slot<Item<T>>>, enc: EncryptContext) {
    forall p: Priority :: AllUnder(QueueOf(slots, p), enc)
  }

  /** The first k frames started were made under one context; all others, and the queued ones, under the next. */
  ghost predicate Split<T>(s: Sender<T>, k: nat, earlier: EncryptContext, later: EncryptContext) {
    && s.enc == later
    && k <= |s.box.started|
    && (forall i :: 0 <= i < k ==> s.box.started[i].entry.msg.enc == earlier)
    && (forall i :: k <= i < |s.box.started| ==> s.box.started[i].entry.msg.enc == later)
    && QueuedUnder(s.box.queue, later)
  }

  /**
   The discipline of both ends after a change of context: the sender changes no more, and the
   receiver reads the first k messages with the old context and all later ones with the new one.
   */
  ghost predicate Disciplined<T>(fx: Fixed<T>, sys: System<T>, evs: seq<Event<T>>,
                                 k: nat, earlier: DecryptContext, later: DecryptContext)
    requires WellFormed(sys.snd.box.queue)
    decreases |evs|
  {
    if evs == [] then true
    else
      ActKeepsWellFormed(fx, sys, evs[0]);
      && !evs[0].SetEncryptEvent?
      && (evs[0].EnqueueEvent? || evs[0].SendEvent? ==> Admissible(fx, sys, evs[0]))
      && (evs[0].TryReadEvent? ==> sys.dec == if |sys.delivered| < k then earlier else later)
      && Disciplined(fx, Act(fx, sys, evs[0]), evs[1..], k, earlier, later)
  }

  lemma DropKeepsUnder<T>(fx: Fixed<T>, slots: seq<Slot<Item<T>>>, now: nat, enc: EncryptContext)
    requires WellFormed(slots) && QueuedUnder(slots, enc)
    ensures QueuedUnder(Survivors(slots, fx.conf, now), enc)
  {
    forall p: Priority ensures AllUnder(QueueOf(Survivors(slots, fx.conf, now), p), enc) {
      ExpiryRule(slots, fx.conf, now, p);
      assert AllUnder(QueueOf(slots, p), enc);
    }
  }

  lemma PushKeepsUnder<T>(slots: seq<Slot<Item<T>>>, p: Priority, x: Stamped<Item<T>>, enc: EncryptContext)
    requires WellFormed(slots) && QueuedUnder(slots, enc) && x.msg.enc == enc
    ensures QueuedUnder(Pushed(slots, p, x), enc)
  {
    PushedEffect(slots, p, x);
    forall q: Priority ensures AllUnder(QueueOf(Pushed(slots, p, x), q), enc) {
      assert AllUnder(QueueOf(slots, q), enc);
    }
  }

  lemma NextKeepsUnder<T>(slots: seq<Slot<Item<T>>>, enc: EncryptContext)
    requires WellFormed(slots) && slots != [] && QueuedUnder(slots, enc)
    ensures QueuedUnder(AfterNext(slots), enc) && Front(slots).entry.msg.enc == enc
  {
    NextEffect(slots);
    var least := slots[0].priority;
    assert AllUnder(QueueOf(slots, least), enc);
    assert QueueOf(slots, least)[0] == slots[0].queue[0];
    forall p: Priority ensures AllUnder(QueueOf(AfterNext(slots), p), enc) {
      assert AllUnder(QueueOf(slots, p), enc);
      if p == least {
        assert QueueOf(AfterNext(slots), p) == QueueOf(slots, p)[1..];
      }
    }
  }

  lemma EnqueueKeepsSplit<T>(fx: Fixed<T>, s: Sender<T>, wait: nat, msg: Option<(T, Priority)>, nonces: (nat, nat),
                             k: nat, earlier: EncryptContext, later: EncryptContext)
    requires WellFormed(s.box.queue) && Split(s, k, earlier, later)
    ensures Split(Enqueue(fx.conf, fx.codec, s, wait, msg, nonces).0, k, earlier, later)
  {
    var box := DropExpired(s.box, fx.conf, wait);
    assert WellFormed(box.queue) by { ExpirySplits(s.box.queue, fx.conf, box.now); }
    DropKeepsUnder(fx, s.box.queue, box.now, later);
    if msg.Some? && Serialized(fx.codec, s.enc, nonces, msg.value.0).Ok? {
      var item := Item(msg.value.0, Serialized(fx.codec, s.enc, nonces, msg.value.0).value, s.enc);
      PushKeepsUnder(box.queue, msg.value.1, Stamped(box.now, item), later);
    }
  }

  lemma SendKeepsSplit<T>(s: Sender<T>, reply: WriteReply, k: nat, earlier: EncryptContext, later: EncryptContext)
    requires WellFormed(s.box.queue) && !Idle(s) && Split(s, k, earlier, later)
    ensures Split(Send(s, reply), k, earlier, later)
  {
    if s.current.None? {
      NextKeepsUnder(s.box.queue, later);
    }
  }

  lemma ActKeepsSplit<T>(fx: Fixed<T>, sys: System<T>, ev: Event<T>, k: nat, earlier: EncryptContext,
                         later: EncryptContext)
    requires WellFormed(sys.snd.box.queue) && Split(sys.snd, k, earlier, later) && !ev.SetEncryptEvent?
    ensures Split(Act(fx, sys, ev).snd, k, earlier, later)
  {
    match ev
    case EnqueueEvent(wait, msg, nonces) => EnqueueKeepsSplit(fx, sys.snd, wait, msg, nonces, k, earlier, later);
    case SendEvent(reply) => if !Idle(sys.snd) { SendKeepsSplit(sys.snd, reply, k, earlier, later); }
    case _ =>
  }

  /** A disciplined run is admissible: every attempt to read is made with the matching context. */
  lemma {:induction false} DisciplinedIsAdmissible<T>(fx: Fixed<T>, sys: System<T>, evs: seq<Event<T>>, k: nat,
      oldEnc: EncryptContext, newEnc: EncryptContext, oldDec: DecryptContext, newDec: DecryptContext)
    requires WellFormed(sys.snd.box.queue) && Split(sys.snd, k, oldEnc, newEnc)
    requires Paired(oldEnc, oldDec) && Paired(newEnc, newDec)
    requires Disciplined(fx, sys, evs, k, oldDec, newDec)
    ensures AllAdmissible(fx, sys, evs)
    ensures Split(Run(fx, sys, evs).snd, k, oldEnc, newEnc)
    decreases |evs|
  {
    if evs != [] {
      ActKeepsWellFormed(fx, sys, evs[0]);
      ActKeepsSplit(fx, sys, evs[0], k, oldEnc, newEnc);
      DisciplinedIsAdmissible(fx, Act(fx, sys, evs[0]), evs[1..], k, oldEnc, newEnc, oldDec, newDec);
    }
  }

  /**
   Context switch safety.  Let the sender change its context when its queue is empty, a frame in
   progress notwithstanding, and let the receiver change its own after the last message started
   before that and before any further attempt to read.  Then no read fails, and the messages of
   both contexts are delivered in the order in which they were started.
   */
  lemma SwitchIsSafe<T(!new)>(fx: Fixed<T>, before: seq<Event<T>>, after: seq<Event<T>>,
      oldEnc: EncryptContext, newEnc: EncryptContext, oldDec: DecryptContext, newDec: DecryptContext)
    requires Lawful(fx.codec) && Paired(oldEnc, oldDec) && Paired(newEnc, newDec)
    requires Disciplined(fx, Start(oldEnc, oldDec), before, 0, oldDec, oldDec)
    requires var mid := Run(fx, Start(oldEnc, oldDec), before);
             && mid.snd.box.queue == []
             && Disciplined(fx, mid.(snd := mid.snd.(enc := newEnc)), after, |Started(mid)|, oldDec, newDec)
    ensures var mid := Run(fx, Start(oldEnc, oldDec), before);
            var end := Run(fx, mid.(snd := mid.snd.(enc := newEnc)), after);
            && end.error.None?
            && end.delivered <= Messages(Started(end))
            && Split(end.snd, |Started(mid)|, oldEnc, newEnc)
            && (Drained(fx, end) ==> end.delivered == Messages(Started(end)))
  {
    var start := Start<T>(oldEnc, oldDec);
    DisciplinedIsAdmissible(fx, start, before, 0, oldEnc, oldEnc, oldDec, oldDec);
    var mid := Run(fx, start, before);
    var switched := mid.(snd := mid.snd.(enc := newEnc));
    DisciplinedIsAdmissible(fx, switched, after, |Started(mid)|, oldEnc, newEnc, oldDec, newDec);
    var evs := before + ([SetEncryptEvent(newEnc)] + after);
    RunCons(fx, mid, SetEncryptEvent(newEnc), after);
    RunConcat(fx, start, before, [SetEncryptEvent(newEnc)] + after);
    DeliveredInStartOrder(fx, oldEnc, oldDec, evs);
  }

  // ---------------------------------------------------------------- when the receiver may change

  /** A frame that a context recognises neither by its header nor by its body. */
  ghost predicate Foreign<T>(item: Item<T>, ctx: DecryptContext) {
    var h := ctx.EncryptedSizeLen();
    && h == item.enc.EncryptedSizeLen() <= |item.frame|
    && ctx.Open(item.frame[..h]) == None && ctx.Open(item.frame[h..]) == None
  }

  /** The receiver's context is `later` at every attempt to read, and the sender's changes no more. */
  ghost predicate Later<T>(fx: Fixed<T>, sys: System<T>, evs: seq<Event<T>>, later: DecryptContext)
    requires WellFormed(sys.snd.box.queue)
  {
    Disciplined(fx, sys, evs, 0, later, later)
  }

  /** Once the receiver is past the frames of the earlier context, every attempt is made with the right one. */
  lemma {:induction false} LateReadsAdmissible<T>(fx: Fixed<T>, sys: System<T>, evs: seq<Event<T>>, k: nat,
      oldEnc: EncryptContext, newEnc: EncryptContext, later: DecryptContext)
    requires WellFormed(sys.snd.box.queue) && Split(sys.snd, k, oldEnc, newEnc) && Paired(newEnc, later)
    requires |sys.delivered| >= k && Later(fx, sys, evs, later)
    ensures AllAdmissible(fx, sys, evs)
    decreases |evs|
  {
    if evs != [] {
      ActKeepsWellFormed(fx, sys, evs[0]);
      ActKeepsSplit(fx, sys, evs[0], k, oldEnc, newEnc);
      LateReadsAdmissible(fx, Act(fx, sys, evs[0]), evs[1..], k, oldEnc, newEnc, later);
    }
  }

  lemma SameSuffix(base: Bytes, a: Bytes, b: Bytes)
    requires base + a == base + b
    ensures a == b
  {
    assert a == (base + a)[|base|..] && b == (base + b)[|base|..];
  }

  lemma ForeignHeader<T>(d: Decoder<T>, item: Item<T>, base: Bytes, rest: Bytes, rcv: ReaderState)
    requires Foreign(item, d.ctx) && rcv.readLen == 0
    requires base + rcv.buffer == base + (item.frame + rest)
    ensures TryStep(d, rcv).result == Err(SocketError.Crypto)
  {
    SameSuffix(base, rcv.buffer, item.frame + rest);
    assert (item.frame + rest)[..d.HeaderLen()] == item.frame[..d.HeaderLen()];
  }

  lemma ForeignBody<T>(d: Decoder<T>, item: Item<T>, base: Bytes, rest: Bytes, rcv: ReaderState)
    requires Foreign(item, d.ctx) && rcv.readLen > 0 && |item.frame| == d.HeaderLen() + rcv.readLen
    requires base + (item.frame[..d.HeaderLen()] + rcv.buffer) == base + (item.frame + rest)
    ensures TryStep(d, rcv).result == Err(SocketError.Crypto)
  {
    var header, body := item.frame[..d.HeaderLen()], item.frame[d.HeaderLen()..];
    SameSuffix(base, header + rcv.buffer, item.frame + rest);
    assert item.frame == header + body;
    ConcatAssociative(header, body, rest);
    SameSuffix(header, rcv.buffer, body + rest);
    assert (body + rest)[..rcv.readLen] == body;
  }

  /** With all bytes of a foreign frame at hand, an attempt to read it fails. */
  lemma ForeignFrameFails<T>(d: Decoder<T>, started: seq<Record<Item<T>>>, j: nat, rcv: ReaderState)
    requires j < |started| && Position(started, Wire(started), j, rcv)
    requires Foreign(started[j].entry.msg, d.ctx)
    ensures TryStep(d, rcv).result == Err(SocketError.Crypto)
  {
    var item, rest := started[j].entry.msg, Wire(started[j + 1..]);
    WireSplit(started, j);
    if rcv.readLen == 0 {
      ForeignHeader(d, item, Wire(started[..j]), rest, rcv);
    } else {
      ForeignBody(d, item, Wire(started[..j]), rest, rcv);
    }
  }

  /** The rest of the frame in progress can be sent. */
  lemma CanFinishFrame<T>(fx: Fixed<T>, sys: System<T>, later: DecryptContext) returns (evs: seq<Event<T>>)
    requires SystemInv(fx, sys) && !sys.snd.failed
    ensures Later(fx, sys, evs, later)
    ensures var t := Run(fx, sys, evs);
            && SystemInv(fx, t) && t == sys.(snd := t.snd) && !t.snd.failed
            && Started(t) == Started(sys) && t.snd.wire == Wire(Started(t))
  {
    evs := [];
    if sys.snd.current.Some? {
      var ev := SendEvent(Accept(|sys.snd.current.value|));
      evs := [ev];
      RunOne(fx, sys, ev);
      SendEventKeepsSystem(fx, sys, Accept(|sys.snd.current.value|));
    }
    assert SenderInv(fx.conf, Run(fx, sys, evs).snd);
    NothingBehind(Run(fx, sys, evs).snd.wire);
  }

  lemma {:induction false} LaterConcat<T>(fx: Fixed<T>, sys: System<T>, a: seq<Event<T>>, b: seq<Event<T>>,
                                          later: DecryptContext)
    requires WellFormed(sys.snd.box.queue) && Later(fx, sys, a, later)
    ensures WellFormed(Run(fx, sys, a).snd.box.queue)
    ensures Later(fx, Run(fx, sys, a), b, later) ==> Later(fx, sys, a + b, later)
    decreases |a|
  {
    RunKeepsWellFormed(fx, sys, a);
    if a == [] {
      NothingBefore(b);
    } else {
      assert (a + b)[1..] == a[1..] + b;
      ActKeepsWellFormed(fx, sys, a[0]);
      LaterConcat(fx, Act(fx, sys, a[0]), a[1..], b, later);
    }
  }

  /** From a receiver that is not past the foreign frames, some continuation leads to a failed read. */
  lemma EarlyReadCanFail<T>(fx: Fixed<T>, sys: System<T>, later: DecryptContext) returns (evs: seq<Event<T>>)
    requires SystemInv(fx, sys) && !sys.snd.failed && sys.dec == later
    requires |sys.delivered| < |Started(sys)| && Foreign(Started(sys)[|sys.delivered|].entry.msg, later)
    ensures Later(fx, sys, evs, later) && Run(fx, sys, evs).error == Some(SocketError.Crypto)
  {
    var sends := CanFinishFrame(fx, sys, later);
    var sent := Run(fx, sys, sends);
    var more := FeedAndFail(fx, sent, later);
    LaterConcat(fx, sys, sends, more, later);
    RunConcat(fx, sys, sends, more);
    evs := sends + more;
  }

  lemma FeedAndFail<T>(fx: Fixed<T>, sys: System<T>, later: DecryptContext) returns (evs: seq<Event<T>>)
    requires SystemInv(fx, sys) && sys.snd.wire == Wire(Started(sys)) && sys.dec == later
    requires |sys.delivered| < |Started(sys)| && Foreign(Started(sys)[|sys.delivered|].entry.msg, later)
    ensures Later(fx, sys, evs, later) && Run(fx, sys, evs).error == Some(SocketError.Crypto)
  {
    var size := FedSoFar(fx, sys);
    var feed: Event<T> := FeedEvent(size);
    var fed := Feed(sys, size);
    FeedKeepsSystem(fx, sys, size);
    WholeIsFed(fx, fed);
    ForeignFrameFails(ReaderDecoder(fx, fed), Started(fed), |fed.delivered|, fed.rcv);
    var attempt: seq<Event<T>> := [TryReadEvent];
    RunOne(fx, fed, TryReadEvent);
    RunCons(fx, sys, feed, attempt);
    evs := [feed] + attempt;
    assert evs[1..] == attempt && attempt[1..] == [];
  }

  lemma FedSoFar<T>(fx: Fixed<T>, sys: System<T>) returns (size: nat)
    requires SystemInv(fx, sys)
    ensures sys.fed + size == |sys.snd.wire|
  {
    size := |sys.snd.wire| - sys.fed;
  }

  lemma WholeIsFed<T>(fx: Fixed<T>, sys: System<T>)
    requires SystemInv(fx, sys) && sys.fed == |sys.snd.wire| && sys.snd.wire == Wire(Started(sys))
    ensures |sys.delivered| <= |Started(sys)|
    ensures Position(Started(sys), Wire(Started(sys)), |sys.delivered|, sys.rcv)
  {
    assert sys.snd.wire[..sys.fed] == sys.snd.wire;
  }

  lemma LateSwitchIsSafe<T(!new)>(fx: Fixed<T>, sys: System<T>, evs: seq<Event<T>>, k: nat,
      oldEnc: EncryptContext, newEnc: EncryptContext, later: DecryptContext)
    requires Lawful(fx.codec) && SystemInv(fx, sys) && |sys.delivered| >= k
    requires Split(sys.snd, k, oldEnc, newEnc) && Paired(newEnc, later) && Later(fx, sys, evs, later)
    ensures Run(fx, sys, evs).error.None?
  {
    LateReadsAdmissible(fx, sys, evs, k, oldEnc, newEnc, later);
    RunKeepsSystem(fx, sys, evs);
  }

  /**
   Exactly when the receiver may change its context.  The sender has changed, k frames having been started
   under the earlier context, which the later one does not recognise; the receiver's context is now the
   later one.  No read ever fails, whatever is sent, fed and read afterwards, if and only if the k
   messages started before have been delivered.
   */
  lemma StreamSwitchIsSafeIff<T(!new)>(fx: Fixed<T>, sys: System<T>, k: nat, oldEnc: EncryptContext,
                                       newEnc: EncryptContext, later: DecryptContext)
    requires Lawful(fx.codec) && SystemInv(fx, sys) && !sys.snd.failed && sys.dec == later
    requires Split(sys.snd, k, oldEnc, newEnc) && Paired(newEnc, later)
    requires forall i :: 0 <= i < k ==> Foreign(Started(sys)[i].entry.msg, later)
    ensures (forall evs :: Later(fx, sys, evs, later) ==> Run(fx, sys, evs).error.None?) <==> |sys.delivered| >= k
  {
    if |sys.delivered| >= k {
      forall evs | Later(fx, sys, evs, later) ensures Run(fx, sys, evs).error.None? {
        LateSwitchIsSafe(fx, sys, evs, k, oldEnc, newEnc, later);
      }
    } else {
      var evs := EarlyReadCanFail(fx, sys, later);
    }
  }

  /** The same of every state that an admissible run, its last step say the change, has reached. */
  lemma StreamSwitchIsSafeIffInRuns<T(!new)>(fx: Fixed<T>, enc: EncryptContext, dec: DecryptContext,
      before: seq<Event<T>>, k: nat, oldEnc: EncryptContext, newEnc: EncryptContext, later: DecryptContext)
    requires Lawful(fx.codec) && AllAdmissible(fx, Start(enc, dec), before) && Paired(newEnc, later)
    requires var sys := Run(fx, Start(enc, dec), before);
             && !sys.snd.failed && sys.dec == later && Split(sys.snd, k, oldEnc, newEnc)
             && forall i :: 0 <= i < k ==> Foreign(Started(sys)[i].entry.msg, later)
    ensures var sys := Run(fx, Start(enc, dec), before);
            && WellFormed(sys.snd.box.queue)
            && ((forall evs :: Later(fx, sys, evs, later) ==> Run(fx, sys, evs).error.None?)
                <==> |sys.delivered| >= k)
  {
    StartIsFine(fx, enc, dec);
    RunKeepsSystem(fx, Start(enc, dec), before);
    StreamSwitchIsSafeIff(fx, Run(fx, Start(enc, dec), before), k, oldEnc, newEnc, later);
  }
}
