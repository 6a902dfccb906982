/**
 A sender, a stream that moves bytes in pieces of any size, and a receiver, as one state machine.
 Its steps are single turns of the loops, so runs interleave the two ends at will.
 */
module TcpSystem {
  import opened Base
  import opened Crypto
  import opened Config
  import opened OutQueues
  import opened Outboxes
  import opened Framing
  import opened Reader
  import opened TcpSender

  /**
   `fed` is how many bytes of the wire have reached the receiver's reader; `delivered` the messages
   it has handed out; `error` the first error it has reported.
   */
  datatype System<T> = System(
    snd: Sender<T>, fed: nat, rcv: ReaderState, dec: DecryptContext,
    delivered: seq<T>, error: Option<SocketError>)

  datatype Event<T> =
    | EnqueueEvent(wait: nat, msg: Option<(T, Priority)>, nonces: (nat, nat))
    | SendEvent(reply: WriteReply)
    | SetEncryptEvent(enc: EncryptContext)
    | FeedEvent(size: nat)
    | TryReadEvent
    | SetDecryptEvent(dec: DecryptContext)

  /** What stays fixed over a run: the sender's configuration, the message codec, the receiver's limit. */
  datatype Fixed<!T> = Fixed(conf: SocketConfig, codec: Codec<T>, limit: nat)

  ghost function Start<T>(enc: EncryptContext, dec: DecryptContext): System<T> {
    System(Sender(EmptyOutbox(), None, [], enc, false), 0, EMPTY_READER, dec, [], None)
  }

  ghost function Started<T>(sys: System<T>): seq<Record<Item<T>>> {
    sys.snd.box.started
  }

  ghost function ReaderDecoder<T>(fx: Fixed<T>, sys: System<T>): Decoder<T> {
    Decoder(sys.dec, fx.codec, fx.limit)
  }

  ghost function Act<T>(fx: Fixed<T>, sys: System<T>, ev: Event<T>): System<T>
    requires WellFormed(sys.snd.box.queue)
  {
    match ev
    case EnqueueEvent(wait, msg, nonces) =>
      sys.(snd := Enqueue(fx.conf, fx.codec, sys.snd, wait, msg, nonces).0)
    case SendEvent(reply) =>
      if Idle(sys.snd) then sys else sys.(snd := Send(sys.snd, reply))
    case SetEncryptEvent(enc) => sys.(snd := sys.snd.(enc := enc))
    case FeedEvent(size) => Feed(sys, size)
    case TryReadEvent =>
      var step := TryStep(ReaderDecoder(fx, sys), sys.rcv);
      (match step.result
       case Ok(Some(m)) => sys.(rcv := step.state, delivered := sys.delivered + [m])
       case Ok(None) => sys.(rcv := step.state)
       case Err(e) => sys.(rcv := step.state, error := Some(e)))
    case SetDecryptEvent(dec) => sys.(dec := dec)
  }

  /** The stream hands the receiver the next bytes of the wire. */
  ghost function Feed<T>(sys: System<T>, size: nat): System<T> {
    if sys.fed + size <= |sys.snd.wire|
    then sys.(rcv := sys.rcv.Put(sys.snd.wire[sys.fed..sys.fed + size]), fed := sys.fed + size)
    else sys
  }

  ghost function Run<T>(fx: Fixed<T>, sys: System<T>, evs: seq<Event<T>>): System<T>
    requires WellFormed(sys.snd.box.queue)
    decreases |evs|
  {
    if evs == [] then sys
    else
      ActKeepsWellFormed(fx, sys, evs[0]);
      Run(fx, Act(fx, sys, evs[0]), evs[1..])
  }

  lemma ActKeepsWellFormed<T>(fx: Fixed<T>, sys: System<T>, ev: Event<T>)
    requires WellFormed(sys.snd.box.queue)
    ensures WellFormed(Act(fx, sys, ev).snd.box.queue)
  {
    match ev
    case EnqueueEvent(wait, msg, nonces) => EnqueueKeepsWellFormed(fx.conf, fx.codec, sys.snd, wait, msg, nonces);
    case SendEvent(reply) => if !Idle(sys.snd) { SendKeepsWellFormed(sys.snd, reply); }
    case _ =>
  }

  // ---------------------------------------------------------------- hypotheses

  /**
   A message may be written if its encrypted form fits, and bytes may be sent, as long as no write has
   met a fatal error; an attempt to read may be made if the receiver's context goes with the one that
   encrypted the next message not yet delivered.
   */
  ghost predicate Admissible<T>(fx: Fixed<T>, sys: System<T>, ev: Event<T>) {
    match ev
    case EnqueueEvent(_, msg, nonces) =>
      msg.Some? && sys.snd.enc.Encrypt(fx.codec, nonces.0, msg.value.0).Ok? ==>
        Fits(fx.limit, sys.snd.enc.Encrypt(fx.codec, nonces.0, msg.value.0).value)
    case SendEvent(_) => !sys.snd.failed
    case TryReadEvent => Matched(sys)
    case _ => true
  }

  ghost predicate Matched<T>(sys: System<T>) {
    |sys.delivered| < |Started(sys)| ==> Paired(Started(sys)[|sys.delivered|].entry.msg.enc, sys.dec)
  }

  ghost predicate AllAdmissible<T>(fx: Fixed<T>, sys: System<T>, evs: seq<Event<T>>)
    requires WellFormed(sys.snd.box.queue)
    decreases |evs|
  {
    if evs == [] then true
    else
      ActKeepsWellFormed(fx, sys, evs[0]);
      Admissible(fx, sys, evs[0]) && AllAdmissible(fx, Act(fx, sys, evs[0]), evs[1..])
  }

  // ---------------------------------------------------------------- invariant

  /** Whoever holds the matching context reads the item's frame as the item's message. */
  ghost predicate ItemOk<T>(fx: Fixed<T>, item: Item<T>) {
    && item.frame != []
    && forall ctx: DecryptContext :: Paired(item.enc, ctx) ==>
         IsFrame(Decoder(ctx, fx.codec, fx.limit), item.frame, item.msg)
  }

  ghost predicate QueueOk<T>(fx: Fixed<T>, queue: seq<Stamped<Item<T>>>) {
    forall i :: 0 <= i < |queue| ==> ItemOk(fx, queue[i].msg)
  }

  ghost predicate ItemsOk<T>(fx: Fixed<T>, box: Outbox<Item<T>>) {
    && (forall i :: 0 <= i < |box.started| ==> ItemOk(fx, box.started[i].entry.msg))
    && forall p: Priority :: QueueOk(fx, QueueOf(box.queue, p))
  }

  /**
   Where the reader stands in the bytes it was fed: behind the first j started frames, and perhaps
   behind the header of the next one.
   */
  ghost predicate Position<T>(started: seq<Record<Item<T>>>, sent: Bytes, j: nat, rcv: ReaderState)
    requires j <= |started|
  {
    if rcv.readLen == 0 then sent == Wire(started[..j]) + rcv.buffer
    else
      && j < |started|
      && var item := started[j].entry.msg;
         && |item.frame| == item.enc.EncryptedSizeLen() + rcv.readLen
         && sent == Wire(started[..j]) + (item.frame[..item.enc.EncryptedSizeLen()] + rcv.buffer)
  }

  ghost predicate DeliveredInOrder<T>(started: seq<Record<Item<T>>>, delivered: seq<T>) {
    && |delivered| <= |started|
    && forall i :: 0 <= i < |delivered| ==> delivered[i] == started[i].entry.msg.msg
  }

  ghost predicate SenderSide<T>(fx: Fixed<T>, s: Sender<T>) {
    match s.current
    case None => SenderCore(fx, s)
    case Some(rest) => rest != [] && SenderCore(fx, s)
  }

  ghost predicate SenderCore<T>(fx: Fixed<T>, s: Sender<T>) {
    SenderInv(fx.conf, s) && ItemsOk(fx, s.box) && s.wire <= Wire(s.box.started)
  }

  ghost predicate ReceiverSide<T>(started: seq<Record<Item<T>>>, wire: Bytes, fed: nat, rcv: ReaderState,
                                  delivered: seq<T>, error: Option<SocketError>)
  {
    match error
    case Some(_) => false
    case None =>
      && fed <= |wire|
      && DeliveredInOrder(started, delivered)
      && Position(started, wire[..fed], |delivered|, rcv)
  }

  ghost predicate SystemInv<T>(fx: Fixed<T>, sys: System<T>) {
    && SenderSide(fx, sys.snd)
    && ReceiverSide(sys.snd.box.started, sys.snd.wire, sys.fed, sys.rcv, sys.delivered, sys.error)
  }

  // ---------------------------------------------------------------- the sender's steps

  lemma SerializedItemOk<T(!new)>(fx: Fixed<T>, enc: EncryptContext, nonces: (nat, nat), msg: T)
    requires Lawful(fx.codec) && Serialized(fx.codec, enc, nonces, msg).Ok?
    requires Fits(fx.limit, enc.Encrypt(fx.codec, nonces.0, msg).value)
    ensures ItemOk(fx, Item(msg, Serialized(fx.codec, enc, nonces, msg).value, enc))
  {
    var frame := Serialized(fx.codec, enc, nonces, msg).value;
    forall ctx: DecryptContext | Paired(enc, ctx)
      ensures IsFrame(Decoder(ctx, fx.codec, fx.limit), frame, msg)
    {
      FrameReadsBackIff(Decoder(ctx, fx.codec, fx.limit), enc, nonces, msg);
    }
  }

  lemma DropKeepsItemsOk<T>(fx: Fixed<T>, box: Outbox<Item<T>>, wait: nat)
    requires WellFormed(box.queue) && ItemsOk(fx, box)
    ensures ItemsOk(fx, DropExpired(box, fx.conf, wait))
  {
    forall p: Priority ensures QueueOk(fx, QueueOf(DropExpired(box, fx.conf, wait).queue, p)) {
      ExpiryRule(box.queue, fx.conf, box.now + wait, p);
      assert QueueOk(fx, QueueOf(box.queue, p));
    }
  }

  lemma PushKeepsItemsOk<T>(fx: Fixed<T>, box: Outbox<Item<T>>, wait: nat, item: Item<T>, p: Priority)
    requires WellFormed(box.queue) && ItemsOk(fx, box) && ItemOk(fx, item)
    ensures ItemsOk(fx, Push(box, wait, item, p))
  {
    PushedEffect(box.queue, p, Stamped(box.now + wait, item));
    forall q: Priority ensures QueueOk(fx, QueueOf(Push(box, wait, item, p).queue, q)) {
      assert QueueOk(fx, QueueOf(box.queue, q));
    }
  }

  lemma NextKeepsItemsOk<T>(fx: Fixed<T>, box: Outbox<Item<T>>)
    requires WellFormed(box.queue) && box.queue != [] && ItemsOk(fx, box)
    ensures ItemsOk(fx, Next(box))
  {
    NextEffect(box.queue);
    var least := box.queue[0].priority;
    assert QueueOk(fx, QueueOf(box.queue, least));
    assert QueueOf(box.queue, least)[0] == box.queue[0].queue[0];
    forall q: Priority ensures QueueOk(fx, QueueOf(AfterNext(box.queue), q)) {
      assert QueueOk(fx, QueueOf(box.queue, q));
      if q == least {
        assert QueueOf(AfterNext(box.queue), q) == QueueOf(box.queue, q)[1..];
      }
    }
  }

  lemma EnqueueKeepsItemsOk<T(!new)>(fx: Fixed<T>, sys: System<T>, wait: nat, msg: Option<(T, Priority)>,
                              nonces: (nat, nat))
    requires WellFormed(sys.snd.box.queue) && ItemsOk(fx, sys.snd.box) && Lawful(fx.codec)
    requires Admissible(fx, sys, EnqueueEvent(wait, msg, nonces))
    ensures ItemsOk(fx, Enqueue(fx.conf, fx.codec, sys.snd, wait, msg, nonces).0.box)
  {
    var box := DropExpired(sys.snd.box, fx.conf, wait);
    ExpirySplits(sys.snd.box.queue, fx.conf, box.now);
    DropKeepsItemsOk(fx, sys.snd.box, wait);
    if msg.Some? {
      var frame := Serialized(fx.codec, sys.snd.enc, nonces, msg.value.0);
      if frame.Ok? {
        SerializedItemOk(fx, sys.snd.enc, nonces, msg.value.0);
        PushKeepsItemsOk(fx, box, 0, Item(msg.value.0, frame.value, sys.snd.enc), msg.value.1);
      }
    }
  }

  /** A turn of the flush loop adds to what was started and to what was sent, and rewrites neither. */
  lemma SendExtends<T>(fx: Fixed<T>, s: Sender<T>, reply: WriteReply)
    requires SenderInv(fx.conf, s) && !s.failed && !Idle(s)
    ensures s.box.started <= Send(s, reply).box.started
    ensures s.wire <= Send(s, reply).wire <= Wire(Send(s, reply).box.started)
  {
    SendKeepsInv(fx.conf, s, reply);
    TakeKeepsInv(fx.conf, s);
  }

  /** Starting more frames and sending more bytes leaves the receiver where it stands. */
  lemma PositionStays<T>(started: seq<Record<Item<T>>>, more: seq<Record<Item<T>>>, sent: Bytes, j: nat,
                         rcv: ReaderState)
    requires j <= |started| && started <= more && Position(started, sent, j, rcv)
    ensures Position(more, sent, j, rcv)
  {
    assert started[..j] == more[..j];
  }

  lemma RestNotEmpty<T>(fx: Fixed<T>, s: Sender<T>, reply: WriteReply)
    requires WellFormed(s.box.queue) && ItemsOk(fx, s.box) && !Idle(s)
    requires s.current.Some? ==> s.current.value != []
    ensures Send(s, reply).current.Some? ==> Send(s, reply).current.value != []
  {
    if s.current.None? {
      QueueOfAt(s.box.queue, 0);
      assert QueueOk(fx, QueueOf(s.box.queue, s.box.queue[0].priority));
      assert ItemOk(fx, s.box.queue[0].queue[0].msg);
    }
  }

  lemma SendKeepsSenderSide<T>(fx: Fixed<T>, s: Sender<T>, reply: WriteReply)
    requires SenderSide(fx, s) && !s.failed && !Idle(s)
    ensures SenderSide(fx, Send(s, reply))
  {
    SendKeepsInv(fx.conf, s, reply);
    SendExtends(fx, s, reply);
    if s.current.None? {
      NextKeepsItemsOk(fx, s.box);
    }
    RestNotEmpty(fx, s, reply);
  }

  lemma ReceiverSideStays<T>(started: seq<Record<Item<T>>>, more: seq<Record<Item<T>>>, wire: Bytes, longer: Bytes,
                             fed: nat, rcv: ReaderState, delivered: seq<T>, error: Option<SocketError>)
    requires ReceiverSide(started, wire, fed, rcv, delivered, error)
    requires started <= more && wire <= longer
    ensures ReceiverSide(more, longer, fed, rcv, delivered, error)
  {
    assert longer[..fed] == wire[..fed];
    PositionStays(started, more, wire[..fed], |delivered|, rcv);
  }

  lemma SendKeepsSystem<T>(fx: Fixed<T>, sys: System<T>, reply: WriteReply)
    requires SystemInv(fx, sys) && !sys.snd.failed && !Idle(sys.snd)
    ensures SystemInv(fx, sys.(snd := Send(sys.snd, reply)))
  {
    var t := Send(sys.snd, reply);
    SendKeepsSenderSide(fx, sys.snd, reply);
    SendExtends(fx, sys.snd, reply);
    ReceiverSideStays(Started(sys), t.box.started, sys.snd.wire, t.wire, sys.fed, sys.rcv, sys.delivered, sys.error);
  }

  lemma EnqueueKeepsSystem<T(!new)>(fx: Fixed<T>, sys: System<T>, wait: nat, msg: Option<(T, Priority)>,
                                    nonces: (nat, nat))
    requires SystemInv(fx, sys) && Lawful(fx.codec)
    requires Admissible(fx, sys, EnqueueEvent(wait, msg, nonces))
    ensures SystemInv(fx, sys.(snd := Enqueue(fx.conf, fx.codec, sys.snd, wait, msg, nonces).0))
  {
    EnqueueKeepsInv(fx.conf, fx.codec, sys.snd, wait, msg, nonces);
    EnqueueKeepsItemsOk(fx, sys, wait, msg, nonces);
  }

  // ---------------------------------------------------------------- the receiver's steps

  lemma FeedKeepsSystem<T>(fx: Fixed<T>, sys: System<T>, size: nat)
    requires SystemInv(fx, sys)
    ensures SystemInv(fx, Feed(sys, size))
  {
    if sys.fed + size <= |sys.snd.wire| {
      var piece := sys.snd.wire[sys.fed..sys.fed + size];
      FedBytes(sys.snd.wire, sys.fed, size);
      PositionFed(Started(sys), sys.snd.wire[..sys.fed], |sys.delivered|, sys.rcv, piece);
    }
  }

  lemma FedBytes(wire: Bytes, fed: nat, size: nat)
    requires fed + size <= |wire|
    ensures wire[..fed + size] == wire[..fed] + wire[fed..fed + size]
  {
  }

  lemma PositionFed<T>(started: seq<Record<Item<T>>>, sent: Bytes, j: nat, rcv: ReaderState, piece: Bytes)
    requires j <= |started| && Position(started, sent, j, rcv)
    ensures Position(started, sent + piece, j, rcv.Put(piece))
  {
    ConcatAssociative(Wire(started[..j]), rcv.buffer, piece);
    if rcv.readLen > 0 {
      var item := started[j].entry.msg;
      var header := item.frame[..item.enc.EncryptedSizeLen()];
      ConcatAssociative(header, rcv.buffer, piece);
      ConcatAssociative(Wire(started[..j]), header + rcv.buffer, piece);
    }
  }

  /** One string is a prefix of the other. */
  ghost predicate Compatible(a: Bytes, b: Bytes) {
    a <= b || b <= a
  }

  /** The reader stands at a frame of which the bytes `avail` have come in; the header may be consumed. */
  ghost predicate AtFrame(headerLen: nat, frame: Bytes, avail: Bytes, st: ReaderState) {
    if st.readLen == 0 then st.buffer == avail
    else |frame| == headerLen + st.readLen && |avail| >= headerLen && st.buffer == avail[headerLen..]
  }

  lemma FramePrefix(frame: Bytes, avail: Bytes, k: nat)
    requires Compatible(avail, frame) && k <= |avail| && k <= |frame|
    ensures avail[..k] == frame[..k]
  {
  }

  /** An attempt at a frame waits for the rest of it, or delivers its message and moves behind it. */
  lemma TryAtFrame<T>(d: Decoder<T>, frame: Bytes, msg: T, avail: Bytes, st: ReaderState)
    requires IsFrame(d, frame, msg) && Compatible(avail, frame) && AtFrame(d.HeaderLen(), frame, avail, st)
    ensures |avail| < |frame| ==>
              TryStep(d, st).result == Ok(None) && AtFrame(d.HeaderLen(), frame, avail, TryStep(d, st).state)
    ensures |avail| >= |frame| ==> TryStep(d, st) == Step(ReaderState(avail[|frame|..], 0), Ok(Some(msg)))
  {
    var h := d.HeaderLen();
    if |avail| >= h {
      FramePrefix(frame, avail, h);
      if |avail| >= |frame| {
        FramePrefix(frame, avail, |frame|);
        BodyOf(avail, frame, h);
      }
    }
  }

  lemma BodyOf(avail: Bytes, frame: Bytes, h: nat)
    requires h <= |frame| <= |avail| && avail[..|frame|] == frame
    ensures avail[h..][..|frame| - h] == frame[h..|frame|]
    ensures avail[h..][|frame| - h..] == avail[|frame|..]
  {
    assert avail[h..|frame|] == avail[..|frame|][h..|frame|];
  }

  lemma WireNext<T>(started: seq<Record<Item<T>>>, j: nat)
    requires j < |started|
    ensures Wire(started[..j + 1]) == Wire(started[..j]) + started[j].entry.msg.frame
  {
    assert started[..j + 1] == started[..j] + [started[j]];
    WireSnoc(started[..j], started[j]);
  }

  lemma WireCut<T>(started: seq<Record<Item<T>>>, j: nat)
    requires j <= |started|
    ensures Wire(started) == Wire(started[..j]) + Wire(started[j..])
  {
    assert started == started[..j] + started[j..];
    WireConcat(started[..j], started[j..]);
  }

  lemma WireSplit<T>(started: seq<Record<Item<T>>>, j: nat)
    requires j < |started|
    ensures Wire(started) == Wire(started[..j]) + (started[j].entry.msg.frame + Wire(started[j + 1..]))
  {
    WireCut(started, j + 1);
    WireNext(started, j);
    ConcatAssociative(Wire(started[..j]), started[j].entry.msg.frame, Wire(started[j + 1..]));
  }

  lemma PrefixCompatible(base: Bytes, avail: Bytes, frame: Bytes, rest: Bytes)
    requires base + avail <= base + (frame + rest)
    ensures Compatible(avail, frame)
  {
    assert forall i :: 0 <= i < |avail| ==> avail[i] == (base + avail)[|base| + i];
    assert forall i :: 0 <= i < |frame + rest| ==> (frame + rest)[i] == (base + (frame + rest))[|base| + i];
    assert forall i :: 0 <= i < |avail| ==> avail[i] == (frame + rest)[i];
    if |avail| <= |frame| {
      assert avail <= frame;
    } else {
      assert frame <= avail;
    }
  }

  lemma PairedHeaderLen(enc: EncryptContext, dec: DecryptContext)
    requires Paired(enc, dec)
    ensures enc.EncryptedSizeLen() == dec.EncryptedSizeLen()
  {
  }

  /** The bytes of the next frame that have come in, whether or not its header is consumed. */
  ghost function Available<T>(started: seq<Record<Item<T>>>, j: nat, rcv: ReaderState): Bytes
    requires j < |started|
  {
    var item := started[j].entry.msg;
    if rcv.readLen == 0 || |item.frame| < item.enc.EncryptedSizeLen() then rcv.buffer
    else item.frame[..item.enc.EncryptedSizeLen()] + rcv.buffer
  }

  lemma PositionAtFrame<T>(started: seq<Record<Item<T>>>, sent: Bytes, j: nat, rcv: ReaderState)
    requires j < |started| && Position(started, sent, j, rcv) && sent <= Wire(started)
    ensures var item := started[j].entry.msg;
            var avail := Available(started, j, rcv);
            && sent == Wire(started[..j]) + avail
            && Compatible(avail, item.frame)
            && AtFrame(item.enc.EncryptedSizeLen(), item.frame, avail, rcv)
  {
    var item := started[j].entry.msg;
    var avail := Available(started, j, rcv);
    WireSplit(started, j);
    PrefixCompatible(Wire(started[..j]), avail, item.frame, Wire(started[j + 1..]));
  }

  lemma AtFramePosition<T>(started: seq<Record<Item<T>>>, sent: Bytes, j: nat, avail: Bytes, rcv: ReaderState)
    requires j < |started| && sent == Wire(started[..j]) + avail && Compatible(avail, started[j].entry.msg.frame)
    requires AtFrame(started[j].entry.msg.enc.EncryptedSizeLen(), started[j].entry.msg.frame, avail, rcv)
    ensures Position(started, sent, j, rcv)
  {
    var item := started[j].entry.msg;
    if rcv.readLen > 0 {
      var h := item.enc.EncryptedSizeLen();
      FramePrefix(item.frame, avail, h);
      assert avail == avail[..h] + avail[h..];
    }
  }

  lemma PositionBehind<T>(started: seq<Record<Item<T>>>, sent: Bytes, j: nat, avail: Bytes)
    requires j < |started| && sent == Wire(started[..j]) + avail
    requires started[j].entry.msg.frame <= avail
    ensures Position(started, sent, j + 1, ReaderState(avail[|started[j].entry.msg.frame|..], 0))
  {
    var frame := started[j].entry.msg.frame;
    WireNext(started, j);
    assert avail == frame + avail[|frame|..];
    ConcatAssociative(Wire(started[..j]), frame, avail[|frame|..]);
  }

  lemma NothingBehindLast<T>(started: seq<Record<Item<T>>>, sent: Bytes, rcv: ReaderState)
    requires Position(started, sent, |started|, rcv) && sent <= Wire(started)
    ensures rcv == EMPTY_READER
  {
    assert started[..|started|] == started;
    assert |sent| == |Wire(started)| + |rcv.buffer|;
  }

  /** What an attempt to read does where the reader stands at the next started frame. */
  lemma TryReadMoves<T>(fx: Fixed<T>, started: seq<Record<Item<T>>>, sent: Bytes, j: nat, rcv: ReaderState,
                        dec: DecryptContext)
    requires j < |started| && Position(started, sent, j, rcv) && sent <= Wire(started)
    requires ItemOk(fx, started[j].entry.msg) && Paired(started[j].entry.msg.enc, dec)
    ensures var step := TryStep(Decoder(dec, fx.codec, fx.limit), rcv);
            || (step.result == Ok(None) && Position(started, sent, j, step.state)
                && |sent| < |Wire(started[..j + 1])|)
            || (step.result == Ok(Some(started[j].entry.msg.msg)) && Position(started, sent, j + 1, step.state))
  {
    var d := Decoder(dec, fx.codec, fx.limit);
    var item := started[j].entry.msg;
    var avail := Available(started, j, rcv);
    PairedHeaderLen(item.enc, dec);
    assert IsFrame(d, item.frame, item.msg);
    PositionAtFrame(started, sent, j, rcv);
    TryAtFrame(d, item.frame, item.msg, avail, rcv);
    if |avail| < |item.frame| {
      AtFramePosition(started, sent, j, avail, TryStep(d, rcv).state);
      WireNext(started, j);
    } else {
      PositionBehind(started, sent, j, avail);
    }
  }

  /** What an attempt to read makes of the receiver's side, given the matching context. */
  lemma TryReadSide<T>(fx: Fixed<T>, started: seq<Record<Item<T>>>, wire: Bytes, fed: nat, rcv: ReaderState,
                       delivered: seq<T>, dec: DecryptContext)
    requires ReceiverSide(started, wire, fed, rcv, delivered, None) && wire <= Wire(started)
    requires |delivered| < |started| ==>
               ItemOk(fx, started[|delivered|].entry.msg) && Paired(started[|delivered|].entry.msg.enc, dec)
    ensures var step := TryStep(Decoder(dec, fx.codec, fx.limit), rcv);
            || (step.result == Ok(None) && ReceiverSide(started, wire, fed, step.state, delivered, None)
                && if |delivered| == |started| then rcv == EMPTY_READER else fed < |Wire(started)|)
            || (|delivered| < |started| && step.result == Ok(Some(started[|delivered|].entry.msg.msg))
                && ReceiverSide(started, wire, fed, step.state, delivered + [step.result.value.value], None))
  {
    var j := |delivered|;
    PrefixOfPrefix(wire, Wire(started), fed);
    if j == |started| {
      NothingBehindLast(started, wire[..fed], rcv);
    } else {
      TryReadMoves(fx, started, wire[..fed], j, rcv, dec);
      ShorterThanAll(started, j, wire[..fed]);
      DeliveredSnoc(started, delivered);
    }
  }

  lemma PrefixOfPrefix(a: Bytes, b: Bytes, n: nat)
    requires a <= b && n <= |a|
    ensures a[..n] <= b
  {
  }

  lemma ShorterThanAll<T>(started: seq<Record<Item<T>>>, j: nat, sent: Bytes)
    requires j < |started|
    ensures |sent| < |Wire(started[..j + 1])| ==> |sent| < |Wire(started)|
  {
    WireCut(started, j + 1);
  }

  lemma DeliveredSnoc<T>(started: seq<Record<Item<T>>>, delivered: seq<T>)
    requires DeliveredInOrder(started, delivered) && |delivered| < |started|
    ensures DeliveredInOrder(started, delivered + [started[|delivered|].entry.msg.msg])
  {
  }

  lemma NextItemOk<T>(fx: Fixed<T>, s: Sender<T>, j: nat)
    requires SenderSide(fx, s)
    ensures s.wire <= Wire(s.box.started)
    ensures j < |s.box.started| ==> ItemOk(fx, s.box.started[j].entry.msg)
  {
  }

  /** An attempt to read delivers the next started message or nothing, and never fails. */
  lemma TryReadKeepsSystem<T>(fx: Fixed<T>, sys: System<T>)
    requires SystemInv(fx, sys) && Matched(sys)
    ensures SystemInv(fx, Act(fx, sys, TryReadEvent))
    ensures TryStep(ReaderDecoder(fx, sys), sys.rcv).result.Ok?
    ensures sys.fed == |Wire(Started(sys))| && TryStep(ReaderDecoder(fx, sys), sys.rcv).result == Ok(None) ==>
              |sys.delivered| == |Started(sys)| && sys.rcv == EMPTY_READER
  {
    NextItemOk(fx, sys.snd, |sys.delivered|);
    TryReadSide(fx, Started(sys), sys.snd.wire, sys.fed, sys.rcv, sys.delivered, sys.dec);
  }

  // ---------------------------------------------------------------- runs

  lemma SendEventKeepsSystem<T>(fx: Fixed<T>, sys: System<T>, reply: WriteReply)
    requires SystemInv(fx, sys) && !sys.snd.failed
    ensures SystemInv(fx, Act(fx, sys, SendEvent(reply)))
  {
    if !Idle(sys.snd) {
      SendKeepsSystem(fx, sys, reply);
    }
  }

  lemma SetContextKeepsSystem<T>(fx: Fixed<T>, sys: System<T>, ev: Event<T>)
    requires SystemInv(fx, sys) && (ev.SetEncryptEvent? || ev.SetDecryptEvent?)
    ensures SystemInv(fx, Act(fx, sys, ev))
  {
  }

  lemma ActKeepsSystem<T(!new)>(fx: Fixed<T>, sys: System<T>, ev: Event<T>)
    requires SystemInv(fx, sys) && Lawful(fx.codec) && Admissible(fx, sys, ev)
    ensures SystemInv(fx, Act(fx, sys, ev))
  {
    match ev
    case EnqueueEvent(wait, msg, nonces) => EnqueueKeepsSystem(fx, sys, wait, msg, nonces);
    case SendEvent(reply) => SendEventKeepsSystem(fx, sys, reply);
    case FeedEvent(size) => FeedKeepsSystem(fx, sys, size);
    case TryReadEvent => TryReadKeepsSystem(fx, sys);
    case _ => SetContextKeepsSystem(fx, sys, ev);
  }

  lemma {:induction false} RunKeepsSystem<T(!new)>(fx: Fixed<T>, sys: System<T>, evs: seq<Event<T>>)
    requires SystemInv(fx, sys) && Lawful(fx.codec) && AllAdmissible(fx, sys, evs)
    ensures SystemInv(fx, Run(fx, sys, evs))
    decreases |evs|
  {
    if evs != [] {
      ActKeepsSystem(fx, sys, evs[0]);
      RunKeepsSystem(fx, Act(fx, sys, evs[0]), evs[1..]);
    }
  }

  lemma NewSenderIsFine<T>(fx: Fixed<T>, enc: EncryptContext)
    ensures SenderSide(fx, Sender<T>.Sender(EmptyOutbox(), None, [], enc, false))
  {
    EmptyBoxInv<Item<T>>(fx.conf);
  }

  lemma NewReceiverIsFine<T>()
    ensures ReceiverSide<T>([], [], 0, EMPTY_READER, [], None)
  {
  }

  lemma StartIsFine<T>(fx: Fixed<T>, enc: EncryptContext, dec: DecryptContext)
    ensures SystemInv(fx, Start<T>(enc, dec))
  {
    NewSenderIsFine(fx, enc);
    NewReceiverIsFine<T>();
  }

  // ---------------------------------------------------------------- end-to-end guarantees

  ghost function Messages<T>(records: seq<Record<Item<T>>>): (r: seq<T>)
    ensures |r| == |records|
    ensures forall i :: 0 <= i < |r| ==> r[i] == records[i].entry.msg.msg
  {
    seq(|records|, i requires 0 <= i < |records| => records[i].entry.msg.msg)
  }

  /** The records whose messages have been delivered. */
  ghost function DeliveredRecords<T>(sys: System<T>): seq<Record<Item<T>>>
  {
    Started(sys)[..Min(|sys.delivered|, |Started(sys)|)]
  }

  /** Everything started is on the wire, all of it has reached the reader, and the reader reports nothing. */
  ghost predicate Drained<T>(fx: Fixed<T>, sys: System<T>) {
    && !sys.snd.failed && sys.snd.current.None?
    && sys.fed == |sys.snd.wire|
    && Matched(sys) && TryStep(ReaderDecoder(fx, sys), sys.rcv).result == Ok(None)
  }

  /**
   End-to-end safety: in every run, however writes, partial sends, pieces, reads and changes of
   context interleave, no read fails and the messages delivered are a prefix of the messages in
   the order the sender started them; they are all of them once the system is drained.
   */
  lemma DeliveredInStartOrder<T(!new)>(fx: Fixed<T>, enc: EncryptContext, dec: DecryptContext, evs: seq<Event<T>>)
    requires Lawful(fx.codec) && AllAdmissible(fx, Start(enc, dec), evs)
    ensures var sys := Run(fx, Start(enc, dec), evs);
            && sys.error.None?
            && sys.delivered <= Messages(Started(sys))
            && (Drained(fx, sys) ==> sys.delivered == Messages(Started(sys)) && sys.rcv == EMPTY_READER)
  {
    StartIsFine(fx, enc, dec);
    RunKeepsSystem(fx, Start(enc, dec), evs);
    var sys := Run(fx, Start(enc, dec), evs);
    if Drained(fx, sys) {
      TryReadKeepsSystem(fx, sys);
      assert sys.snd.wire + [] == sys.snd.wire;
    }
  }

  lemma HasBoxInv<T>(fx: Fixed<T>, sys: System<T>)
    requires SystemInv(fx, sys)
    ensures BoxInv(fx.conf, sys.snd.box) && |sys.delivered| <= |Started(sys)|
  {
  }

  lemma MessagesPrefix<T>(records: seq<Record<Item<T>>>, n: nat)
    requires n <= |records|
    ensures Messages(records)[..n] == Messages(records[..n])
  {
  }

  /**
   End-to-end delivery by priority.  Of a protected priority, the delivered messages are always a
   prefix of the accepted ones, and all of them once the system is drained and nothing is queued;
   of a droppable priority they are a subsequence of the accepted ones, in order.
   */
  lemma DeliveredByPriority<T(!new)>(fx: Fixed<T>, enc: EncryptContext, dec: DecryptContext, evs: seq<Event<T>>,
                              p: Priority)
    requires Lawful(fx.codec) && AllAdmissible(fx, Start(enc, dec), evs)
    ensures var sys := Run(fx, Start(enc, dec), evs);
            && sys.delivered == Messages(DeliveredRecords(sys))
            && (p < fx.conf.msgDropPriority ==> Of(DeliveredRecords(sys), p) <= Of(sys.snd.box.accepted, p))
            && (p < fx.conf.msgDropPriority && Drained(fx, sys) && sys.snd.box.queue == [] ==>
                  Of(DeliveredRecords(sys), p) == Of(sys.snd.box.accepted, p))
            && IsSubsequence(Of(DeliveredRecords(sys), p), Of(sys.snd.box.accepted, p))
  {
    StartIsFine(fx, enc, dec);
    RunKeepsSystem(fx, Start(enc, dec), evs);
    DeliveredInStartOrder(fx, enc, dec, evs);
    var sys := Run(fx, Start(enc, dec), evs);
    assert BoxInv(fx.conf, sys.snd.box) && |sys.delivered| <= |Started(sys)| by {
      HasBoxInv(fx, sys);
    }
    FirstStarted(fx.conf, sys.snd.box, |sys.delivered|, p);
    MessagesPrefix(Started(sys), |sys.delivered|);
  }
}
