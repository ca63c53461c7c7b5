/** Responses over the adversarial channel while an update of the responder's key is
    pending: the receiver has moved to the new key and keeps the old one as backup, and
    the sender moves at some point of the run. */
module PendingChannel {
  import opened Bytes
  import opened Status
  import opened SecuredMessage
  import opened SessionModel
  import opened Channel

  /** `Switch` is the sender's own update, `Commit` the end of the receiver's. */
  datatype PendingEvent =
    | SendResponse(app: bytes)
    | Switch
    | DeliverResponse(buf: bytes)
    | SenderReceivesRequest(buf: bytes)
    | ReceiverSendsRequest(app: bytes)
    | Commit(updateRequester: bool)

  /** What went through under one key; `origin` as in a link. */
  datatype Stream = Stream(records: seq<Record>, sent: seq<bytes>, accepted: seq<bytes>, origin: seq<nat>)

  const NOTHING := Stream([], [], [], [])

  datatype PendingLink = PendingLink(sender: Session, receiver: Session, switched: bool, before: Stream, after: Stream) {
    function Active(): Stream {
      if switched then after else before
    }

    function WithActive(t: Stream): PendingLink {
      if switched then this.(after := t) else this.(before := t)
    }
  }

  /** Where the counters of the two keys stand at the start of the run. */
  datatype Starts = Starts(before: SecretParam, after: SecretParam)

  /** The receiver's backup key gets its turn. */
  predicate Retries(aead: Aead, s: Session, buf: bytes) {
    && s.phase.Established? && s.responderBackupValid
    && OpenMsg(aead, s.id, s.seqCount, s.Current(Response), buf) == Err(CryptoError)
  }

  function Accept(t: Stream, n: int, app: bytes): Stream {
    t.(accepted := t.accepted + [app], origin := t.origin + [if n < 0 then 0 else n])
  }

  function DeliverEither(aead: Aead, starts: Starts, l: PendingLink, buf: bytes): PendingLink {
    var (s, m) := Decode(aead, l.receiver, Response, buf);
    if m.Err? then l.(receiver := s)
    else if Retries(aead, l.receiver, buf) then
      l.(receiver := s, before := Accept(l.before, l.receiver.backupResponse.param.seqNum - starts.before.seqNum, m.value))
    else
      l.(receiver := s, after := Accept(l.after, l.receiver.Current(Response).seqNum - starts.after.seqNum, m.value))
  }

  function SendActive(aead: Aead, l: PendingLink, app: bytes): PendingLink {
    var r := Encode(aead, l.sender, Response, app);
    if r.1.Err? then l.(sender := r.0) else
    var t := l.Active();
    var record := RecordOf(aead, l.sender, l.sender.Current(Response), app);
    l.(sender := r.0).WithActive(t.(records := t.records + [record], sent := t.sent + [app]))
  }

  function PendingStep(aead: Aead, kdf: Kdf, starts: Starts, l: PendingLink, ev: PendingEvent): PendingLink {
    match ev
    case SendResponse(app) => SendActive(aead, l, app)
    case Switch => if l.switched then l else l.(sender := UpdateResponder(kdf, l.sender), switched := true)
    case DeliverResponse(buf) => DeliverEither(aead, starts, l, buf)
    case SenderReceivesRequest(buf) => l.(sender := Decode(aead, l.sender, Request, buf).0)
    case ReceiverSendsRequest(app) => l.(receiver := Encode(aead, l.receiver, Request, app).0)
    case Commit(req) => l.(receiver := ActivateUpdate(l.receiver, req, true, true))
  }

  function PendingRun(aead: Aead, kdf: Kdf, starts: Starts, l: PendingLink, evs: seq<PendingEvent>): PendingLink
    decreases |evs|
  {
    if evs == [] then l else PendingRun(aead, kdf, starts, PendingStep(aead, kdf, starts, l, evs[0]), evs[1..])
  }

  /** Unforgeability under both keys: what opens under one of them was sealed under it. */
  ghost predicate AuthenticUnderBoth(aead: Aead, l: PendingLink, buf: bytes) {
    var r := l.receiver;
    && Authentic(aead, l.after.records, r.id, r.seqCount, r.Current(Response), buf)
    && (r.responderBackupValid ==> Authentic(aead, l.before.records, r.id, r.seqCount, r.backupResponse.param, buf))
  }

  ghost predicate AuthenticPendingRun(aead: Aead, kdf: Kdf, starts: Starts, l: PendingLink, evs: seq<PendingEvent>)
    decreases |evs|
  {
    evs != [] ==>
      && (evs[0].DeliverResponse? ==> AuthenticUnderBoth(aead, l, evs[0].buf))
      && AuthenticPendingRun(aead, kdf, starts, PendingStep(aead, kdf, starts, l, evs[0]), evs[1..])
  }

  /** A key that has only moved forward, past everything accepted under it. */
  ghost predicate MovedOn(start: SecretParam, p: SecretParam, origin: seq<nat>) {
    && p.key == start.key && p.salt == start.salt
    && forall i :: 0 <= i < |origin| ==> start.seqNum + origin[i] < p.seqNum
  }

  ghost predicate StreamInv(aead: Aead, start: SecretParam, t: Stream) {
    RecordsInv(aead, start, t.records, t.sent) && InOrder(t.sent, t.accepted, t.origin)
  }

  /** An update of this data secret succeeds and gives the new key. */
  ghost predicate LeadsTo(kdf: Kdf, secret: bytes, after: SecretParam) {
    var next := NextSecret(kdf, DirectionSecret(secret, DEFAULT_PARAM));
    next.1 && next.0.param == after
  }

  ghost predicate SenderKeeps(kdf: Kdf, starts: Starts, l: PendingLink) {
    l.sender.phase.NotStarted?
    || (&& l.sender.phase.Established?
        && var p, start := l.sender.appResponse.param, if l.switched then starts.after else starts.before;
        && p.key == start.key && p.salt == start.salt && p.seqNum == start.seqNum + |l.Active().sent|
        && (!l.switched ==> LeadsTo(kdf, l.sender.appResponse.dataSecret, starts.after) && l.after.sent == []))
  }

  ghost predicate ReceiverKeeps(starts: Starts, r: Session, before: seq<nat>, after: seq<nat>) {
    r.phase.NotStarted?
    || (&& r.phase.Established? && MovedOn(starts.after, r.appResponse.param, after)
        && (r.responderBackupValid ==> MovedOn(starts.before, r.backupResponse.param, before)))
  }

  ghost predicate PendingInv(aead: Aead, kdf: Kdf, starts: Starts, l: PendingLink) {
    && SenderKeeps(kdf, starts, l) && ReceiverKeeps(starts, l.receiver, l.before.origin, l.after.origin)
    && StreamInv(aead, starts.before, l.before) && StreamInv(aead, starts.after, l.after)
  }

  lemma SendStep(aead: Aead, kdf: Kdf, starts: Starts, l: PendingLink, app: bytes)
    requires PendingInv(aead, kdf, starts, l)
    ensures PendingInv(aead, kdf, starts, SendActive(aead, l, app))
  {
    hide RecordsInv, InOrder, MovedOn, LeadsTo, RecordOf, Seals;
    var r := Encode(aead, l.sender, Response, app);
    if r.1.Ok? {
      var p := l.sender.Current(Response);
      var start, t := if l.switched then starts.after else starts.before, l.Active();
      var record := RecordOf(aead, l.sender, p, app);
      RecordSeals(aead, l.sender, p, start, |t.sent|, app);
      RecordKeeps(aead, start, t.records, t.sent, record, app);
      SentKeepsOrder(t.sent, app, t.accepted, t.origin);
    }
  }

  lemma RecordSeals(aead: Aead, s: Session, p: SecretParam, start: SecretParam, i: nat, app: bytes)
    requires SealMsg(aead, s.id, s.seqCount, p, app).Ok?
    requires p.key == start.key && p.salt == start.salt && p.seqNum == start.seqNum + i
    ensures Seals(aead, start, i, RecordOf(aead, s, p, app), app)
  {
    NonceUndo(p.salt, p.seqNum);
  }

  lemma SentKeepsOrder(sent: seq<bytes>, app: bytes, accepted: seq<bytes>, origin: seq<nat>)
    requires InOrder(sent, accepted, origin)
    ensures InOrder(sent + [app], accepted, origin)
  {
  }

  lemma SwitchStep(aead: Aead, kdf: Kdf, starts: Starts, l: PendingLink)
    requires PendingInv(aead, kdf, starts, l)
    ensures PendingInv(aead, kdf, starts, PendingStep(aead, kdf, starts, l, Switch))
  {
    hide StreamInv, ReceiverKeeps;
  }

  /** A delivery, by the key that decides it. */
  lemma DeliveredUnder(aead: Aead, s: Session, buf: bytes)
    requires s.phase.Established?
    ensures
      var retry, r := Retries(aead, s, buf), Decode(aead, s, Response, buf);
      var p := if retry then s.backupResponse.param else s.appResponse.param;
      && r.1 == OpenMsg(aead, s.id, s.seqCount, p, buf)
      && (r.1 == Err(SequenceNumberOverflow) ==> r.0.phase.NotStarted?)
      && (r.1 != Err(SequenceNumberOverflow) ==>
            && p.seqNum < MAX_SEQUENCE_NUMBER && r.0.phase == s.phase && r.0.responderBackupValid == s.responderBackupValid
            && r.0.appResponse.param == (if retry then s.appResponse.param else Advance(p))
            && r.0.backupResponse.param == (if retry then Advance(p) else s.backupResponse.param))
  {
  }

  /** What one key accepts extends its stream, and the key moves on. */
  lemma AcceptedInOrder(aead: Aead, start: SecretParam, t: Stream, id: u32, count: nat, p: SecretParam, buf: bytes)
    requires aead.Correct() && StreamInv(aead, start, t) && MovedOn(start, p, t.origin)
    requires Authentic(aead, t.records, id, count, p, buf) && p.seqNum < MAX_SEQUENCE_NUMBER
    ensures
      var m := OpenMsg(aead, id, count, p, buf);
      && MovedOn(start, Advance(p), t.origin)
      && (m.Ok? ==>
            var t' := Accept(t, p.seqNum - start.seqNum, m.value);
            StreamInv(aead, start, t') && MovedOn(start, Advance(p), t'.origin))
  {
    hide OpenMsg, Authentic, RecordsInv, InOrder, Aead.Correct;
    if OpenMsg(aead, id, count, p, buf).Ok? {
      OpenedWasSent(aead, start, t.records, t.sent, id, count, p, buf);
      AcceptKeepsOrder(t.sent, t.accepted, t.origin, p.seqNum - start.seqNum);
    }
  }

  lemma DeliverStep(aead: Aead, kdf: Kdf, starts: Starts, l: PendingLink, buf: bytes)
    requires aead.Correct() && PendingInv(aead, kdf, starts, l) && AuthenticUnderBoth(aead, l, buf)
    ensures PendingInv(aead, kdf, starts, DeliverEither(aead, starts, l, buf))
  {
    hide OpenMsg, Authentic, StreamInv, Aead.Correct, Decode, Retries, MovedOn, LeadsTo;
    var s := l.receiver;
    if s.phase.NotStarted? {
      NothingDecoded(aead, s, buf);
    } else {
      DeliveredUnder(aead, s, buf);
      RetriesBacked(aead, s, buf);
      if Decode(aead, s, Response, buf).1 != Err(SequenceNumberOverflow) {
        if Retries(aead, s, buf) {
          AcceptedInOrder(aead, starts.before, l.before, s.id, s.seqCount, s.backupResponse.param, buf);
        } else {
          AcceptedInOrder(aead, starts.after, l.after, s.id, s.seqCount, s.appResponse.param, buf);
        }
      }
    }
  }

  lemma NothingDecoded(aead: Aead, s: Session, buf: bytes)
    requires s.phase.NotStarted?
    ensures Decode(aead, s, Response, buf) == (s, Err(InvalidStateLocal))
  {
  }

  lemma RetriesBacked(aead: Aead, s: Session, buf: bytes)
    ensures Retries(aead, s, buf) ==> s.responderBackupValid
  {
  }

  /** The opposite direction and the commit touch neither key that is still in use. */
  lemma OtherStep(aead: Aead, kdf: Kdf, starts: Starts, l: PendingLink, ev: PendingEvent)
    requires PendingInv(aead, kdf, starts, l)
    requires ev.SenderReceivesRequest? || ev.ReceiverSendsRequest? || ev.Commit?
    ensures PendingInv(aead, kdf, starts, PendingStep(aead, kdf, starts, l, ev))
  {
    hide StreamInv, MovedOn, LeadsTo, OpenMsg, SealMsg;
  }

  lemma {:induction false} PendingRunKeeps(aead: Aead, kdf: Kdf, starts: Starts, l: PendingLink, evs: seq<PendingEvent>)
    requires aead.Correct() && PendingInv(aead, kdf, starts, l) && AuthenticPendingRun(aead, kdf, starts, l, evs)
    ensures PendingInv(aead, kdf, starts, PendingRun(aead, kdf, starts, l, evs))
    decreases |evs|
  {
    hide PendingInv, PendingStep, Aead.Correct, AuthenticUnderBoth;
    if evs != [] {
      StepKeeps(aead, kdf, starts, l, evs[0]);
      PendingRunKeeps(aead, kdf, starts, PendingStep(aead, kdf, starts, l, evs[0]), evs[1..]);
    }
  }

  lemma StepKeeps(aead: Aead, kdf: Kdf, starts: Starts, l: PendingLink, ev: PendingEvent)
    requires aead.Correct() && PendingInv(aead, kdf, starts, l)
    requires ev.DeliverResponse? ==> AuthenticUnderBoth(aead, l, ev.buf)
    ensures PendingInv(aead, kdf, starts, PendingStep(aead, kdf, starts, l, ev))
  {
    hide PendingInv, Aead.Correct, AuthenticUnderBoth, SendActive, DeliverEither, Encode, Decode;
    match ev
    case SendResponse(app) => SendStep(aead, kdf, starts, l, app);
    case Switch => SwitchStep(aead, kdf, starts, l);
    case DeliverResponse(buf) => DeliverStep(aead, kdf, starts, l, buf);
    case _ => OtherStep(aead, kdf, starts, l, ev);
  }

  /** For two endpoints that share the responses' data secret, key and salt, after the
      receiver has updated that direction and over every run in which the sender updates
      it at any point, or never: what is accepted under the old key and what is accepted
      under the new key is each what was sent under it, in order and at most once. */
  lemma BothKeysDeliverInOrder(aead: Aead, kdf: Kdf, sender: Session, receiver: Session, evs: seq<PendingEvent>)
    requires aead.Correct() && sender.phase.Established? && receiver.phase.Established?
    requires sender.appResponse.dataSecret == receiver.appResponse.dataSecret
    requires sender.appResponse.param.key == receiver.appResponse.param.key
    requires sender.appResponse.param.salt == receiver.appResponse.param.salt
    requires NextSecret(kdf, receiver.appResponse).1
    requires
      var pending := UpdateResponder(kdf, receiver);
      var starts := Starts(sender.appResponse.param, pending.appResponse.param);
      AuthenticPendingRun(aead, kdf, starts, PendingLink(sender, pending, false, NOTHING, NOTHING), evs)
    ensures
      var pending := UpdateResponder(kdf, receiver);
      var starts := Starts(sender.appResponse.param, pending.appResponse.param);
      var l := PendingRun(aead, kdf, starts, PendingLink(sender, pending, false, NOTHING, NOTHING), evs);
      && InOrder(l.before.sent, l.before.accepted, l.before.origin)
      && InOrder(l.after.sent, l.after.accepted, l.after.origin)
  {
    hide AuthenticPendingRun, PendingRun, Aead.Correct;
    var pending := UpdateResponder(kdf, receiver);
    var starts := Starts(sender.appResponse.param, pending.appResponse.param);
    var l := PendingLink(sender, pending, false, NOTHING, NOTHING);
    assert PendingInv(aead, kdf, starts, l);
    PendingRunKeeps(aead, kdf, starts, l, evs);
  }
}
