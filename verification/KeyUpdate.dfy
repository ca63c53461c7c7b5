/** Key update: rollback, traffic while an update is pending, and the KEY_UPDATE
    exchange between a requester and a responder. */
module KeyUpdate {
  import opened Bytes
  import opened Status
  import opened SecuredMessage
  import opened SessionModel

  /** The update of both directions stops at the requester's derivation, while an
      older responder backup is still marked valid. */
  ghost predicate StaleBackup(kdf: Kdf, s: Session, updateRequester: bool, updateResponder: bool) {
    updateRequester && updateResponder && !NextSecret(kdf, s.appRequest).1 && s.responderBackupValid
  }

  /** Update followed at once by rollback restores data secret, key, salt and
      counter of both directions, chosen or not and whether or not a derivation
      failed midway, unless an older backup is in the way: then the responder
      direction falls back to that backup. Nothing else but backups changes. */
  lemma RollbackRestores(kdf: Kdf, s: Session, updateRequester: bool, updateResponder: bool)
    ensures
      var s' := ActivateUpdate(CreateUpdate(kdf, s, updateRequester, updateResponder).0,
                               updateRequester, updateResponder, false);
      && s'.appRequest == s.appRequest
      && s'.appResponse == (if StaleBackup(kdf, s, updateRequester, updateResponder)
                            then s.backupResponse else s.appResponse)
      && s' == s.(appResponse := s'.appResponse,
                  backupRequest := s'.backupRequest, backupResponse := s'.backupResponse,
                  requesterBackupValid := s'.requesterBackupValid, responderBackupValid := s'.responderBackupValid)
      && (!updateRequester ==> s'.backupRequest == s.backupRequest && s'.requesterBackupValid == s.requesterBackupValid)
      && (!updateResponder ==> s'.backupResponse == s.backupResponse && s'.responderBackupValid == s.responderBackupValid)
  {
  }

  /** A response on the wire while the update is pending, tagged with the key the
      responder used. */
  datatype Item = Old(app: bytes) | New(app: bytes)

  /** What the responder puts on the wire for a list of responses, each key
      counting for itself. */
  function Wire(aead: Aead, id: u32, count: nat, bak: SecretParam, cur: SecretParam, items: seq<Item>): seq<bytes>
    requires bak.seqNum + |items| <= MAX_SEQUENCE_NUMBER && cur.seqNum + |items| <= MAX_SEQUENCE_NUMBER
    requires aead.Seals(bak.key) && aead.Seals(cur.key)
    decreases |items|
  {
    if items == [] then [] else
    match items[0]
    case Old(app) =>
      [SealMsg(aead, id, count, bak, app).value] + Wire(aead, id, count, Advance(bak), cur, items[1..])
    case New(app) =>
      [SealMsg(aead, id, count, cur, app).value] + Wire(aead, id, count, bak, Advance(cur), items[1..])
  }

  function DecodeAll(aead: Aead, s: Session, bufs: seq<bytes>): (Session, seq<Result<bytes>>)
    decreases |bufs|
  {
    if bufs == [] then (s, []) else
    var r := Decode(aead, s, Response, bufs[0]);
    var rest := DecodeAll(aead, r.0, bufs[1..]);
    (rest.0, [r.1] + rest.1)
  }

  ghost predicate Pending(s: Session) {
    s.phase.Established? && s.responderBackupValid
  }

  /** One response under the old key reaches the requester exactly when the header
      carries no distinguishing counter octets and the AEAD reports a failed open
      as the generic cryptographic error. Then only the backup counter moves;
      otherwise the message is lost and the new key's counter moves instead. */
  lemma OldKeyResponse(aead: Aead, s: Session, app: bytes, e: Status)
    requires aead.Correct() && Pending(s)
    requires aead.Seals(s.backupResponse.param.key)
    requires aead.Separates(s.backupResponse.param.key, s.appResponse.param.key, e)
    requires e != SequenceNumberOverflow
    requires s.backupResponse.param.seqNum < MAX_SEQUENCE_NUMBER && s.appResponse.param.seqNum < MAX_SEQUENCE_NUMBER
    requires |app| + 2 + TAG_SIZE < 0x1_0000
    ensures
      var bak, cur := s.backupResponse.param, s.appResponse.param;
      var r := Decode(aead, s, Response, SealMsg(aead, s.id, s.seqCount, bak, app).value);
      && (r.1 == Ok(app) <==> LE(cur.seqNum, s.seqCount) == LE(bak.seqNum, s.seqCount) && e == CryptoError)
      && (r.1 == Ok(app) ==> r.0 == s.AdvanceBackup())
      && (r.1 != Ok(app) ==> r.1.Err? && r.0 == s.WithCurrent(Response, Advance(cur)))
  {
    var bak, cur := s.backupResponse.param, s.appResponse.param;
    var w := SealMsg(aead, s.id, s.seqCount, bak, app);
    assert w.Ok?;
    assert w.value + [] == w.value;
    OpenWire(aead, s.id, s.seqCount, bak, cur, app, []);
    OpenWire(aead, s.id, s.seqCount, bak, bak, app, []);
  }

  lemma NewKeyResponse(aead: Aead, s: Session, app: bytes)
    requires aead.Correct() && Pending(s)
    requires aead.Seals(s.appResponse.param.key)
    requires s.appResponse.param.seqNum < MAX_SEQUENCE_NUMBER
    requires |app| + 2 + TAG_SIZE < 0x1_0000
    ensures
      var cur := s.appResponse.param;
      Decode(aead, s, Response, SealMsg(aead, s.id, s.seqCount, cur, app).value)
        == (s.WithCurrent(Response, Advance(cur)), Ok(app))
  {
    var cur := s.appResponse.param;
    var w := SealMsg(aead, s.id, s.seqCount, cur, app);
    assert w.value + [] == w.value;
    OpenWire(aead, s.id, s.seqCount, cur, cur, app, []);
  }

  /** At every old-key response the counter octets in the header fit the new key's
      counter too. */
  predicate Indistinct(count: nat, bak: SecretParam, cur: SecretParam, items: seq<Item>)
    requires bak.seqNum + |items| <= MAX_SEQUENCE_NUMBER && cur.seqNum + |items| <= MAX_SEQUENCE_NUMBER
    decreases |items|
  {
    items != [] ==>
      match items[0]
      case Old(_) => LE(cur.seqNum, count) == LE(bak.seqNum, count) && Indistinct(count, Advance(bak), cur, items[1..])
      case New(_) => Indistinct(count, bak, Advance(cur), items[1..])
  }

  lemma {:induction false} NoOctetsIndistinct(bak: SecretParam, cur: SecretParam, items: seq<Item>)
    requires bak.seqNum + |items| <= MAX_SEQUENCE_NUMBER && cur.seqNum + |items| <= MAX_SEQUENCE_NUMBER
    ensures Indistinct(0, bak, cur, items)
    decreases |items|
  {
    if items != [] {
      if items[0].Old? {
        assert LE(cur.seqNum, 0) == LE(bak.seqNum, 0);
        NoOctetsIndistinct(Advance(bak), cur, items[1..]);
      } else {
        NoOctetsIndistinct(bak, Advance(cur), items[1..]);
      }
    }
  }

  ghost predicate AllDecoded(r: seq<Result<bytes>>, items: seq<Item>) {
    |r| == |items| && forall i :: 0 <= i < |items| ==> r[i] == Ok(items[i].app)
  }

  lemma AllDecodedCons(r: seq<Result<bytes>>, items: seq<Item>, first: Result<bytes>)
    requires items != []
    ensures AllDecoded([first] + r, items) <==> first == Ok(items[0].app) && AllDecoded(r, items[1..])
  {
    if first == Ok(items[0].app) && AllDecoded(r, items[1..]) {
      forall i | 0 <= i < |items| ensures ([first] + r)[i] == Ok(items[i].app) {
        assert i > 0 ==> r[i - 1] == Ok(items[1..][i - 1].app);
      }
    }
    if AllDecoded([first] + r, items) {
      forall i | 0 <= i < |items[1..]| ensures r[i] == Ok(items[1..][i].app) {
        assert ([first] + r)[i + 1] == Ok(items[i + 1].app);
      }
    }
  }

  /** Whatever the transport, while a responder-key update is pending an interleaving
      of old-key and new-key responses that keeps each key's own order is decoded
      completely if and only if the header never tells the two counters apart. */
  lemma {:induction false} PendingInterleavingDecodesIff(aead: Aead, s: Session, items: seq<Item>)
    requires aead.Correct() && Pending(s)
    requires aead.Seals(s.backupResponse.param.key) && aead.Seals(s.appResponse.param.key)
    requires aead.Separates(s.backupResponse.param.key, s.appResponse.param.key, CryptoError)
    requires s.backupResponse.param.seqNum + |items| <= MAX_SEQUENCE_NUMBER
    requires s.appResponse.param.seqNum + |items| <= MAX_SEQUENCE_NUMBER
    requires forall i :: 0 <= i < |items| ==> |items[i].app| + 2 + TAG_SIZE < 0x1_0000
    ensures
      var bak, cur := s.backupResponse.param, s.appResponse.param;
      AllDecoded(DecodeAll(aead, s, Wire(aead, s.id, s.seqCount, bak, cur, items)).1, items)
      <==> Indistinct(s.seqCount, bak, cur, items)
    decreases |items|
  {
    hide Decode, SealMsg, LE, AllDecoded, Aead.Correct, Aead.Seals, Aead.Separates;
    if items == [] {
      NothingDecoded(items);
    } else {
      var bak, cur, app := s.backupResponse.param, s.appResponse.param, items[0].app;
      var bufs := Wire(aead, s.id, s.seqCount, bak, cur, items);
      var (s', r) := Decode(aead, s, Response, bufs[0]);
      AllDecodedCons(DecodeAll(aead, s', bufs[1..]).1, items, r);
      if items[0].Old? {
        OldKeyResponse(aead, s, app, CryptoError);
        if r == Ok(app) {
          assert s' == s.AdvanceBackup();
          PendingInterleavingDecodesIff(aead, s', items[1..]);
        }
      } else {
        NewKeyResponse(aead, s, app);
        NewKeyMoves(s);
        PendingInterleavingDecodesIff(aead, s', items[1..]);
      }
    }
  }

  lemma NothingDecoded(items: seq<Item>)
    requires items == []
    ensures AllDecoded([], items)
  {
  }

  lemma NewKeyMoves(s: Session)
    requires Pending(s) && s.appResponse.param.seqNum < MAX_SEQUENCE_NUMBER
    ensures
      var s' := s.WithCurrent(Response, Advance(s.appResponse.param));
      && Pending(s') && s'.id == s.id && s'.seqCount == s.seqCount
      && s'.backupResponse == s.backupResponse && s'.appResponse.param == Advance(s.appResponse.param)
  {
  }

  /** So without counter octets every such interleaving is. */
  lemma PendingInterleavingDecodes(aead: Aead, s: Session, items: seq<Item>)
    requires aead.Correct() && Pending(s) && s.seqCount == 0
    requires aead.Seals(s.backupResponse.param.key) && aead.Seals(s.appResponse.param.key)
    requires aead.Separates(s.backupResponse.param.key, s.appResponse.param.key, CryptoError)
    requires s.backupResponse.param.seqNum + |items| <= MAX_SEQUENCE_NUMBER
    requires s.appResponse.param.seqNum + |items| <= MAX_SEQUENCE_NUMBER
    requires forall i :: 0 <= i < |items| ==> |items[i].app| + 2 + TAG_SIZE < 0x1_0000
    ensures AllDecoded(DecodeAll(aead, s, Wire(aead, s.id, 0, s.backupResponse.param, s.appResponse.param, items)).1, items)
  {
    NoOctetsIndistinct(s.backupResponse.param, s.appResponse.param, items);
    PendingInterleavingDecodesIff(aead, s, items);
  }
}

/** A requester and a responder that share a session, the KEY_UPDATE exchange
    between them, and lossless runs of messages and exchanges. */
module UpdateExchange {
  import opened Bytes
  import opened Status
  import opened SecuredMessage
  import opened SessionModel

  datatype Pair = Pair(req: Session, rsp: Session)

  /** Both ends are established with the same secrets and counters in both
      directions, and the requester has no responder update pending. */
  ghost predicate Synced(p: Pair) {
    && p.req.phase.Established? && p.rsp.phase.Established?
    && p.req.id == p.rsp.id && p.req.seqCount == p.rsp.seqCount
    && p.req.appRequest == p.rsp.appRequest && p.req.appResponse == p.rsp.appResponse
    && !p.req.responderBackupValid
  }

  ghost predicate Sound(aead: Aead, kdf: Kdf) {
    && aead.Correct()
    && (forall k :: aead.Seals(k))
    && (forall d :: NextSecret(kdf, d).1)
  }

  predicate Fits(app: bytes) {
    |app| + 2 + TAG_SIZE < 0x1_0000
  }

  /** One message from its sender's encoder to its receiver's decoder; None unless
      exactly that message comes out. */
  function Transfer(aead: Aead, p: Pair, dir: Direction, app: bytes): Option<Pair> {
    var from, to := if dir.Request? then p.req else p.rsp, if dir.Request? then p.rsp else p.req;
    var w := Encode(aead, from, dir, app);
    if w.1.Err? then None else
    var r := Decode(aead, to, dir, w.1.value);
    if r.1 != Ok(app) then None
    else Some(if dir.Request? then Pair(w.0, r.0) else Pair(r.0, w.0))
  }

  lemma TransferDelivers(aead: Aead, p: Pair, dir: Direction, app: bytes)
    requires aead.Correct() && Fits(app)
    requires p.req.phase.Established? && p.rsp.phase.Established?
    requires p.req.id == p.rsp.id && p.req.seqCount == p.rsp.seqCount
    requires p.req.App(dir) == p.rsp.App(dir) && aead.Seals(p.req.App(dir).param.key)
    requires p.req.App(dir).param.seqNum < MAX_SEQUENCE_NUMBER
    ensures
      var next := Advance(p.req.App(dir).param);
      Transfer(aead, p, dir, app) == Some(Pair(p.req.WithCurrent(dir, next), p.rsp.WithCurrent(dir, next)))
  {
    var cur := p.req.App(dir).param;
    var w := SealMsg(aead, p.req.id, p.req.seqCount, cur, app);
    assert w.Ok? && w.value + [] == w.value;
    OpenWire(aead, p.req.id, p.req.seqCount, cur, cur, app, []);
  }

  /** The responder's handling of an update request: all keys or only the
      requester's. */
  function ResponderUpdates(kdf: Kdf, rsp: Session, all: bool): Session {
    var s := CreateUpdate(kdf, rsp, true, all).0;
    if all then ActivateUpdate(s, false, true, true) else s
  }

  /** First half: the request under the old key, both ends derive, the
      acknowledgement, and the requester commits. */
  function Announce(aead: Aead, kdf: Kdf, p: Pair, all: bool, ask: bytes, ack: bytes): Option<Pair> {
    var asked := Transfer(aead, p, Request, ask);
    if asked.None? then None else
    var derived := CreateUpdate(kdf, asked.value.req, true, all);
    if derived.1.Err? then None else
    var acked := Transfer(aead, Pair(derived.0, ResponderUpdates(kdf, asked.value.rsp, all)), Response, ack);
    if acked.None? then None
    else Some(Pair(ActivateUpdate(acked.value.req, true, all, true), acked.value.rsp))
  }

  /** Second half: the new key is verified and the responder commits. */
  function Verify(aead: Aead, p: Pair, ask: bytes, ack: bytes): Option<Pair> {
    var asked := Transfer(aead, p, Request, ask);
    if asked.None? then None else
    var committed := ActivateUpdate(asked.value.rsp, true, false, true);
    var acked := Transfer(aead, Pair(asked.value.req, committed), Response, ack);
    if acked.None? then None
    else Some(Pair(ActivateUpdate(acked.value.req, false, false, true), acked.value.rsp))
  }

  /** At most n more messages in each direction reach the counter limit. */
  ghost predicate Room(p: Pair, n: nat) {
    && p.req.appRequest.param.seqNum + n <= MAX_SEQUENCE_NUMBER
    && p.req.appResponse.param.seqNum + n <= MAX_SEQUENCE_NUMBER
  }

  lemma AnnounceKeepsSync(aead: Aead, kdf: Kdf, p: Pair, all: bool, ask: bytes, ack: bytes, n: nat)
    requires Sound(aead, kdf) && Synced(p) && Room(p, n + 2) && Fits(ask) && Fits(ack)
    requires n + 2 <= MAX_SEQUENCE_NUMBER
    ensures
      var r := Announce(aead, kdf, p, all, ask, ack);
      && r.Some? && Synced(r.value) && Room(r.value, n + 1)
      && r.value.req.appRequest == NextSecret(kdf, p.req.appRequest).0
      && r.value.req.appResponse.dataSecret
         == (if all then NextSecret(kdf, p.req.appResponse).0 else p.req.appResponse).dataSecret
      && !r.value.req.requesterBackupValid && r.value.rsp.requesterBackupValid
      && r.value.rsp.backupRequest == DirectionSecret(p.rsp.appRequest.dataSecret, Advance(p.rsp.appRequest.param))
      && r.value.rsp.responderBackupValid == (!all && p.rsp.responderBackupValid)
  {
    TransferDelivers(aead, p, Request, ask);
    var asked := Transfer(aead, p, Request, ask).value;
    var derived := CreateUpdate(kdf, asked.req, true, all).0;
    var updated := ResponderUpdates(kdf, asked.rsp, all);
    SameUpdate(kdf, p, asked);
    assert NextSecret(kdf, asked.req.appResponse).1;
    assert derived.appRequest == updated.appRequest && derived.appResponse == updated.appResponse;
    TransferDelivers(aead, Pair(derived, updated), Response, ack);
  }

  /** The counter plays no part in the next secret. */
  lemma SameUpdate(kdf: Kdf, p: Pair, asked: Pair)
    requires NextSecret(kdf, p.req.appRequest).1
    requires asked.req.appRequest.dataSecret == p.req.appRequest.dataSecret
    ensures NextSecret(kdf, asked.req.appRequest) == NextSecret(kdf, p.req.appRequest)
  {
  }

  lemma VerifyKeepsSync(aead: Aead, p: Pair, ask: bytes, ack: bytes, n: nat)
    requires aead.Correct() && (forall k :: aead.Seals(k))
    requires Synced(p) && Room(p, n + 1) && Fits(ask) && Fits(ack)
    ensures
      var r := Verify(aead, p, ask, ack);
      && r.Some? && Synced(r.value) && Room(r.value, n)
      && r.value.req.appRequest.dataSecret == p.req.appRequest.dataSecret
      && r.value.req.appResponse.dataSecret == p.req.appResponse.dataSecret
      && !r.value.rsp.requesterBackupValid && r.value.rsp.responderBackupValid == p.rsp.responderBackupValid
      && r.value.req.requesterBackupValid == p.req.requesterBackupValid
  {
    TransferDelivers(aead, p, Request, ask);
    var asked := Transfer(aead, p, Request, ask).value;
    TransferDelivers(aead, Pair(asked.req, ActivateUpdate(asked.rsp, true, false, true)), Response, ack);
  }

  /** No end has a valid backup. */
  ghost predicate Settled(p: Pair) {
    && !p.req.requesterBackupValid && !p.req.responderBackupValid
    && !p.rsp.requesterBackupValid && !p.rsp.responderBackupValid
  }

  datatype Op =
    | Message(dir: Direction, app: bytes)
    | Update(all: bool, ask: bytes, ack: bytes, verify: bytes, done: bytes)

  function Perform(aead: Aead, kdf: Kdf, p: Pair, op: Op): Option<Pair> {
    match op
    case Message(dir, app) => Transfer(aead, p, dir, app)
    case Update(all, ask, ack, verify, done) =>
      var half := Announce(aead, kdf, p, all, ask, ack);
      if half.None? then None else Verify(aead, half.value, verify, done)
  }

  function PerformAll(aead: Aead, kdf: Kdf, p: Pair, ops: seq<Op>): Option<Pair>
    decreases |ops|
  {
    if ops == [] then Some(p) else
    var next := Perform(aead, kdf, p, ops[0]);
    if next.None? then None else PerformAll(aead, kdf, next.value, ops[1..])
  }

  predicate OpFits(op: Op) {
    match op
    case Message(_, app) => Fits(app)
    case Update(_, a, b, c, d) => Fits(a) && Fits(b) && Fits(c) && Fits(d)
  }

  lemma PerformKeepsSync(aead: Aead, kdf: Kdf, p: Pair, op: Op, n: nat)
    requires Sound(aead, kdf) && Synced(p) && Room(p, n + 2) && n + 2 <= MAX_SEQUENCE_NUMBER && OpFits(op)
    ensures
      var r := Perform(aead, kdf, p, op);
      r.Some? && Synced(r.value) && Room(r.value, n) && (Settled(p) ==> Settled(r.value))
  {
    hide Announce, Verify, Transfer;
    match op
    case Message(dir, app) => TransferDelivers(aead, p, dir, app);
    case Update(all, ask, ack, verify, done) =>
      AnnounceKeepsSync(aead, kdf, p, all, ask, ack, n);
      VerifyKeepsSync(aead, Announce(aead, kdf, p, all, ask, ack).value, verify, done, n);
  }

  /** Every run of messages in both directions and key updates of either kind
      delivers every message unchanged and ends in agreement, with no backup left at either
      end if there was none before. */
  lemma {:induction false} LosslessRunStaysSynced(aead: Aead, kdf: Kdf, p: Pair, ops: seq<Op>)
    requires Sound(aead, kdf) && Synced(p) && Room(p, 2 * |ops|)
    requires 2 * |ops| <= MAX_SEQUENCE_NUMBER
    requires forall i :: 0 <= i < |ops| ==> OpFits(ops[i])
    ensures PerformAll(aead, kdf, p, ops).Some? && Synced(PerformAll(aead, kdf, p, ops).value)
    ensures Settled(p) ==> Settled(PerformAll(aead, kdf, p, ops).value)
    decreases |ops|
  {
    hide Sound, Synced, Room, Settled, Perform, OpFits;
    if ops != [] {
      var n := 2 * |ops[1..]|;
      PerformKeepsSync(aead, kdf, p, ops[0], n);
      LosslessRunStaysSynced(aead, kdf, Perform(aead, kdf, p, ops[0]).value, ops[1..]);
    }
  }
}
