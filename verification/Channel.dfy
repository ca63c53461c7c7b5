/** One direction of a session over an adversarial channel. The channel may drop,
    duplicate, reorder and inject octets; the AEAD is ideal, so what the receiver
    opens was sealed by the sender. */
module Channel {
  import opened Bytes
  import opened Status
  import opened SecuredMessage
  import opened SessionModel

  /** Traffic in the direction under study, and traffic of either endpoint in the
      opposite direction, which shares the two session objects. */
  datatype Event =
    | Send(app: bytes)
    | Deliver(buf: bytes)
    | SenderReceives(buf: bytes)
    | ReceiverSends(app: bytes)

  /** An AEAD call the sender made. */
  datatype Record = Record(key: bytes, nonce: bytes, aad: bytes, cipher: bytes, tag: bytes)

  /** `sent` and `accepted` are the application messages, `origin[i]` is the index
      in `sent` that `accepted[i]` was sealed from. */
  datatype Link = Link(
    sender: Session,
    receiver: Session,
    records: seq<Record>,
    sent: seq<bytes>,
    accepted: seq<bytes>,
    origin: seq<nat>)

  function Opposite(dir: Direction): Direction {
    if dir.Request? then Response else Request
  }

  function RecordOf(aead: Aead, s: Session, p: SecretParam, app: bytes): Record
    requires SealMsg(aead, s.id, s.seqCount, p, app).Ok?
  {
    var aad := Header(s.id, s.seqCount, p.seqNum, |app| + 2 + TAG_SIZE);
    var w := aead.seal(p.key, Nonce(p.salt, p.seqNum), aad, Plain(app)).value;
    Record(p.key, Nonce(p.salt, p.seqNum), aad, w.cipher, w.tag)
  }

  /** `first` is the sender's counter at the start of the run. */
  function Step(aead: Aead, dir: Direction, first: u64, l: Link, ev: Event): Link {
    match ev
    case Send(app) =>
      var r := Encode(aead, l.sender, dir, app);
      if r.1.Ok? then
        l.(sender := r.0, sent := l.sent + [app],
           records := l.records + [RecordOf(aead, l.sender, l.sender.Current(dir), app)])
      else l.(sender := r.0)
    case Deliver(buf) =>
      var r := Decode(aead, l.receiver, dir, buf);
      var n := l.receiver.Current(dir).seqNum - first;
      if r.1.Ok? then l.(receiver := r.0, accepted := l.accepted + [r.1.value], origin := l.origin + [if n < 0 then 0 else n])
      else l.(receiver := r.0)
    case SenderReceives(buf) => l.(sender := Decode(aead, l.sender, Opposite(dir), buf).0)
    case ReceiverSends(app) => l.(receiver := Encode(aead, l.receiver, Opposite(dir), app).0)
  }

  function RunAll(aead: Aead, dir: Direction, first: u64, l: Link, evs: seq<Event>): Link
    decreases |evs|
  {
    if evs == [] then l else RunAll(aead, dir, first, Step(aead, dir, first, l, evs[0]), evs[1..])
  }

  /** Unforgeability at one delivery: if the receiver's key opens the octets, the
      sender sealed them. */
  ghost predicate Authentic(aead: Aead, records: seq<Record>, id: u32, count: nat, p: SecretParam, buf: bytes) {
    var w := Split(LE(id, 4), LE(p.seqNum, count), buf);
    var nonce := Nonce(p.salt, p.seqNum);
    w.Some? && aead.open(p.key, nonce, w.value.aad, w.value.cipher, w.value.tag).Ok? ==>
      Record(p.key, nonce, w.value.aad, w.value.cipher, w.value.tag) in records
  }

  ghost predicate AuthenticDelivery(aead: Aead, dir: Direction, l: Link, buf: bytes) {
    Authentic(aead, l.records, l.receiver.id, l.receiver.seqCount, l.receiver.Current(dir), buf)
  }

  ghost predicate AuthenticRun(aead: Aead, dir: Direction, first: u64, l: Link, evs: seq<Event>)
    decreases |evs|
  {
    evs != [] ==>
      && (evs[0].Deliver? ==> AuthenticDelivery(aead, dir, l, evs[0].buf))
      && AuthenticRun(aead, dir, first, Step(aead, dir, first, l, evs[0]), evs[1..])
  }

  ghost predicate SenderInv(phase: Phase, dir: Direction, start: SecretParam, s: Session, sent: nat) {
    s.phase.NotStarted?
    || (s.phase == phase
        && s.Current(dir).key == start.key && s.Current(dir).salt == start.salt
        && s.Current(dir).seqNum == start.seqNum + sent)
  }

  /** The i-th record seals the i-th message at the i-th counter. */
  ghost predicate RecordsInv(aead: Aead, start: SecretParam, records: seq<Record>, sent: seq<bytes>) {
    && |records| == |sent|
    && start.seqNum + |sent| <= MAX_SEQUENCE_NUMBER
    && forall i :: 0 <= i < |sent| ==> Seals(aead, start, i, records[i], sent[i])
  }

  ghost predicate Seals(aead: Aead, start: SecretParam, i: nat, r: Record, app: bytes) {
    && r.key == start.key
    && |r.nonce| == IV_SIZE && CounterOf(start.salt, r.nonce) == start.seqNum + i
    && aead.seal(start.key, r.nonce, r.aad, Plain(app)) == Ok(Sealed(r.cipher, r.tag))
  }

  ghost predicate ReceiverInv(phase: Phase, dir: Direction, start: SecretParam, r: Session, origin: seq<nat>) {
    r.phase.NotStarted?
    || (r.phase == phase
        && r.Current(dir).key == start.key && r.Current(dir).salt == start.salt
        && (phase.Established? && dir.Response? ==> !r.responderBackupValid)
        && forall i :: 0 <= i < |origin| ==> start.seqNum + origin[i] < r.Current(dir).seqNum)
  }

  /** The accepted messages are the sent ones at strictly increasing indices: in
      order, none twice, none from elsewhere. */
  ghost predicate InOrder(sent: seq<bytes>, accepted: seq<bytes>, origin: seq<nat>) {
    && |origin| == |accepted|
    && (forall i :: 0 <= i < |origin| ==> origin[i] < |sent| && accepted[i] == sent[origin[i]])
    && (forall i, j :: 0 <= i < j < |origin| ==> origin[i] < origin[j])
  }

  ghost predicate Inv(aead: Aead, phase: Phase, dir: Direction, start: SecretParam, l: Link) {
    && SenderInv(phase, dir, start, l.sender, |l.sent|)
    && RecordsInv(aead, start, l.records, l.sent)
    && ReceiverInv(phase, dir, start, l.receiver, l.origin)
    && InOrder(l.sent, l.accepted, l.origin)
  }

  lemma SendKeeps(aead: Aead, phase: Phase, dir: Direction, start: SecretParam, l: Link, app: bytes)
    requires !phase.NotStarted? && Inv(aead, phase, dir, start, l)
    ensures Inv(aead, phase, dir, start, Step(aead, dir, start.seqNum, l, Send(app)))
  {
    var r := Encode(aead, l.sender, dir, app);
    if r.1.Ok? {
      var p := l.sender.Current(dir);
      assert p.seqNum < MAX_SEQUENCE_NUMBER && r.0 == l.sender.WithCurrent(dir, Advance(p));
      CurrentWith(l.sender, dir, Advance(p));
      var rec := RecordOf(aead, l.sender, p, app);
      NonceUndo(p.salt, p.seqNum);
      assert Seals(aead, start, |l.sent|, rec, app);
      RecordKeeps(aead, start, l.records, l.sent, rec, app);
    }
  }

  lemma RecordKeeps(aead: Aead, start: SecretParam, records: seq<Record>, sent: seq<bytes>, r: Record, app: bytes)
    requires RecordsInv(aead, start, records, sent) && start.seqNum + |sent| < MAX_SEQUENCE_NUMBER
    requires Seals(aead, start, |sent|, r, app)
    ensures RecordsInv(aead, start, records + [r], sent + [app])
  {
  }

  /** A recorded call at counter n is the one that sealed message n. */
  lemma RecordedAt(aead: Aead, start: SecretParam, records: seq<Record>, sent: seq<bytes>, n: u64, r: Record)
    requires aead.Correct() && RecordsInv(aead, start, records, sent)
    requires r in records && r.key == start.key && r.nonce == Nonce(start.salt, n)
    ensures
      && 0 <= n - start.seqNum < |sent|
      && aead.open(r.key, r.nonce, r.aad, r.cipher, r.tag) == Ok(Plain(sent[n - start.seqNum]))
      && |r.cipher| == |sent[n - start.seqNum]| + 2
  {
    var i :| 0 <= i < |records| && records[i] == r;
    assert Seals(aead, start, i, records[i], sent[i]);
    NonceUndo(start.salt, n);
  }

  /** What opens under the direction's key was sealed at the receiver's counter. */
  lemma OpenedWasSent(aead: Aead, start: SecretParam, records: seq<Record>, sent: seq<bytes>, id: u32, count: nat,
                      p: SecretParam, buf: bytes)
    requires aead.Correct() && RecordsInv(aead, start, records, sent)
    requires p.key == start.key && p.salt == start.salt
    requires Authentic(aead, records, id, count, p, buf)
    requires OpenMsg(aead, id, count, p, buf).Ok?
    ensures
      var n := p.seqNum - start.seqNum;
      0 <= n < |sent| && OpenMsg(aead, id, count, p, buf) == Ok(sent[n])
  {
    hide RecordsInv, Aead.Correct, Nonce, LE, Unframe, Plain, Split;
    var w := Split(LE(id, 4), LE(p.seqNum, count), buf).value;
    RecordedAt(aead, start, records, sent, p.seqNum, Record(p.key, Nonce(p.salt, p.seqNum), w.aad, w.cipher, w.tag));
    SplitSize(LE(id, 4), LE(p.seqNum, count), buf);
    UnframePlain(sent[p.seqNum - start.seqNum]);
  }

  lemma SplitSize(idField: bytes, seqField: bytes, buf: bytes)
    ensures var w := Split(idField, seqField, buf); w.Some? ==> |w.value.cipher| + TAG_SIZE < 0x1_0000
  {
    if |buf| >= |idField| + |seqField| + 2 {
      Pow256Values();
      FromLEBound(buf[|idField| + |seqField|..|idField| + |seqField| + 2]);
    }
  }

  /** What a delivery does, by what the receiver's key makes of it. */
  lemma DeliverIs(aead: Aead, dir: Direction, first: u64, l: Link, buf: bytes)
    requires l.receiver.phase.Established? && dir.Response? ==> !l.receiver.responderBackupValid
    ensures
      var p := l.receiver.Current(dir);
      var m := OpenMsg(aead, l.receiver.id, l.receiver.seqCount, p, buf);
      var n, l' := p.seqNum - first, Step(aead, dir, first, l, Deliver(buf));
      if l.receiver.phase.NotStarted? then l' == l
      else if m == Err(SequenceNumberOverflow) then
        l' == l.(receiver := SetDefault(l.receiver)) && l'.receiver.phase.NotStarted?
      else
        && p.seqNum < MAX_SEQUENCE_NUMBER
        && var next := l.receiver.WithCurrent(dir, Advance(p));
        && (m.Err? ==> l' == l.(receiver := next))
        && (m.Ok? ==> l' == l.(receiver := next, accepted := l.accepted + [m.value],
                               origin := l.origin + [if n < 0 then 0 else n]))
  {
    if !l.receiver.phase.NotStarted? {
      DecodeOnce(aead, l.receiver, dir, buf);
    }
    hide OpenMsg, Session.WithCurrent, Session.Current;
  }

  lemma DeliverKeeps(aead: Aead, phase: Phase, dir: Direction, start: SecretParam, l: Link, buf: bytes)
    requires aead.Correct() && !phase.NotStarted?
    requires Inv(aead, phase, dir, start, l) && AuthenticDelivery(aead, dir, l, buf)
    ensures Inv(aead, phase, dir, start, Step(aead, dir, start.seqNum, l, Deliver(buf)))
  {
    hide OpenMsg, Authentic, SenderInv, RecordsInv, InOrder, Aead.Correct, Step;
    hide SetDefault, Session.Current, Session.WithCurrent;
    DeliverIs(aead, dir, start.seqNum, l, buf);
    if !l.receiver.phase.NotStarted? {
      var p, id, count := l.receiver.Current(dir), l.receiver.id, l.receiver.seqCount;
      var m := OpenMsg(aead, id, count, p, buf);
      if m.Ok? {
        OpenedWasSent(aead, start, l.records, l.sent, id, count, p, buf);
        AcceptKeepsOrder(l.sent, l.accepted, l.origin, p.seqNum - start.seqNum);
        ReceiverMoves(phase, dir, start, l.receiver, l.origin, l.origin + [p.seqNum - start.seqNum]);
      } else if m != Err(SequenceNumberOverflow) {
        ReceiverMoves(phase, dir, start, l.receiver, l.origin, l.origin);
      }
    }
  }

  lemma ReceiverMoves(phase: Phase, dir: Direction, start: SecretParam, r: Session, origin: seq<nat>, origin': seq<nat>)
    requires !r.phase.NotStarted? && ReceiverInv(phase, dir, start, r, origin)
    requires r.Current(dir).seqNum < MAX_SEQUENCE_NUMBER
    requires origin' == origin || exists n: nat :: origin' == origin + [n] && start.seqNum + n == r.Current(dir).seqNum
    ensures ReceiverInv(phase, dir, start, r.WithCurrent(dir, Advance(r.Current(dir))), origin')
  {
    CurrentWith(r, dir, Advance(r.Current(dir)));
    hide Session.WithCurrent, Session.Current;
  }

  lemma AcceptKeepsOrder(sent: seq<bytes>, accepted: seq<bytes>, origin: seq<nat>, n: nat)
    requires InOrder(sent, accepted, origin) && n < |sent|
    requires forall i :: 0 <= i < |origin| ==> origin[i] < n
    ensures InOrder(sent, accepted + [sent[n]], origin + [n])
  {
  }

  lemma OppositeKeeps(aead: Aead, phase: Phase, dir: Direction, start: SecretParam, l: Link, ev: Event)
    requires !phase.NotStarted? && Inv(aead, phase, dir, start, l)
    requires ev.SenderReceives? || ev.ReceiverSends?
    ensures Inv(aead, phase, dir, start, Step(aead, dir, start.seqNum, l, ev))
  {
    match ev
    case SenderReceives(buf) =>
      var r := Decode(aead, l.sender, Opposite(dir), buf);
      assert r.0.phase.NotStarted? || (r.0.phase == l.sender.phase && r.0.Current(dir) == l.sender.Current(dir));
    case ReceiverSends(app) =>
      var r := Encode(aead, l.receiver, Opposite(dir), app);
      assert r.0.phase.NotStarted?
          || (r.0.phase == l.receiver.phase && r.0.Current(dir) == l.receiver.Current(dir)
              && r.0.responderBackupValid == l.receiver.responderBackupValid);
  }

  lemma {:induction false} RunKeeps(aead: Aead, phase: Phase, dir: Direction, start: SecretParam, l: Link, evs: seq<Event>)
    requires aead.Correct() && !phase.NotStarted?
    requires Inv(aead, phase, dir, start, l) && AuthenticRun(aead, dir, start.seqNum, l, evs)
    ensures Inv(aead, phase, dir, start, RunAll(aead, dir, start.seqNum, l, evs))
    decreases |evs|
  {
    if evs != [] {
      match evs[0] {
        case Send(app) => SendKeeps(aead, phase, dir, start, l, app);
        case Deliver(buf) => DeliverKeeps(aead, phase, dir, start, l, buf);
        case _ => OppositeKeeps(aead, phase, dir, start, l, evs[0]);
      }
      RunKeeps(aead, phase, dir, start, Step(aead, dir, start.seqNum, l, evs[0]), evs[1..]);
    }
  }

  /** For every run between endpoints that share a direction's key and salt, with
      no update pending at a receiver of responses, what is accepted is what was
      sent at strictly increasing indices. Session ids, header formats and the two
      counters need not agree. */
  lemma DeliveredInOrderAtMostOnce(aead: Aead, dir: Direction, sender: Session, receiver: Session, evs: seq<Event>)
    requires aead.Correct()
    requires sender.phase == receiver.phase && !sender.phase.NotStarted?
    requires sender.Current(dir).key == receiver.Current(dir).key
    requires sender.Current(dir).salt == receiver.Current(dir).salt
    requires receiver.phase.Established? && dir.Response? ==> !receiver.responderBackupValid
    requires AuthenticRun(aead, dir, sender.Current(dir).seqNum, Link(sender, receiver, [], [], [], []), evs)
    ensures var l := RunAll(aead, dir, sender.Current(dir).seqNum, Link(sender, receiver, [], [], [], []), evs);
            InOrder(l.sent, l.accepted, l.origin)
  {
    RunKeeps(aead, sender.phase, dir, sender.Current(dir), Link(sender, receiver, [], [], [], []), evs);
  }
}
