/** Keys over whole runs of updates: every application key comes from the data secret
    that was installed with the first key of its base, by so many updates, so uses of
    one base never share key and nonce, whatever their steps. */
module DerivedKeys {
  import opened Bytes
  import opened Status
  import opened SecuredMessage
  import opened SessionModel
  import opened NonceRuns

  /** The data secret n updates after `z`, if there is one. */
  function Nth(kdf: Kdf, z: bytes, n: nat): Option<bytes> {
    if n == 0 then Some(z) else
    match Nth(kdf, z, n - 1)
    case None => None
    case Some(secret) => kdf.update(secret)
  }

  /** Its key and salt, if they can be derived. */
  function KeyAt(kdf: Kdf, z: bytes, n: nat): Option<(bytes, Salt)> {
    match Nth(kdf, z, n)
    case None => None
    case Some(secret) => kdf.keyIv(secret)
  }

  /** How many of the first n updates gave a key. */
  function Rank(kdf: Kdf, z: bytes, n: nat): nat {
    if n == 0 then 0 else Rank(kdf, z, n - 1) + if KeyAt(kdf, z, n).Some? then 1 else 0
  }

  /** The keys along a chain of updates are distinct. */
  ghost predicate DistinctKeys(kdf: Kdf) {
    forall z: bytes, m: nat, n: nat :: m < n && KeyAt(kdf, z, m).Some? && KeyAt(kdf, z, n).Some? ==>
      KeyAt(kdf, z, m).value.0 != KeyAt(kdf, z, n).value.0
  }

  /** The data secret that was there when a base began, and the directions whose data
      secret was replaced since their key was installed, of the keys in use and of the
      backups. */
  datatype Origins = Origins(secrets: map<nat, bytes>, loose: set<Direction>, looseBackup: set<Direction>)

  const NO_ORIGINS := Origins(map[], {Request, Response}, {Request, Response})

  function Unkeyed(g: Origins): Origins {
    g.(loose := {Request, Response}, looseBackup := {Request, Response})
  }

  function RolledBack(g: Origins, dir: Direction): Origins {
    g.(loose := if dir in g.looseBackup then g.loose + {dir} else g.loose - {dir})
  }

  function Track(aead: Aead, kdf: Kdf, t: Run, g: Origins, ev: Event): Origins {
    match ev
    case EncodeEvent(dir, app) =>
      if Encode(aead, t.s, dir, app).1 == Err(SequenceNumberOverflow) then Unkeyed(g) else g
    case DecodeEvent(dir, buf) =>
      if Decode(aead, t.s, dir, buf).1 == Err(SequenceNumberOverflow) then Unkeyed(g) else g
    case InstallSecretEvent(dir, _) => g.(loose := g.loose + {dir})
    case InstallKeyEvent(slot, _, _) =>
      if !slot.application then g else
      g.(loose := g.loose - {slot.dir}, secrets := g.secrets[t.nextBase := t.s.App(slot.dir).dataSecret])
    case CreateEvent(req, rsp) =>
      var both := rsp && (req ==> NextSecret(kdf, t.s.appRequest).1);
      g.(looseBackup := g.looseBackup - (if req then {Request} else {}) - (if both then {Response} else {}))
    case RollbackEvent(req, rsp) =>
      var g1 := if req && t.s.requesterBackupValid then RolledBack(g, Request) else g;
      if rsp && t.s.responderBackupValid then RolledBack(g1, Response) else g1
    case TeardownEvent => Unkeyed(g)
    case SetupEvent(_) => if t.s.id != INVALID_SESSION_ID then g else Unkeyed(g)
    case _ => g
  }

  /** An application key is installed from the data secret beside it, and a direction is
      not updated between the installation of a data secret and of its key. */
  predicate KeyedStep(kdf: Kdf, t: Run, g: Origins, ev: Event) {
    match ev
    case InstallKeyEvent(slot, key, salt) =>
      slot.application ==> kdf.keyIv(t.s.App(slot.dir).dataSecret) == Some((key, salt))
    case CreateEvent(req, rsp) => (req ==> Request !in g.loose) && (rsp ==> Response !in g.loose)
    case _ => true
  }

  predicate KeyedRun(aead: Aead, kdf: Kdf, t: Run, g: Origins, evs: seq<Event>)
    decreases |evs|
  {
    evs != [] ==>
      KeyedStep(kdf, t, g, evs[0])
      && KeyedRun(aead, kdf, Step(aead, kdf, t, evs[0]), Track(aead, kdf, t, g, evs[0]), evs[1..])
  }

  function TrackAll(aead: Aead, kdf: Kdf, t: Run, g: Origins, evs: seq<Event>): Origins
    decreases |evs|
  {
    if evs == [] then g
    else TrackAll(aead, kdf, Step(aead, kdf, t, evs[0]), Track(aead, kdf, t, g, evs[0]), evs[1..])
  }

  /** The key is the one p updates after z, and `step` of them gave a key. */
  ghost predicate KeyFrom(kdf: Kdf, z: bytes, step: nat, key: bytes, salt: Salt, p: nat) {
    KeyAt(kdf, z, p) == Some((key, salt)) && Rank(kdf, z, p) == step
  }

  /** The data secret is the one q updates after z, and as many of them gave a key. */
  ghost predicate SecretFrom(kdf: Kdf, z: bytes, step: nat, secret: bytes, q: nat) {
    Nth(kdf, z, q) == Some(secret) && Rank(kdf, z, q) == step
  }

  /** A key under an epoch: of a base with an origin it comes from there, and so does its
      data secret if it is tight; any other base has seen no update. */
  ghost predicate Placed(kdf: Kdf, secrets: map<nat, bytes>, e: Epoch, d: DirectionSecret, tight: bool) {
    if e.base in secrets then
      && (exists p: nat :: KeyFrom(kdf, secrets[e.base], e.step, d.param.key, d.param.salt, p))
      && (tight ==> exists q: nat :: SecretFrom(kdf, secrets[e.base], e.step, d.dataSecret, q))
    else e.step == 0 && !tight
  }

  ghost predicate UsePlaced(kdf: Kdf, secrets: map<nat, bytes>, u: Use) {
    if u.slot.application && u.epoch.base in secrets then
      exists p: nat :: KeyFrom(kdf, secrets[u.epoch.base], u.epoch.step, u.param.key, u.param.salt, p)
    else u.epoch.step == 0
  }

  ghost predicate DirectionPlaced(kdf: Kdf, t: Run, g: Origins, dir: Direction) {
    var tag := t.tags.At(Slot(true, dir));
    && Placed(kdf, g.secrets, tag.epoch, t.s.App(dir), dir !in g.loose)
    && (t.s.BackupValid(dir) ==> Placed(kdf, g.secrets, tag.backup, t.s.Backup(dir), dir !in g.looseBackup))
  }

  /** Bases are below the next one. */
  ghost predicate Bounded(t: Run, g: Origins) {
    && (forall b :: b in g.secrets ==> b < t.nextBase)
    && (forall i :: 0 <= i < |t.uses| ==> t.uses[i].epoch.base < t.nextBase)
    && forall slot: Slot :: t.tags.At(slot).epoch.base < t.nextBase && t.tags.At(slot).backup.base < t.nextBase
  }

  ghost predicate Derived(kdf: Kdf, t: Run, g: Origins) {
    && Bounded(t, g)
    && (forall dir: Direction :: t.tags.At(Slot(false, dir)).epoch.step == 0)
    && (forall dir: Direction :: DirectionPlaced(kdf, t, g, dir))
    && forall i :: 0 <= i < |t.uses| ==> UsePlaced(kdf, g.secrets, t.uses[i])
  }

  /** The counter plays no part. */
  lemma PlacedSame(kdf: Kdf, secrets: map<nat, bytes>, e: Epoch, d: DirectionSecret, d': DirectionSecret,
                   tight: bool, tight': bool)
    requires Placed(kdf, secrets, e, d, tight) && (tight' ==> tight && d'.dataSecret == d.dataSecret)
    requires d'.param.key == d.param.key && d'.param.salt == d.param.salt
    ensures Placed(kdf, secrets, e, d', tight')
  {
  }

  /** Another base does not matter either. */
  lemma PlacedMore(kdf: Kdf, secrets: map<nat, bytes>, b: nat, z: bytes, e: Epoch, d: DirectionSecret, tight: bool)
    requires Placed(kdf, secrets, e, d, tight) && e.base != b
    ensures Placed(kdf, secrets[b := z], e, d, tight)
  {
    if e.base in secrets {
      assert secrets[b := z][e.base] == secrets[e.base];
    }
  }

  lemma UsePlacedMore(kdf: Kdf, secrets: map<nat, bytes>, b: nat, z: bytes, u: Use)
    requires UsePlaced(kdf, secrets, u) && u.epoch.base != b
    ensures UsePlaced(kdf, secrets[b := z], u)
  {
    if u.epoch.base in secrets {
      assert secrets[b := z][u.epoch.base] == secrets[u.epoch.base];
    }
  }

  /** A key that is installed from its data secret begins a chain. */
  lemma Installed(kdf: Kdf, secrets: map<nat, bytes>, b: nat, d: DirectionSecret)
    requires kdf.keyIv(d.dataSecret) == Some((d.param.key, d.param.salt))
    ensures Placed(kdf, secrets[b := d.dataSecret], Epoch(b, 0), d, true)
  {
    var z := d.dataSecret;
    assert KeyFrom(kdf, z, 0, d.param.key, d.param.salt, 0);
    assert SecretFrom(kdf, z, 0, z, 0);
  }

  /** An update goes on along the chain. */
  lemma NextPlaced(kdf: Kdf, secrets: map<nat, bytes>, e: Epoch, d: DirectionSecret)
    requires Placed(kdf, secrets, e, d, true)
    ensures
      var (d', ok) := NextSecret(kdf, d);
      Placed(kdf, secrets, if ok then Epoch(e.base, e.step + 1) else e, d', true)
  {
    var z := secrets[e.base];
    var q: nat :| SecretFrom(kdf, z, e.step, d.dataSecret, q);
    var (d', ok) := NextSecret(kdf, d);
    if kdf.update(d.dataSecret).Some? {
      assert Nth(kdf, z, q + 1) == Some(d'.dataSecret);
      if ok {
        assert KeyFrom(kdf, z, e.step + 1, d'.param.key, d'.param.salt, q + 1);
        assert SecretFrom(kdf, z, e.step + 1, d'.dataSecret, q + 1);
      } else {
        assert SecretFrom(kdf, z, e.step, d'.dataSecret, q + 1);
      }
    }
  }

  /** What keeps the tags, keys, salts and secrets keeps everything. */
  lemma SameKeys(kdf: Kdf, t: Run, t': Run, g: Origins, dir: Direction)
    requires DirectionPlaced(kdf, t, g, dir) && t'.tags == t.tags
    requires t'.s.App(dir).dataSecret == t.s.App(dir).dataSecret && Onward(t.s.App(dir).param, t'.s.App(dir).param)
    requires t'.s.BackupValid(dir) ==>
               && t.s.BackupValid(dir) && t'.s.Backup(dir).dataSecret == t.s.Backup(dir).dataSecret
               && Onward(t.s.Backup(dir).param, t'.s.Backup(dir).param)
    ensures DirectionPlaced(kdf, t', g, dir)
  {
    hide Placed;
    var tag := t.tags.At(Slot(true, dir));
    PlacedSame(kdf, g.secrets, tag.epoch, t.s.App(dir), t'.s.App(dir), dir !in g.loose, dir !in g.loose);
    if t'.s.BackupValid(dir) {
      var tight := dir !in g.looseBackup;
      PlacedSame(kdf, g.secrets, tag.backup, t.s.Backup(dir), t'.s.Backup(dir), tight, tight);
    }
  }

  lemma RestartDerived(kdf: Kdf, t: Run, g: Origins, s: Session)
    requires Derived(kdf, t, g)
    ensures Derived(kdf, Restart(t, s), Unkeyed(g))
  {
    hide UsePlaced;
    var t', g' := Restart(t, s), Unkeyed(g);
    forall dir: Direction ensures DirectionPlaced(kdf, t', g', dir) {
      assert dir.Request? || dir.Response?;
      assert dir in g'.loose && dir in g'.looseBackup;
    }
  }

  lemma EncodeDerived(aead: Aead, kdf: Kdf, t: Run, g: Origins, dir: Direction, app: bytes)
    requires Derived(kdf, t, g)
    ensures Derived(kdf, Step(aead, kdf, t, EncodeEvent(dir, app)), Track(aead, kdf, t, g, EncodeEvent(dir, app)))
  {
    hide SealMsg, Placed, UsePlaced, DirectionPlaced;
    var (s, r) := Encode(aead, t.s, dir, app);
    if r == Err(SequenceNumberOverflow) {
      RestartDerived(kdf, t, g, s);
    } else {
      var t' := Step(aead, kdf, t, EncodeEvent(dir, app));
      forall d: Direction ensures DirectionPlaced(kdf, t', g, d) {
        SameKeys(kdf, t, t', g, d);
      }
      if r.Ok? {
        var slot := SlotOf(t.s, dir);
        UseHere(kdf, t, g, dir);
        assert t'.uses == t.uses + [Use(slot, t.tags.At(slot).epoch, t.s.Current(dir))];
      }
    }
  }

  /** What is encoded now uses a key that is placed. */
  lemma UseHere(kdf: Kdf, t: Run, g: Origins, dir: Direction)
    requires Derived(kdf, t, g)
    ensures var slot := SlotOf(t.s, dir); UsePlaced(kdf, g.secrets, Use(slot, t.tags.At(slot).epoch, t.s.Current(dir)))
  {
    assert DirectionPlaced(kdf, t, g, dir);
  }

  lemma DecodeDerived(aead: Aead, kdf: Kdf, t: Run, g: Origins, dir: Direction, buf: bytes)
    requires Derived(kdf, t, g)
    ensures Derived(kdf, Step(aead, kdf, t, DecodeEvent(dir, buf)), Track(aead, kdf, t, g, DecodeEvent(dir, buf)))
  {
    hide OpenMsg, Placed, UsePlaced, DirectionPlaced;
    var (s, r) := Decode(aead, t.s, dir, buf);
    if r == Err(SequenceNumberOverflow) {
      RestartDerived(kdf, t, g, s);
    } else {
      var t' := Step(aead, kdf, t, DecodeEvent(dir, buf));
      forall d: Direction ensures DirectionPlaced(kdf, t', g, d) {
        SameKeys(kdf, t, t', g, d);
      }
    }
  }

  /** An installation, an update and a rollback keep the bases in bounds, and no update
      of a handshake key is counted. */
  lemma StepBounded(aead: Aead, kdf: Kdf, t: Run, g: Origins, ev: Event)
    requires Bounded(t, g) && (forall dir: Direction :: t.tags.At(Slot(false, dir)).epoch.step == 0)
    requires ev.InstallKeyEvent? || ev.CreateEvent? || ev.RollbackEvent?
    ensures
      var t', g' := Step(aead, kdf, t, ev), Track(aead, kdf, t, g, ev);
      Bounded(t', g') && forall dir: Direction :: t'.tags.At(Slot(false, dir)).epoch.step == 0
  {
    hide NextSecret, CreateUpdate, ActivateUpdate, InstallKey;
    var t' := Step(aead, kdf, t, ev);
    forall slot: Slot ensures t'.tags.At(slot).epoch.base < t'.nextBase && t'.tags.At(slot).backup.base < t'.nextBase {
      assert t.tags.At(slot).epoch.base < t.nextBase && t.tags.At(slot).backup.base < t.nextBase;
    }
    forall dir: Direction ensures t'.tags.At(Slot(false, dir)).epoch.step == 0 {
      assert t.tags.At(Slot(false, dir)).epoch.step == 0;
    }
  }

  lemma InstallKeyDerived(aead: Aead, kdf: Kdf, t: Run, g: Origins, slot: Slot, key: bytes, salt: Salt)
    requires Derived(kdf, t, g) && KeyedStep(kdf, t, g, InstallKeyEvent(slot, key, salt))
    ensures
      var ev := InstallKeyEvent(slot, key, salt);
      Derived(kdf, Step(aead, kdf, t, ev), Track(aead, kdf, t, g, ev))
  {
    hide Placed, UsePlaced;
    var ev := InstallKeyEvent(slot, key, salt);
    var t', g' := Step(aead, kdf, t, ev), Track(aead, kdf, t, g, ev);
    StepBounded(aead, kdf, t, g, ev);
    forall dir: Direction ensures DirectionPlaced(kdf, t', g', dir) {
      InstallAt(aead, kdf, t, g, slot, key, salt, dir);
    }
    forall i | 0 <= i < |t'.uses| ensures UsePlaced(kdf, g'.secrets, t'.uses[i]) {
      if slot.application {
        UsePlacedMore(kdf, g.secrets, t.nextBase, t.s.App(slot.dir).dataSecret, t.uses[i]);
      }
    }
  }

  lemma InstallAt(aead: Aead, kdf: Kdf, t: Run, g: Origins, slot: Slot, key: bytes, salt: Salt, dir: Direction)
    requires Bounded(t, g) && DirectionPlaced(kdf, t, g, dir) && KeyedStep(kdf, t, g, InstallKeyEvent(slot, key, salt))
    ensures
      var ev := InstallKeyEvent(slot, key, salt);
      DirectionPlaced(kdf, Step(aead, kdf, t, ev), Track(aead, kdf, t, g, ev), dir)
  {
    hide Placed;
    var tag, b := t.tags.At(Slot(true, dir)), t.nextBase;
    if slot.application {
      var z := t.s.App(slot.dir).dataSecret;
      if dir == slot.dir {
        Installed(kdf, g.secrets, b, DirectionSecret(z, SecretParam(key, salt, t.s.App(dir).param.seqNum)));
      } else {
        PlacedMore(kdf, g.secrets, b, z, tag.epoch, t.s.App(dir), dir !in g.loose);
      }
      if t.s.BackupValid(dir) {
        PlacedMore(kdf, g.secrets, b, z, tag.backup, t.s.Backup(dir), dir !in g.looseBackup);
      }
    }
  }

  lemma CreateDerived(aead: Aead, kdf: Kdf, t: Run, g: Origins, req: bool, rsp: bool)
    requires Derived(kdf, t, g) && KeyedStep(kdf, t, g, CreateEvent(req, rsp))
    ensures Derived(kdf, Step(aead, kdf, t, CreateEvent(req, rsp)), Track(aead, kdf, t, g, CreateEvent(req, rsp)))
  {
    hide Placed, UsePlaced, NextSecret;
    var ev := CreateEvent(req, rsp);
    var t', g' := Step(aead, kdf, t, ev), Track(aead, kdf, t, g, ev);
    StepBounded(aead, kdf, t, g, ev);
    forall dir: Direction ensures DirectionPlaced(kdf, t', g', dir) {
      assert DirectionPlaced(kdf, t, g, dir);
      if if dir.Request? then req else rsp && (req ==> NextSecret(kdf, t.s.appRequest).1) {
        NextPlaced(kdf, g.secrets, t.tags.At(Slot(true, dir)).epoch, t.s.App(dir));
      }
    }
  }

  lemma RollbackDerived(aead: Aead, kdf: Kdf, t: Run, g: Origins, req: bool, rsp: bool)
    requires Derived(kdf, t, g)
    ensures Derived(kdf, Step(aead, kdf, t, RollbackEvent(req, rsp)), Track(aead, kdf, t, g, RollbackEvent(req, rsp)))
  {
    hide Placed, UsePlaced;
    var ev := RollbackEvent(req, rsp);
    var t', g' := Step(aead, kdf, t, ev), Track(aead, kdf, t, g, ev);
    StepBounded(aead, kdf, t, g, ev);
    forall dir: Direction ensures DirectionPlaced(kdf, t', g', dir) {
      assert DirectionPlaced(kdf, t, g, dir);
    }
  }

  /** A new data secret, a commit and a change of phase leave every key as it is. */
  lemma QuietDerived(aead: Aead, kdf: Kdf, t: Run, g: Origins, ev: Event)
    requires Derived(kdf, t, g) && (ev.InstallSecretEvent? || ev.CommitEvent? || ev.PhaseEvent?)
    ensures Derived(kdf, Step(aead, kdf, t, ev), Track(aead, kdf, t, g, ev))
  {
    hide Placed, UsePlaced;
    var t', g' := Step(aead, kdf, t, ev), Track(aead, kdf, t, g, ev);
    forall dir: Direction ensures DirectionPlaced(kdf, t', g', dir) {
      assert DirectionPlaced(kdf, t, g, dir);
      var epoch := t.tags.At(Slot(true, dir)).epoch;
      PlacedSame(kdf, g.secrets, epoch, t.s.App(dir), t'.s.App(dir), dir !in g.loose, dir !in g'.loose);
    }
  }

  /** Every event keeps the keys where they come from. */
  lemma StepDerived(aead: Aead, kdf: Kdf, t: Run, g: Origins, ev: Event)
    requires Derived(kdf, t, g) && KeyedStep(kdf, t, g, ev)
    ensures Derived(kdf, Step(aead, kdf, t, ev), Track(aead, kdf, t, g, ev))
  {
    hide Derived, KeyedStep, Restart, Encode, Decode;
    match ev
    case EncodeEvent(dir, app) => EncodeDerived(aead, kdf, t, g, dir, app);
    case DecodeEvent(dir, buf) => DecodeDerived(aead, kdf, t, g, dir, buf);
    case InstallKeyEvent(slot, key, salt) => InstallKeyDerived(aead, kdf, t, g, slot, key, salt);
    case CreateEvent(req, rsp) => CreateDerived(aead, kdf, t, g, req, rsp);
    case RollbackEvent(req, rsp) => RollbackDerived(aead, kdf, t, g, req, rsp);
    case TeardownEvent => RestartDerived(kdf, t, g, SetDefault(t.s));
    case SetupEvent(id) => RestartDerived(kdf, t, g, SetId(SetDefault(t.s), id));
    case _ => QuietDerived(aead, kdf, t, g, ev);
  }

  lemma {:induction false} RunDerived(aead: Aead, kdf: Kdf, t: Run, g: Origins, evs: seq<Event>)
    requires Derived(kdf, t, g) && KeyedRun(aead, kdf, t, g, evs)
    ensures Derived(kdf, RunAll(aead, kdf, t, evs), TrackAll(aead, kdf, t, g, evs))
    decreases |evs|
  {
    hide Derived, KeyedStep, Step, Track;
    if evs != [] {
      StepDerived(aead, kdf, t, g, evs[0]);
      RunDerived(aead, kdf, Step(aead, kdf, t, evs[0]), Track(aead, kdf, t, g, evs[0]), evs[1..]);
    }
  }

  /** No update has been counted yet. */
  ghost predicate Unupdated(t: Run) {
    forall slot: Slot :: t.tags.At(slot).epoch.step == 0 && t.tags.At(slot).backup.step == 0
  }

  /** Of one base, equal keys mean equal steps. */
  lemma SameKeySameStep(kdf: Kdf, secrets: map<nat, bytes>, u: Use, v: Use)
    requires DistinctKeys(kdf) && UsePlaced(kdf, secrets, u) && UsePlaced(kdf, secrets, v)
    requires u.slot == v.slot && u.epoch.base == v.epoch.base && u.param.key == v.param.key
    ensures u.epoch == v.epoch
  {
    if u.slot.application && u.epoch.base in secrets {
      var z := secrets[u.epoch.base];
      var p: nat :| KeyFrom(kdf, z, u.epoch.step, u.param.key, u.param.salt, p);
      var q: nat :| KeyFrom(kdf, z, v.epoch.step, v.param.key, v.param.salt, q);
      assert p == q;
    }
  }

  /** In every run with safe rollbacks whose application keys come from their data
      secrets, two encodes of one slot and base never share both key and nonce, however
      many updates lie between them, if the derivation gives distinct keys along its
      chains. */
  lemma NoReuseAcrossUpdates(aead: Aead, kdf: Kdf, t: Run, evs: seq<Event>, i: nat, j: nat)
    requires Beginning(t) && Unupdated(t) && DistinctKeys(kdf)
    requires SafeRun(aead, kdf, t, evs) && KeyedRun(aead, kdf, t, NO_ORIGINS, evs)
    requires i < j < |RunAll(aead, kdf, t, evs).uses|
    ensures
      var uses := RunAll(aead, kdf, t, evs).uses;
      var u, v := uses[i], uses[j];
      u.slot == v.slot && u.epoch.base == v.epoch.base ==>
        u.param.key != v.param.key || Nonce(u.param.salt, u.param.seqNum) != Nonce(v.param.salt, v.param.seqNum)
  {
    hide Nonce, Step, SafeRun, KeyedRun, DistinctKeys, UsePlaced;
    assert Derived(kdf, t, NO_ORIGINS);
    RunDerived(aead, kdf, t, NO_ORIGINS, evs);
    NoNonceReuse(aead, kdf, t, evs, i, j);
    var uses := RunAll(aead, kdf, t, evs).uses;
    var u, v := uses[i], uses[j];
    if u.slot == v.slot && u.epoch.base == v.epoch.base && u.param.key == v.param.key {
      SameKeySameStep(kdf, TrackAll(aead, kdf, t, NO_ORIGINS, evs).secrets, u, v);
    }
  }

  /** Generating the data secrets, which installs both secrets and then their keys, is
      such a run, and leaves both directions ready to be updated. */
  lemma GenerationIsKeyed(aead: Aead, kdf: Kdf, t: Run, g: Origins, req: bytes, rsp: bytes)
    requires kdf.keyIv(req).Some? && kdf.keyIv(rsp).Some?
    ensures
      var (k, v) := kdf.keyIv(req).value;
      var (l, w) := kdf.keyIv(rsp).value;
      var evs := [InstallSecretEvent(Request, req), InstallSecretEvent(Response, rsp),
                  InstallKeyEvent(Slot(true, Request), k, v), InstallKeyEvent(Slot(true, Response), l, w)];
      KeyedRun(aead, kdf, t, g, evs) && TrackAll(aead, kdf, t, g, evs).loose == {}
  {
    var (k, v) := kdf.keyIv(req).value;
    var (l, w) := kdf.keyIv(rsp).value;
    var e1, e2 := InstallSecretEvent(Request, req), InstallSecretEvent(Response, rsp);
    var e3, e4 := InstallKeyEvent(Slot(true, Request), k, v), InstallKeyEvent(Slot(true, Response), l, w);
    var evs := [e1, e2, e3, e4];
    assert evs[1..] == [e2, e3, e4] && [e2, e3, e4][1..] == [e3, e4] && [e3, e4][1..] == [e4] && [e4][1..] == [];
    var t1, g1 := Step(aead, kdf, t, e1), Track(aead, kdf, t, g, e1);
    var t2, g2 := Step(aead, kdf, t1, e2), Track(aead, kdf, t1, g1, e2);
    var t3, g3 := Step(aead, kdf, t2, e3), Track(aead, kdf, t2, g2, e3);
    assert KeyedRun(aead, kdf, t3, g3, [e4]) && KeyedRun(aead, kdf, t2, g2, [e3, e4]);
    assert TrackAll(aead, kdf, t1, g1, [e2, e3, e4]) == TrackAll(aead, kdf, t2, g2, [e3, e4]);
    assert TrackAll(aead, kdf, t2, g2, [e3, e4]) == TrackAll(aead, kdf, t3, g3, [e4]) == Track(aead, kdf, t3, g3, e4);
    var loose := Track(aead, kdf, t3, g3, e4).loose;
    forall d: Direction ensures d !in loose {
      match d
      case Request =>
      case Response =>
    }
    assert loose == {};
  }

  /** The last condition is needed: if the old data secret is installed again without a
      key, the next update gives the new key again under another step. */
  lemma SecretAgainRepeats(aead: Aead, kdf: Kdf, t: Run, dir: Direction)
    requires t.s.phase.Established? && NextSecret(kdf, t.s.App(dir)).1 && forall k :: aead.Seals(k)
    ensures
      var update, encode := CreateEvent(dir.Request?, dir.Response?), EncodeEvent(dir, []);
      var evs := [update, encode, InstallSecretEvent(dir, t.s.App(dir).dataSecret), update, encode];
      var uses, n := RunAll(aead, kdf, t, evs).uses, |t.uses|;
      && SafeRun(aead, kdf, t, evs) && |uses| == n + 2
      && uses[n].slot == uses[n + 1].slot && uses[n].epoch.base == uses[n + 1].epoch.base
      && uses[n].epoch.step < uses[n + 1].epoch.step && uses[n].param == uses[n + 1].param
  {
    hide Aead.Seals, SealMsg, Encode, SafeRun, RunAll;
    var d, slot := t.s.App(dir), Slot(true, dir);
    var update, encode := CreateEvent(dir.Request?, dir.Response?), EncodeEvent(dir, []);
    var again := InstallSecretEvent(dir, d.dataSecret);
    var t1 := Step(aead, kdf, t, update);
    UpdateAt(aead, kdf, t, dir);
    var t2 := Step(aead, kdf, t1, encode);
    EncodeAt(aead, kdf, t1, dir);
    var t3 := Step(aead, kdf, t2, again);
    var t4 := Step(aead, kdf, t3, update);
    SameNext(kdf, t3.s.App(dir), d);
    UpdateAt(aead, kdf, t3, dir);
    var t5 := Step(aead, kdf, t4, encode);
    EncodeAt(aead, kdf, t4, dir);
    FiveSteps(aead, kdf, t, update, encode, again);
  }

  /** The counter and the key play no part in the next secret. */
  lemma SameNext(kdf: Kdf, d: DirectionSecret, d': DirectionSecret)
    requires d.dataSecret == d'.dataSecret && NextSecret(kdf, d').1
    ensures NextSecret(kdf, d) == NextSecret(kdf, d')
  {
  }

  lemma UpdateAt(aead: Aead, kdf: Kdf, t: Run, dir: Direction)
    requires t.s.phase.Established? && NextSecret(kdf, t.s.App(dir)).1
    ensures
      var t', slot := Step(aead, kdf, t, CreateEvent(dir.Request?, dir.Response?)), Slot(true, dir);
      && t'.s.phase.Established? && t'.s.App(dir) == NextSecret(kdf, t.s.App(dir)).0 && t'.s.App(dir).param.seqNum == 0
      && t'.tags.At(slot).epoch == Epoch(t.tags.At(slot).epoch.base, t.tags.At(slot).epoch.step + 1) && t'.uses == t.uses
  {
  }

  lemma EncodeAt(aead: Aead, kdf: Kdf, t: Run, dir: Direction)
    requires t.s.phase.Established? && (forall k :: aead.Seals(k)) && t.s.App(dir).param.seqNum == 0
    ensures
      var t', slot := Step(aead, kdf, t, EncodeEvent(dir, [])), Slot(true, dir);
      && t'.s.phase.Established? && t'.s.App(dir).dataSecret == t.s.App(dir).dataSecret && t'.tags == t.tags
      && t'.uses == t.uses + [Use(slot, t.tags.At(slot).epoch, t.s.App(dir).param)]
  {
    assert aead.Seals(t.s.App(dir).param.key);
    assert SealMsg(aead, t.s.id, t.s.seqCount, t.s.App(dir).param, []).Ok?;
    hide SealMsg;
  }

  /** Without rollbacks a run is safe. */
  lemma {:induction false} NoRollbackIsSafe(aead: Aead, kdf: Kdf, t: Run, evs: seq<Event>)
    requires forall ev :: ev in evs ==> !ev.RollbackEvent?
    ensures SafeRun(aead, kdf, t, evs)
    decreases |evs|
  {
    hide Step;
    if evs != [] {
      assert evs[0] in evs;
      NoRollbackIsSafe(aead, kdf, Step(aead, kdf, t, evs[0]), evs[1..]);
    }
  }

  lemma FiveSteps(aead: Aead, kdf: Kdf, t: Run, update: Event, encode: Event, again: Event)
    requires !update.RollbackEvent? && !encode.RollbackEvent? && !again.RollbackEvent?
    ensures
      var evs := [update, encode, again, update, encode];
      var t2 := Step(aead, kdf, Step(aead, kdf, t, update), encode);
      && RunAll(aead, kdf, t, evs)
         == Step(aead, kdf, Step(aead, kdf, Step(aead, kdf, t2, again), update), encode)
      && SafeRun(aead, kdf, t, evs)
  {
    hide Step;
    var t1 := Step(aead, kdf, t, update);
    var t2 := Step(aead, kdf, t1, encode);
    var t3 := Step(aead, kdf, t2, again);
    var t4 := Step(aead, kdf, t3, update);
    var evs := [update, encode, again, update, encode];
    assert evs[1..] == [encode, again, update, encode] && evs[1..][1..] == [again, update, encode];
    assert [again, update, encode][1..] == [update, encode] && [update, encode][1..] == [encode] && [encode][1..] == [];
    assert RunAll(aead, kdf, t3, [update, encode]) == RunAll(aead, kdf, t4, [encode]) == Step(aead, kdf, t4, encode);
    assert RunAll(aead, kdf, t1, evs[1..]) == RunAll(aead, kdf, t2, [again, update, encode]);
    NoRollbackIsSafe(aead, kdf, t, evs);
  }
}
