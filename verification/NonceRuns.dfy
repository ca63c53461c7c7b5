/** Whole runs of one session: exactly which rollbacks of a key update keep nonces
    unique, whatever the interleaving of encodes, decodes, key installations,
    updates, commits, rollbacks, phase changes, teardowns and setups. */
module NonceRuns {
  import opened Bytes
  import opened Status
  import opened SecuredMessage
  import opened SessionModel

  /** What can happen to a session, direct setting of counters apart. Generating the
      handshake or data secrets is a run of installations, and so is any part of it
      that goes through before a derivation fails. */
  datatype Event =
    | EncodeEvent(dir: Direction, app: bytes)
    | DecodeEvent(dir: Direction, buf: bytes)
    | InstallSecretEvent(dir: Direction, secret: bytes)
    | InstallKeyEvent(slot: Slot, key: bytes, salt: Salt)
    | CreateEvent(updateRequester: bool, updateResponder: bool)
    | CommitEvent(updateRequester: bool, updateResponder: bool)
    | RollbackEvent(updateRequester: bool, updateResponder: bool)
    | PhaseEvent(phase: Phase)
    | TeardownEvent
    | SetupEvent(id: u32)

  /** A key slot: the handshake or the application secret of a direction. */
  datatype Slot = Slot(application: bool, dir: Direction)

  /** A key by its origin: how many keys had been put into its slot from outside, and
      how many updates it is away from the last of those. A rollback goes back to the
      epoch of the backup, and an update after it enters the epoch that was left. */
  datatype Epoch = Epoch(base: nat, step: nat)

  /** One successful encode. */
  datatype Use = Use(slot: Slot, epoch: Epoch, param: SecretParam)

  /** The epochs of a slot and of its backup, and how many uses had been recorded when
      the backup was taken. */
  datatype Tag = Tag(epoch: Epoch, backup: Epoch, mark: nat)

  datatype Tags = Tags(hsRequest: Tag, hsResponse: Tag, appRequest: Tag, appResponse: Tag) {
    function At(slot: Slot): Tag {
      match slot
      case Slot(false, Request) => hsRequest
      case Slot(false, Response) => hsResponse
      case Slot(true, Request) => appRequest
      case Slot(true, Response) => appResponse
    }

    function With(slot: Slot, tag: Tag): Tags {
      match slot
      case Slot(false, Request) => this.(hsRequest := tag)
      case Slot(false, Response) => this.(hsResponse := tag)
      case Slot(true, Request) => this.(appRequest := tag)
      case Slot(true, Response) => this.(appResponse := tag)
    }
  }

  /** `nextBase` is above every base in use. */
  datatype Run = Run(s: Session, tags: Tags, nextBase: nat, uses: seq<Use>)

  function ParamAt(s: Session, slot: Slot): SecretParam {
    match slot
    case Slot(false, Request) => s.hsRequest
    case Slot(false, Response) => s.hsResponse
    case Slot(true, dir) => s.App(dir).param
  }

  function SlotOf(s: Session, dir: Direction): Slot {
    Slot(s.phase.Established?, dir)
  }

  /** Everything in the slots and backups is cleared. */
  function Restart(t: Run, s: Session): Run {
    var tag := Tag(Epoch(t.nextBase, 0), Epoch(t.nextBase, 0), |t.uses|);
    Run(s, Tags(tag, tag, tag, tag), t.nextBase + 1, t.uses)
  }

  function InstallSecret(s: Session, dir: Direction, secret: bytes): Session {
    match dir
    case Request => s.(appRequest := DirectionSecret(secret, s.appRequest.param))
    case Response => s.(appResponse := DirectionSecret(secret, s.appResponse.param))
  }

  /** A key and its salt replace those of a slot; the counter stays. */
  function InstallKey(s: Session, slot: Slot, key: bytes, salt: Salt): Session {
    var p := SecretParam(key, salt, ParamAt(s, slot).seqNum);
    match slot
    case Slot(false, Request) => s.(hsRequest := p)
    case Slot(false, Response) => s.(hsResponse := p)
    case Slot(true, Request) => s.(appRequest := DirectionSecret(s.appRequest.dataSecret, p))
    case Slot(true, Response) => s.(appResponse := DirectionSecret(s.appResponse.dataSecret, p))
  }

  /** The tag of an application slot after an update of `d`. */
  function UpdatedTag(kdf: Kdf, d: DirectionSecret, tag: Tag, n: nat): Tag {
    Tag(if NextSecret(kdf, d).1 then Epoch(tag.epoch.base, tag.epoch.step + 1) else tag.epoch, tag.epoch, n)
  }

  function RolledBackTag(tag: Tag): Tag {
    tag.(epoch := tag.backup)
  }

  function Step(aead: Aead, kdf: Kdf, t: Run, ev: Event): Run {
    match ev
    case EncodeEvent(dir, app) =>
      var (s, r) := Encode(aead, t.s, dir, app);
      var slot := SlotOf(t.s, dir);
      if r.Ok? then t.(s := s, uses := t.uses + [Use(slot, t.tags.At(slot).epoch, t.s.Current(dir))])
      else if r == Err(SequenceNumberOverflow) then Restart(t, s)
      else t.(s := s)
    case DecodeEvent(dir, buf) =>
      var (s, r) := Decode(aead, t.s, dir, buf);
      if r == Err(SequenceNumberOverflow) then Restart(t, s) else t.(s := s)
    case InstallSecretEvent(dir, secret) => t.(s := InstallSecret(t.s, dir, secret))
    case InstallKeyEvent(slot, key, salt) =>
      var tag := t.tags.At(slot).(epoch := Epoch(t.nextBase, 0));
      t.(s := InstallKey(t.s, slot, key, salt), tags := t.tags.With(slot, tag), nextBase := t.nextBase + 1)
    case CreateEvent(req, rsp) =>
      var both := rsp && (req ==> NextSecret(kdf, t.s.appRequest).1);
      var n := |t.uses|;
      t.(s := CreateUpdate(kdf, t.s, req, rsp).0,
         tags := t.tags.(
           appRequest := if req then UpdatedTag(kdf, t.s.appRequest, t.tags.appRequest, n) else t.tags.appRequest,
           appResponse := if both then UpdatedTag(kdf, t.s.appResponse, t.tags.appResponse, n) else t.tags.appResponse))
    case CommitEvent(req, rsp) => t.(s := ActivateUpdate(t.s, req, rsp, true))
    case RollbackEvent(req, rsp) =>
      t.(s := ActivateUpdate(t.s, req, rsp, false),
         tags := t.tags.(
           appRequest := if req && t.s.requesterBackupValid then RolledBackTag(t.tags.appRequest) else t.tags.appRequest,
           appResponse := if rsp && t.s.responderBackupValid then RolledBackTag(t.tags.appResponse) else t.tags.appResponse))
    case PhaseEvent(phase) => t.(s := SetPhase(t.s, phase))
    case TeardownEvent => Restart(t, SetDefault(t.s))
    case SetupEvent(id) =>
      if t.s.id != INVALID_SESSION_ID then t else Restart(t, SetId(SetDefault(t.s), id))
  }

  function SetPhase(s: Session, phase: Phase): Session {
    s.(phase := phase)
  }

  function SetId(s: Session, id: u32): Session {
    s.(id := id)
  }

  function RunAll(aead: Aead, kdf: Kdf, t: Run, evs: seq<Event>): Run
    decreases |evs|
  {
    if evs == [] then t else RunAll(aead, kdf, Step(aead, kdf, t, evs[0]), evs[1..])
  }

  /** One slot: its key, and its backup if it has a valid one. */
  datatype State = State(
    epoch: Epoch, param: SecretParam, hasBackup: bool, backup: Epoch, backupParam: SecretParam, mark: nat)

  function StateAt(t: Run, slot: Slot): State {
    var tag := t.tags.At(slot);
    State(tag.epoch, ParamAt(t.s, slot), slot.application && t.s.BackupValid(slot.dir),
          tag.backup, t.s.Backup(slot.dir).param, tag.mark)
  }

  /** No use of the slot since its backup was taken, under a key of the backup's
      origin. */
  predicate Clean(uses: seq<Use>, slot: Slot, a: State) {
    forall i :: a.mark <= i < |uses| && uses[i].slot == slot ==> uses[i].epoch.base != a.backup.base
  }

  /** A rollback is safe if what it goes back to has not been used since. */
  predicate SafeStep(t: Run, ev: Event) {
    match ev
    case RollbackEvent(req, rsp) =>
      && (req && t.s.requesterBackupValid ==> Clean(t.uses, Slot(true, Request), StateAt(t, Slot(true, Request))))
      && (rsp && t.s.responderBackupValid ==> Clean(t.uses, Slot(true, Response), StateAt(t, Slot(true, Response))))
    case _ => true
  }

  predicate SafeRun(aead: Aead, kdf: Kdf, t: Run, evs: seq<Event>)
    decreases |evs|
  {
    evs != [] ==> SafeStep(t, evs[0]) && SafeRun(aead, kdf, Step(aead, kdf, t, evs[0]), evs[1..])
  }

  /** The same key and salt, and a counter that has not gone back. */
  ghost predicate Onward(p: SecretParam, q: SecretParam) {
    p.key == q.key && p.salt == q.salt && p.seqNum <= q.seqNum
  }

  ghost predicate Forward(a: State, b: State) {
    && b.epoch == a.epoch && Onward(a.param, b.param)
    && (b.hasBackup ==> a.hasBackup && b.backup == a.backup && b.mark == a.mark && Onward(a.backupParam, b.backupParam))
  }

  ghost predicate Updated(a: State, b: State, n: nat) {
    && b.backup == a.epoch && b.backupParam == a.param && b.mark == n
    && ((b.epoch == a.epoch && b.param == a.param) || (b.epoch.base == a.epoch.base && b.epoch.step > a.epoch.step))
  }

  ghost predicate Restored(a: State, b: State) {
    a.hasBackup && b == a.(epoch := a.backup, param := a.backupParam)
  }

  ghost predicate Renewed(a: State, b: State, n: nat, nextBase: nat, nextBase': nat) {
    && b.epoch.base == nextBase < nextBase'
    && (b.hasBackup ==>
          || (b.backup.base == nextBase && b.mark == n)
          || (a.hasBackup && b.backup == a.backup && b.backupParam == a.backupParam && b.mark == a.mark))
  }

  ghost predicate SafeMove(uses: seq<Use>, slot: Slot, a: State, b: State, nextBase: nat, nextBase': nat) {
    && nextBase <= nextBase'
    && (Forward(a, b) || Updated(a, b, |uses|) || Renewed(a, b, |uses|, nextBase, nextBase') || (Restored(a, b) && Clean(uses, slot, a)))
  }

  /** The successor records one use of `slot` at its present counter, which has moved
      on. */
  ghost predicate Uses(t: Run, t': Run, slot: Slot) {
    && t'.uses == t.uses + [Use(slot, t.tags.At(slot).epoch, ParamAt(t.s, slot))]
    && t'.nextBase == t.nextBase && Forward(StateAt(t, slot), StateAt(t', slot))
    && ParamAt(t.s, slot).seqNum < ParamAt(t'.s, slot).seqNum
  }

  ghost predicate SafeMoves(t: Run, t': Run) {
    forall slot: Slot :: SafeMove(t.uses, slot, StateAt(t, slot), StateAt(t', slot), t.nextBase, t'.nextBase)
  }

  lemma AdvanceMoves(s: Session, dir: Direction, slot: Slot)
    requires s.Current(dir).seqNum < MAX_SEQUENCE_NUMBER
    ensures
      var s' := s.WithCurrent(dir, Advance(s.Current(dir)));
      && ParamAt(s', slot) == (if slot == SlotOf(s, dir) then Advance(ParamAt(s, slot)) else ParamAt(s, slot))
      && s'.BackupValid(slot.dir) == s.BackupValid(slot.dir) && s'.Backup(slot.dir) == s.Backup(slot.dir)
  {
  }

  lemma EncodeMoves(aead: Aead, kdf: Kdf, t: Run, dir: Direction, app: bytes)
    ensures
      var t' := Step(aead, kdf, t, EncodeEvent(dir, app));
      SafeMoves(t, t') && (t'.uses == t.uses || Uses(t, t', SlotOf(t.s, dir)))
  {
    hide SealMsg;
    var t' := Step(aead, kdf, t, EncodeEvent(dir, app));
    forall slot: Slot ensures SafeMove(t.uses, slot, StateAt(t, slot), StateAt(t', slot), t.nextBase, t'.nextBase) {
      if Encode(aead, t.s, dir, app).1.Ok? {
        AdvanceMoves(t.s, dir, slot);
      }
    }
    if Encode(aead, t.s, dir, app).1.Ok? {
      AdvanceMoves(t.s, dir, SlotOf(t.s, dir));
    }
  }

  lemma DecodeMoves(aead: Aead, kdf: Kdf, t: Run, dir: Direction, buf: bytes)
    ensures var t' := Step(aead, kdf, t, DecodeEvent(dir, buf)); SafeMoves(t, t') && t'.uses == t.uses
  {
    hide OpenMsg;
    var t' := Step(aead, kdf, t, DecodeEvent(dir, buf));
    forall slot: Slot ensures SafeMove(t.uses, slot, StateAt(t, slot), StateAt(t', slot), t.nextBase, t'.nextBase) {
      if t.s.Current(dir).seqNum < MAX_SEQUENCE_NUMBER {
        AdvanceMoves(t.s, dir, slot);
      }
    }
  }

  lemma CreateMoves(aead: Aead, kdf: Kdf, t: Run, req: bool, rsp: bool)
    ensures SafeMoves(t, Step(aead, kdf, t, CreateEvent(req, rsp)))
  {
    hide Renewed, Clean;
    var t' := Step(aead, kdf, t, CreateEvent(req, rsp));
    forall slot: Slot ensures SafeMove(t.uses, slot, StateAt(t, slot), StateAt(t', slot), t.nextBase, t'.nextBase) {
      var a, b := StateAt(t, slot), StateAt(t', slot);
      match slot {
        case Slot(true, Request) => assert if req then Updated(a, b, |t.uses|) else Forward(a, b);
        case Slot(true, Response) =>
          assert if rsp && (req ==> NextSecret(kdf, t.s.appRequest).1) then Updated(a, b, |t.uses|) else Forward(a, b);
        case _ => assert Forward(a, b);
      }
    }
  }

  lemma RollbackMoves(aead: Aead, kdf: Kdf, t: Run, req: bool, rsp: bool)
    requires SafeStep(t, RollbackEvent(req, rsp))
    ensures SafeMoves(t, Step(aead, kdf, t, RollbackEvent(req, rsp)))
  {
    hide Renewed, Updated, Clean;
    var t' := Step(aead, kdf, t, RollbackEvent(req, rsp));
    forall slot: Slot ensures SafeMove(t.uses, slot, StateAt(t, slot), StateAt(t', slot), t.nextBase, t'.nextBase) {
      var a, b := StateAt(t, slot), StateAt(t', slot);
      match slot {
        case Slot(true, Request) => assert if req && a.hasBackup then Restored(a, b) else Forward(a, b);
        case Slot(true, Response) => assert if rsp && a.hasBackup then Restored(a, b) else Forward(a, b);
        case _ => assert Forward(a, b);
      }
    }
  }

  lemma InstallMoves(aead: Aead, kdf: Kdf, t: Run, at: Slot, key: bytes, salt: Salt)
    ensures SafeMoves(t, Step(aead, kdf, t, InstallKeyEvent(at, key, salt)))
  {
    hide Updated, Clean, Restored;
    var t' := Step(aead, kdf, t, InstallKeyEvent(at, key, salt));
    forall slot: Slot ensures SafeMove(t.uses, slot, StateAt(t, slot), StateAt(t', slot), t.nextBase, t'.nextBase) {
      var a, b := StateAt(t, slot), StateAt(t', slot);
      if slot == at {
        assert Renewed(a, b, |t.uses|, t.nextBase, t'.nextBase);
      } else {
        assert Forward(a, b);
      }
    }
  }

  /** Events that touch no key and no valid backup but may drop one. */
  lemma QuietMoves(aead: Aead, kdf: Kdf, t: Run, ev: Event)
    requires ev.InstallSecretEvent? || ev.CommitEvent? || ev.PhaseEvent?
    ensures SafeMoves(t, Step(aead, kdf, t, ev))
  {
    hide SafeMove;
    var t' := Step(aead, kdf, t, ev);
    forall slot: Slot ensures SafeMove(t.uses, slot, StateAt(t, slot), StateAt(t', slot), t.nextBase, t'.nextBase) {
      QuietAt(t, t', slot);
    }
  }

  lemma QuietAt(t: Run, t': Run, slot: Slot)
    requires t'.tags == t.tags && t'.nextBase == t.nextBase && ParamAt(t'.s, slot) == ParamAt(t.s, slot)
    requires t'.s.BackupValid(slot.dir) ==> t.s.BackupValid(slot.dir) && t'.s.Backup(slot.dir) == t.s.Backup(slot.dir)
    ensures SafeMove(t.uses, slot, StateAt(t, slot), StateAt(t', slot), t.nextBase, t'.nextBase)
  {
    hide Updated, Clean, Restored, Renewed;
  }

  lemma RestartMoves(t: Run, s: Session)
    ensures SafeMoves(t, Restart(t, s))
  {
    hide Updated, Clean, Restored, Forward;
    var t' := Restart(t, s);
    forall slot: Slot ensures SafeMove(t.uses, slot, StateAt(t, slot), StateAt(t', slot), t.nextBase, t'.nextBase) {
      assert Renewed(StateAt(t, slot), StateAt(t', slot), |t.uses|, t.nextBase, t'.nextBase);
    }
  }

  lemma RestartUses(t: Run, s: Session)
    ensures Restart(t, s).uses == t.uses
  {
  }

  lemma StayMoves(t: Run)
    ensures SafeMoves(t, t)
  {
    forall slot: Slot ensures SafeMove(t.uses, slot, StateAt(t, slot), StateAt(t, slot), t.nextBase, t.nextBase) {
      assert Forward(StateAt(t, slot), StateAt(t, slot));
    }
  }

  /** No event but an unsafe rollback takes a slot back to where it has been used. */
  lemma StepMoves(aead: Aead, kdf: Kdf, t: Run, ev: Event)
    requires SafeStep(t, ev)
    ensures
      var t' := Step(aead, kdf, t, ev);
      SafeMoves(t, t') && (t'.uses == t.uses || exists slot: Slot :: Uses(t, t', slot))
  {
    hide SafeMoves, SafeStep, Uses, Restart, Encode, Decode;
    match ev
    case EncodeEvent(dir, app) => EncodeMoves(aead, kdf, t, dir, app);
    case DecodeEvent(dir, buf) => DecodeMoves(aead, kdf, t, dir, buf);
    case CreateEvent(req, rsp) => CreateMoves(aead, kdf, t, req, rsp);
    case RollbackEvent(req, rsp) => RollbackMoves(aead, kdf, t, req, rsp);
    case TeardownEvent => RestartMoves(t, SetDefault(t.s)); RestartUses(t, SetDefault(t.s));
    case SetupEvent(id) =>
      StayMoves(t);
      RestartMoves(t, SetId(SetDefault(t.s), id));
      RestartUses(t, SetId(SetDefault(t.s), id));
    case InstallKeyEvent(slot, key, salt) => InstallMoves(aead, kdf, t, slot, key, salt);
    case _ => QuietMoves(aead, kdf, t, ev);
  }

  ghost predicate Before(u: Use, step: nat, now: SecretParam) {
    || u.epoch.step < step
    || (u.epoch.step == step && u.param.key == now.key && u.param.salt == now.salt && u.param.seqNum < now.seqNum)
  }

  /** The uses of the slot lie before its present as far as they share its base, and
      before its backup as long as a rollback would be safe. */
  ghost predicate SlotInv(uses: seq<Use>, slot: Slot, a: State, nextBase: nat) {
    && a.epoch.base < nextBase && (a.hasBackup ==> a.backup.base < nextBase && a.mark <= |uses|)
    && (forall i :: 0 <= i < |uses| && uses[i].slot == slot ==>
          uses[i].epoch.base < nextBase
          && (uses[i].epoch.base == a.epoch.base ==> Before(uses[i], a.epoch.step, a.param)))
    && (a.hasBackup && Clean(uses, slot, a) ==>
          forall i :: 0 <= i < |uses| && uses[i].slot == slot && uses[i].epoch.base == a.backup.base ==>
            Before(uses[i], a.backup.step, a.backupParam))
  }

  ghost predicate Ordered(uses: seq<Use>) {
    forall i, j :: 0 <= i < j < |uses| && uses[i].slot == uses[j].slot && uses[i].epoch.base == uses[j].epoch.base ==>
      Before(uses[i], uses[j].epoch.step, uses[j].param)
  }

  ghost predicate Inv(t: Run) {
    Ordered(t.uses) && forall slot: Slot :: SlotInv(t.uses, slot, StateAt(t, slot), t.nextBase)
  }

  lemma MoveKeeps(uses: seq<Use>, slot: Slot, a: State, b: State, nextBase: nat, nextBase': nat)
    requires SlotInv(uses, slot, a, nextBase) && SafeMove(uses, slot, a, b, nextBase, nextBase')
    ensures SlotInv(uses, slot, b, nextBase')
  {
  }

  lemma UseKeeps(uses: seq<Use>, u: Use, slot: Slot, a: State, b: State, nextBase: nat)
    requires SlotInv(uses, slot, a, nextBase) && SlotInv(uses, slot, b, nextBase)
    requires u.slot == slot ==> u == Use(slot, a.epoch, a.param) && Forward(a, b) && a.param.seqNum < b.param.seqNum
    ensures SlotInv(uses + [u], slot, b, nextBase)
  {
    var uses' := uses + [u];
    if b.hasBackup && Clean(uses', slot, b) {
      assert Clean(uses, slot, b) by {
        assert forall i :: 0 <= i < |uses| ==> uses'[i] == uses[i];
      }
      assert uses'[|uses|] == u;
    }
  }

  lemma OrderedKeeps(t: Run, t': Run, slot: Slot)
    requires Inv(t) && Uses(t, t', slot)
    ensures Ordered(t'.uses)
  {
    assert SlotInv(t.uses, slot, StateAt(t, slot), t.nextBase);
  }

  lemma StepKeeps(aead: Aead, kdf: Kdf, t: Run, ev: Event)
    requires Inv(t) && SafeStep(t, ev)
    ensures Inv(Step(aead, kdf, t, ev))
  {
    hide Step, SafeStep, SlotInv, SafeMove, Ordered, StateAt;
    var t' := Step(aead, kdf, t, ev);
    StepMoves(aead, kdf, t, ev);
    forall slot: Slot ensures SlotInv(t.uses, slot, StateAt(t', slot), t'.nextBase) {
      MoveKeeps(t.uses, slot, StateAt(t, slot), StateAt(t', slot), t.nextBase, t'.nextBase);
    }
    if t'.uses != t.uses {
      var used: Slot :| Uses(t, t', used);
      OrderedKeeps(t, t', used);
      UsedKeeps(t, t', used);
    }
  }

  lemma UsedKeeps(t: Run, t': Run, used: Slot)
    requires Inv(t) && Uses(t, t', used)
    requires forall slot: Slot :: SlotInv(t.uses, slot, StateAt(t', slot), t'.nextBase)
    ensures forall slot: Slot :: SlotInv(t'.uses, slot, StateAt(t', slot), t'.nextBase)
  {
    hide SlotInv, Ordered, Forward;
    forall slot: Slot ensures SlotInv(t'.uses, slot, StateAt(t', slot), t'.nextBase) {
      UseKeeps(t.uses, Use(used, t.tags.At(used).epoch, ParamAt(t.s, used)), slot, StateAt(t, slot), StateAt(t', slot), t.nextBase);
    }
  }

  lemma {:induction false} RunKeeps(aead: Aead, kdf: Kdf, t: Run, evs: seq<Event>)
    requires Inv(t) && SafeRun(aead, kdf, t, evs)
    ensures Inv(RunAll(aead, kdf, t, evs))
    decreases |evs|
  {
    hide Inv, Step, SafeStep;
    if evs != [] {
      StepKeeps(aead, kdf, t, evs[0]);
      RunKeeps(aead, kdf, Step(aead, kdf, t, evs[0]), evs[1..]);
    }
  }

  /** A run that has recorded nothing yet, with any session. */
  ghost predicate Beginning(t: Run) {
    && t.uses == []
    && forall slot: Slot :: t.tags.At(slot).epoch.base < t.nextBase && t.tags.At(slot).backup.base < t.nextBase
                            && t.tags.At(slot).mark == 0
  }

  /** In every run whose rollbacks are safe, two encodes that share a slot and an epoch
      share the key and use different nonces. */
  lemma NoNonceReuse(aead: Aead, kdf: Kdf, t: Run, evs: seq<Event>, i: nat, j: nat)
    requires Beginning(t) && SafeRun(aead, kdf, t, evs)
    requires i < j < |RunAll(aead, kdf, t, evs).uses|
    ensures
      var uses := RunAll(aead, kdf, t, evs).uses;
      var u, v := uses[i], uses[j];
      u.slot == v.slot && u.epoch == v.epoch ==>
        && u.param.key == v.param.key
        && Nonce(u.param.salt, u.param.seqNum) != Nonce(v.param.salt, v.param.seqNum)
  {
    hide Nonce, Step, SafeRun, CounterOf;
    RunKeeps(aead, kdf, t, evs);
    var uses := RunAll(aead, kdf, t, evs).uses;
    var u, v := uses[i], uses[j];
    if u.slot == v.slot && u.epoch == v.epoch {
      assert Before(u, v.epoch.step, v.param);
      NonceUndo(u.param.salt, u.param.seqNum);
      NonceUndo(v.param.salt, v.param.seqNum);
    }
  }

  /** Counters never pass the limit: a live session whose counter has reached
      2^64 - 1 refuses to encode or decode in that direction and is torn down. */
  lemma ExhaustionTearsDown(aead: Aead, s: Session, dir: Direction, data: bytes)
    requires !s.phase.NotStarted? && s.Current(dir).seqNum == MAX_SEQUENCE_NUMBER
    ensures Encode(aead, s, dir, data) == (SetDefault(s), Err(SequenceNumberOverflow))
    ensures Decode(aead, s, dir, data) == (SetDefault(s), Err(SequenceNumberOverflow))
    ensures SetDefault(s).phase.NotStarted? && SetDefault(s).id == INVALID_SESSION_ID
  {
  }

  /** The two shapes of an unsafe rollback, in either direction. Encoding between the
      update and the rollback: the next update repeats the new key from the start. */
  lemma RollbackRepeatsNonce(aead: Aead, kdf: Kdf, s: Session, dir: Direction, app: bytes)
    requires s.phase.Established? && NextSecret(kdf, s.App(dir)).1
    requires Encode(aead, CreateUpdate(kdf, s, dir.Request?, dir.Response?).0, dir, app).1.Ok?
    ensures
      var s1 := CreateUpdate(kdf, s, dir.Request?, dir.Response?).0;
      var s2 := ActivateUpdate(Encode(aead, s1, dir, app).0, dir.Request?, dir.Response?, false);
      var s3 := CreateUpdate(kdf, s2, dir.Request?, dir.Response?).0;
      s3.Current(dir) == s1.Current(dir)
  {
    hide SealMsg;
    var s1 := CreateUpdate(kdf, s, dir.Request?, dir.Response?).0;
    var e := Encode(aead, s1, dir, app);
    assert e.0.Backup(dir) == s.App(dir);
  }

  /** And rolling back twice, since a rollback leaves the backup valid: what is encoded
      between the two repeats the old key. */
  lemma SecondRollbackRepeatsNonce(aead: Aead, kdf: Kdf, s: Session, dir: Direction, app: bytes)
    requires s.phase.Established?
    ensures
      var s1 := ActivateUpdate(CreateUpdate(kdf, s, dir.Request?, dir.Response?).0, dir.Request?, dir.Response?, false);
      var e := Encode(aead, s1, dir, app);
      e.1.Ok? ==> ActivateUpdate(e.0, dir.Request?, dir.Response?, false).Current(dir) == s1.Current(dir)
  {
    hide SealMsg;
  }

  /** The traffic of an endpoint: it encodes in one direction and decodes in the
      other. */
  predicate OwnTraffic(own: Direction, ev: Event) {
    match ev
    case EncodeEvent(dir, _) => dir == own
    case DecodeEvent(dir, _) => dir != own
    case _ => true
  }

  /** From the secret `d` this key and counter can be reached by encoding, after an
      update if need be. */
  ghost predicate Reachable(kdf: Kdf, d: DirectionSecret, p: SecretParam) {
    || Onward(d.param, p)
    || (NextSecret(kdf, d).1 && Onward(NextSecret(kdf, d).0.param, p))
  }

  /** As long as the slot stays with the base of its backup, its key and all its uses
      since the backup was taken are reachable from the backup. */
  ghost predicate Traced(kdf: Kdf, t: Run, own: Direction) {
    var slot := Slot(true, own);
    var a := StateAt(t, slot);
    && a.epoch.base < t.nextBase
    && (a.hasBackup ==>
          && a.backup.base < t.nextBase && a.mark <= |t.uses|
          && (a.epoch.base == a.backup.base ==> Reachable(kdf, t.s.Backup(own), a.param))
          && (forall i :: a.mark <= i < |t.uses| && t.uses[i].slot == slot && t.uses[i].epoch.base == a.backup.base ==>
                Reachable(kdf, t.s.Backup(own), t.uses[i].param) && t.uses[i].param.seqNum < MAX_SEQUENCE_NUMBER))
  }

  lemma TracedEncode(aead: Aead, kdf: Kdf, t: Run, own: Direction, app: bytes)
    requires Traced(kdf, t, own)
    ensures Traced(kdf, Step(aead, kdf, t, EncodeEvent(own, app)), own)
  {
    hide SealMsg, NextSecret;
    var t' := Step(aead, kdf, t, EncodeEvent(own, app));
    if Encode(aead, t.s, own, app).1.Ok? {
      AdvanceMoves(t.s, own, Slot(true, own));
    } else if Encode(aead, t.s, own, app).1 == Err(SequenceNumberOverflow) {
      TracedRestart(kdf, t, t'.s, own);
    }
  }

  lemma TracedRestart(kdf: Kdf, t: Run, s: Session, own: Direction)
    requires s.App(own) == s.Backup(own)
    ensures Traced(kdf, Restart(t, s), own)
  {
  }

  lemma TracedDecode(aead: Aead, kdf: Kdf, t: Run, own: Direction, dir: Direction, buf: bytes)
    requires Traced(kdf, t, own) && dir != own
    ensures Traced(kdf, Step(aead, kdf, t, DecodeEvent(dir, buf)), own)
  {
    hide OpenMsg, NextSecret;
    var t' := Step(aead, kdf, t, DecodeEvent(dir, buf));
    if Decode(aead, t.s, dir, buf).1 == Err(SequenceNumberOverflow) {
      TracedRestart(kdf, t, t'.s, own);
    } else {
      assert StateAt(t', Slot(true, own)) == StateAt(t, Slot(true, own)) && t'.s.Backup(own) == t.s.Backup(own);
    }
  }

  lemma TracedCreate(aead: Aead, kdf: Kdf, t: Run, own: Direction, req: bool, rsp: bool)
    requires Traced(kdf, t, own)
    ensures Traced(kdf, Step(aead, kdf, t, CreateEvent(req, rsp)), own)
  {
    hide Encode, Decode;
    var t' := Step(aead, kdf, t, CreateEvent(req, rsp));
    if (if own.Request? then req else rsp && (req ==> NextSecret(kdf, t.s.appRequest).1)) {
      assert t'.s.Backup(own) == t.s.App(own) && t'.s.App(own) == NextSecret(kdf, t.s.App(own)).0;
      assert t'.tags.At(Slot(true, own)).mark == |t.uses|;
    } else {
      assert StateAt(t', Slot(true, own)) == StateAt(t, Slot(true, own)) && t'.s.Backup(own) == t.s.Backup(own);
    }
  }

  lemma TracedStep(aead: Aead, kdf: Kdf, t: Run, own: Direction, ev: Event)
    requires Traced(kdf, t, own) && OwnTraffic(own, ev)
    ensures Traced(kdf, Step(aead, kdf, t, ev), own)
  {
    hide Encode, Decode, CreateUpdate, NextSecret;
    match ev
    case EncodeEvent(dir, app) => TracedEncode(aead, kdf, t, own, app);
    case DecodeEvent(dir, buf) => TracedDecode(aead, kdf, t, own, dir, buf);
    case CreateEvent(req, rsp) => TracedCreate(aead, kdf, t, own, req, rsp);
    case TeardownEvent => TracedRestart(kdf, t, SetDefault(t.s), own);
    case SetupEvent(id) => TracedRestart(kdf, t, SetId(SetDefault(t.s), id), own);
    case _ =>
  }

  lemma {:induction false} TracedRun(aead: Aead, kdf: Kdf, t: Run, own: Direction, evs: seq<Event>)
    requires Traced(kdf, t, own) && forall ev :: ev in evs ==> OwnTraffic(own, ev)
    ensures Traced(kdf, RunAll(aead, kdf, t, evs), own)
    decreases |evs|
  {
    hide Traced, Step;
    if evs != [] {
      TracedStep(aead, kdf, t, own, evs[0]);
      TracedRun(aead, kdf, Step(aead, kdf, t, evs[0]), own, evs[1..]);
    }
  }

  function Encodes(own: Direction, n: nat): seq<Event> {
    if n == 0 then [] else [EncodeEvent(own, [])] + Encodes(own, n - 1)
  }

  /** n + 1 encodes from a live application key use its counter n ahead. */
  lemma {:induction false} EncodesReach(aead: Aead, kdf: Kdf, t: Run, own: Direction, n: nat)
    requires t.s.phase.Established? && aead.Seals(t.s.App(own).param.key)
    requires t.s.App(own).param.seqNum + n < MAX_SEQUENCE_NUMBER
    ensures
      var p, t' := t.s.App(own).param, RunAll(aead, kdf, t, Encodes(own, n + 1));
      && |t'.uses| > |t.uses| && var u := t'.uses[|t'.uses| - 1];
      u.slot == Slot(true, own) && u.param == p.(seqNum := p.seqNum + n)
    decreases n
  {
    var evs := Encodes(own, n + 1);
    assert evs[0] == EncodeEvent(own, []) && evs[1..] == Encodes(own, n);
    var t1 := Step(aead, kdf, t, evs[0]);
    EncodeOnce(aead, kdf, t, own);
    hide Step;
    if n > 0 {
      EncodesReach(aead, kdf, t1, own, n - 1);
    }
  }

  lemma EncodeOnce(aead: Aead, kdf: Kdf, t: Run, own: Direction)
    requires t.s.phase.Established? && aead.Seals(t.s.App(own).param.key)
    requires t.s.App(own).param.seqNum < MAX_SEQUENCE_NUMBER
    ensures
      var p, t1 := t.s.App(own).param, Step(aead, kdf, t, EncodeEvent(own, []));
      && t1.s.phase.Established? && t1.s.App(own).param == Advance(p)
      && |t1.uses| == |t.uses| + 1 && t1.uses[|t.uses|].slot == Slot(true, own) && t1.uses[|t.uses|].param == p
  {
    assert SealMsg(aead, t.s.id, t.s.seqCount, t.s.App(own).param, []).Ok?;
    hide SealMsg;
  }

  lemma CreateReplaces(aead: Aead, kdf: Kdf, t: Run, own: Direction)
    ensures
      var t1 := Step(aead, kdf, t, CreateEvent(own.Request?, own.Response?));
      t1.s.phase == t.s.phase && t1.s.App(own) == NextSecret(kdf, t.s.App(own)).0 && t1.uses == t.uses
  {
  }

  lemma ReachedAgain(aead: Aead, kdf: Kdf, t: Run, own: Direction, p: SecretParam) returns (more: seq<Event>)
    requires t.s.phase.Established? && Reachable(kdf, t.s.App(own), p) && p.seqNum < MAX_SEQUENCE_NUMBER
    requires forall k :: aead.Seals(k)
    ensures forall ev :: ev in more ==> ev == CreateEvent(own.Request?, own.Response?) || ev == EncodeEvent(own, [])
    ensures
      var t' := RunAll(aead, kdf, t, more);
      && |t'.uses| > |t.uses| && var u := t'.uses[|t'.uses| - 1];
      u.slot == Slot(true, own) && u.param == p
  {
    hide Step, NextSecret, Aead.Seals;
    var d := t.s.App(own);
    if Onward(d.param, p) {
      var n := p.seqNum - d.param.seqNum;
      EncodesReach(aead, kdf, t, own, n);
      more := Encodes(own, n + 1);
      EncodesOnly(own, n + 1);
    } else {
      var create := CreateEvent(own.Request?, own.Response?);
      var t1 := Step(aead, kdf, t, create);
      CreateReplaces(aead, kdf, t, own);
      var n := p.seqNum - t1.s.App(own).param.seqNum;
      EncodesReach(aead, kdf, t1, own, n);
      more := [create] + Encodes(own, n + 1);
      EncodesOnly(own, n + 1);
      assert more[1..] == Encodes(own, n + 1);
    }
  }

  /** The rollback puts the backup back in place. */
  lemma RollbackPutsBack(aead: Aead, kdf: Kdf, t: Run, own: Direction, req: bool, rsp: bool)
    requires t.s.BackupValid(own) && (if own.Request? then req else rsp)
    ensures
      var t1 := Step(aead, kdf, t, RollbackEvent(req, rsp));
      var t2 := Step(aead, kdf, t1, PhaseEvent(Established));
      t2.s.phase.Established? && t2.s.App(own) == t.s.Backup(own) && t2.uses == t.uses
  {
  }

  /** Any other rollback is unsafe: if an endpoint has used its own direction since the
      backup was taken, under a key of the backup's origin, then after a rollback some
      continuation of at most one update and some encodes repeats the key, the salt
      and the counter of that use. */
  lemma UnsafeRollbackRepeats(aead: Aead, kdf: Kdf, t0: Run, own: Direction, evs: seq<Event>, req: bool, rsp: bool, i: nat)
    returns (more: seq<Event>)
    requires Beginning(t0) && !t0.s.BackupValid(own)
    requires (forall ev :: ev in evs ==> OwnTraffic(own, ev)) && forall k :: aead.Seals(k)
    requires
      var t, slot := RunAll(aead, kdf, t0, evs), Slot(true, own);
      var a := StateAt(t, slot);
      && (if own.Request? then req else rsp) && a.hasBackup
      && a.mark <= i < |t.uses| && t.uses[i].slot == slot && t.uses[i].epoch.base == a.backup.base
    ensures forall ev :: ev in more ==>
              ev == PhaseEvent(Established) || ev == CreateEvent(own.Request?, own.Response?) || ev == EncodeEvent(own, [])
    ensures
      var t := RunAll(aead, kdf, t0, evs);
      var t' := RunAll(aead, kdf, Step(aead, kdf, t, RollbackEvent(req, rsp)), more);
      && |t'.uses| > |t.uses| && var u := t'.uses[|t'.uses| - 1];
      u.slot == Slot(true, own) && u.param == t.uses[i].param
  {
    hide Step, Reachable, Aead.Seals;
    TracedRun(aead, kdf, t0, own, evs);
    var t := RunAll(aead, kdf, t0, evs);
    RollbackPutsBack(aead, kdf, t, own, req, rsp);
    var t1 := Step(aead, kdf, t, RollbackEvent(req, rsp));
    var again := ReachedAgain(aead, kdf, Step(aead, kdf, t1, PhaseEvent(Established)), own, t.uses[i].param);
    more := [PhaseEvent(Established)] + again;
    assert more[1..] == again;
  }

  lemma {:induction false} EncodesOnly(own: Direction, n: nat)
    ensures forall ev :: ev in Encodes(own, n) ==> ev == EncodeEvent(own, [])
  {
    if n > 0 {
      EncodesOnly(own, n - 1);
    }
  }
}
