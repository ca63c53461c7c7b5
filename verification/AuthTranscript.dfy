/** The authentication transcript M1/M2 and the measurement transcripts L1/L2, raw
    and incremental side by side, over runs of appends and of the resets that
    request codes cause. */
module AuthTranscript {
  import opened Bytes
  import opened Limits
  import opened Status
  import opened TranscriptModel

  const MAX_CERT_CHAIN_DATA_SIZE: nat := 4096
  const MAX_MEASUREMENT_RECORD_SIZE: nat := 4000
  const NONCE_SIZE: nat := 32
  const MAX_B_SIZE: nat := 24 + MAX_HASH_SIZE * MAX_SLOT_NUMBER + MAX_CERT_CHAIN_DATA_SIZE
  const MAX_C_SIZE: nat := 78 + MAX_HASH_SIZE * 2 + MAX_ASYM_SIG_SIZE + MAX_OPAQUE_SIZE
  const MAX_M_SIZE: nat := 47 + NONCE_SIZE + MAX_MEASUREMENT_RECORD_SIZE + MAX_ASYM_SIG_SIZE + MAX_OPAQUE_SIZE

  /** Measurement transcripts are kept per session id, and under None for requests
      outside any session. */
  type Key = Option<u32>

  /** The request codes that `reset_buffer_via_request_code` tells apart. */
  datatype Code = GetMeasurements | SessionCode | GetDigests | OtherCode

  datatype Event =
    | AppendB(message: bytes)
    | AppendC(message: bytes)
    | AppendM(key: Key, message: bytes)
    | Request(code: Code, key: Key)
    | ChallengeDone

  datatype Raw = Raw(b: bytes, c: bytes, m: map<Key, bytes>)

  datatype Inc = Inc(m1m2: Option<bytes>, l1l2: map<Key, Option<bytes>>)

  /** What stays fixed in a run: message A, whether the version is at least 1.2,
      whether the connection is authenticated, and the hash. */
  datatype Fixed = Fixed(messageA: bytes, atLeast12: bool, authenticated: bool, hash: Hash) {
    function Prefix(): bytes {
      if atLeast12 then messageA else []
    }
  }

  predicate ClearsBC(x: Fixed, code: Code) {
    (code.GetMeasurements? || code.SessionCode?) && !x.authenticated
  }

  function RawStep(x: Fixed, s: Raw, ev: Event): Result<Raw> {
    match ev
    case AppendB(message) => if |s.b| + |message| <= MAX_B_SIZE then Ok(Raw(s.b + message, s.c, s.m)) else Err(BufferFull)
    case AppendC(message) => if |s.c| + |message| <= MAX_C_SIZE then Ok(Raw(s.b, s.c + message, s.m)) else Err(BufferFull)
    case AppendM(key, message) =>
      if key !in s.m then Err(InvalidStateLocal)
      else if |s.m[key]| + |message| <= MAX_M_SIZE then Ok(Raw(s.b, s.c, s.m[key := s.m[key] + message]))
      else Err(BufferFull)
    case Request(code, key) =>
      Ok(Raw(if ClearsBC(x, code) || code.GetDigests? then [] else s.b,
             if ClearsBC(x, code) then [] else s.c,
             if code.GetMeasurements? || key !in s.m then s.m else s.m[key := []]))
    case ChallengeDone => Ok(Raw([], [], s.m))
  }

  /** Feeds a context, creating it with `prefix` if it does not exist. */
  function Feed(context: Option<bytes>, prefix: bytes, message: bytes): Option<bytes> {
    match context
    case None => Some(prefix + message)
    case Some(fed) => Some(fed + message)
  }

  function IncStep(x: Fixed, s: Inc, ev: Event): Result<Inc> {
    match ev
    case AppendB(message) =>
      if s.m1m2.None? && x.hash.Unsupported? then Err(InvalidStateLocal)
      else Ok(Inc(Feed(s.m1m2, x.messageA, message), s.l1l2))
    case AppendC(message) =>
      if s.m1m2.None? && x.hash.Unsupported? then Err(CryptoError)
      else Ok(Inc(Feed(s.m1m2, x.messageA, message), s.l1l2))
    case AppendM(key, message) =>
      if key !in s.l1l2 then Err(InvalidStateLocal)
      else if s.l1l2[key].None? && x.hash.Unsupported? then Err(CryptoError)
      else Ok(Inc(s.m1m2, s.l1l2[key := Feed(s.l1l2[key], x.Prefix(), message)]))
    case Request(code, key) =>
      Ok(Inc(if ClearsBC(x, code) || code.GetDigests? then None else s.m1m2,
             if code.GetMeasurements? || key !in s.l1l2 then s.l1l2 else s.l1l2[key := None]))
    case ChallengeDone => Ok(Inc(None, s.l1l2))
  }

  /** What each form refuses, and how. A raw append fails for want of room, or for a
      measurement message of no known session. The other form needs a known hash where
      there is no context yet. Resets never fail. */
  lemma Refusals(x: Fixed, r: Raw, i: Inc, ev: Event)
    ensures
      RawStep(x, r, ev).Err? ==>
        RawStep(x, r, ev).status == if ev.AppendM? && ev.key !in r.m then InvalidStateLocal else BufferFull
    ensures
      RawStep(x, r, ev).Err? <==>
        || (ev.AppendB? && |r.b| + |ev.message| > MAX_B_SIZE)
        || (ev.AppendC? && |r.c| + |ev.message| > MAX_C_SIZE)
        || (ev.AppendM? && (ev.key !in r.m || |r.m[ev.key]| + |ev.message| > MAX_M_SIZE))
    ensures
      IncStep(x, i, ev).Err? ==>
        IncStep(x, i, ev).status
        == if ev.AppendB? || (ev.AppendM? && ev.key !in i.l1l2) then InvalidStateLocal else CryptoError
    ensures
      IncStep(x, i, ev).Err? <==>
        || ((ev.AppendB? || ev.AppendC?) && i.m1m2.None? && x.hash.Unsupported?)
        || (ev.AppendM? && (ev.key !in i.l1l2 || (i.l1l2[ev.key].None? && x.hash.Unsupported?)))
  {
  }

  /** The context holds A, then B, then C; without a context there is neither. */
  ghost predicate CoupledM1M2(x: Fixed, r: Raw, i: Inc) {
    match i.m1m2
    case None => r.b == [] && r.c == []
    case Some(fed) => fed == x.messageA + r.b + r.c
  }

  ghost predicate CoupledL1L2(x: Fixed, r: Raw, i: Inc) {
    && r.m.Keys == i.l1l2.Keys
    && forall k :: k in r.m ==>
         match i.l1l2[k] {
           case None => r.m[k] == []
           case Some(fed) => fed == x.Prefix() + r.m[k]
         }
  }

  /** The steps after which M1/M2 still agree: B only while C is empty or the two
      commute, and no GET_DIGESTS once C has content. */
  ghost predicate Harmless(r: Raw, ev: Event) {
    match ev
    case AppendB(message) => r.c + message == message + r.c
    case Request(GetDigests, _) => r.c == []
    case _ => true
  }

  /** One step, all events: if the raw form takes it so does the incremental form,
      measurement transcripts always stay in agreement, and M1/M2 stays in
      agreement exactly when the step is harmless. */
  lemma StepAgrees(x: Fixed, r: Raw, i: Inc, ev: Event)
    requires x.hash.Supported? && CoupledM1M2(x, r, i) && CoupledL1L2(x, r, i)
    requires RawStep(x, r, ev).Ok?
    ensures
      var r', i' := RawStep(x, r, ev).value, IncStep(x, i, ev);
      && i'.Ok?
      && CoupledL1L2(x, r', i'.value)
      && (CoupledM1M2(x, r', i'.value) <==> Harmless(r, ev))
  {
    match ev
    case AppendB(message) => AppendBAgrees(x.messageA, r.b, r.c, message);
    case AppendC(message) =>
      assert (x.messageA + r.b + r.c) + message == x.messageA + r.b + (r.c + message);
      assert x.messageA + message == x.messageA + [] + ([] + message);
    case AppendM(key, message) =>
      assert (x.Prefix() + r.m[key]) + message == x.Prefix() + (r.m[key] + message);
      assert x.Prefix() + message == x.Prefix() + ([] + message);
    case _ =>
  }

  /** Appending B late is visible exactly when it does not commute with C. */
  lemma AppendBAgrees(a: bytes, b: bytes, c: bytes, message: bytes)
    ensures (a + b + c) + message == a + (b + message) + c <==> c + message == message + c
    ensures a + message == a + ([] + message) + []
  {
    var n := |a + b|;
    var left, right := (a + b + c) + message, a + (b + message) + c;
    assert left == (a + b) + (c + message);
    assert right == (a + b) + (message + c);
    assert left[n..] == c + message;
    assert right[n..] == message + c;
  }

  /** A step on one key leaves every other session's context alone. */
  lemma OthersUnchanged(x: Fixed, i: Inc, ev: Event, k: Key)
    requires IncStep(x, i, ev).Ok?
    requires (ev.AppendM? || ev.Request?) ==> k != ev.key
    ensures var i' := IncStep(x, i, ev).value; i'.l1l2.Keys == i.l1l2.Keys && (k in i.l1l2 ==> i'.l1l2[k] == i.l1l2[k])
  {
  }

  function RawRun(x: Fixed, s: Raw, evs: seq<Event>): Result<Raw>
    decreases |evs|
  {
    if evs == [] then Ok(s) else
    match RawStep(x, s, evs[0])
    case Err(e) => Err(e)
    case Ok(s') => RawRun(x, s', evs[1..])
  }

  function IncRun(x: Fixed, s: Inc, evs: seq<Event>): Result<Inc>
    decreases |evs|
  {
    if evs == [] then Ok(s) else
    match IncStep(x, s, evs[0])
    case Err(e) => Err(e)
    case Ok(s') => IncRun(x, s', evs[1..])
  }

  /** B before C throughout the run. */
  ghost predicate HarmlessRun(x: Fixed, r: Raw, evs: seq<Event>)
    decreases |evs|
  {
    evs != [] ==>
      Harmless(r, evs[0]) && (RawStep(x, r, evs[0]).Ok? ==> HarmlessRun(x, RawStep(x, r, evs[0]).value, evs[1..]))
  }

  /** For every run the raw form accepts, the incremental form accepts it too and
      holds A followed by B and C, and for each session A followed by M from
      version 1.2 on and M alone before. */
  lemma {:induction false} RunAgrees(x: Fixed, r: Raw, i: Inc, evs: seq<Event>)
    requires x.hash.Supported? && CoupledM1M2(x, r, i) && CoupledL1L2(x, r, i)
    requires RawRun(x, r, evs).Ok? && HarmlessRun(x, r, evs)
    ensures
      && IncRun(x, i, evs).Ok?
      && CoupledM1M2(x, RawRun(x, r, evs).value, IncRun(x, i, evs).value)
      && CoupledL1L2(x, RawRun(x, r, evs).value, IncRun(x, i, evs).value)
    decreases |evs|
  {
    if evs != [] {
      StepAgrees(x, r, i, evs[0]);
      RunAgrees(x, RawStep(x, r, evs[0]).value, IncStep(x, i, evs[0]).value, evs[1..]);
    }
  }

  /** What a run has put into B since it was last cleared: by the end of a challenge, by
      GET_DIGESTS, or by a measurement or session request on a connection that is not
      authenticated. */
  function SinceB(x: Fixed, evs: seq<Event>): bytes {
    if evs == [] then [] else
    var before := SinceB(x, evs[..|evs| - 1]);
    match evs[|evs| - 1]
    case AppendB(message) => before + message
    case ChallengeDone => []
    case Request(GetDigests, _) => []
    case Request(GetMeasurements, _) => if x.authenticated then before else []
    case Request(SessionCode, _) => if x.authenticated then before else []
    case _ => before
  }

  /** The same of C, which GET_DIGESTS does not clear. */
  function SinceC(x: Fixed, evs: seq<Event>): bytes {
    if evs == [] then [] else
    var before := SinceC(x, evs[..|evs| - 1]);
    match evs[|evs| - 1]
    case AppendC(message) => before + message
    case ChallengeDone => []
    case Request(GetMeasurements, _) => if x.authenticated then before else []
    case Request(SessionCode, _) => if x.authenticated then before else []
    case _ => before
  }

  /** The measurement messages of a session since its last reset, by any request but
      GET_MEASUREMENTS; None if there were none. */
  function SinceM(evs: seq<Event>, k: Key): Option<bytes> {
    if evs == [] then None else
    var before := SinceM(evs[..|evs| - 1], k);
    match evs[|evs| - 1]
    case AppendM(key, message) =>
      if key != k then before else if before.None? then Some(message) else Some(before.value + message)
    case Request(code, key) => if key != k || code.GetMeasurements? then before else None
    case _ => before
  }

  lemma {:induction false} RawSnoc(x: Fixed, s: Raw, evs: seq<Event>, ev: Event)
    ensures RawRun(x, s, evs + [ev])
            == match RawRun(x, s, evs) { case Err(e) => Err(e) case Ok(s') => RawStep(x, s', ev) }
    decreases |evs|
  {
    hide RawStep;
    if evs == [] {
      assert ([] + [ev])[1..] == [];
    } else {
      assert (evs + [ev])[1..] == evs[1..] + [ev];
      if RawStep(x, s, evs[0]).Ok? {
        RawSnoc(x, RawStep(x, s, evs[0]).value, evs[1..], ev);
      }
    }
  }

  lemma {:induction false} IncSnoc(x: Fixed, s: Inc, evs: seq<Event>, ev: Event)
    ensures IncRun(x, s, evs + [ev])
            == match IncRun(x, s, evs) { case Err(e) => Err(e) case Ok(s') => IncStep(x, s', ev) }
    decreases |evs|
  {
    hide IncStep;
    if evs == [] {
      assert ([] + [ev])[1..] == [];
    } else {
      assert (evs + [ev])[1..] == evs[1..] + [ev];
      if IncStep(x, s, evs[0]).Ok? {
        IncSnoc(x, IncStep(x, s, evs[0]).value, evs[1..], ev);
      }
    }
  }

  function NoMessages(keys: set<Key>): Raw {
    Raw([], [], map k | k in keys :: [])
  }

  /** After every run from empty buffers the raw form holds of B and C what came in since
      each was last cleared. */
  lemma {:induction false} RawRunHolds(x: Fixed, keys: set<Key>, evs: seq<Event>)
    requires RawRun(x, NoMessages(keys), evs).Ok?
    ensures var r := RawRun(x, NoMessages(keys), evs).value; r.b == SinceB(x, evs) && r.c == SinceC(x, evs)
    decreases |evs|
  {
    if evs != [] {
      var prev, last := evs[..|evs| - 1], evs[|evs| - 1];
      assert evs == prev + [last];
      RawSnoc(x, NoMessages(keys), prev, last);
      RawRunHolds(x, keys, prev);
    }
  }

  /** And of each session's M. */
  lemma {:induction false} RawRunMeasured(x: Fixed, keys: set<Key>, evs: seq<Event>, k: Key)
    requires k in keys && RawRun(x, NoMessages(keys), evs).Ok?
    ensures
      var r, m := RawRun(x, NoMessages(keys), evs).value, SinceM(evs, k);
      r.m.Keys == keys && r.m[k] == if m.Some? then m.value else []
    decreases |evs|
  {
    if evs != [] {
      var prev, last := evs[..|evs| - 1], evs[|evs| - 1];
      assert evs == prev + [last];
      RawSnoc(x, NoMessages(keys), prev, last);
      RawRunMeasured(x, keys, prev, k);
      assert last.AppendM? ==> [] + last.message == last.message;
    }
  }

  /** A context and the messages it stands for. */
  ghost predicate Holds(x: Fixed, context: Option<bytes>, m: Option<bytes>) {
    && (context.Some? <==> m.Some?)
    && (context.Some? && x.atLeast12 ==> context.value == x.messageA + m.value)
    && (context.Some? && !x.atLeast12 ==> context.value == m.value)
  }

  lemma FeedHolds(x: Fixed, context: Option<bytes>, m: Option<bytes>, message: bytes)
    requires Holds(x, context, m)
    ensures Holds(x, Feed(context, x.Prefix(), message), Some(if m.None? then message else m.value + message))
  {
    assert [] + message == message;
    if m.Some? {
      assert x.messageA + m.value + message == x.messageA + (m.value + message);
    }
  }

  function NoContexts(keys: set<Key>): Inc {
    Inc(None, map k | k in keys :: None)
  }

  lemma {:induction false} ContextsHoldAt(x: Fixed, keys: set<Key>, evs: seq<Event>, k: Key)
    requires k in keys && IncRun(x, NoContexts(keys), evs).Ok?
    ensures
      var i := IncRun(x, NoContexts(keys), evs).value;
      i.l1l2.Keys == keys && Holds(x, i.l1l2[k], SinceM(evs, k))
    decreases |evs|
  {
    hide Holds, Feed;
    if evs == [] {
      NothingHolds(x);
    } else {
      var prev, last := evs[..|evs| - 1], evs[|evs| - 1];
      assert evs == prev + [last];
      IncSnoc(x, NoContexts(keys), prev, last);
      ContextsHoldAt(x, keys, prev, k);
      NothingHolds(x);
      if last.AppendM? && last.key == k {
        FeedHolds(x, IncRun(x, NoContexts(keys), prev).value.l1l2[k], SinceM(prev, k), last.message);
      }
    }
  }

  lemma NothingHolds(x: Fixed)
    ensures Holds(x, None, None)
  {
  }

  /** After every run from no contexts, the context of a session exists exactly if a
      measurement message came in since its last reset, and it holds A followed by these
      messages from version 1.2 on, and only the messages before. */
  lemma ContextsHold(x: Fixed, keys: set<Key>, evs: seq<Event>, k: Key)
    requires k in keys && IncRun(x, NoContexts(keys), evs).Ok?
    ensures
      var i := IncRun(x, NoContexts(keys), evs).value;
      && i.l1l2.Keys == keys && (i.l1l2[k].Some? <==> SinceM(evs, k).Some?)
      && (i.l1l2[k].Some? && x.atLeast12 ==> i.l1l2[k].value == x.messageA + SinceM(evs, k).value)
      && (i.l1l2[k].Some? && !x.atLeast12 ==> i.l1l2[k].value == SinceM(evs, k).value)
  {
    hide IncRun, SinceM;
    ContextsHoldAt(x, keys, evs, k);
  }
}
