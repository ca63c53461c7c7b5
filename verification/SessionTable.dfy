/** The fixed table of sessions: half-session-id allocation, lookup by id, setup
    and teardown. A slot is free when its session id is 0. */
module SessionTable {
  import opened Bytes
  import opened Status

  const INITIAL_SESSION_ID: u16 := 0xFFFD
  const FREE: u32 := 0

  /** This end's half of a session id: the low half at a requester, the high half
      at a responder. */
  function OwnHalf(id: u32, isRequester: bool): u16 {
    if isRequester then id % 0x1_0000 else id / 0x1_0000
  }

  function SessionId(own: u16, peer: u16, isRequester: bool): u32 {
    if isRequester then peer * 0x1_0000 + own else own * 0x1_0000 + peer
  }

  /** The first slot that holds an id. */
  function Find(t: seq<u32>, id: u32): Option<nat> {
    FindFrom(t, id, 0)
  }

  function FindFrom(t: seq<u32>, id: u32, i: nat): (r: Option<nat>)
    requires i <= |t|
    ensures r.Some? ==> i <= r.value < |t| && t[r.value] == id && forall j :: i <= j < r.value ==> t[j] != id
    ensures r.None? ==> forall j :: i <= j < |t| ==> t[j] != id
    decreases |t| - i
  {
    if i == |t| then None else if t[i] == id then Some(i) else FindFrom(t, id, i + 1)
  }

  /** An occupied slot i holds own half 0xFFFD - i. */
  ghost predicate Inv(t: seq<u32>, isRequester: bool) {
    && |t| < INITIAL_SESSION_ID
    && forall i :: 0 <= i < |t| && t[i] != FREE ==> OwnHalf(t[i], isRequester) == INITIAL_SESSION_ID - i
  }

  /** The half id allocated is that of the first slot whose own half is 0. */
  function NextHalf(t: seq<u32>, isRequester: bool): Result<u16>
    requires |t| < INITIAL_SESSION_ID
  {
    NextHalfFrom(t, isRequester, 0)
  }

  function NextHalfFrom(t: seq<u32>, isRequester: bool, i: nat): Result<u16>
    requires i <= |t| < INITIAL_SESSION_ID
    decreases |t| - i
  {
    if i == |t| then Err(SessionNumberExceed)
    else if OwnHalf(t[i], isRequester) == 0 then Ok(INITIAL_SESSION_ID - i)
    else NextHalfFrom(t, isRequester, i + 1)
  }

  /** In a reachable table both searches stop at the same slot, so allocation fails
      exactly when every slot is live. */
  lemma {:induction false} AllocationMatchesSlot(t: seq<u32>, isRequester: bool, i: nat)
    requires Inv(t, isRequester) && i <= |t|
    ensures NextHalfFrom(t, isRequester, i)
            == match FindFrom(t, FREE, i) {
                 case None => Err(SessionNumberExceed)
                 case Some(j) => Ok(INITIAL_SESSION_ID - j)
               }
    decreases |t| - i
  {
    if i < |t| {
      assert t[i] == FREE <==> OwnHalf(t[i], isRequester) == 0;
      if t[i] != FREE {
        AllocationMatchesSlot(t, isRequester, i + 1);
      }
    }
  }

  /** Live ids are distinct and lookup finds their one slot. */
  lemma LookupFindsLive(t: seq<u32>, isRequester: bool, i: nat)
    requires Inv(t, isRequester) && i < |t| && t[i] != FREE
    ensures Find(t, t[i]) == Some(i)
    ensures forall j :: 0 <= j < |t| && t[j] == t[i] ==> j == i
  {
    forall j | 0 <= j < |t| && t[j] == t[i] ensures j == i {
      assert OwnHalf(t[j], isRequester) == INITIAL_SESSION_ID - j;
    }
  }

  lemma HalvesOfSessionId(own: u16, peer: u16, isRequester: bool)
    ensures OwnHalf(SessionId(own, peer, isRequester), isRequester) == own
    ensures own != 0 ==> SessionId(own, peer, isRequester) != FREE
  {
  }

  /** The low half of an id is the requester's and the high half the responder's, whichever
      end puts it together. */
  lemma HalvesBelong(a: u16, b: u16)
    ensures
      var id := SessionId(a, b, true);
      id == SessionId(b, a, false) && id % 0x1_0000 == a && id / 0x1_0000 == b
  {
  }

  /** What can happen to the table; an open is the whole exchange, from allocating
      the half id to setting up the first free slot. */
  datatype Event = Open(peer: u16) | Teardown(slot: nat) | ResetContext

  function Step(t: seq<u32>, isRequester: bool, ev: Event): (t': seq<u32>)
    requires |t| < INITIAL_SESSION_ID
    ensures |t'| == |t|
  {
    match ev
    case Open(peer) =>
      (match (NextHalf(t, isRequester), Find(t, FREE))
       case (Ok(own), Some(slot)) => t[slot := SessionId(own, peer, isRequester)]
       case _ => t)
    case Teardown(slot) => if slot < |t| then t[slot := FREE] else t
    case ResetContext => seq(|t|, _ => FREE)
  }

  function Run(t: seq<u32>, isRequester: bool, evs: seq<Event>): (t': seq<u32>)
    requires |t| < INITIAL_SESSION_ID
    ensures |t'| == |t|
    decreases |evs|
  {
    if evs == [] then t else Run(Step(t, isRequester, evs[0]), isRequester, evs[1..])
  }

  /** Setting up the first free slot under half id `own` keeps the table in order
      exactly when `own` was allocated for that slot. */
  lemma SetupKeepsIff(t: seq<u32>, isRequester: bool, own: u16, peer: u16)
    requires Inv(t, isRequester) && own != 0 && Find(t, FREE).Some?
    ensures Inv(t[Find(t, FREE).value := SessionId(own, peer, isRequester)], isRequester)
            <==> own == INITIAL_SESSION_ID - Find(t, FREE).value
  {
    var i := Find(t, FREE).value;
    var t' := t[i := SessionId(own, peer, isRequester)];
    HalvesOfSessionId(own, peer, isRequester);
    assert t'[i] != FREE;
  }

  lemma StepKeeps(t: seq<u32>, isRequester: bool, ev: Event)
    requires Inv(t, isRequester)
    ensures Inv(Step(t, isRequester, ev), isRequester)
  {
    if ev.Open? {
      AllocationMatchesSlot(t, isRequester, 0);
      var slot := Find(t, FREE);
      if slot.Some? {
        SetupKeepsIff(t, isRequester, INITIAL_SESSION_ID - slot.value, ev.peer);
      }
    }
  }

  /** Every table reached from an empty one is in order; an open succeeds, on a
      slot that is free, exactly when some slot is free, and then the new session
      is found under its id. */
  lemma {:induction false} ReachableTable(t: seq<u32>, isRequester: bool, evs: seq<Event>, peer: u16)
    requires Inv(t, isRequester)
    ensures
      var u := Run(t, isRequester, evs);
      && Inv(u, isRequester)
      && (NextHalf(u, isRequester).Ok? <==> exists i :: 0 <= i < |u| && u[i] == FREE)
      && (NextHalf(u, isRequester).Ok? ==>
            var own, u' := NextHalf(u, isRequester).value, Step(u, isRequester, Open(peer));
            var i := INITIAL_SESSION_ID - own;
            0 <= i < |u| && u[i] == FREE && Find(u', SessionId(own, peer, isRequester)) == Some(i)
            && u' == u[i := SessionId(own, peer, isRequester)])
    decreases |evs|
  {
    if evs == [] {
      AllocationMatchesSlot(t, isRequester, 0);
      if NextHalf(t, isRequester).Ok? {
        var own := NextHalf(t, isRequester).value;
        StepKeeps(t, isRequester, Open(peer));
        HalvesOfSessionId(own, peer, isRequester);
        LookupFindsLive(Step(t, isRequester, Open(peer)), isRequester, INITIAL_SESSION_ID - own);
      }
    } else {
      StepKeeps(t, isRequester, evs[0]);
      ReachableTable(Step(t, isRequester, evs[0]), isRequester, evs[1..], peer);
    }
  }

  /** When a requester and a responder open a session with each other's half ids, both
      hold one and the same id, with the requester's half below the responder's, and
      each finds its slot under it. */
  lemma EndsAgree(req: seq<u32>, rsp: seq<u32>)
    requires Inv(req, true) && Inv(rsp, false) && NextHalf(req, true).Ok? && NextHalf(rsp, false).Ok?
    ensures
      var a, b := NextHalf(req, true).value, NextHalf(rsp, false).value;
      var i, j, id := 0xFFFD - a, 0xFFFD - b, b * 0x1_0000 + a;
      && 0 <= i < |req| && req[i] == FREE && 0 <= j < |rsp| && rsp[j] == FREE
      && Step(req, true, Open(b)) == req[i := id] && Step(rsp, false, Open(a)) == rsp[j := id]
      && Find(req[i := id], id) == Some(i) && Find(rsp[j := id], id) == Some(j)
  {
    var a, b := NextHalf(req, true).value, NextHalf(rsp, false).value;
    assert Run(req, true, []) == req && Run(rsp, false, []) == rsp;
    ReachableTable(req, true, [], b);
    ReachableTable(rsp, false, [], a);
    HalvesBelong(a, b);
  }

  /** The table as an array updated in place. */
  class Table {
    const isRequester: bool
    const session: array<u32>

    ghost predicate Valid()
      reads session
    {
      Inv(session[..], isRequester)
    }

    constructor (requester: bool, maxSessionCount: nat)
      requires maxSessionCount < INITIAL_SESSION_ID
      ensures Valid() && fresh(session) && session.Length == maxSessionCount && isRequester == requester
      ensures forall i :: 0 <= i < session.Length ==> session[i] == FREE
    {
      isRequester := requester;
      session := new u32[maxSessionCount](_ => FREE);
    }

    method GetSessionViaId(id: u32) returns (slot: Option<nat>)
      ensures slot == Find(session[..], id)
    {
      for i := 0 to session.Length
        invariant Find(session[..], id) == FindFrom(session[..], id, i)
      {
        if session[i] == id {
          return Some(i);
        }
      }
      slot := None;
    }

    method GetNextHalfSessionId() returns (r: Result<u16>)
      requires session.Length < INITIAL_SESSION_ID
      ensures r == NextHalf(session[..], isRequester)
    {
      for i := 0 to session.Length
        invariant NextHalf(session[..], isRequester) == NextHalfFrom(session[..], isRequester, i)
      {
        if OwnHalf(session[i], isRequester) == 0 {
          return Ok(INITIAL_SESSION_ID - i);
        }
      }
      r := Err(SessionNumberExceed);
    }

    /** `setup`, which the source answers with a panic on an occupied slot. */
    method Setup(slot: nat, id: u32)
      requires slot < session.Length && session[slot] == FREE
      modifies session
      ensures session[..] == old(session[..])[slot := id]
    {
      session[slot] := id;
    }

    /** The exchange that opens a session; the slot handed to `Setup` is always
        free. */
    method OpenSession(peer: u16) returns (r: Result<u32>)
      requires Valid()
      modifies session
      ensures Valid() && session[..] == Step(old(session[..]), isRequester, Open(peer))
      ensures r.Ok? <==> exists i :: 0 <= i < session.Length && old(session[i]) == FREE
      ensures r.Ok? ==> r.value != FREE && r.value in session[..]
      ensures
        r.Ok? ==>
          && NextHalf(old(session[..]), isRequester).Ok?
          && var own := NextHalf(old(session[..]), isRequester).value;
          && r.value % 0x1_0000 == (if isRequester then own else peer)
          && r.value / 0x1_0000 == (if isRequester then peer else own)
          && Find(session[..], r.value) == Some(0xFFFD - own)
    {
      AllocationMatchesSlot(session[..], isRequester, 0);
      StepKeeps(session[..], isRequester, Open(peer));
      var own := GetNextHalfSessionId();
      if own.Err? {
        return Err(own.status);
      }
      var slot := GetSessionViaId(FREE);
      var id := SessionId(own.value, peer, isRequester);
      HalvesOfSessionId(own.value, peer, isRequester);
      HalvesBelong(if isRequester then own.value else peer, if isRequester then peer else own.value);
      Setup(slot.value, id);
      assert session[slot.value] == id;
      LookupFindsLive(session[..], isRequester, slot.value);
      r := Ok(id);
    }

    method TeardownSlot(slot: nat)
      requires Valid() && slot < session.Length
      modifies session
      ensures Valid() && session[..] == Step(old(session[..]), isRequester, Teardown(slot))
    {
      session[slot] := FREE;
    }

    method ResetAll()
      requires Valid()
      modifies session
      ensures Valid() && session[..] == Step(old(session[..]), isRequester, ResetContext)
    {
      for i := 0 to session.Length
        invariant forall j :: 0 <= j < i ==> session[j] == FREE
      {
        session[i] := FREE;
      }
    }
  }
}
