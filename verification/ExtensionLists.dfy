/** The searches on well-formed extensions: what they find of what is listed. */
module ExtensionLists {
  import opened Bytes
  import opened Status
  import opened Der
  import opened CertChain
  import opened CertRules

  /** An extension: its id, the content of the critical flag if it is there, and the
      content of the OCTET STRING that holds its value. */
  datatype Extension = Extension(id: bytes, critical: Option<bytes>, value: bytes) {
    function Flag(): bytes
      requires critical.Some? ==> |critical.value| < 0x1_0000
    {
      if critical.Some? then Tlv(TAG_BOOLEAN, critical.value) else []
    }

    function Tail(): bytes
      requires |value| < 0x1_0000 && (critical.Some? ==> |critical.value| < 0x1_0000)
    {
      Flag() + Tlv(TAG_OCTET_STRING, value)
    }

    /** The lengths are ones the checks know. */
    predicate Valid() {
      && |id| < 0x1_0000 && |value| < 0x1_0000 && (critical.Some? ==> |critical.value| < 0x1_0000)
      && |Tlv(TAG_OID, id) + Tail()| < 0x1_0000
    }

    function Octets(): bytes
      requires Valid()
    {
      Tlv(TAG_SEQUENCE, Tlv(TAG_OID, id) + Tail())
    }
  }

  function Join(es: seq<Extension>): bytes
    requires forall e :: e in es ==> e.Valid()
  {
    if es == [] then [] else es[0].Octets() + Join(es[1..])
  }

  /** Where the elements of an extension at i start. */
  lemma ExtensionRead(data: bytes, i: nat, e: Extension, rest: bytes) returns (idAt: nat, tailAt: nat)
    requires e.Valid() && i <= |data| && data[i..] == e.Octets() + rest
    ensures i < idAt < tailAt <= i + |e.Octets()| <= |data| && data[i + |e.Octets()|..] == rest
    ensures data[i..] == Tlv(TAG_SEQUENCE, Tlv(TAG_OID, e.id) + e.Tail()) + rest
    ensures idAt == i + 1 + |DerLength(|Tlv(TAG_OID, e.id) + e.Tail()|)|
    ensures data[idAt..] == Tlv(TAG_OID, e.id) + (e.Tail() + rest)
    ensures tailAt == idAt + 1 + |DerLength(|e.id|)| + |e.id| && data[tailAt..] == e.Tail() + rest
    ensures tailAt + |e.Tail()| == i + |e.Octets()|
  {
    hide CheckLength, Tlv, DerLength, Extension.Tail;
    var body := Tlv(TAG_OID, e.id) + e.Tail();
    ElementRead(data, i, TAG_SEQUENCE, body, rest);
    idAt := i + 1 + |DerLength(|body|)|;
    assert body + rest == Tlv(TAG_OID, e.id) + (e.Tail() + rest);
    ElementRead(data, idAt, TAG_OID, e.id, e.Tail() + rest);
    tailAt := idAt + 1 + |DerLength(|e.id|)| + |e.id|;
    TlvLength(TAG_SEQUENCE, body);
    TlvLength(TAG_OID, e.id);
    assert data[i + |e.Octets()|..] == data[i..][|e.Octets()|..];
  }

  lemma TlvLength(tag: byte, body: bytes)
    requires |body| < 0x1_0000
    ensures |Tlv(tag, body)| == 1 + |DerLength(|body|)| + |body| && |DerLength(|body|)| >= 1
  {
  }

  /** The flag, if there is one, and then the value. */
  lemma TailRead(data: bytes, i: nat, e: Extension, rest: bytes) returns (at: nat)
    requires e.Valid() && i <= |data| && data[i..] == e.Tail() + rest
    ensures i <= at == i + |e.Flag()| <= |data| && data[at..] == Tlv(TAG_OCTET_STRING, e.value) + rest
    ensures e.critical.Some? ==> data[i..] == Tlv(TAG_BOOLEAN, e.critical.value) + data[at..]
    ensures at + |Tlv(TAG_OCTET_STRING, e.value)| == i + |e.Tail()|
  {
    hide Tlv, Extension.Flag;
    at := i + |e.Flag()|;
    var value := Tlv(TAG_OCTET_STRING, e.value);
    assert e.Tail() + rest == e.Flag() + (value + rest);
    Suffix(data, i, e.Flag(), value + rest);
    if e.critical.Some? {
      FlagIs(e);
    }
  }

  lemma FlagIs(e: Extension)
    requires e.critical.Some? && |e.critical.value| < 0x1_0000
    ensures e.Flag() == Tlv(TAG_BOOLEAN, e.critical.value)
  {
  }

  lemma Suffix(data: bytes, i: nat, a: bytes, b: bytes)
    requires i <= |data| && data[i..] == a + b
    ensures i + |a| <= |data| && data[i + |a|..] == b
  {
    assert data[i + |a|..] == data[i..][|a|..];
  }

  /** The value of an extension that lists OIDs. */
  predicate Lists(value: bytes, oids: seq<bytes>) {
    && (forall o :: o in oids ==> |o| < 0x1_0000)
    && |Oids(oids)| < 0x1_0000 && value == Tlv(TAG_SEQUENCE, Oids(oids))
  }

  lemma ListFound(data: bytes, oid: bytes, i: nat, value: bytes, oids: seq<bytes>)
    requires |value| < 0x1_0000 && Lists(value, oids) && i <= |data| && data[i..] == Tlv(TAG_OCTET_STRING, value)
    ensures FindOidFrom(data, oid, i) == Ok(oid in oids)
  {
    hide FindOidFrom, Tlv, DerLength;
    assert data[i..] == Tlv(TAG_OCTET_STRING, value) + [];
    FindStep(data, oid, i, TAG_OCTET_STRING, value, []);
    var j := i + 1 + |DerLength(|value|)|;
    FindStep(data, oid, j, TAG_SEQUENCE, Oids(oids), []);
    var k := j + 1 + |DerLength(|Oids(oids)|)|;
    assert data[k..] == Oids(oids) + [] == Oids(oids);
    OidsFound(data, oid, k, oids);
  }

  /** In an extension that lists OIDs the search finds one exactly if it is the
      extension's id or is listed. */
  lemma FindOidIff(e: Extension, oids: seq<bytes>, oid: bytes)
    requires e.Valid() && Lists(e.value, oids)
    ensures FindOid(e.Octets(), oid) == Ok(oid == e.id || oid in oids)
  {
    hide FindOidFrom, Tlv, DerLength, Extension.Tail, Extension.Flag, Lists;
    var data := e.Octets();
    assert data[0..] == e.Octets() + [];
    var idAt, tailAt := ExtensionRead(data, 0, e, []);
    FindStep(data, oid, 0, TAG_SEQUENCE, Tlv(TAG_OID, e.id) + e.Tail(), []);
    FindStep(data, oid, idAt, TAG_OID, e.id, e.Tail() + []);
    var at := TailRead(data, tailAt, e, []);
    assert Tlv(TAG_OCTET_STRING, e.value) + [] == Tlv(TAG_OCTET_STRING, e.value);
    if e.critical.Some? {
      FindStep(data, oid, tailAt, TAG_BOOLEAN, e.critical.value, data[at..]);
      FlagLength(e);
    } else {
      NoFlag(e);
    }
    ListFound(data, oid, at, e.value, oids);
  }

  lemma FlagLength(e: Extension)
    requires e.critical.Some? && |e.critical.value| < 0x1_0000
    ensures |e.Flag()| == 1 + |DerLength(|e.critical.value|)| + |e.critical.value|
  {
  }

  lemma NoFlag(e: Extension)
    requires e.critical.None?
    ensures e.Flag() == []
  {
  }

  /** The id of an extension, whatever follows it. */
  lemma ExtensionId(e: Extension, rest: bytes)
    requires e.Valid()
    ensures GetExtnId(e.Octets() + rest) == Ok((e.id, |e.Octets()|))
  {
    hide CheckLength, GetExtnId, Tlv, DerLength, Extension.Tail;
    var data, body := e.Octets() + rest, Tlv(TAG_OID, e.id) + e.Tail();
    assert data[0..] == data;
    var idAt, tailAt := ExtensionRead(data, 0, e, rest);
    ElementRead(data, 0, TAG_SEQUENCE, body, rest);
    var inner := data[idAt..];
    assert inner[0..] == inner;
    ElementRead(inner, 0, TAG_OID, e.id, e.Tail() + rest);
    TlvLength(TAG_SEQUENCE, body);
    IdIs(data, idAt, |body|, e.id);
  }

  lemma IdIs(data: bytes, start: nat, n: nat, id: bytes)
    requires 1 < start < |data| && data[0] == TAG_SEQUENCE && CheckLength(data[1..]) == Ok((n, start - 1))
    requires |id| < 0x1_0000 && data[start] == TAG_OID && CheckLength(data[start..][1..]) == Ok((|id|, |DerLength(|id|)|))
    requires data[start..][1 + |DerLength(|id|)|..1 + |DerLength(|id|)| + |id|] == id
    ensures GetExtnId(data) == Ok((id, start + n))
  {
    hide CheckLength, DerLength;
  }

  /** So outside a leaf no extended key usage extension lists an authentication OID. */
  lemma NoAuthListed(data: bytes, limit: nat, cuts: seq<nat>, k: nat, e: Extension, oids: seq<bytes>)
    requires Extensions(data, limit, 0, cuts) && !AnyAuth(data, cuts) && k + 1 < |cuts| && cuts[k] <= |data|
    requires e.Valid() && e.id == OID_EXT_KEY_USAGE && Lists(e.value, oids) && e.Octets() <= data[cuts[k]..]
    ensures OID_RESPONDER_AUTH !in oids && OID_REQUESTER_AUTH !in oids
  {
    hide GetExtnId, FindOid, Lists, Extension.Octets, Extension.Valid;
    assert ExtensionAt(data, cuts, k);
    var extension, rest := e.Octets(), data[cuts[k]..];
    assert rest == extension + rest[|extension|..];
    ExtensionId(e, rest[|extension|..]);
    assert data[cuts[k]..cuts[k + 1]] == rest[..|extension|] == extension;
    assert !CarriesAuthAt(data, cuts, k);
    FindOidIff(e, oids, OID_RESPONDER_AUTH);
    FindOidIff(e, oids, OID_REQUESTER_AUTH);
  }

  /** One step of the key usage search. */
  lemma KeyStep(data: bytes, i: nat, tag: byte, body: bytes, rest: bytes)
    requires i <= |data| && |body| < 0x1_0000 && data[i..] == Tlv(tag, body) + rest
    ensures
      var value := i + 1 + |DerLength(|body|)|;
      && value + |body| <= |data| && data[value..] == body + rest && data[value + |body|..] == rest
      && KeyUsageFrom(data, i)
         == if tag == TAG_SEQUENCE then KeyUsageFrom(data, value)
            else if tag == TAG_OID && body == OID_KEY_USAGE then KeyUsageAfterOid(data, value + |body|)
            else KeyUsageFrom(data, value + |body|)
  {
    hide CheckLength, KeyUsageFrom, KeyUsageAfterOid, Tlv;
    ElementRead(data, i, tag, body, rest);
    KeyUsageStep(data, i);
  }

  /** Any other extension is passed over. */
  lemma KeyUsagePasses(data: bytes, i: nat, e: Extension, rest: bytes)
    requires e.Valid() && i <= |data| && data[i..] == e.Octets() + rest && e.id != OID_KEY_USAGE
    ensures i + |e.Octets()| <= |data| && KeyUsageFrom(data, i) == KeyUsageFrom(data, i + |e.Octets()|)
  {
    hide KeyUsageFrom, KeyUsageAfterOid, Tlv, DerLength, Extension.Tail, Extension.Flag;
    var idAt, tailAt := ExtensionRead(data, i, e, rest);
    KeyStep(data, i, TAG_SEQUENCE, Tlv(TAG_OID, e.id) + e.Tail(), rest);
    KeyStep(data, idAt, TAG_OID, e.id, e.Tail() + rest);
    var at := TailRead(data, tailAt, e, rest);
    if e.critical.Some? {
      KeyStep(data, tailAt, TAG_BOOLEAN, e.critical.value, data[at..]);
      FlagLength(e);
    } else {
      NoFlag(e);
    }
    KeyStep(data, at, TAG_OCTET_STRING, e.value, rest);
    TlvLength(TAG_OCTET_STRING, e.value);
  }

  /** What the search makes of the value of a key usage extension: the last octet of a
      BIT STRING, its length octet if it is empty, and nothing of another element. */
  function Given(tag: byte, body: bytes): (bool, byte) {
    if tag != TAG_BIT_STRING then (false, 0)
    else if body == [] then (true, 0)
    else (true, body[|body| - 1])
  }

  /** The value starts with this element. */
  ghost predicate ValueIs(value: bytes, tag: byte, body: bytes, x: bytes) {
    |body| < 0x1_0000 && value == Tlv(tag, body) + x
  }

  lemma KeyUsageGives(data: bytes, i: nat, e: Extension, tag: byte, body: bytes, x: bytes, rest: bytes)
    requires e.Valid() && i <= |data| && data[i..] == e.Octets() + rest && e.id == OID_KEY_USAGE
    requires ValueIs(e.value, tag, body, x)
    ensures KeyUsageFrom(data, i) == Ok(Given(tag, body))
  {
    hide KeyUsageFrom, KeyUsageAfterOid, Tlv, DerLength, Extension.Tail, Extension.Flag, ValueIs, Given;
    var idAt, tailAt := ExtensionRead(data, i, e, rest);
    KeyStep(data, i, TAG_SEQUENCE, Tlv(TAG_OID, e.id) + e.Tail(), rest);
    KeyStep(data, idAt, TAG_OID, e.id, e.Tail() + rest);
    AfterOidGives(data, tailAt, e, tag, body, x, rest);
  }

  lemma AfterOidGives(data: bytes, i: nat, e: Extension, tag: byte, body: bytes, x: bytes, rest: bytes)
    requires e.Valid() && i <= |data| && data[i..] == e.Tail() + rest && ValueIs(e.value, tag, body, x)
    ensures KeyUsageAfterOid(data, i) == Ok(Given(tag, body))
  {
    hide CheckLength, KeyUsageAfterOid, Tlv, DerLength, Extension.Tail, Extension.Flag, Extension.Valid, SkipBoolean, Given;
    ValueFits(e);
    var at := TailRead(data, i, e, rest);
    ElementRead(data, at, TAG_OCTET_STRING, e.value, rest);
    BooleanSkipped(data, i, e, at);
    var k := at + 1 + |DerLength(|e.value|)|;
    assert data[k..] == Tlv(tag, body) + (x + rest);
    ElementRead(data, k, tag, body, x + rest);
    AfterOidIs(data, i, at, k);
    GivenIs(data, k, tag, body);
  }

  lemma GivenIs(data: bytes, k: nat, tag: byte, body: bytes)
    requires k + 1 < |data| && |body| < 0x1_0000
    requires CheckLength(data[k + 1..]) == Ok((|body|, |DerLength(|body|)|))
    requires var v := k + 1 + |DerLength(|body|)|; v + |body| <= |data| && data[v..v + |body|] == body
    ensures Given(tag, body)
            == if tag == TAG_BIT_STRING then (true, data[k + |DerLength(|body|)| + |body|]) else (false, 0)
  {
    if body != [] {
      hide CheckLength, DerLength;
      LastOctet(data, k + 1 + |DerLength(|body|)|, body);
    }
  }

  lemma AfterOidIs(data: bytes, i: nat, j: nat, k: nat)
    requires i < |data| && SkipBoolean(data, i) == Ok(j) && j + 1 < |data| && data[j] == TAG_OCTET_STRING
    requires CheckLength(data[j + 1..]).Ok? && k == j + 1 + CheckLength(data[j + 1..]).value.1
    requires k + 1 < |data| && CheckLength(data[k + 1..]).Ok?
    ensures
      var s := CheckLength(data[k + 1..]).value;
      KeyUsageAfterOid(data, i) == Ok(if data[k] == TAG_BIT_STRING then (true, data[k + s.1 + s.0]) else (false, 0))
  {
    hide CheckLength, SkipBoolean;
  }

  lemma ValueFits(e: Extension)
    requires e.Valid()
    ensures |e.value| < 0x1_0000
  {
  }

  lemma LastOctet(data: bytes, v: nat, bits: bytes)
    requires bits != [] && v + |bits| <= |data| && data[v..v + |bits|] == bits
    ensures data[v + |bits| - 1] == bits[|bits| - 1]
  {
    assert data[v..v + |bits|][|bits| - 1] == data[v + |bits| - 1];
  }

  lemma BooleanSkipped(data: bytes, i: nat, e: Extension, at: nat)
    requires e.Valid() && i <= at < |data| && at == i + |e.Flag()| && data[at] == TAG_OCTET_STRING
    requires e.critical.Some? ==> data[i..] == Tlv(TAG_BOOLEAN, e.critical.value) + data[at..]
    ensures SkipBoolean(data, i) == Ok(at)
  {
    hide CheckLength, Tlv, DerLength;
    if e.critical.Some? {
      ElementRead(data, i, TAG_BOOLEAN, e.critical.value, data[at..]);
      FlagLength(e);
    }
  }

  /** What the key usage search makes of a list: the first key usage extension decides. */
  ghost predicate UsageOf(es: seq<Extension>, usage: (bool, byte)) {
    if es == [] then usage == (false, 0)
    else if es[0].id != OID_KEY_USAGE then UsageOf(es[1..], usage)
    else exists tag, body, x :: ValueIs(es[0].value, tag, body, x) && usage == Given(tag, body)
  }

  lemma {:induction false} KeyUsageOfList(data: bytes, i: nat, es: seq<Extension>, usage: (bool, byte))
    requires (forall e :: e in es ==> e.Valid()) && i <= |data| && data[i..] == Join(es) && UsageOf(es, usage)
    ensures KeyUsageFrom(data, i) == Ok(usage)
    decreases |es|
  {
    hide KeyUsageFrom, Tlv, Extension.Octets, Extension.Valid, ValueIs, Given;
    if es == [] {
      KeyUsageEnds(data, i);
    } else {
      var e, rest := es[0], Join(es[1..]);
      if e.id != OID_KEY_USAGE {
        KeyUsagePasses(data, i, e, rest);
        assert data[i + |e.Octets()|..] == data[i..][|e.Octets()|..] == rest;
        KeyUsageOfList(data, i + |e.Octets()|, es[1..], usage);
      } else {
        var tag, body, x :| ValueIs(e.value, tag, body, x) && usage == Given(tag, body);
        KeyUsageGives(data, i, e, tag, body, x, rest);
      }
    }
  }

  /** On a list of extensions the search gives what the first key usage extension says,
      and nothing if there is none. */
  lemma KeyUsageIff(es: seq<Extension>, usage: (bool, byte))
    requires (forall e :: e in es ==> e.Valid()) && |Join(es)| < 0x1_0000 && UsageOf(es, usage)
    ensures KeyUsage(Tlv(TAG_SEQUENCE, Join(es))) == Ok(usage)
  {
    hide CheckLength, KeyUsageFrom, Tlv, DerLength, Join, UsageOf;
    var data := Tlv(TAG_SEQUENCE, Join(es));
    assert data[0..] == data == data + [];
    ElementRead(data, 0, TAG_SEQUENCE, Join(es), []);
    var i := 1 + |DerLength(|Join(es)|)|;
    assert data[i..] == Join(es) + [] == Join(es);
    KeyUsageOfList(data, i, es, usage);
  }

  /** Into an element, unless it is empty and ends the data. */
  lemma EnterAt(data: bytes, w: nat, tag: byte, body: bytes, rest: bytes) returns (j: nat)
    requires w <= |data| && |body| < 0x1_0000 && data[w..] == Tlv(tag, body) + rest
    ensures w < j && j + |body| <= |data|
    ensures Enter(data, w, tag) == if body + rest == [] then Err(VerifFail) else Ok((|body|, j))
    ensures data[j..] == body + rest && data[j..j + |body|] == body && data[j + |body|..] == rest
  {
    hide CheckLength, Tlv;
    ElementRead(data, w, tag, body, rest);
    j := w + 1 + |DerLength(|body|)|;
    assert body + rest == [] <==> j == |data|;
  }

  /** What an SPDM extension lists: OIDs, each with its parameters, in that order. */
  datatype Entry = Entry(oid: bytes, parameters: bytes) {
    predicate Valid() {
      |oid| < 0x1_0000 && |Tlv(TAG_OID, oid) + parameters| < 0x1_0000
    }

    function Octets(): bytes
      requires Valid()
    {
      Tlv(TAG_SEQUENCE, Tlv(TAG_OID, oid) + parameters)
    }
  }

  function Entries(entries: seq<Entry>): bytes
    requires forall entry :: entry in entries ==> entry.Valid()
  {
    if entries == [] then [] else entries[0].Octets() + Entries(entries[1..])
  }

  predicate ListsEntries(value: bytes, entries: seq<Entry>) {
    && entries != [] && (forall entry :: entry in entries ==> entry.Valid())
    && |Entries(entries)| < 0x1_0000 && value == Tlv(TAG_SEQUENCE, Entries(entries))
  }

  /** Only the first OID of an SPDM extension is looked at, and it must have the length
      of the one that is looked for. */
  function Decision(first: bytes, oid: bytes): Result<bool> {
    if |first| != |oid| then Err(VerifFail) else Ok(first == oid)
  }

  lemma FirstDecides(data: bytes, oid: bytes, i: nat, e: Extension, entries: seq<Entry>, rest: bytes)
    requires e.Valid() && ListsEntries(e.value, entries) && (e.critical.Some? ==> |e.critical.value| == 1) && oid != []
    requires i < |data| && data[i..] == e.Tail() + rest
    ensures SpdmExtensionHolds(data, oid, i) == Decision(entries[0].oid, oid)
  {
    hide Tlv, Enter, Extension.Tail, Extension.Flag, Extension.Valid, ListsEntries, Entries, SpdmExtensionHolds;
    var o, x, y := FirstEntry(e.value, entries);
    var named, list := Tlv(TAG_OID, o) + x, Entries(entries);
    ValueFits(e);
    var at := TailRead(data, i, e, rest);
    FlagOctets(data, i, e, rest, at);
    var a := EnterAt(data, at, TAG_OCTET_STRING, e.value, rest);
    var b := EnterAt(data, a, TAG_SEQUENCE, list, rest);
    assert data[b..] == Tlv(TAG_SEQUENCE, named) + (y + rest);
    var c := EnterAt(data, b, TAG_SEQUENCE, named, y + rest);
    assert data[c..] == Tlv(TAG_OID, o) + (x + (y + rest));
    var d := EnterAt(data, c, TAG_OID, o, x + (y + rest));
    HoldsIs(data, oid, i, at, a, b, c);
  }

  lemma HoldsIs(data: bytes, oid: bytes, i: nat, at: nat, a: nat, b: nat, c: nat)
    requires i < |data| && at == if data[i] == TAG_BOOLEAN then i + 3 else i
    requires Enter(data, at, TAG_OCTET_STRING).Ok? && Enter(data, at, TAG_OCTET_STRING).value.1 == a
    requires Enter(data, a, TAG_SEQUENCE).Ok? && Enter(data, a, TAG_SEQUENCE).value.1 == b
    requires Enter(data, b, TAG_SEQUENCE).Ok? && Enter(data, b, TAG_SEQUENCE).value.1 == c
    ensures
      var id := Enter(data, c, TAG_OID);
      SpdmExtensionHolds(data, oid, i)
      == if id.Err? then Err(id.status) else Decision(data[id.value.1..id.value.1 + id.value.0], oid)
  {
    hide Enter;
  }

  lemma FirstEntry(value: bytes, entries: seq<Entry>) returns (o: bytes, x: bytes, y: bytes)
    requires ListsEntries(value, entries)
    ensures entries != [] && o == entries[0].oid && x == entries[0].parameters && |o| < 0x1_0000
    ensures forall entry :: entry in entries ==> entry.Valid()
    ensures 0 < |Tlv(TAG_OID, o) + x| < 0x1_0000 && Entries(entries) == Tlv(TAG_SEQUENCE, Tlv(TAG_OID, o) + x) + y
    ensures 0 < |Entries(entries)| < 0x1_0000 && value == Tlv(TAG_SEQUENCE, Entries(entries)) && value != []
  {
    o, x, y := entries[0].oid, entries[0].parameters, Entries(entries[1..]);
    assert entries[0].Valid();
  }

  /** A flag of one octet is three octets long, and its tag tells it from the value. */
  lemma FlagOctets(data: bytes, i: nat, e: Extension, rest: bytes, at: nat)
    requires e.Valid() && (e.critical.Some? ==> |e.critical.value| == 1) && i < |data|
    requires i <= at == i + |e.Flag()| <= |data| && data[at..] == Tlv(TAG_OCTET_STRING, e.value) + rest
    requires e.critical.Some? ==> data[i..] == Tlv(TAG_BOOLEAN, e.critical.value) + data[at..]
    ensures at == if data[i] == TAG_BOOLEAN then i + 3 else i
  {
    hide CheckLength;
    if e.critical.Some? {
      ElementRead(data, i, TAG_BOOLEAN, e.critical.value, data[at..]);
    } else {
      ElementRead(data, at, TAG_OCTET_STRING, e.value, rest);
    }
  }

  /** Each SPDM extension lists the entries beside it, and its flag, if it has one, is
      one octet. */
  predicate Listed(es: seq<Extension>, lists: seq<seq<Entry>>) {
    && |es| == |lists| && (forall e :: e in es ==> e.Valid())
    && (forall k :: 0 <= k < |es| && es[k].id == OID_SPDM_EXTENSION ==> lists[k] != [])
    && forall k :: 0 <= k < |es| ==> ListedAt(es, lists, k)
  }

  predicate ListedAt(es: seq<Extension>, lists: seq<seq<Entry>>, k: nat)
    requires k < |es| == |lists|
  {
    && es[k].Valid()
    && (es[k].id == OID_SPDM_EXTENSION ==>
          ListsEntries(es[k].value, lists[k]) && (es[k].critical.Some? ==> |es[k].critical.value| == 1))
  }

  /** The first SPDM extension whose first OID is the target or has another length
      decides. */
  function Search(es: seq<Extension>, lists: seq<seq<Entry>>, oid: bytes): Result<bool>
    requires |es| == |lists| && forall k :: 0 <= k < |es| && es[k].id == OID_SPDM_EXTENSION ==> lists[k] != []
  {
    if es == [] then Ok(false)
    else if es[0].id != OID_SPDM_EXTENSION then Search(es[1..], lists[1..], oid)
    else
      var found :- Decision(lists[0][0].oid, oid);
      if found then Ok(true) else Search(es[1..], lists[1..], oid)
  }

  /** One extension: an SPDM extension decides as above, any other is passed over. */
  lemma ExtensionPassed(data: bytes, oid: bytes, w: nat, e: Extension, entries: seq<Entry>, rest: bytes)
    requires e.Valid() && oid != [] && w <= |data| && data[w..] == e.Octets() + rest
    requires e.id == OID_SPDM_EXTENSION ==> ListsEntries(e.value, entries) && (e.critical.Some? ==> |e.critical.value| == 1)
    ensures w + |e.Octets()| <= |data| && data[w + |e.Octets()|..] == rest
    ensures
      var r := if e.id == OID_SPDM_EXTENSION then Decision(entries[0].oid, oid) else Ok(false);
      FindInExtensionsFrom(data, oid, w)
      == if r == Ok(false) then FindInExtensionsFrom(data, oid, w + |e.Octets()|) else r
  {
    hide Tlv, DerLength, Enter, Extension.Octets, Extension.Tail, Extension.Valid;
    hide SpdmExtensionHolds, FindInExtensionsFrom, ListsEntries;
    var idAt, tailAt := ExtensionRead(data, w, e, rest);
    BodyNotEmpty(e);
    IdFits(e);
    var body := Tlv(TAG_OID, e.id) + e.Tail();
    var i := EnterAt(data, w, TAG_SEQUENCE, body, rest);
    var j := EnterAt(data, idAt, TAG_OID, e.id, e.Tail() + rest);
    if e.id == OID_SPDM_EXTENSION {
      FirstDecides(data, oid, tailAt, e, entries, rest);
    }
    FindInStep(data, oid, w, |body|, i, |e.id|, j);
  }

  lemma IdFits(e: Extension)
    requires e.Valid()
    ensures |e.id| < 0x1_0000 && |e.value| < 0x1_0000 && (e.critical.Some? ==> |e.critical.value| < 0x1_0000)
    ensures |Tlv(TAG_OID, e.id) + e.Tail()| < 0x1_0000
  {
  }

  lemma FindInStep(data: bytes, oid: bytes, w: nat, n: nat, i: nat, m: nat, j: nat)
    requires w < |data| && Enter(data, w, TAG_SEQUENCE) == Ok((n, i))
    requires Enter(data, i, TAG_OID) == Ok((m, j)) && j + m < |data|
    ensures
      var r := if data[j..j + m] == OID_SPDM_EXTENSION then SpdmExtensionHolds(data, oid, j + m) else Ok(false);
      FindInExtensionsFrom(data, oid, w) == if r == Ok(false) then FindInExtensionsFrom(data, oid, i + n) else r
  {
    hide Enter, SpdmExtensionHolds;
  }

  lemma ListsSomething(es: seq<Extension>, lists: seq<seq<Entry>>)
    requires Listed(es, lists)
    ensures |es| == |lists| && forall k :: 0 <= k < |es| && es[k].id == OID_SPDM_EXTENSION ==> lists[k] != []
    ensures forall e :: e in es ==> e.Valid()
  {
    hide ListedAt, Extension.Valid;
  }

  lemma ListedTail(es: seq<Extension>, lists: seq<seq<Entry>>)
    requires Listed(es, lists) && es != []
    ensures |es| == |lists| && ListedAt(es, lists, 0) && Listed(es[1..], lists[1..])
  {
    hide ListsEntries, Extension.Valid;
    forall k | 0 <= k < |es[1..]| ensures ListedAt(es[1..], lists[1..], k) {
      assert ListedAt(es, lists, k + 1);
    }
  }

  lemma {:induction false} FindInExtensionsIs(data: bytes, oid: bytes, w: nat, es: seq<Extension>, lists: seq<seq<Entry>>)
    requires Listed(es, lists) && (forall e :: e in es ==> e.Valid()) && oid != [] && w <= |data| && data[w..] == Join(es)
    requires forall k :: 0 <= k < |es| && es[k].id == OID_SPDM_EXTENSION ==> lists[k] != []
    ensures FindInExtensionsFrom(data, oid, w) == Search(es, lists, oid)
    decreases |es|
  {
    hide FindInExtensionsFrom, Extension.Octets, Extension.Valid, ListsEntries, Listed;
    if es == [] {
      FindInEnds(data, oid, w);
    } else {
      ListedTail(es, lists);
      ListsSomething(es[1..], lists[1..]);
      ExtensionPassed(data, oid, w, es[0], lists[0], Join(es[1..]));
      FindInExtensionsIs(data, oid, w + |es[0].Octets()|, es[1..], lists[1..]);
    }
  }

  lemma FindInEnds(data: bytes, oid: bytes, w: nat)
    requires w >= |data|
    ensures FindInExtensionsFrom(data, oid, w) == Ok(false)
  {
  }

  lemma BodyNotEmpty(e: Extension)
    requires e.Valid()
    ensures Tlv(TAG_OID, e.id) + e.Tail() != [] && e.Tail() != []
  {
  }

  /** On a list of extensions the search over extensions is `Search`. */
  lemma FindInListIs(es: seq<Extension>, lists: seq<seq<Entry>>, oid: bytes)
    requires Listed(es, lists) && (forall e :: e in es ==> e.Valid()) && |Join(es)| < 0x1_0000 && oid != []
    requires forall k :: 0 <= k < |es| && es[k].id == OID_SPDM_EXTENSION ==> lists[k] != []
    ensures FindInExtensions(Tlv(TAG_SEQUENCE, Join(es)), oid) == Search(es, lists, oid)
  {
    hide CheckLength, FindInExtensionsFrom, Tlv, DerLength, Join, Listed, Search;
    var data := Tlv(TAG_SEQUENCE, Join(es));
    assert data[0..] == data == data + [];
    ElementRead(data, 0, TAG_SEQUENCE, Join(es), []);
    assert Join(es)[0..] == Join(es);
    FindInExtensionsIs(Join(es), oid, 0, es, lists);
  }

  /** Before extension k no SPDM extension decides: their first OIDs have the target's
      length and differ from it. */
  ghost predicate Undecided(es: seq<Extension>, lists: seq<seq<Entry>>, oid: bytes, k: nat)
    requires |es| == |lists| && forall i :: 0 <= i < |es| && es[i].id == OID_SPDM_EXTENSION ==> lists[i] != []
  {
    k <= |es| && forall i :: 0 <= i < k && es[i].id == OID_SPDM_EXTENSION ==> Decision(lists[i][0].oid, oid) == Ok(false)
  }

  ghost predicate DecidesAt(es: seq<Extension>, lists: seq<seq<Entry>>, oid: bytes, k: nat, r: Result<bool>)
    requires |es| == |lists| && forall i :: 0 <= i < |es| && es[i].id == OID_SPDM_EXTENSION ==> lists[i] != []
  {
    && k < |es| && Undecided(es, lists, oid, k)
    && es[k].id == OID_SPDM_EXTENSION && Decision(lists[k][0].oid, oid) == r
  }

  /** The search has the outcome r of a decision exactly if an extension decides so. */
  lemma {:induction false} SearchIff(es: seq<Extension>, lists: seq<seq<Entry>>, oid: bytes, r: Result<bool>)
    requires |es| == |lists| && forall i :: 0 <= i < |es| && es[i].id == OID_SPDM_EXTENSION ==> lists[i] != []
    ensures r != Ok(false) ==> (Search(es, lists, oid) == r <==> exists k: nat :: DecidesAt(es, lists, oid, k, r))
    ensures Search(es, lists, oid) == Ok(false) <==> Undecided(es, lists, oid, |es|)
    decreases |es|
  {
    if es != [] {
      var es', lists' := es[1..], lists[1..];
      assert forall i :: 0 <= i < |es'| ==> es'[i] == es[i + 1] && lists'[i] == lists[i + 1];
      SearchIff(es', lists', oid, r);
      var passed := es[0].id != OID_SPDM_EXTENSION || Decision(lists[0][0].oid, oid) == Ok(false);
      forall k: nat | k <= |es'| ensures Undecided(es, lists, oid, k + 1) <==> passed && Undecided(es', lists', oid, k) {
        UndecidedCons(es, lists, oid, k);
      }
      forall k: nat ensures DecidesAt(es, lists, oid, k + 1, r) <==> passed && DecidesAt(es', lists', oid, k, r) {
        if k < |es'| {
          UndecidedCons(es, lists, oid, k);
        }
      }
      assert DecidesAt(es, lists, oid, 0, r) <==> es[0].id == OID_SPDM_EXTENSION && Decision(lists[0][0].oid, oid) == r;
      if k: nat :| DecidesAt(es, lists, oid, k, r) {
        if k > 0 {
          assert DecidesAt(es', lists', oid, k - 1, r);
        }
      }
    }
  }

  lemma UndecidedCons(es: seq<Extension>, lists: seq<seq<Entry>>, oid: bytes, k: nat)
    requires |es| == |lists| && forall i :: 0 <= i < |es| && es[i].id == OID_SPDM_EXTENSION ==> lists[i] != []
    requires es != [] && k <= |es| - 1
    ensures Undecided(es, lists, oid, k + 1)
            <==> (es[0].id != OID_SPDM_EXTENSION || Decision(lists[0][0].oid, oid) == Ok(false))
                 && Undecided(es[1..], lists[1..], oid, k)
  {
    var es', lists' := es[1..], lists[1..];
    assert forall i :: 0 <= i < |es'| ==> es'[i] == es[i + 1] && lists'[i] == lists[i + 1];
    if Undecided(es, lists, oid, k + 1) {
      forall i | 0 <= i < k && es'[i].id == OID_SPDM_EXTENSION ensures Decision(lists'[i][0].oid, oid) == Ok(false) {
        assert es[i + 1].id == OID_SPDM_EXTENSION;
      }
    }
    if (es[0].id != OID_SPDM_EXTENSION || Decision(lists[0][0].oid, oid) == Ok(false)) && Undecided(es', lists', oid, k) {
      forall i | 0 <= i < k + 1 && es[i].id == OID_SPDM_EXTENSION ensures Decision(lists[i][0].oid, oid) == Ok(false) {
        assert i > 0 ==> es'[i - 1].id == OID_SPDM_EXTENSION;
      }
    }
  }

  /** The target is found exactly if it is the first OID of an SPDM extension that is
      reached before one whose first OID has another length; the search fails exactly if
      such a one is reached first, and else it says no. */
  lemma FindInListIff(es: seq<Extension>, lists: seq<seq<Entry>>, oid: bytes)
    requires Listed(es, lists) && |Join(es)| < 0x1_0000 && oid != []
    ensures
      var r := FindInExtensions(Tlv(TAG_SEQUENCE, Join(es)), oid);
      && (r == Ok(true) <==> exists k: nat :: DecidesAt(es, lists, oid, k, Ok(true)))
      && (r == Err(VerifFail) <==> exists k: nat :: DecidesAt(es, lists, oid, k, Err(VerifFail)))
      && (r == Ok(false) <==> Undecided(es, lists, oid, |es|))
  {
    hide Tlv, Join, Search, DecidesAt, Undecided, ListedAt, Extension.Valid, FindInExtensions;
    FindInListIs(es, lists, oid);
    SearchIff(es, lists, oid, Ok(true));
    SearchIff(es, lists, oid, Err(VerifFail));
  }

  /** So an OID that an SPDM extension lists second is missed. */
  lemma SecondEntryMissed(e: Extension, entries: seq<Entry>, oid: bytes)
    requires e.Valid() && e.id == OID_SPDM_EXTENSION && ListsEntries(e.value, entries) && oid != []
    requires (e.critical.Some? ==> |e.critical.value| == 1) && |Join([e])| < 0x1_0000
    requires |entries| >= 2 && entries[1].oid == oid && entries[0].oid != oid
    ensures FindInExtensions(Tlv(TAG_SEQUENCE, Join([e])), oid)
            == if |entries[0].oid| == |oid| then Ok(false) else Err(VerifFail)
  {
    hide ListsEntries, Extension.Valid, Tlv, Join;
    assert ListedAt([e], [entries], 0);
    assert Listed([e], [entries]);
    FindInListIs([e], [entries], oid);
    assert [e][1..] == [] && [entries][1..] == [];
  }
}
