/** What the certificate checks mean: the layout of an accepted TBS, the rules for a
    leaf and for every other certificate, and the search for OIDs in an extension. */
module CertRules {
  import opened Bytes
  import opened Status
  import opened Der
  import opened ChainTiling
  import opened CertificateShape
  import opened CertChain

  /** From j on the data starts with the element of this OBJECT IDENTIFIER. */
  ghost predicate OidAt(data: bytes, j: nat, o: bytes) {
    |o| < 0x80 && j + 2 + |o| <= |data| && data[j] == TAG_OID && data[j + 1] == |o| && data[j + 2..j + 2 + |o|] == o
  }

  /** Where the content of the element at i starts. */
  ghost function ContentStart(data: bytes, i: nat): nat
    requires i < |data|
  {
    var l := CheckLength(data[i + 1..]);
    i + 1 + if l.Ok? then l.value.1 else 0
  }

  /** A SEQUENCE whose content, read on into what follows it if need be, starts with an
      OBJECT IDENTIFIER, namely the expected one if one is expected. */
  ghost predicate AlgorithmAt(data: bytes, i: nat, n: nat, oid: AlgoOid) {
    && i < i + n <= |data| && IsTlv(TAG_SEQUENCE, data[i..i + n])
    && exists o :: OidAt(data, ContentStart(data, i), o) && (oid.Some? ==> o == oid.value)
  }

  /** The n octets at i are this field of a TBS. */
  ghost predicate FieldAt(data: bytes, i: nat, n: nat, field: Field, oid: AlgoOid) {
    && i < i + n <= |data|
    && match field {
         case VersionField => data[i..i + n] == [TAG_VERSION, 3, TAG_INTEGER, 1, 2]
         case ElementField => IsTlv(data[i], data[i..i + n])
         case SequenceField => IsTlv(TAG_SEQUENCE, data[i..i + n])
         case AlgorithmField => AlgorithmAt(data, i, n, oid)
       }
  }

  lemma TlvAt(data: bytes, i: nat, n: nat, tag: byte)
    requires i < i + n <= |data|
    ensures IsTlv(tag, data[i..i + n]) <==> data[i] == tag && TlvSize(data[i..]) == Ok(n)
  {
    hide TlvSize;
    var rest := data[i..];
    assert rest[..n] == data[i..i + n] && rest[0] == data[i];
    if TlvSize(rest) == Ok(n) {
      TlvSizePrefix(rest, n);
    }
    if TlvSize(rest[..n]) == Ok(n) {
      TlvSizeExtend(rest, n);
    }
  }

  lemma ObjectIdentifierIff(data: bytes, j: nat, oid: AlgoOid)
    requires j <= |data|
    ensures CheckObjectIdentifier(data[j..], oid).Ok?
            <==> exists o :: OidAt(data, j, o) && (oid.Some? ==> o == oid.value)
  {
    var rest := data[j..];
    if CheckObjectIdentifier(rest, oid).Ok? {
      var o := rest[2..2 + |rest[2..2 + rest[1]]|];
      assert data[j + 2..j + 2 + |o|] == o;
      assert OidAt(data, j, o);
    }
    forall o | OidAt(data, j, o) && (oid.Some? ==> o == oid.value)
      ensures CheckObjectIdentifier(rest, oid).Ok?
    {
      assert rest[0] == data[j] && rest[1] == data[j + 1] && rest[2..2 + |o|] == data[j + 2..j + 2 + |o|];
    }
  }

  lemma AlgorithmIff(data: bytes, i: nat, n: nat, oid: AlgoOid)
    requires i <= |data|
    ensures CheckAlgorithm(data[i..], oid) == Ok(n) <==> AlgorithmAt(data, i, n, oid)
  {
    hide CheckLength, CheckObjectIdentifier, OidAt, IsTlv;
    var rest := data[i..];
    if i < i + n <= |data| {
      TlvAt(data, i, n, TAG_SEQUENCE);
      assert rest[1..] == data[i + 1..] && rest[0] == data[i];
      if CheckLength(rest[1..]).Ok? {
        var start := 1 + CheckLength(rest[1..]).value.1;
        assert rest[start..] == data[i + start..];
        assert ContentStart(data, i) == i + start;
        ObjectIdentifierIff(data, i + start, oid);
      }
    }
  }

  /** Each check of a field accepts exactly that field. */
  lemma FieldIff(data: bytes, i: nat, n: nat, field: Field, oid: AlgoOid)
    requires i <= |data|
    ensures CheckField(data[i..], field, oid) == Ok(n) <==> FieldAt(data, i, n, field, oid)
  {
    hide CheckAlgorithm, AlgorithmAt, IsTlv, TlvSize;
    var rest := data[i..];
    if field.AlgorithmField? {
      AlgorithmIff(data, i, n, oid);
      AlgorithmSize(data, i, n, oid);
    } else if field.VersionField? {
      VersionIff(data, i, n);
    } else if i < i + n <= |data| {
      TlvAt(data, i, n, data[i]);
      TlvAt(data, i, n, TAG_SEQUENCE);
      assert rest[0] == data[i];
    }
  }

  lemma AlgorithmSize(data: bytes, i: nat, n: nat, oid: AlgoOid)
    ensures AlgorithmAt(data, i, n, oid) ==> i < i + n <= |data|
  {
  }

  lemma VersionIff(data: bytes, i: nat, n: nat)
    requires i <= |data|
    ensures CheckVersion(data[i..]) == Ok(n) <==> FieldAt(data, i, n, VersionField, None)
  {
    var v := [TAG_VERSION, 3, TAG_INTEGER, 1, 2];
    if i + 5 <= |data| {
      assert data[i..][..5] == data[i..i + 5];
    }
  }

  /** From i to w the data is these fields, one after the other. */
  ghost predicate FieldsAt(data: bytes, i: nat, w: nat, fields: seq<Field>, oid: AlgoOid)
    decreases |fields|
  {
    if fields == [] then i == w
    else exists n: nat :: FieldAt(data, i, n, fields[0], oid) && FieldsAt(data, i + n, w, fields[1..], oid)
  }

  lemma {:induction false} FieldsIff(data: bytes, i: nat, w: nat, fields: seq<Field>, oid: AlgoOid)
    requires i <= |data|
    ensures WalkFields(data, i, fields, oid) == Ok(w) <==> FieldsAt(data, i, w, fields, oid)
    decreases |fields|
  {
    hide CheckField, FieldAt;
    if fields != [] {
      var r := CheckField(data[i..], fields[0], oid);
      if r.Ok? {
        FieldIff(data, i, r.value, fields[0], oid);
        FieldsIff(data, i + r.value, w, fields[1..], oid);
      }
      forall n: nat | FieldAt(data, i, n, fields[0], oid) ensures r == Ok(n) {
        FieldIff(data, i, n, fields[0], oid);
      }
    }
  }

  /** An extension, given by its octets and its id, can be searched for every OID it is
      searched for. */
  ghost predicate Searchable(extension: bytes, id: bytes) {
    && (id == OID_EXT_KEY_USAGE ==>
          && FindOid(extension, OID_RESPONDER_AUTH).Ok?
          && (FindOid(extension, OID_RESPONDER_AUTH).value || FindOid(extension, OID_REQUESTER_AUTH).Ok?))
    && (id == OID_SUBJECT_ALTERNATIVE_NAME ==> FindOid(extension, OID_DEVICE_INFO).Ok?)
    && (id == OID_SPDM_EXTENSION ==>
          && FindOid(extension, OID_MUTABLE_CERTIFICATE).Ok?
          && (FindOid(extension, OID_MUTABLE_CERTIFICATE).value || FindOid(extension, OID_HARDWARE_IDENTITY).Ok?))
  }

  /** It is an extended key usage extension in which an authentication OID is found. */
  ghost predicate CarriesAuth(extension: bytes, id: bytes) {
    && id == OID_EXT_KEY_USAGE
    && (FindOid(extension, OID_RESPONDER_AUTH) == Ok(true) || FindOid(extension, OID_REQUESTER_AUTH) == Ok(true))
  }

  /** Extension k lies between two cuts. */
  ghost predicate ExtensionAt(data: bytes, cuts: seq<nat>, k: nat)
    requires k + 1 < |cuts|
  {
    && cuts[k] < cuts[k + 1] <= |data|
    && var e := GetExtnId(data[cuts[k]..]);
    e.Ok? && e.value.1 == cuts[k + 1] - cuts[k] && Searchable(data[cuts[k]..cuts[k + 1]], e.value.0)
  }

  ghost predicate CarriesAuthAt(data: bytes, cuts: seq<nat>, k: nat)
    requires k + 1 < |cuts| && ExtensionAt(data, cuts, k)
  {
    CarriesAuth(data[cuts[k]..cuts[k + 1]], GetExtnId(data[cuts[k]..]).value.0)
  }

  /** The cuts divide the data from i to `limit` into extensions. */
  ghost predicate Extensions(data: bytes, limit: nat, i: nat, cuts: seq<nat>) {
    && |cuts| >= 1 && cuts[0] == i && cuts[|cuts| - 1] == limit
    && forall k :: 0 <= k < |cuts| - 1 ==> ExtensionAt(data, cuts, k)
  }

  ghost predicate AnyAuth(data: bytes, cuts: seq<nat>) {
    exists k :: 0 <= k < |cuts| - 1 && ExtensionAt(data, cuts, k) && CarriesAuthAt(data, cuts, k)
  }

  /** One extension more in front. */
  lemma ExtensionsCons(data: bytes, limit: nat, i: nat, rest: seq<nat>)
    requires |rest| >= 1 && ExtensionAt(data, [i] + rest, 0)
    ensures Extensions(data, limit, i, [i] + rest) <==> Extensions(data, limit, rest[0], rest)
    ensures AnyAuth(data, [i] + rest) <==> CarriesAuthAt(data, [i] + rest, 0) || AnyAuth(data, rest)
  {
    hide Searchable, CarriesAuth, GetExtnId;
    var cuts := [i] + rest;
    assert forall k :: 0 <= k < |rest| - 1 ==> (ExtensionAt(data, rest, k) <==> ExtensionAt(data, cuts, k + 1));
    if Extensions(data, limit, rest[0], rest) {
      forall k | 0 <= k < |cuts| - 1 ensures ExtensionAt(data, cuts, k) {
        assert k > 0 ==> ExtensionAt(data, rest, k - 1);
      }
    }
    if Extensions(data, limit, i, cuts) {
      forall k | 0 <= k < |rest| - 1 ensures ExtensionAt(data, rest, k) {
        assert ExtensionAt(data, cuts, k + 1);
      }
    }
    if k :| 0 <= k < |cuts| - 1 && ExtensionAt(data, cuts, k) && CarriesAuthAt(data, cuts, k) {
      if k > 0 {
        assert ExtensionAt(data, rest, k - 1) && CarriesAuthAt(data, rest, k - 1);
      }
    }
    if k :| 0 <= k < |rest| - 1 && ExtensionAt(data, rest, k) && CarriesAuthAt(data, rest, k) {
      assert ExtensionAt(data, cuts, k + 1) && CarriesAuthAt(data, cuts, k + 1);
    }
  }

  /** The extension walk succeeds exactly on extensions it can search, and tells
      whether one of them carries an authentication OID. */
  lemma {:induction false} AuthOidSound(data: bytes, limit: nat, i: nat, found: bool) returns (cuts: seq<nat>)
    requires i <= limit <= |data| && AuthOidFrom(data, limit, i, found).Ok?
    ensures Extensions(data, limit, i, cuts)
    ensures AuthOidFrom(data, limit, i, found) == Ok(found || AnyAuth(data, cuts))
    decreases limit - i
  {
    hide GetExtnId, Searchable, CarriesAuth, AuthOids, LoggedOids;
    if i == limit {
      cuts := [i];
    } else {
      var (id, n) := GetExtnId(data[i..]).value;
      var extension := data[i..i + n];
      SearchMeans(extension, id);
      var auth := if id == OID_EXT_KEY_USAGE then AuthOids(extension) else Ok((false, false));
      var rest := AuthOidSound(data, limit, i + n, found || auth.value.0 || auth.value.1);
      cuts := [i] + rest;
      assert ExtensionAt(data, cuts, 0);
      ExtensionsCons(data, limit, i, rest);
    }
  }

  lemma SearchMeans(extension: bytes, id: bytes)
    ensures
      var auth := if id == OID_EXT_KEY_USAGE then AuthOids(extension) else Ok((false, false));
      && (Searchable(extension, id) <==> auth.Ok? && LoggedOids(extension, id).Ok?)
      && (auth.Ok? ==> (CarriesAuth(extension, id) <==> auth.value.0 || auth.value.1))
  {
    hide FindOid;
  }

  lemma {:induction false} AuthOidComplete(data: bytes, limit: nat, i: nat, found: bool, cuts: seq<nat>)
    requires i <= limit <= |data| && Extensions(data, limit, i, cuts)
    ensures AuthOidFrom(data, limit, i, found) == Ok(found || AnyAuth(data, cuts))
    decreases |cuts|
  {
    hide GetExtnId, Searchable, CarriesAuth, AuthOids, LoggedOids;
    if |cuts| > 1 {
      var rest := cuts[1..];
      assert cuts == [i] + rest;
      assert ExtensionAt(data, cuts, 0);
      CutsRise(data, limit, i, cuts);
      var (id, n) := GetExtnId(data[i..]).value;
      var extension := data[i..i + n];
      SearchMeans(extension, id);
      ExtensionsCons(data, limit, i, rest);
      var auth := if id == OID_EXT_KEY_USAGE then AuthOids(extension) else Ok((false, false));
      AuthOidComplete(data, limit, i + n, found || auth.value.0 || auth.value.1, rest);
    }
  }

  lemma {:induction false} CutsRise(data: bytes, limit: nat, i: nat, cuts: seq<nat>)
    requires Extensions(data, limit, i, cuts)
    ensures i <= limit && (|cuts| > 1 ==> i < cuts[1] <= limit)
    decreases |cuts|
  {
    hide GetExtnId, Searchable;
    if |cuts| > 1 {
      assert ExtensionAt(data, cuts, 0);
      assert cuts == [i] + cuts[1..];
      ExtensionsCons(data, limit, i, cuts[1..]);
      CutsRise(data, limit, cuts[1], cuts[1..]);
    }
  }

  /** The extensions field of a certificate: one SEQUENCE of searchable extensions, whose
      content starts at `start`. */
  ghost predicate ExtensionsField(content: bytes, start: nat, cuts: seq<nat>) {
    && |content| >= 1 && content[0] == TAG_SEQUENCE && CheckLength(content[1..]).Ok?
    && var l := CheckLength(content[1..]).value;
    start == 1 + l.1 && Extensions(content[start..], l.0, 0, cuts)
  }

  /** `check_extensions_spdm_oid` accepts exactly such fields, and says no exactly to one
      outside a leaf that carries an authentication OID. */
  lemma SpdmOidsIff(content: bytes, isLeaf: bool, r: bool)
    ensures CheckSpdmOids(content, isLeaf) == Ok(r)
            <==> exists start: nat, cuts ::
                   ExtensionsField(content, start, cuts) && (r <==> isLeaf || !AnyAuth(content[start..], cuts))
  {
    hide CheckLength, Extensions, AnyAuth;
    if CheckSpdmOids(content, isLeaf).Ok? {
      var l := CheckLength(content[1..]).value;
      var cuts := AuthOidSound(content[1 + l.1..], l.0, 0, false);
      assert ExtensionsField(content, 1 + l.1, cuts);
    }
    forall start: nat, cuts | ExtensionsField(content, start, cuts)
      ensures CheckSpdmOids(content, isLeaf) == Ok(isLeaf || !AnyAuth(content[start..], cuts))
    {
      AuthOidComplete(content[start..], CheckLength(content[1..]).value.0, 0, false, cuts);
    }
  }

  /** The first n octets of the data are a TBS: a SEQUENCE of the seven fields from
      `start` to w and of one extensions element whose content starts at `at`. */
  ghost predicate TbsLayout(data: bytes, n: nat, start: nat, w: nat, at: nat, oid: AlgoOid) {
    && 1 < start <= w < at <= n <= |data|
    && data[0] == TAG_SEQUENCE && CheckLength(data[1..]) == Ok((n - start, start - 1))
    && FieldsAt(data, start, w, TBS_FIELDS, oid)
    && data[w] == TAG_EXTENSIONS && CheckLength(data[w + 1..]) == Ok((n - at, at - w - 1))
  }

  /** The rules on the content of the extensions element. */
  ghost predicate ExtensionRules(content: bytes, isLeaf: bool) {
    && KeyUsage(content).Ok?
    && (isLeaf && KeyUsage(content).value.0 ==> KeyUsage(content).value.1 >= 0x80)
    && exists start: nat, cuts ::
         ExtensionsField(content, start, cuts) && (isLeaf || !AnyAuth(content[start..], cuts))
  }

  function Expected(oid: AlgoOid, isLeaf: bool): AlgoOid {
    if isLeaf then oid else None
  }

  lemma TbsSound(data: bytes, oid: AlgoOid, isLeaf: bool, n: nat) returns (start: nat, w: nat, at: nat)
    requires n < |data| && CheckTbs(data, oid, isLeaf) == Ok(n)
    ensures TbsLayout(data, n, start, w, at, Expected(oid, isLeaf)) && ExtensionRules(data[at..n], isLeaf)
  {
    hide CheckLength, KeyUsage, CheckSpdmOids, WalkFields, FieldsAt, ExtensionsField, AnyAuth;
    var expected := Expected(oid, isLeaf);
    start := 1 + CheckLength(data[1..]).value.1;
    w := WalkFields(data, start, TBS_FIELDS, expected).value;
    FieldsIff(data, start, w, TBS_FIELDS, expected);
    assert data[w..][1..] == data[w + 1..];
    at := w + 1 + CheckLength(data[w + 1..]).value.1;
    assert data[w..][at - w..n - w] == data[at..n];
    SpdmOidsIff(data[at..n], isLeaf, true);
  }

  lemma TbsComplete(data: bytes, oid: AlgoOid, isLeaf: bool, n: nat, start: nat, w: nat, at: nat)
    requires TbsLayout(data, n, start, w, at, Expected(oid, isLeaf)) && ExtensionRules(data[at..n], isLeaf)
    ensures CheckTbs(data, oid, isLeaf) == Ok(n)
  {
    hide CheckLength, KeyUsage, CheckSpdmOids, WalkFields, FieldsAt, ExtensionsField, AnyAuth;
    FieldsIff(data, start, w, TBS_FIELDS, Expected(oid, isLeaf));
    assert data[w..][1..] == data[w + 1..];
    assert data[w..][at - w..n - w] == data[at..n];
    SpdmOidsIff(data[at..n], isLeaf, true);
  }

  /** A TBS that does not end the data is accepted exactly if it has this layout and its
      extensions keep the rules. The algorithm's OID is demanded of a leaf only. */
  lemma TbsAcceptedIff(data: bytes, oid: AlgoOid, isLeaf: bool, n: nat)
    requires n < |data|
    ensures CheckTbs(data, oid, isLeaf) == Ok(n)
            <==> exists start: nat, w: nat, at: nat ::
                   TbsLayout(data, n, start, w, at, Expected(oid, isLeaf)) && ExtensionRules(data[at..n], isLeaf)
  {
    hide CheckTbs, ExtensionRules, FieldsAt, CheckLength;
    if CheckTbs(data, oid, isLeaf) == Ok(n) {
      var start, w, at := TbsSound(data, oid, isLeaf, n);
    }
    forall start: nat, w: nat, at: nat | TbsLayout(data, n, start, w, at, Expected(oid, isLeaf)) && ExtensionRules(data[at..n], isLeaf)
      ensures CheckTbs(data, oid, isLeaf) == Ok(n)
    {
      TbsComplete(data, oid, isLeaf, n, start, w, at);
    }
  }

  /** Without the tag of an extensions element all that is left is taken for its content;
      so such a TBS is refused if anything follows it. */
  lemma UntaggedTakesAll(data: bytes, oid: AlgoOid, isLeaf: bool, start: nat, w: nat, n: nat)
    requires start <= w <= |data| && (w < |data| ==> data[w] != 0xA3)
    requires FieldsAt(data, start, w, TBS_FIELDS, Expected(oid, isLeaf))
    requires |data| > 0 && data[0] == TAG_SEQUENCE && CheckLength(data[1..]).Ok?
    requires start == 1 + CheckLength(data[1..]).value.1
    ensures GetExtensions(data[w..]) == Ok((|data| - w, data[w..]))
    ensures n < |data| ==> CheckTbs(data, oid, isLeaf) != Ok(n)
  {
    hide CheckLength, KeyUsage, CheckSpdmOids, WalkFields, FieldsAt;
    FieldsIff(data, start, w, TBS_FIELDS, Expected(oid, isLeaf));
    assert w < |data| ==> data[w..][0] == data[w];
  }

  /** The body of an accepted certificate, in full: exactly a TBS of that layout, a
      signature algorithm and a signature, under the rules for a leaf or not. */
  ghost predicate BodyRules(body: bytes, oid: AlgoOid, isLeaf: bool, p: Parts) {
    && body == p.tbs + (p.algorithm + (p.signature + p.more))
    && (exists start: nat, w: nat, at: nat ::
          TbsLayout(body, |p.tbs|, start, w, at, Expected(oid, isLeaf)) && ExtensionRules(body[at..|p.tbs|], isLeaf))
    && AlgorithmAt(body, |p.tbs|, |p.algorithm|, Expected(oid, isLeaf))
    && p.signature != [] && IsTlv(p.signature[0], p.signature)
  }

  lemma BodyRulesIff(body: bytes, oid: AlgoOid, isLeaf: bool, p: Parts)
    ensures BodyOf(X509(oid), body, isLeaf, p) <==> BodyRules(body, oid, isLeaf, p)
  {
    hide CheckTbs, CheckAlgorithm, IsTlv, TbsLayout, ExtensionRules;
    if body == p.tbs + (p.algorithm + (p.signature + p.more)) {
      var n := |p.tbs|;
      assert body[..n] == p.tbs;
      if n < |body| {
        TbsAcceptedIff(body, oid, isLeaf, n);
      }
      TbsIsSequence(body, oid, isLeaf);
      AlgorithmIff(body, n, |p.algorithm|, Expected(oid, isLeaf));
      AlgorithmSize(body, n, |p.algorithm|, Expected(oid, isLeaf));
      assert body[n..n + |p.algorithm|] == p.algorithm;
      assert IsTlv(TAG_SEQUENCE, []) ==> false by {
        EmptyIsNoElement();
      }
    }
  }

  lemma EmptyIsNoElement()
    ensures !IsTlv(TAG_SEQUENCE, [])
  {
  }

  /** Certificate i of an accepted chain keeps the leaf rules exactly if it is the last:
      then the expected OID starts at the content of both algorithm fields, and the last
      octet of a key usage that is found has its highest bit set; otherwise no extension
      carries an authentication OID. */
  lemma CertificateRules(chain: bytes, oid: AlgoOid, cuts: seq<nat>, i: nat, p: Parts)
    requires Cuts(chain, oid) == Ok(cuts) && i + 1 < |cuts|
    requires cuts[i] < cuts[i + 1] <= |chain| && CertificateOf(X509(oid), chain[cuts[i]..], cuts[i + 1] - cuts[i], p)
    ensures BodyRules(p.tbs + (p.algorithm + (p.signature + p.more)), oid, i == |cuts| - 2, p)
  {
    hide BodyRules, BodyOf, Certificate, CheckTbs, SequenceHeader;
    ChainAcceptedIff(chain, oid, cuts);
    LeafIsLast(chain, oid, cuts, i, p);
    var (start, m) := SequenceHeader(chain[cuts[i]..]).value;
    BodyRulesIff(chain[cuts[i]..][start..], oid, p.more == [], p);
    BodyIs(X509(oid), chain[cuts[i]..][start..], p.more == [], p);
  }

  lemma BodyIs(checks: Checks, body: bytes, isLeaf: bool, p: Parts)
    requires BodyOf(checks, body, isLeaf, p)
    ensures body == p.tbs + (p.algorithm + (p.signature + p.more))
  {
  }

  /** The seven fields of a TBS by name and the offsets where they start. */
  datatype TbsFields = TbsFields(
    version: nat, serial: nat, algorithm: nat, issuer: nat, validity: nat, subject: nat, key: nat, end: nat)

  ghost predicate TbsFieldsAt(data: bytes, at: TbsFields, oid: AlgoOid) {
    && at.version < at.serial < at.algorithm < at.issuer < at.validity < at.subject < at.key < at.end <= |data|
    && data[at.version..at.serial] == [0xA0, 0x03, 0x02, 0x01, 0x02]
    && IsTlv(data[at.serial], data[at.serial..at.algorithm])
    && AlgorithmAt(data, at.algorithm, at.issuer - at.algorithm, oid)
    && IsTlv(0x30, data[at.issuer..at.validity]) && IsTlv(0x30, data[at.validity..at.subject])
    && IsTlv(0x30, data[at.subject..at.key]) && IsTlv(0x30, data[at.key..at.end])
  }

  lemma LastFields(data: bytes, i: nat, w: nat, oid: AlgoOid) returns (v: nat, s: nat, k: nat)
    requires FieldsAt(data, i, w, TBS_FIELDS[3..], oid)
    ensures i < v < s < k < w <= |data|
    ensures IsTlv(0x30, data[i..v]) && IsTlv(0x30, data[v..s]) && IsTlv(0x30, data[s..k]) && IsTlv(0x30, data[k..w])
  {
    hide IsTlv, FieldsAt, FieldAt;
    var rest := [SequenceField, SequenceField, SequenceField, SequenceField];
    assert TBS_FIELDS[3..] == rest;
    var n := FirstOf(data, i, w, rest, oid);
    v := i + n;
    var m := FirstOf(data, v, w, rest[1..], oid);
    s := v + m;
    var l := FirstOf(data, s, w, rest[1..][1..], oid);
    k := s + l;
    var last := FirstOf(data, k, w, rest[1..][1..][1..], oid);
    NoFields(data, k + last, w, rest[1..][1..][1..][1..], oid);
    FieldMeans(data, i, n, SequenceField, oid);
    FieldMeans(data, v, m, SequenceField, oid);
    FieldMeans(data, s, l, SequenceField, oid);
    FieldMeans(data, k, last, SequenceField, oid);
  }

  /** The fields of a TBS are these, and no other: version, serial number, algorithm,
      issuer, validity, subject and public key, one after the other. */
  lemma TbsFieldsAre(data: bytes, start: nat, w: nat, oid: AlgoOid) returns (at: TbsFields)
    requires FieldsAt(data, start, w, TBS_FIELDS, oid)
    ensures at.version == start && at.end == w && TbsFieldsAt(data, at, oid)
  {
    hide IsTlv, FieldsAt, FieldAt, AlgorithmAt;
    var v := FirstOf(data, start, w, TBS_FIELDS, oid);
    var s := FirstOf(data, start + v, w, TBS_FIELDS[1..], oid);
    assert TBS_FIELDS[1..][1..] == TBS_FIELDS[2..] && TBS_FIELDS[2..][1..] == TBS_FIELDS[3..];
    var a := FirstOf(data, start + v + s, w, TBS_FIELDS[2..], oid);
    FieldMeans(data, start, v, VersionField, oid);
    FieldMeans(data, start + v, s, ElementField, oid);
    FieldMeans(data, start + v + s, a, AlgorithmField, oid);
    var issuer := start + v + s + a;
    var validity, subject, key := LastFields(data, issuer, w, oid);
    at := TbsFields(start, start + v, start + v + s, issuer, validity, subject, key, w);
  }

  lemma FieldMeans(data: bytes, i: nat, n: nat, field: Field, oid: AlgoOid)
    requires FieldAt(data, i, n, field, oid)
    ensures i < i + n <= |data|
    ensures field.VersionField? ==> data[i..i + n] == [0xA0, 0x03, 0x02, 0x01, 0x02]
    ensures field.ElementField? ==> IsTlv(data[i], data[i..i + n])
    ensures field.SequenceField? ==> IsTlv(0x30, data[i..i + n])
    ensures field.AlgorithmField? ==> AlgorithmAt(data, i, n, oid)
  {
  }

  lemma NoFields(data: bytes, i: nat, w: nat, fields: seq<Field>, oid: AlgoOid)
    requires fields == [] && FieldsAt(data, i, w, fields, oid)
    ensures i == w
  {
  }

  /** Outside a leaf the expected OID plays no part. */
  lemma OnlyLeafOid(body: bytes, oid: AlgoOid, other: AlgoOid, p: Parts)
    ensures BodyOf(X509(oid), body, false, p) <==> BodyOf(X509(other), body, false, p)
  {
    hide CheckTbs, CheckAlgorithm, IsTlv;
    SameTbs(body, oid, other);
  }

  lemma SameTbs(body: bytes, oid: AlgoOid, other: AlgoOid)
    ensures CheckTbs(body, oid, false) == CheckTbs(body, other, false)
  {
    hide WalkFields, GetExtensions, KeyUsage, CheckSpdmOids, CheckLength;
  }

  /** The OID lies inside the SEQUENCE that announces it. */
  ghost predicate OidInside(data: bytes, i: nat, n: nat, o: bytes) {
    i < i + n <= |data| && OidAt(data, ContentStart(data, i), o) && ContentStart(data, i) + 2 + |o| <= i + n
  }

  /** In a TBS it does, since a SEQUENCE follows, unless the OID has the octet 0x30 or
      as many octets. */
  lemma TbsAlgorithmInside(data: bytes, start: nat, w: nat, o: bytes) returns (i: nat, n: nat)
    requires FieldsAt(data, start, w, TBS_FIELDS, Some(o)) && TAG_SEQUENCE !in o && |o| != TAG_SEQUENCE
    ensures start < i && OidInside(data, i, n, o)
  {
    hide IsTlv, FieldsAt, CheckLength;
    var v := FirstOf(data, start, w, TBS_FIELDS, Some(o));
    var serial := FirstOf(data, start + v, w, TBS_FIELDS[1..], Some(o));
    i := start + v + serial;
    n := FirstOf(data, i, w, TBS_FIELDS[1..][1..], Some(o));
    var issuer := FirstOf(data, i + n, w, TBS_FIELDS[1..][1..][1..], Some(o));
    FirstTag(data, i + n, issuer);
    ContentWithin(data, i, n);
    OidOctet(data, ContentStart(data, i), o, i + n);
  }

  lemma OidOctet(data: bytes, j: nat, o: bytes, k: nat)
    requires OidAt(data, j, o)
    ensures j <= k < j + 2 + |o| ==> data[k] == TAG_OID || data[k] == |o| || data[k] in o
  {
    assert forall x :: 0 <= x < |o| ==> o[x] == data[j + 2 + x];
  }

  lemma FirstOf(data: bytes, i: nat, w: nat, fields: seq<Field>, oid: AlgoOid) returns (n: nat)
    requires fields != [] && FieldsAt(data, i, w, fields, oid)
    ensures FieldAt(data, i, n, fields[0], oid) && FieldsAt(data, i + n, w, fields[1..], oid)
  {
    n :| FieldAt(data, i, n, fields[0], oid) && FieldsAt(data, i + n, w, fields[1..], oid);
  }

  lemma FirstTag(data: bytes, i: nat, n: nat)
    requires FieldAt(data, i, n, SequenceField, None)
    ensures data[i] == TAG_SEQUENCE
  {
  }

  lemma ContentWithin(data: bytes, i: nat, n: nat)
    requires i < i + n <= |data| && IsTlv(TAG_SEQUENCE, data[i..i + n])
    ensures i < ContentStart(data, i) <= i + n
  {
    TlvAt(data, i, n, TAG_SEQUENCE);
    hide CheckLength;
    assert data[i..][1..] == data[i + 1..];
  }

  /** The check of an algorithm field itself also takes an OID that ends behind it. */
  lemma OidMayStraddle(o: bytes)
    requires |o| < 0x80
    ensures CheckAlgorithm([TAG_SEQUENCE, 1, TAG_OID, |o|] + o, Some(o)) == Ok(3)
  {
    var data := [TAG_SEQUENCE, 1, TAG_OID, |o|] + o;
    assert data[1..][0] == 1;
    assert data[2..] == [TAG_OID, |o|] + o;
    assert data[2..][2..2 + |o|] == o;
  }

  /** The length an element at i announces. */
  ghost function Announced(data: bytes, i: nat): nat
    requires i < |data|
  {
    var l := CheckLength(data[i + 1..]);
    if l.Ok? then l.value.0 else 0
  }

  /** Behind the TBS of a leaf the OID lies inside the algorithm field exactly if the
      field announces enough content for it; nothing checks that, and otherwise the rest
      of it lies in the signature. */
  lemma OuterOidInsideIff(body: bytes, o: bytes, p: Parts)
    requires BodyRules(body, Some(o), true, p)
    ensures p.algorithm != [] && |p.tbs| < |body| && OidAt(body, ContentStart(body, |p.tbs|), o)
    ensures OidInside(body, |p.tbs|, |p.algorithm|, o) <==> Announced(p.algorithm, 0) >= 2 + |o|
  {
    hide TbsLayout, ExtensionRules, OidAt, ContentStart, IsTlv;
    var n := |p.tbs|;
    assert body[n..n + |p.algorithm|] == p.algorithm;
    InsideIffAnnounced(body, n, p.algorithm, o);
  }

  lemma InsideIffAnnounced(data: bytes, i: nat, element: bytes, o: bytes)
    requires i < i + |element| <= |data| && data[i..i + |element|] == element && IsTlv(TAG_SEQUENCE, element)
    requires OidAt(data, ContentStart(data, i), o)
    ensures OidInside(data, i, |element|, o) <==> Announced(element, 0) >= 2 + |o|
  {
    hide CheckLength, OidAt;
    TlvAt(data, i, |element|, TAG_SEQUENCE);
    assert data[i..][1..] == data[i + 1..];
    SameAnnounced(data, i, element);
  }

  lemma SameAnnounced(body: bytes, n: nat, element: bytes)
    requires n + |element| <= |body| && body[n..n + |element|] == element
    requires element != [] && TlvSize(body[n..]) == Ok(|element|)
    ensures Announced(body, n) == Announced(element, 0)
  {
    hide CheckLength;
    assert body[n..][1..] == body[n + 1..];
    assert element[1..] == body[n + 1..][..|element| - 1];
    CheckLengthPrefix(body[n + 1..], |element| - 1);
  }

  /** OBJECT IDENTIFIERs one after another. */
  function Oids(oids: seq<bytes>): bytes
    requires forall o :: o in oids ==> |o| < 0x1_0000
  {
    if oids == [] then [] else Tlv(TAG_OID, oids[0]) + Oids(oids[1..])
  }

  /** What the search sees of an element at i. */
  lemma ElementRead(data: bytes, i: nat, tag: byte, body: bytes, rest: bytes)
    requires i <= |data| && |body| < 0x1_0000 && data[i..] == Tlv(tag, body) + rest
    ensures i + 1 < |data| && data[i] == tag && CheckLength(data[i + 1..]) == Ok((|body|, |DerLength(|body|)|))
    ensures
      var value := i + 1 + |DerLength(|body|)|;
      && value + |body| <= |data| && data[value..value + |body|] == body
      && data[value..] == body + rest && data[value + |body|..] == rest
  {
    hide CheckLength, DerLength;
    var d := DerLength(|body|);
    var s := data[i..];
    assert s == [tag] + d + body + rest;
    assert data[i] == s[0];
    assert data[i + 1..] == s[1..] == d + (body + rest);
    CheckLengthIsDer(data[i + 1..], |body|);
    assert data[i + 1 + |d|..] == s[1 + |d|..] == body + rest;
    assert data[i + 1 + |d| + |body|..] == s[1 + |d| + |body|..] == rest;
  }

  /** One step of the search; stopping early misses nothing. */
  lemma FindStep(data: bytes, oid: bytes, i: nat, tag: byte, body: bytes, rest: bytes)
    requires i <= |data| && |body| < 0x1_0000 && data[i..] == Tlv(tag, body) + rest
    ensures
      var value := i + 1 + |DerLength(|body|)|;
      && value + |body| <= |data| && data[value..] == body + rest && data[value + |body|..] == rest
      && FindOidFrom(data, oid, i)
         == if tag == TAG_OID && body == oid then Ok(true)
            else if tag == TAG_SEQUENCE || tag == TAG_OCTET_STRING then FindOidFrom(data, oid, value)
            else FindOidFrom(data, oid, value + |body|)
  {
    hide CheckLength, FindOidFrom, Tlv;
    ElementRead(data, i, tag, body, rest);
    var value := i + 1 + |DerLength(|body|)|;
    FindOidEnds(data, oid, i);
    FindOidEnds(data, oid, value);
    FindOidEnds(data, oid, value + |body|);
    if i + |oid| < |data| {
      FindOidStep(data, oid, i);
    }
  }

  /** Over OBJECT IDENTIFIERs to the end of the data the search finds exactly those that
      are there. */
  lemma {:induction false} OidsFound(data: bytes, oid: bytes, i: nat, oids: seq<bytes>)
    requires i <= |data| && (forall o :: o in oids ==> |o| < 0x1_0000) && data[i..] == Oids(oids)
    ensures FindOidFrom(data, oid, i) == Ok(oid in oids)
    decreases |oids|
  {
    hide FindOidFrom, Tlv, DerLength;
    if oids == [] {
      FindOidEnds(data, oid, i);
    } else {
      FindStep(data, oid, i, TAG_OID, oids[0], Oids(oids[1..]));
      OidsFound(data, oid, i + 1 + |DerLength(|oids[0]|)| + |oids[0]|, oids[1..]);
      assert oid in oids <==> oid == oids[0] || oid in oids[1..];
    }
  }
}
