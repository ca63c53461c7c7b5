/** What the leaf rules do and do not demand: which key usage bit is tested, and where
    the OID of the outer algorithm field lies. */
module LeafRules {
  import opened Bytes
  import opened Status
  import opened Der
  import opened ChainTiling
  import opened CertificateShape
  import opened CertChain
  import opened CertRules
  import opened ExtensionLists

  /** The bits of a key usage by section 4.2.1.3 of RFC 5280. */
  const DIGITAL_SIGNATURE: nat := 0
  const KEY_AGREEMENT: nat := 4
  const DECIPHER_ONLY: nat := 8

  /** Bit k of a BIT STRING: the first content octet counts the unused bits, and bit 0 is
      the highest one of the octet behind it. */
  predicate NamedBit(bits: bytes, k: nat) {
    1 + k / 8 < |bits| && bits[1 + k / 8] / [0x80, 0x40, 0x20, 0x10, 8, 4, 2, 1][k % 8] % 2 == 1
  }

  lemma HighBit(bits: bytes, m: nat)
    requires m + 1 < |bits|
    ensures NamedBit(bits, 8 * m) <==> bits[m + 1] >= 0x80
  {
    assert 8 * m / 8 == m && 8 * m % 8 == 0;
  }

  /** The leaf rule tests the highest bit of the last octet: digitalSignature if there is
      one value octet, decipherOnly if there are two. It therefore demands
      digitalSignature exactly if the first and the last value octet agree on that bit. */
  lemma LeafUsageTests(bits: bytes)
    requires |bits| >= 2
    ensures
      var allowed := KeyUsageAllowed(Given(TAG_BIT_STRING, bits), true);
      && (allowed <==> NamedBit(bits, 8 * (|bits| - 2)))
      && (|bits| == 2 ==> (allowed <==> NamedBit(bits, DIGITAL_SIGNATURE)))
      && (|bits| == 3 ==> (allowed <==> NamedBit(bits, DECIPHER_ONLY)))
      && ((allowed <==> NamedBit(bits, DIGITAL_SIGNATURE)) <==> (bits[1] >= 0x80 <==> bits[|bits| - 1] >= 0x80))
  {
    hide NamedBit;
    HighBit(bits, |bits| - 2);
    HighBit(bits, 0);
  }

  /** The first key usage extension of the list holds this BIT STRING. */
  ghost predicate FirstKeyUsage(es: seq<Extension>, bits: bytes) {
    && es != []
    && if es[0].id != OID_KEY_USAGE then FirstKeyUsage(es[1..], bits)
       else exists x :: ValueIs(es[0].value, TAG_BIT_STRING, bits, x)
  }

  lemma {:induction false} FirstDecidesUsage(es: seq<Extension>, bits: bytes)
    requires FirstKeyUsage(es, bits)
    ensures UsageOf(es, Given(TAG_BIT_STRING, bits))
    decreases |es|
  {
    if es[0].id != OID_KEY_USAGE {
      FirstDecidesUsage(es[1..], bits);
    }
  }

  /** A TBS has one layout only. */
  lemma LayoutUnique(data: bytes, n: nat, start: nat, w: nat, at: nat, start': nat, w': nat, at': nat, oid: AlgoOid)
    requires TbsLayout(data, n, start, w, at, oid) && TbsLayout(data, n, start', w', at', oid)
    ensures start == start' && w == w' && at == at'
  {
    hide CheckLength, FieldsAt, WalkFields;
    FieldsIff(data, start, w, TBS_FIELDS, oid);
    FieldsIff(data, start, w', TBS_FIELDS, oid);
  }

  /** The first n octets are a TBS with these extensions. */
  ghost predicate TbsExtensions(data: bytes, n: nat, oid: AlgoOid, es: seq<Extension>) {
    && (forall e :: e in es ==> e.Valid()) && |Join(es)| < 0x1_0000
    && exists start: nat, w: nat, at: nat ::
         TbsLayout(data, n, start, w, at, oid) && data[at..n] == Tlv(TAG_SEQUENCE, Join(es))
  }

  lemma LeafExtensionRules(body: bytes, oid: AlgoOid, p: Parts, es: seq<Extension>)
    requires BodyRules(body, oid, true, p) && TbsExtensions(body, |p.tbs|, oid, es)
    ensures ExtensionRules(Tlv(TAG_SEQUENCE, Join(es)), true)
  {
    hide AlgorithmAt, IsTlv, Join, Tlv, ExtensionRules, FieldsAt, CheckLength;
    var n := |p.tbs|;
    var start: nat, w: nat, at: nat :| TbsLayout(body, n, start, w, at, oid) && ExtensionRules(body[at..n], true);
    var start': nat, w': nat, at': nat :|
      TbsLayout(body, n, start', w', at', oid) && body[at'..n] == Tlv(TAG_SEQUENCE, Join(es));
    LayoutUnique(body, n, start, w, at, start', w', at', oid);
  }

  /** So a leaf that lists a key usage has the highest bit of its last octet set. That is
      digitalSignature for sure if there is one value octet, and with more of them exactly
      if the first and the last one agree on it. */
  lemma LeafKeyUsage(body: bytes, oid: AlgoOid, p: Parts, es: seq<Extension>, bits: bytes)
    requires BodyRules(body, oid, true, p) && TbsExtensions(body, |p.tbs|, oid, es)
    requires FirstKeyUsage(es, bits) && |bits| >= 2
    ensures NamedBit(bits, 8 * (|bits| - 2))
    ensures |bits| == 2 ==> NamedBit(bits, DIGITAL_SIGNATURE)
    ensures NamedBit(bits, DIGITAL_SIGNATURE) <==> (bits[1] >= 0x80 <==> bits[|bits| - 1] >= 0x80)
  {
    hide TbsLayout, BodyRules, KeyUsage, Join, Tlv, ExtensionsField, AnyAuth, NamedBit, FirstKeyUsage, UsageOf;
    LeafExtensionRules(body, oid, p, es);
    FirstDecidesUsage(es, bits);
    KeyUsageIff(es, Given(TAG_BIT_STRING, bits));
    LeafUsageTests(bits);
  }

  /** p is the last certificate of the chain, in its parts. */
  ghost predicate LastCertificate(chain: bytes, oid: AlgoOid, cuts: seq<nat>, p: Parts) {
    && |cuts| >= 2
    && var i := |cuts| - 2;
    cuts[i] < cuts[i + 1] <= |chain| && CertificateOf(X509(oid), chain[cuts[i]..], cuts[i + 1] - cuts[i], p)
  }

  function Body(p: Parts): bytes {
    p.tbs + (p.algorithm + (p.signature + p.more))
  }

  /** The same of the last certificate of an accepted chain. */
  lemma LastCertificateKeyUsage(chain: bytes, oid: AlgoOid, cuts: seq<nat>, p: Parts, es: seq<Extension>, bits: bytes)
    requires Cuts(chain, oid) == Ok(cuts) && LastCertificate(chain, oid, cuts, p)
    requires TbsExtensions(Body(p), |p.tbs|, oid, es) && FirstKeyUsage(es, bits) && |bits| >= 2
    ensures NamedBit(bits, 8 * (|bits| - 2))
    ensures |bits| == 2 ==> NamedBit(bits, DIGITAL_SIGNATURE)
    ensures NamedBit(bits, DIGITAL_SIGNATURE) <==> (bits[1] >= 0x80 <==> bits[|bits| - 1] >= 0x80)
  {
    hide TbsExtensions, BodyRules, CertificateOf, Cuts, NamedBit, FirstKeyUsage;
    CertificateRules(chain, oid, cuts, |cuts| - 2, p);
    LeafKeyUsage(Body(p), oid, p, es, bits);
  }

  /** The key usage keyAgreement and decipherOnly, in DER. */
  const AGREEMENT_BITS: bytes := [7, 8, 0x80]

  const AGREEMENT_ONLY: Extension := Extension(OID_KEY_USAGE, None, Tlv(TAG_BIT_STRING, AGREEMENT_BITS))

  /** It has the bits it should, lacks digitalSignature, and passes the leaf rule. */
  lemma AgreementPasses()
    ensures NamedBit(AGREEMENT_BITS, KEY_AGREEMENT) && NamedBit(AGREEMENT_BITS, DECIPHER_ONLY)
    ensures !NamedBit(AGREEMENT_BITS, DIGITAL_SIGNATURE)
    ensures AGREEMENT_ONLY.Valid() && FirstKeyUsage([AGREEMENT_ONLY], AGREEMENT_BITS)
    ensures KeyUsageAllowed(Given(TAG_BIT_STRING, AGREEMENT_BITS), true)
  {
    assert ValueIs(AGREEMENT_ONLY.value, TAG_BIT_STRING, AGREEMENT_BITS, []);
  }

  /** The extensions of a leaf may be just this one. */
  lemma AgreementRules()
    ensures AGREEMENT_ONLY.Valid() && |AGREEMENT_ONLY.Octets()| == 14 && Join([AGREEMENT_ONLY]) == AGREEMENT_ONLY.Octets()
    ensures ExtensionRules(Tlv(TAG_SEQUENCE, AGREEMENT_ONLY.Octets()), true)
  {
    var e := AGREEMENT_ONLY;
    AgreementPasses();
    AgreementSize();
    hide Tlv, DerLength, CheckLength, KeyUsage, Extension.Octets, Extension.Valid, GetExtnId, Given, NamedBit;
    hide FirstKeyUsage, UsageOf, AnyAuth;
    JoinOne(e);
    FirstDecidesUsage([e], AGREEMENT_BITS);
    KeyUsageIff([e], Given(TAG_BIT_STRING, AGREEMENT_BITS));
    var data, content := e.Octets(), Tlv(TAG_SEQUENCE, e.Octets());
    assert content[0..] == content == content + [];
    ElementRead(content, 0, TAG_SEQUENCE, data, []);
    var start := 1 + |DerLength(|data|)|;
    assert content[start..] == data + [] == data;
    ExtensionId(e, []);
    assert data[0..] == data == data + [];
    var cuts := [0, |data|];
    assert Searchable(data[0..|data|], OID_KEY_USAGE);
    assert ExtensionAt(data, cuts, 0);
    assert ExtensionsField(content, start, cuts);
  }

  lemma AgreementSize()
    ensures AGREEMENT_ONLY.Valid() && |AGREEMENT_ONLY.Octets()| == 14
  {
  }

  lemma JoinOne(e: Extension)
    requires e.Valid()
    ensures Join([e]) == e.Octets()
  {
    hide Extension.Octets, Extension.Valid;
    assert [e][1..] == [];
  }

  const VERSION: bytes := [TAG_VERSION, 3, TAG_INTEGER, 1, 2]
  const SERIAL: bytes := [TAG_INTEGER, 1, 1]
  const EMPTY: bytes := [TAG_SEQUENCE, 0]

  function SmallAlgorithm(o: bytes): (r: bytes)
    requires |o| < 0x80
    ensures 0 < |r| <= 6 + |o|
  {
    Tlv(TAG_SEQUENCE, [TAG_OID, |o|] + o)
  }

  /** The seven fields of a small TBS, and what follows them. */
  function SmallFields(o: bytes, rest: bytes): (r: bytes)
    requires |o| < 0x80
    ensures |r| <= 22 + |o| + |rest|
  {
    VERSION + (SERIAL + (SmallAlgorithm(o) + (EMPTY + (EMPTY + (EMPTY + (EMPTY + rest))))))
  }

  lemma FieldsCons(data: bytes, i: nat, n: nat, w: nat, fields: seq<Field>, oid: AlgoOid)
    requires fields != [] && FieldAt(data, i, n, fields[0], oid) && FieldsAt(data, i + n, w, fields[1..], oid)
    ensures FieldsAt(data, i, w, fields, oid)
  {
    hide FieldAt;
  }

  lemma FrontOf(data: bytes, i: nat, a: bytes, b: bytes)
    requires i <= |data| && data[i..] == a + b
    ensures i + |a| <= |data| && data[i..i + |a|] == a && data[i + |a|..] == b
  {
    assert data[i..i + |a|] == data[i..][..|a|];
    assert data[i + |a|..] == data[i..][|a|..];
  }

  lemma ElementHere(data: bytes, i: nat, element: bytes, rest: bytes, tag: byte, oid: AlgoOid)
    requires i <= |data| && data[i..] == element + rest && IsTlv(tag, element)
    ensures FieldAt(data, i, |element|, ElementField, oid)
    ensures tag == TAG_SEQUENCE ==> FieldAt(data, i, |element|, SequenceField, oid)
    ensures i + |element| <= |data| && data[i + |element|..] == rest
  {
    hide TlvSize;
    FrontOf(data, i, element, rest);
    assert data[i] == data[i..i + |element|][0];
  }

  /** Four empty SEQUENCEs. */
  lemma {:induction false} EmptyFields(data: bytes, i: nat, k: nat, rest: bytes, oid: AlgoOid)
    requires 3 <= k <= 7 && i <= |data|
    requires data[i..] == (if k <= 3 then EMPTY else []) + ((if k <= 4 then EMPTY else [])
                          + ((if k <= 5 then EMPTY else []) + ((if k <= 6 then EMPTY else []) + rest)))
    ensures FieldsAt(data, i, i + 2 * (7 - k), TBS_FIELDS[k..], oid)
    ensures i + 2 * (7 - k) <= |data| && data[i + 2 * (7 - k)..] == rest
    decreases 7 - k
  {
    hide FieldAt, IsTlv;
    if k < 7 {
      var after := data[i..][2..];
      assert data[i..] == EMPTY + after;
      TlvIsTlv(TAG_SEQUENCE, []);
      assert Tlv(TAG_SEQUENCE, []) == EMPTY;
      ElementHere(data, i, EMPTY, after, TAG_SEQUENCE, oid);
      EmptyFields(data, i + 2, k + 1, rest, oid);
      assert TBS_FIELDS[k..][1..] == TBS_FIELDS[k + 1..];
      FieldsCons(data, i, 2, i + 2 * (7 - k), TBS_FIELDS[k..], oid);
    }
  }

  lemma VersionHere(data: bytes, i: nat, rest: bytes, oid: AlgoOid)
    requires i <= |data| && data[i..] == VERSION + rest
    ensures FieldAt(data, i, 5, VersionField, oid) && i + 5 <= |data| && data[i + 5..] == rest
  {
    FrontOf(data, i, VERSION, rest);
  }

  lemma AlgorithmHere(data: bytes, i: nat, o: bytes, rest: bytes)
    requires |o| < 0x80 && i <= |data| && data[i..] == SmallAlgorithm(o) + rest
    ensures FieldAt(data, i, |SmallAlgorithm(o)|, AlgorithmField, Some(o))
    ensures i + |SmallAlgorithm(o)| <= |data| && data[i + |SmallAlgorithm(o)|..] == rest
  {
    hide CheckLength, Tlv, DerLength, IsTlv, OidAt;
    var inner := [TAG_OID, |o|] + o;
    TlvIsTlv(TAG_SEQUENCE, inner);
    FrontOf(data, i, SmallAlgorithm(o), rest);
    ElementRead(data, i, TAG_SEQUENCE, inner, rest);
    OidHere(data, i + 1 + |DerLength(|inner|)|, o, rest);
    assert OidAt(data, ContentStart(data, i), o);
  }

  lemma OidHere(data: bytes, j: nat, o: bytes, rest: bytes)
    requires |o| < 0x80 && j <= |data| && data[j..] == [TAG_OID, |o|] + o + rest
    ensures OidAt(data, j, o)
  {
    assert [TAG_OID, |o|] + o + rest == [TAG_OID, |o|] + (o + rest);
    FrontOf(data, j, [TAG_OID, |o|], o + rest);
    FrontOf(data, j + 2, o, rest);
    assert data[j] == data[j..][0] && data[j + 1] == data[j..][1];
  }

  /** They are the fields of a TBS. */
  lemma SmallFieldsHold(data: bytes, i: nat, o: bytes, rest: bytes) returns (w: nat)
    requires |o| < 0x80 && i <= |data| && data[i..] == SmallFields(o, rest)
    ensures FieldsAt(data, i, w, TBS_FIELDS, Some(o))
    ensures i < w <= |data| && data[w..] == rest
  {
    hide FieldAt, IsTlv, FieldsAt, SmallAlgorithm;
    var oid, empties := Some(o), EMPTY + (EMPTY + (EMPTY + (EMPTY + rest)));
    var algorithm := SmallAlgorithm(o);
    VersionHere(data, i, SERIAL + (algorithm + empties), oid);
    SerialIsTlv();
    ElementHere(data, i + 5, SERIAL, algorithm + empties, TAG_INTEGER, oid);
    AlgorithmHere(data, i + 8, o, empties);
    var j := i + 8 + |algorithm|;
    EmptyFields(data, j, 3, rest, oid);
    w := j + 8;
    SmallFieldsAre(data, i, j, w, oid);
  }

  lemma SerialIsTlv()
    ensures IsTlv(TAG_INTEGER, SERIAL)
  {
    TlvIsTlv(TAG_INTEGER, [1]);
    assert Tlv(TAG_INTEGER, [1]) == SERIAL;
  }

  lemma SmallFieldsAre(data: bytes, i: nat, j: nat, w: nat, oid: AlgoOid)
    requires i + 8 <= j && FieldAt(data, i, 5, VersionField, oid) && FieldAt(data, i + 5, 3, ElementField, oid)
    requires FieldAt(data, i + 8, j - (i + 8), AlgorithmField, oid) && FieldsAt(data, j, w, TBS_FIELDS[3..], oid)
    ensures FieldsAt(data, i, w, TBS_FIELDS, oid)
  {
    hide FieldAt, FieldsAt;
    assert TBS_FIELDS[2..][1..] == TBS_FIELDS[3..] && TBS_FIELDS[1..][1..] == TBS_FIELDS[2..];
    FieldsCons(data, i + 8, j - (i + 8), w, TBS_FIELDS[2..], oid);
    FieldsCons(data, i + 5, 3, w, TBS_FIELDS[1..], oid);
    FieldsCons(data, i, 5, w, TBS_FIELDS, oid);
  }

  /** A TBS with these fields and this content of its extensions element. */
  function SmallTbs(o: bytes, content: bytes): bytes
    requires |o| < 0x80 && |content| < 0x80
  {
    Tlv(TAG_SEQUENCE, SmallFields(o, [TAG_EXTENSIONS, |content|] + content))
  }

  lemma SmallTbsHolds(o: bytes, content: bytes, rest: bytes) returns (start: nat, w: nat, at: nat)
    requires |o| < 0x80 && |content| < 0x80
    ensures
      var data, n := SmallTbs(o, content) + rest, |SmallTbs(o, content)|;
      TbsLayout(data, n, start, w, at, Some(o)) && at <= n && data[at..n] == content
  {
    hide CheckLength, Tlv, DerLength, FieldsAt, SmallFields;
    var extensions := [TAG_EXTENSIONS, |content|] + content;
    var fields := SmallFields(o, extensions);
    var data, n := SmallTbs(o, content) + rest, |SmallTbs(o, content)|;
    assert data[0..] == data;
    ElementRead(data, 0, TAG_SEQUENCE, fields, rest);
    TlvLength(TAG_SEQUENCE, fields);
    start := 1 + |DerLength(|fields|)|;
    FieldsRest(o, extensions, rest);
    w := SmallFieldsHold(data, start, o, extensions + rest);
    ExtensionsTlv(content);
    ElementRead(data, w, TAG_EXTENSIONS, content, rest);
    at := w + 2;
    LengthsAgree(data, w, extensions, rest, n);
  }

  lemma ExtensionsTlv(content: bytes)
    requires |content| < 0x80
    ensures Tlv(TAG_EXTENSIONS, content) == [TAG_EXTENSIONS, |content|] + content && |DerLength(|content|)| == 1
  {
  }

  lemma LengthsAgree(data: bytes, w: nat, a: bytes, rest: bytes, n: nat)
    requires w <= |data| && data[w..] == a + rest && |data| == n + |rest|
    ensures w + |a| == n
  {
  }

  lemma FieldsRest(o: bytes, a: bytes, b: bytes)
    requires |o| < 0x80
    ensures SmallFields(o, a) + b == SmallFields(o, a + b)
  {
    hide SmallAlgorithm;
  }

  /** An algorithm field that ends after the tag of its OID, and a signature element that
      goes on with the rest of it. */
  const CUT_ALGORITHM: bytes := [TAG_SEQUENCE, 1, TAG_OID]

  ghost predicate Straddles(o: bytes, tail: bytes) {
    0 < |o| < 0x80 && o[0] < 0x80 && |o| - 1 + |tail| == o[0]
  }

  function Rest(o: bytes, tail: bytes): bytes
    requires |o| < 0x80
  {
    [|o|] + (o + tail)
  }

  lemma RestIsElement(o: bytes, tail: bytes)
    requires Straddles(o, tail)
    ensures IsTlv(|o|, Rest(o, tail))
  {
    hide IsTlv;
    TlvIsTlv(|o|, o[1..] + tail);
    assert o + tail == [o[0]] + (o[1..] + tail);
    assert Tlv(|o|, o[1..] + tail) == [|o|] + [o[0]] + (o[1..] + tail) == Rest(o, tail);
  }

  lemma CutAlgorithmHere(data: bytes, i: nat, o: bytes, tail: bytes)
    requires Straddles(o, tail) && i <= |data| && data[i..] == CUT_ALGORITHM + Rest(o, tail)
    ensures AlgorithmAt(data, i, 3, Some(o)) && !OidInside(data, i, 3, o)
  {
    hide IsTlv, OidAt, CheckLength;
    CutIsTlv();
    FrontOf(data, i, CUT_ALGORITHM, Rest(o, tail));
    assert Tlv(TAG_SEQUENCE, [TAG_OID]) == CUT_ALGORITHM && |DerLength(1)| == 1;
    ElementRead(data, i, TAG_SEQUENCE, [TAG_OID], Rest(o, tail));
    assert [TAG_OID] + Rest(o, tail) == [TAG_OID, |o|] + o + tail;
    OidHere(data, i + 2, o, tail);
    assert ContentStart(data, i) == i + 2;
  }

  lemma CutIsTlv()
    ensures IsTlv(TAG_SEQUENCE, CUT_ALGORITHM)
  {
    TlvIsTlv(TAG_SEQUENCE, [TAG_OID]);
    assert Tlv(TAG_SEQUENCE, [TAG_OID]) == CUT_ALGORITHM;
  }

  function SmallLeaf(o: bytes, tail: bytes, content: bytes): Parts
    requires |o| < 0x80 && |content| < 0x80
  {
    Parts(SmallTbs(o, content), CUT_ALGORITHM, Rest(o, tail), [])
  }

  /** A leaf whose outer OID ends in its signature keeps the rules if its extensions do. */
  lemma SmallLeafKeepsRules(o: bytes, tail: bytes, content: bytes)
    requires Straddles(o, tail) && |content| < 0x80 && ExtensionRules(content, true)
    ensures
      var p := SmallLeaf(o, tail, content);
      BodyRules(Body(p), Some(o), true, p) && !OidInside(Body(p), |p.tbs|, |p.algorithm|, o)
  {
    hide TbsLayout, ExtensionRules, AlgorithmAt, OidInside, IsTlv, SmallTbs, Rest;
    var p := SmallLeaf(o, tail, content);
    var rest := p.algorithm + (p.signature + []);
    var start, w, at := SmallTbsHolds(o, content, rest);
    var n := |p.tbs|;
    assert Body(p)[n..] == rest == CUT_ALGORITHM + Rest(o, tail);
    CutAlgorithmHere(Body(p), n, o, tail);
    RestIsElement(o, tail);
    RestStarts(o, tail);
    assert Body(p) == SmallTbs(o, content) + rest;
    assert TbsLayout(Body(p), n, start, w, at, Expected(Some(o), true)) && Body(p)[at..n] == content;
  }

  lemma RestStarts(o: bytes, tail: bytes)
    requires |o| < 0x80
    ensures Rest(o, tail) != [] && Rest(o, tail)[0] == |o| && |Rest(o, tail)| == 1 + |o| + |tail|
  {
  }

  lemma SmallLeafSize(o: bytes, tail: bytes, content: bytes)
    requires Straddles(o, tail) && |content| < 0x80
    ensures |Body(SmallLeaf(o, tail, content))| < 0x1_0000
  {
    hide SmallFields, Rest;
    RestStarts(o, tail);
    TlvLength(TAG_SEQUENCE, SmallFields(o, [TAG_EXTENSIONS, |content|] + content));
  }

  /** One certificate that keeps the leaf rules is an accepted chain. */
  lemma LeafAccepted(oid: AlgoOid, p: Parts)
    requires BodyRules(Body(p), oid, true, p) && p.more == [] && |Body(p)| < 0x1_0000
    ensures
      var chain := Tlv(TAG_SEQUENCE, Body(p));
      Cuts(chain, oid) == Ok([0, |chain|]) && LastCertificate(chain, oid, [0, |chain|], p)
  {
    hide BodyRules, BodyOf, Cuts, Certificate, CertificateOf, Tlv, X509;
    var chain := Tlv(TAG_SEQUENCE, Body(p));
    BodyRulesIff(Body(p), oid, true, p);
    LeafIsCertificate(X509(oid), p);
    assert chain[0..] == chain;
    assert Certificate(X509(oid), chain, |chain|) by {
      CertificateIs(X509(oid), chain, |chain|, p);
    }
    assert CertificateAt(chain, oid, [0, |chain|], 0);
    ChainAcceptedIff(chain, oid, [0, |chain|]);
  }

  lemma CertificateIs(checks: Checks, rest: bytes, n: nat, p: Parts)
    requires CertificateOf(checks, rest, n, p)
    ensures Certificate(checks, rest, n)
  {
  }

  lemma LeafIsCertificate(checks: Checks, p: Parts)
    requires BodyOf(checks, Body(p), true, p) && p.more == [] && |Body(p)| < 0x1_0000
    ensures CertificateOf(checks, Tlv(TAG_SEQUENCE, Body(p)), |Tlv(TAG_SEQUENCE, Body(p))|, p)
    ensures |Tlv(TAG_SEQUENCE, Body(p))| > 0
  {
    hide BodyOf, Tlv, CheckLength, DerLength;
    var chain, body := Tlv(TAG_SEQUENCE, Body(p)), Body(p);
    assert chain[0..] == chain == chain + [];
    ElementRead(chain, 0, TAG_SEQUENCE, body, []);
    assert chain[1 + |DerLength(|body|)|..] == body + [] == body;
    TlvLength(TAG_SEQUENCE, body);
  }

  function AgreementContent(): (r: bytes)
    ensures |r| == 16
  {
    AgreementSize();
    Tlv(TAG_SEQUENCE, AGREEMENT_ONLY.Octets())
  }

  /** An accepted chain whose leaf has a key usage without digitalSignature and an outer
      algorithm field that ends before its OID does. */
  lemma LeafWitness(o: bytes, tail: bytes)
    requires Straddles(o, tail)
    ensures
      var p := SmallLeaf(o, tail, AgreementContent());
      && |Body(p)| < 0x1_0000
      && var chain := Tlv(TAG_SEQUENCE, Body(p));
      && Cuts(chain, Some(o)) == Ok([0, |chain|]) && LastCertificate(chain, Some(o), [0, |chain|], p)
      && TbsExtensions(Body(p), |p.tbs|, Some(o), [AGREEMENT_ONLY])
      && FirstKeyUsage([AGREEMENT_ONLY], AGREEMENT_BITS) && !NamedBit(AGREEMENT_BITS, DIGITAL_SIGNATURE)
      && !OidInside(Body(p), |p.tbs|, |p.algorithm|, o)
  {
    hide BodyRules, OidInside, SmallTbs, Rest, Tlv, Cuts, LastCertificate, ExtensionRules, Extension.Octets;
    hide Extension.Valid, FirstKeyUsage, NamedBit, TbsLayout, Join;
    var content := AgreementContent();
    AgreementRules();
    AgreementPasses();
    var p := SmallLeaf(o, tail, content);
    SmallLeafSize(o, tail, content);
    SmallLeafKeepsRules(o, tail, content);
    LeafAccepted(Some(o), p);
    var start, w, at := SmallTbsHolds(o, content, p.algorithm + (p.signature + []));
    assert TbsLayout(Body(p), |p.tbs|, start, w, at, Some(o));
  }

  lemma ShortTlv(tag: byte, body: bytes)
    requires |body| < 0x80
    ensures Tlv(tag, body) == [tag, |body|] + body
  {
  }

  /** The smallest of them, element by element: certificate, TBS, version, serial number,
      algorithm, issuer, validity, subject, key, the key usage extension, and behind the
      TBS the cut algorithm and the signature. */
  lemma LiteralLeaf()
    ensures
      var extensions: bytes := [0xA3, 0x10] + ([0x30, 0x0E] + ([0x30, 0x0C] + ([0x06, 0x03, 0x55, 0x1D, 0x0F]
                                 + ([0x04, 0x05] + [0x03, 0x03, 0x07, 0x08, 0x80]))));
      var fields: bytes := [0xA0, 0x03, 0x02, 0x01, 0x02] + ([0x02, 0x01, 0x01] + ([0x30, 0x05, 0x06, 0x03, 0x03, 0x01, 0x02]
                             + ([0x30, 0x00] + ([0x30, 0x00] + ([0x30, 0x00] + ([0x30, 0x00] + extensions))))));
      var chain := [0x30, 0x33] + (([0x30, 0x29] + fields) + ([0x30, 0x01, 0x06] + ([0x03, 0x03, 0x01, 0x02, 0x00] + [])));
      |chain| == 53 && Cuts(chain, Some([3, 1, 2])) == Ok([0, 53])
  {
    hide Cuts, LastCertificate, TbsExtensions, FirstKeyUsage, NamedBit, OidInside, Tlv, DerLength;
    LeafWitness([3, 1, 2], [0]);
    LiteralContent();
    var content := AgreementContent();
    assert SmallAlgorithm([3, 1, 2]) == [0x30, 0x05, 0x06, 0x03, 0x03, 0x01, 0x02] by {
      ShortTlv(TAG_SEQUENCE, [TAG_OID, 3] + [3, 1, 2]);
    }
    hide AgreementContent, SmallAlgorithm;
    ShortTlv(TAG_SEQUENCE, SmallFields([3, 1, 2], [TAG_EXTENSIONS, 0x10] + content));
    ShortTlv(TAG_SEQUENCE, Body(SmallLeaf([3, 1, 2], [0], content)));
    assert Rest([3, 1, 2], [0]) == [0x03, 0x03, 0x01, 0x02, 0x00];
  }

  lemma LiteralContent()
    ensures AgreementContent()
            == [0x30, 0x0E] + ([0x30, 0x0C] + ([0x06, 0x03, 0x55, 0x1D, 0x0F] + ([0x04, 0x05] + [0x03, 0x03, 0x07, 0x08, 0x80])))
  {
    hide DerLength, Tlv;
    AgreementSize();
    var value: bytes := [0x03, 0x03, 0x07, 0x08, 0x80];
    ShortTlv(TAG_BIT_STRING, AGREEMENT_BITS);
    assert AGREEMENT_ONLY.value == value;
    ShortTlv(TAG_OCTET_STRING, value);
    assert AGREEMENT_ONLY.Tail() == [0x04, 0x05] + value;
    ShortTlv(TAG_OID, OID_KEY_USAGE);
    assert Tlv(TAG_OID, OID_KEY_USAGE) == [0x06, 0x03, 0x55, 0x1D, 0x0F];
    ShortTlv(TAG_SEQUENCE, [0x06, 0x03, 0x55, 0x1D, 0x0F] + ([0x04, 0x05] + value));
    ShortTlv(TAG_SEQUENCE, AGREEMENT_ONLY.Octets());
  }
}
