/** The certificate chain checks: tiling of a chain by certificates, the inside of a
    certificate, and the extension walkers. */
module CertChain {
  import opened Bytes
  import opened Status
  import opened Der
  import opened ChainTiling
  import opened CertificateShape

  const OID_KEY_USAGE: bytes := [0x55, 0x1D, 0x0F]
  const OID_SUBJECT_ALTERNATIVE_NAME: bytes := [0x55, 0x1D, 0x11]
  const OID_EXT_KEY_USAGE: bytes := [0x55, 0x1D, 0x25]
  const OID_DEVICE_INFO: bytes := [0x2B, 0x06, 0x01, 0x04, 0x01, 0x83, 0x1C, 0x82, 0x12, 0x01]
  const OID_HARDWARE_IDENTITY: bytes := [0x2B, 0x06, 0x01, 0x04, 0x01, 0x83, 0x1C, 0x82, 0x12, 0x02]
  const OID_RESPONDER_AUTH: bytes := [0x2B, 0x06, 0x01, 0x04, 0x01, 0x83, 0x1C, 0x82, 0x12, 0x03]
  const OID_REQUESTER_AUTH: bytes := [0x2B, 0x06, 0x01, 0x04, 0x01, 0x83, 0x1C, 0x82, 0x12, 0x04]
  const OID_MUTABLE_CERTIFICATE: bytes := [0x2B, 0x06, 0x01, 0x04, 0x01, 0x83, 0x1C, 0x82, 0x12, 0x05]
  const OID_SPDM_EXTENSION: bytes := [0x2B, 0x06, 0x01, 0x04, 0x01, 0x83, 0x1C, 0x82, 0x12, 0x06]

  /** The algorithm's signature OID, if the algorithm is one the checks know. */
  type AlgoOid = Option<bytes>

  function CheckVersion(data: bytes): (r: Result<nat>)
    ensures r.Ok? <==> [TAG_VERSION, 3, TAG_INTEGER, 1, 2] <= data
    ensures r.Ok? ==> r.value == 5
  {
    if |data| < 5 || data[0] != TAG_VERSION || data[1] != 3 || data[2] != TAG_INTEGER || data[3] != 1 || data[4] != 2
    then Err(VerifFail) else Ok(5)
  }

  /** The data starts with an OBJECT IDENTIFIER of short length, and with the
      expected one if one is expected. */
  function CheckObjectIdentifier(data: bytes, oid: AlgoOid): Result<nat> {
    if |data| < 2 || data[0] != TAG_OID then Err(VerifFail)
    else if |data| - 2 < data[1] || data[1] >= 0x80 then Err(VerifFail)
    else if oid.Some? && data[2..2 + data[1]] != oid.value then Err(VerifFail)
    else Ok(2 + |data[2..2 + data[1]]|)
  }

  /** An AlgorithmIdentifier: a SEQUENCE that starts with the OID. */
  function CheckAlgorithm(data: bytes, oid: AlgoOid): (r: Result<nat>)
    ensures r.Ok? ==> 2 <= r.value <= |data| && IsTlv(TAG_SEQUENCE, data[..r.value])
  {
    if |data| < 1 || data[0] != TAG_SEQUENCE then Err(VerifFail) else
    var l :- CheckLength(data[1..]);
    var _ :- CheckObjectIdentifier(data[1 + l.1..], oid);
    TlvSizePrefix(data, 1 + l.1 + l.0);
    Ok(1 + l.1 + l.0)
  }

  /** The extensions field and its payload; without the tag, all that is left. */
  function GetExtensions(data: bytes): (r: Result<(nat, bytes)>)
    ensures r.Ok? ==> r.value.0 <= |data|
  {
    if |data| < 1 || data[0] != TAG_EXTENSIONS then Ok((|data|, data)) else
    var l :- CheckLength(data[1..]);
    Ok((1 + l.1 + l.0, data[1 + l.1..1 + l.1 + l.0]))
  }

  /** From the extension's OID on: an optional BOOLEAN, an OCTET STRING, and in it
      the BIT STRING whose last octet is the answer. */
  function KeyUsageAfterOid(data: bytes, i: nat): Result<(bool, byte)> {
    if i >= |data| then Err(VerifFail) else
    var j :- SkipBoolean(data, i);
    if j >= |data| || data[j] != TAG_OCTET_STRING || j + 1 >= |data| then Err(VerifFail) else
    var l :- CheckLength(data[j + 1..]);
    var k := j + 1 + l.1;
    if k >= |data| then Err(VerifFail)
    else if data[k] != TAG_BIT_STRING then Ok((false, 0))
    else if k + 1 >= |data| then Err(VerifFail) else
    var s :- CheckLength(data[k + 1..]);
    Ok((true, data[k + s.1 + s.0]))
  }

  function SkipBoolean(data: bytes, i: nat): (r: Result<nat>)
    requires i < |data|
    ensures r.Ok? ==> r.value >= i
  {
    if data[i] != TAG_BOOLEAN then Ok(i)
    else if i + 1 >= |data| then Err(VerifFail) else
    var l :- CheckLength(data[i + 1..]);
    Ok(i + 1 + l.1 + l.0)
  }

  /** The search for the key usage extension: into SEQUENCEs, over anything else. */
  function KeyUsageFrom(data: bytes, i: nat): Result<(bool, byte)>
    decreases |data| - i
  {
    if i >= |data| then Ok((false, 0))
    else if i + 1 >= |data| then Err(VerifFail) else
    var l :- CheckLength(data[i + 1..]);
    var value := i + 1 + l.1;
    if data[i] == TAG_SEQUENCE then KeyUsageFrom(data, value)
    else if data[i] == TAG_OID && data[value..value + l.0] == OID_KEY_USAGE then KeyUsageAfterOid(data, value + l.0)
    else KeyUsageFrom(data, value + l.0)
  }

  lemma KeyUsageStep(data: bytes, i: nat)
    requires i + 1 < |data| && CheckLength(data[i + 1..]).Ok?
    ensures
      var l := CheckLength(data[i + 1..]).value;
      var value := i + 1 + l.1;
      KeyUsageFrom(data, i)
      == if data[i] == TAG_SEQUENCE then KeyUsageFrom(data, value)
         else if data[i] == TAG_OID && data[value..value + l.0] == OID_KEY_USAGE then KeyUsageAfterOid(data, value + l.0)
         else KeyUsageFrom(data, value + l.0)
  {
    hide CheckLength, KeyUsageAfterOid;
  }

  lemma KeyUsageEnds(data: bytes, i: nat)
    ensures i >= |data| ==> KeyUsageFrom(data, i) == Ok((false, 0))
    ensures i + 1 == |data| ==> KeyUsageFrom(data, i) == Err(VerifFail)
    ensures i + 1 < |data| && CheckLength(data[i + 1..]).Err? ==> KeyUsageFrom(data, i) == Err(VerifFail)
  {
    hide CheckLength, KeyUsageAfterOid;
  }

  function KeyUsage(data: bytes): Result<(bool, byte)> {
    if |data| < 1 || data[0] != TAG_SEQUENCE then Err(VerifFail) else
    var l :- CheckLength(data[1..]);
    KeyUsageFrom(data, 1 + l.1)
  }

  /** The extension's OID and the size of the whole extension. */
  function GetExtnId(data: bytes): (r: Result<(bytes, nat)>)
    ensures r.Ok? ==> 2 <= r.value.1 <= |data|
  {
    if |data| < 1 || data[0] != TAG_SEQUENCE then Err(VerifFail) else
    var l :- CheckLength(data[1..]);
    var id := data[1 + l.1..];
    if |id| == 0 || id[0] != TAG_OID then Err(VerifFail) else
    var m :- CheckLength(id[1..]);
    Ok((id[1 + m.1..1 + m.1 + m.0], 1 + l.1 + l.0))
  }

  /** The search for an OID inside one extension: into SEQUENCEs and OCTET STRINGs,
      over anything else, and no further than the OID could still fit. */
  function FindOidFrom(data: bytes, oid: bytes, i: nat): Result<bool>
    decreases |data| - i
  {
    if i + |oid| >= |data| then Ok(false)
    else if i + 1 >= |data| then Err(VerifFail) else
    var l :- CheckLength(data[i + 1..]);
    var value := i + 1 + l.1;
    if data[i] == TAG_OID && data[value..value + l.0] == oid then Ok(true)
    else if data[i] == TAG_SEQUENCE || data[i] == TAG_OCTET_STRING then FindOidFrom(data, oid, value)
    else FindOidFrom(data, oid, value + l.0)
  }

  lemma FindOidStep(data: bytes, oid: bytes, i: nat)
    requires i + 1 < |data| && i + |oid| < |data| && CheckLength(data[i + 1..]).Ok?
    ensures
      var l := CheckLength(data[i + 1..]).value;
      var value := i + 1 + l.1;
      FindOidFrom(data, oid, i)
      == if data[i] == TAG_OID && data[value..value + l.0] == oid then Ok(true)
         else if data[i] == TAG_SEQUENCE || data[i] == TAG_OCTET_STRING then FindOidFrom(data, oid, value)
         else FindOidFrom(data, oid, value + l.0)
  {
    hide CheckLength;
  }

  lemma FindOidEnds(data: bytes, oid: bytes, i: nat)
    ensures i + |oid| >= |data| ==> FindOidFrom(data, oid, i) == Ok(false)
    ensures i + |oid| < |data| && (i + 1 == |data| || (i + 1 < |data| && CheckLength(data[i + 1..]).Err?)) ==>
              FindOidFrom(data, oid, i) == Err(VerifFail)
  {
    hide CheckLength;
  }

  function FindOid(data: bytes, oid: bytes): Result<bool> {
    if |data| < 1 then Err(VerifFail) else FindOidFrom(data, oid, 0)
  }

  /** The two authentication OIDs in an extended key usage extension; the second is
      looked for only if the first is absent. */
  function AuthOids(extension: bytes): Result<(bool, bool)> {
    var responder :- FindOid(extension, OID_RESPONDER_AUTH);
    if responder then Ok((true, false)) else
    var requester :- FindOid(extension, OID_REQUESTER_AUTH);
    Ok((false, requester))
  }

  /** The OID searches that only feed the log still decide success. */
  function LoggedOids(extension: bytes, id: bytes): Result<()> {
    if id == OID_SUBJECT_ALTERNATIVE_NAME then
      var _ :- FindOid(extension, OID_DEVICE_INFO);
      Ok(())
    else if id == OID_SPDM_EXTENSION then
      var found :- FindOid(extension, OID_MUTABLE_CERTIFICATE);
      if found then Ok(()) else
      var _ :- FindOid(extension, OID_HARDWARE_IDENTITY);
      Ok(())
    else Ok(())
  }

  /** Whether any extension from i to `limit` carries an authentication OID. */
  function AuthOidFrom(data: bytes, limit: nat, i: nat, found: bool): Result<bool>
    requires limit <= |data|
    decreases limit - i
  {
    if i >= limit then Ok(found) else
    var e :- GetExtnId(data[i..]);
    if e.1 > limit - i then Err(VerifFail) else
    var extension := data[i..i + e.1];
    var auth :- if e.0 == OID_EXT_KEY_USAGE then AuthOids(extension) else Ok((false, false));
    var _ :- LoggedOids(extension, e.0);
    AuthOidFrom(data, limit, i + e.1, found || auth.0 || auth.1)
  }

  /** Authentication OIDs must not appear outside a leaf certificate. */
  function CheckSpdmOids(extensions: bytes, isLeaf: bool): Result<bool> {
    if |extensions| < 1 || extensions[0] != TAG_SEQUENCE then Err(VerifFail) else
    var l :- CheckLength(extensions[1..]);
    var found :- AuthOidFrom(extensions[1 + l.1..], l.0, 0, false);
    Ok(isLeaf || !found)
  }

  /** Steps over a tag and its length; both and at least one octet more must be
      there. */
  function Enter(data: bytes, w: nat, tag: byte): (r: Result<(nat, nat)>)
    ensures r.Ok? ==> w + 2 <= r.value.1 < |data| && r.value.1 + r.value.0 <= |data|
  {
    if w + 1 >= |data| || data[w] != tag then Err(VerifFail) else
    var l :- CheckLength(data[w + 1..]);
    if w + 1 + l.1 >= |data| then Err(VerifFail) else Ok((l.0, w + 1 + l.1))
  }

  /** Behind the SPDM extension's OID: an optional BOOLEAN of three octets, then the
      value, whose first OID must have the target's length. */
  function SpdmExtensionHolds(data: bytes, oid: bytes, i: nat): Result<bool>
    requires i < |data|
  {
    var j := if data[i] == TAG_BOOLEAN then i + 3 else i;
    var octets :- Enter(data, j, TAG_OCTET_STRING);
    var outer :- Enter(data, octets.1, TAG_SEQUENCE);
    var inner :- Enter(data, outer.1, TAG_SEQUENCE);
    var id :- Enter(data, inner.1, TAG_OID);
    if id.0 != |oid| then Err(VerifFail) else Ok(data[id.1..id.1 + id.0] == oid)
  }

  /** Extension by extension, each skipped by its own length. */
  function FindInExtensionsFrom(data: bytes, oid: bytes, w: nat): Result<bool>
    decreases |data| - w
  {
    if w >= |data| then Ok(false) else
    var extension :- Enter(data, w, TAG_SEQUENCE);
    var id :- Enter(data, extension.1, TAG_OID);
    var at := id.1 + id.0;
    var holds :- if at < |data| && data[id.1..at] == OID_SPDM_EXTENSION then SpdmExtensionHolds(data, oid, at) else Ok(false);
    if holds then Ok(true) else FindInExtensionsFrom(data, oid, extension.1 + extension.0)
  }

  function FindInExtensions(data: bytes, oid: bytes): Result<bool> {
    if |data| < 2 || data[0] != TAG_SEQUENCE then Err(VerifFail) else
    var l :- CheckLength(data[1..]);
    FindInExtensionsFrom(data[1 + l.1..1 + l.1 + l.0], oid, 0)
  }

  /** An element with this tag and value starts at offset i. */
  ghost predicate ElementAt(data: bytes, i: nat, tag: byte, value: bytes) {
    && i < |data| && data[i] == tag && CheckLength(data[i + 1..]).Ok?
    && var l := CheckLength(data[i + 1..]).value;
    data[i + 1 + l.1..i + 1 + l.1 + l.0] == value
  }

  /** An OID that is found is there as an element. */
  lemma {:induction false} FindOidSound(data: bytes, oid: bytes, i: nat)
    requires FindOidFrom(data, oid, i) == Ok(true)
    ensures exists j: nat :: i <= j && ElementAt(data, j, TAG_OID, oid)
    decreases |data| - i
  {
    hide CheckLength;
    var l := CheckLength(data[i + 1..]).value;
    var value := i + 1 + l.1;
    if data[i] == TAG_OID && data[value..value + l.0] == oid {
      assert ElementAt(data, i, TAG_OID, oid);
    } else if data[i] == TAG_SEQUENCE || data[i] == TAG_OCTET_STRING {
      FindOidSound(data, oid, value);
    } else {
      FindOidSound(data, oid, value + l.0);
    }
  }

  lemma EnterIsElement(data: bytes, w: nat, tag: byte)
    requires Enter(data, w, tag).Ok?
    ensures var e := Enter(data, w, tag).value; ElementAt(data, w, tag, data[e.1..e.1 + e.0])
  {
    hide CheckLength;
  }

  lemma HoldsIsElement(data: bytes, oid: bytes, i: nat) returns (k: nat)
    requires i < |data| && SpdmExtensionHolds(data, oid, i) == Ok(true)
    ensures i <= k && ElementAt(data, k, TAG_OID, oid)
  {
    hide Enter, ElementAt;
    var j := if data[i] == TAG_BOOLEAN then i + 3 else i;
    var octets := Enter(data, j, TAG_OCTET_STRING).value;
    var outer := Enter(data, octets.1, TAG_SEQUENCE).value;
    k := Enter(data, outer.1, TAG_SEQUENCE).value.1;
    EnterIsElement(data, k, TAG_OID);
  }

  /** An OID that is found among the extensions is there as an element, behind the OID
      of an SPDM extension. */
  lemma {:induction false} FindInExtensionsSound(data: bytes, oid: bytes, w: nat)
    requires FindInExtensionsFrom(data, oid, w) == Ok(true)
    ensures exists j: nat, k: nat :: w < j < k && ElementAt(data, j, TAG_OID, OID_SPDM_EXTENSION) && ElementAt(data, k, TAG_OID, oid)
    decreases |data| - w
  {
    hide Enter, ElementAt, SpdmExtensionHolds;
    var extension := Enter(data, w, TAG_SEQUENCE).value;
    var id := Enter(data, extension.1, TAG_OID).value;
    var at := id.1 + id.0;
    if at < |data| && data[id.1..at] == OID_SPDM_EXTENSION && SpdmExtensionHolds(data, oid, at) == Ok(true) {
      EnterIsElement(data, extension.1, TAG_OID);
      var k := HoldsIsElement(data, oid, at);
      assert w < extension.1 < k;
    } else {
      FindInExtensionsSound(data, oid, extension.1 + extension.0);
    }
  }

  /** v is the last octet of a BIT STRING element that starts at offset k (or its
      length octet, if the string is empty). */
  ghost predicate LastOctetAt(data: bytes, k: nat, v: byte) {
    && k < |data| && data[k] == TAG_BIT_STRING && CheckLength(data[k + 1..]).Ok?
    && var l := CheckLength(data[k + 1..]).value;
    data[k + l.1 + l.0] == v
  }

  lemma AfterOidSound(data: bytes, i: nat, v: byte) returns (k: nat)
    requires KeyUsageAfterOid(data, i) == Ok((true, v))
    ensures i < k && LastOctetAt(data, k, v)
  {
    hide CheckLength, SkipBoolean;
    var j := SkipBoolean(data, i).value;
    k := j + 1 + CheckLength(data[j + 1..]).value.1;
  }

  /** A key usage that is found is the last octet of a BIT STRING behind a key usage
      OID. */
  lemma {:induction false} KeyUsageSound(data: bytes, i: nat, v: byte)
    requires KeyUsageFrom(data, i) == Ok((true, v))
    ensures exists j: nat, k: nat :: i <= j < k && ElementAt(data, j, TAG_OID, OID_KEY_USAGE) && LastOctetAt(data, k, v)
    decreases |data| - i
  {
    hide CheckLength, KeyUsageAfterOid, LastOctetAt;
    var l := CheckLength(data[i + 1..]).value;
    var value := i + 1 + l.1;
    if data[i] == TAG_SEQUENCE {
      KeyUsageSound(data, value, v);
    } else if data[i] == TAG_OID && data[value..value + l.0] == OID_KEY_USAGE {
      var k := AfterOidSound(data, value + l.0, v);
      assert ElementAt(data, i, TAG_OID, OID_KEY_USAGE);
    } else {
      KeyUsageSound(data, value + l.0, v);
    }
  }

  /** The key usage octet of a leaf, if there is one, must have its highest bit set. */
  predicate KeyUsageAllowed(usage: (bool, byte), isLeaf: bool) {
    isLeaf && usage.0 ==> usage.1 >= 0x80
  }

  /** The fields of a TBSCertificate before the extensions, by how they are checked. */
  datatype Field = VersionField | ElementField | AlgorithmField | SequenceField

  const TBS_FIELDS: seq<Field> :=
    [VersionField, ElementField, AlgorithmField, SequenceField, SequenceField, SequenceField, SequenceField]

  function CheckField(data: bytes, field: Field, oid: AlgoOid): (r: Result<nat>)
    ensures r.Ok? ==> 2 <= r.value <= |data|
  {
    match field
    case VersionField => CheckVersion(data)
    case ElementField => SkipTag(data)
    case AlgorithmField => CheckAlgorithm(data, oid)
    case SequenceField => SkipSequence(data)
  }

  /** Field after field from offset i; the offset behind the last one. */
  function WalkFields(data: bytes, i: nat, fields: seq<Field>, oid: AlgoOid): (r: Result<nat>)
    requires i <= |data|
    ensures r.Ok? ==> i + 2 * |fields| <= r.value <= |data|
    decreases |fields|
  {
    if fields == [] then Ok(i) else
    var n :- CheckField(data[i..], fields[0], oid);
    WalkFields(data, i + n, fields[1..], oid)
  }

  lemma WalkStep(data: bytes, i: nat, k: nat, oid: AlgoOid)
    requires i <= |data| && k < |TBS_FIELDS|
    ensures WalkFields(data, i, TBS_FIELDS[k..], oid)
            == match CheckField(data[i..], TBS_FIELDS[k], oid) {
                 case Err(e) => Err(e)
                 case Ok(n) => WalkFields(data, i + n, TBS_FIELDS[k + 1..], oid)
               }
  {
    hide CheckField;
    assert TBS_FIELDS[k..][1..] == TBS_FIELDS[k + 1..];
  }

  function CheckTbs(data: bytes, oid: AlgoOid, isLeaf: bool): (r: Result<nat>)
    ensures r.Ok? ==> 2 <= r.value <= |data|
  {
    if |data| < 1 || data[0] != TAG_SEQUENCE then Err(VerifFail) else
    var l :- CheckLength(data[1..]);
    var w :- WalkFields(data, 1 + l.1, TBS_FIELDS, if isLeaf then oid else None);
    var ext :- GetExtensions(data[w..]);
    var usage :- KeyUsage(ext.1);
    var allowed :- CheckSpdmOids(ext.1, isLeaf);
    if w + ext.0 == 1 + l.1 + l.0 && KeyUsageAllowed(usage, isLeaf) && allowed then Ok(1 + l.1 + l.0)
    else Err(VerifFail)
  }

  lemma TbsIsSequence(data: bytes, oid: AlgoOid, isLeaf: bool)
    ensures CheckTbs(data, oid, isLeaf).Ok? ==> StartsWithSequence(data, CheckTbs(data, oid, isLeaf).value)
  {
    hide WalkFields, GetExtensions, KeyUsage, CheckSpdmOids;
    if CheckTbs(data, oid, isLeaf).Ok? {
      TlvSizePrefix(data, CheckTbs(data, oid, isLeaf).value);
    }
  }

  /** The checks that make up `check_cert_format` for one algorithm. */
  function X509(oid: AlgoOid): Checks {
    Checks((data, isLeaf) => CheckTbs(data, oid, isLeaf),
           (data, isLeaf) => CheckAlgorithm(data, if isLeaf then oid else None))
  }

  lemma X509Elements(oid: AlgoOid)
    ensures X509(oid).Elements()
  {
    hide CheckTbs, CheckAlgorithm, StartsWithSequence;
    forall data, isLeaf ensures X509(oid).tbs(data, isLeaf).Ok? ==>
                                  StartsWithSequence(data, X509(oid).tbs(data, isLeaf).value) {
      TbsIsSequence(data, oid, isLeaf);
    }
    forall data, isLeaf ensures X509(oid).algorithm(data, isLeaf).Ok? ==>
                                  StartsWithSequence(data, X509(oid).algorithm(data, isLeaf).value) {
      AlgorithmIsSequence(data, if isLeaf then oid else None);
    }
  }

  lemma AlgorithmIsSequence(data: bytes, oid: AlgoOid)
    ensures CheckAlgorithm(data, oid).Ok? ==> StartsWithSequence(data, CheckAlgorithm(data, oid).value)
  {
  }

  function CertCheck(oid: AlgoOid): Check {
    rest => CheckCert(X509(oid), rest)
  }

  /** The offsets of the certificates in an accepted chain. */
  ghost function Cuts(chain: bytes, oid: AlgoOid): Result<seq<nat>> {
    ChainFrom(CertCheck(oid), chain, 0)
  }

  /** The cuts divide the chain into certificates and nothing else. */
  ghost predicate TiledByCertificates(chain: bytes, oid: AlgoOid, cuts: seq<nat>) {
    && |cuts| >= 1 && cuts[0] == 0 && cuts[|cuts| - 1] == |chain|
    && forall i :: 0 <= i < |cuts| - 1 ==> CertificateAt(chain, oid, cuts, i)
  }

  ghost predicate CertificateAt(chain: bytes, oid: AlgoOid, cuts: seq<nat>, i: nat)
    requires i + 1 < |cuts|
  {
    cuts[i] < cuts[i + 1] <= |chain| && Certificate(X509(oid), chain[cuts[i]..], cuts[i + 1] - cuts[i])
  }

  /** A chain is accepted exactly when certificates tile it, with these cuts. */
  lemma ChainAcceptedIff(chain: bytes, oid: AlgoOid, cuts: seq<nat>)
    ensures Cuts(chain, oid) == Ok(cuts) <==> TiledByCertificates(chain, oid, cuts)
  {
    hide Certificate, CheckCert;
    X509Elements(oid);
    var check := CertCheck(oid);
    forall i | 0 <= i < |cuts| - 1 ensures CutAt(check, chain, cuts, i) <==> CertificateAt(chain, oid, cuts, i) {
      if cuts[i] < cuts[i + 1] <= |chain| {
        var rest, n := chain[cuts[i]..], cuts[i + 1] - cuts[i];
        if CheckCert(X509(oid), rest) == Ok(n) {
          CertSound(X509(oid), rest);
        }
        if Certificate(X509(oid), rest, n) {
          CertComplete(X509(oid), rest, n);
        }
      }
    }
    if Cuts(chain, oid) == Ok(cuts) {
      ChainSound(check, chain, 0);
    }
    if TiledByCertificates(chain, oid, cuts) {
      ChainComplete(check, chain, cuts);
    }
  }

  /** The leaf rules bind the last certificate and no other. */
  lemma LeafIsLast(chain: bytes, oid: AlgoOid, cuts: seq<nat>, i: nat, p: Parts)
    requires TiledByCertificates(chain, oid, cuts) && i + 1 < |cuts|
    requires cuts[i] < cuts[i + 1] <= |chain|
    requires CertificateOf(X509(oid), chain[cuts[i]..], cuts[i + 1] - cuts[i], p)
    ensures p.more == [] <==> i == |cuts| - 2
    ensures CheckTbs(p.tbs + (p.algorithm + (p.signature + p.more)), oid, i == |cuts| - 2) == Ok(|p.tbs|)
  {
    assert CertificateAt(chain, oid, cuts, i);
    if i < |cuts| - 2 {
      assert CertificateAt(chain, oid, cuts, i + 1);
    }
    hide CheckTbs, CheckAlgorithm, SequenceHeader;
    assert BodyOf(X509(oid), p.tbs + (p.algorithm + (p.signature + p.more)), p.more == [], p);
  }
}
