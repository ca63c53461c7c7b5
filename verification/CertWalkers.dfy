/** The certificate walkers as index-advancing loops, each proved to compute what
    its specification says, and the second, independent chain walker. */
module CertWalkers {
  import opened Bytes
  import opened Status
  import opened Der
  import opened ChainTiling
  import opened CertificateShape
  import opened CertChain

  method ObjectIdentifiersAreSame(a: bytes, b: bytes) returns (same: bool)
    ensures same <==> a == b
  {
    if |a| != |b| {
      return false;
    }
    for i := 0 to |a|
      invariant a[..i] == b[..i]
    {
      if a[i] != b[i] {
        return false;
      }
    }
    same := true;
  }

  method GetKeyUsageValue(data: bytes) returns (r: Result<(bool, byte)>)
    ensures r == KeyUsage(data)
  {
    hide CheckLength, KeyUsageAfterOid, KeyUsageFrom;
    if |data| < 1 || data[0] != TAG_SEQUENCE {
      return Err(VerifFail);
    }
    var outer :- CheckLength(data[1..]);
    var index := 1 + outer.1;
    while index < |data|
      invariant KeyUsage(data) == KeyUsageFrom(data, index)
    {
      KeyUsageEnds(data, index);
      if index + 1 >= |data| {
        return Err(VerifFail);
      }
      var l :- CheckLength(data[index + 1..]);
      KeyUsageStep(data, index);
      var value := index + 1 + l.1;
      if data[index] == TAG_SEQUENCE {
        index := value;
        continue;
      }
      if data[index] == TAG_OID {
        var same := ObjectIdentifiersAreSame(data[value..value + l.0], OID_KEY_USAGE);
        if same {
          r := KeyUsageAfterOid(data, value + l.0);
          return;
        }
      }
      index := value + l.0;
    }
    KeyUsageEnds(data, index);
    r := Ok((false, 0));
  }

  method FindTargetObjectIdentifierInSingleExtension(data: bytes, oid: bytes) returns (r: Result<bool>)
    ensures r == FindOid(data, oid)
  {
    hide CheckLength, FindOidFrom;
    if |data| < 1 {
      return Err(VerifFail);
    }
    if |data| < |oid| {
      FindOidEnds(data, oid, 0);
      return Ok(false);
    }
    var index := 0;
    while index < |data| - |oid|
      invariant FindOid(data, oid) == FindOidFrom(data, oid, index)
    {
      FindOidEnds(data, oid, index);
      if index + 1 >= |data| {
        return Err(VerifFail);
      }
      var l :- CheckLength(data[index + 1..]);
      FindOidStep(data, oid, index);
      var value := index + 1 + l.1;
      if data[index] == TAG_OID {
        var same := ObjectIdentifiersAreSame(data[value..value + l.0], oid);
        if same {
          return Ok(true);
        }
        index := value + l.0;
      } else if data[index] == TAG_SEQUENCE || data[index] == TAG_OCTET_STRING {
        index := value;
      } else {
        index := value + l.0;
      }
    }
    FindOidEnds(data, oid, index);
    r := Ok(false);
  }

  method CheckExtensionsSpdmOid(extensions: bytes, isLeaf: bool) returns (r: Result<bool>)
    ensures r == CheckSpdmOids(extensions, isLeaf)
  {
    hide CheckLength, GetExtnId, AuthOids, LoggedOids;
    if |extensions| < 1 || extensions[0] != TAG_SEQUENCE {
      return Err(VerifFail);
    }
    var l :- CheckLength(extensions[1..]);
    var data := extensions[1 + l.1..];
    var found, index := false, 0;
    while index < l.0
      invariant AuthOidFrom(data, l.0, 0, false) == AuthOidFrom(data, l.0, index, found)
    {
      var e :- GetExtnId(data[index..]);
      if e.1 > l.0 - index {
        return Err(VerifFail);
      }
      var auth := SearchExtension(data[index..index + e.1], e.0);
      if auth.Err? {
        return Err(auth.status);
      }
      found := found || auth.value;
      index := index + e.1;
    }
    r := Ok(isLeaf || !found);
  }

  /** The OID searches one extension triggers; true if an authentication OID is
      among what was found. */
  method SearchExtension(extension: bytes, id: bytes) returns (r: Result<bool>)
    ensures
      var auth := if id == OID_EXT_KEY_USAGE then AuthOids(extension) else Ok((false, false));
      var logged := LoggedOids(extension, id);
      r == if auth.Err? then Err(auth.status) else
           if logged.Err? then Err(logged.status) else Ok(auth.value.0 || auth.value.1)
  {
    hide FindOid;
    if id == OID_SUBJECT_ALTERNATIVE_NAME {
      var device := FindTargetObjectIdentifierInSingleExtension(extension, OID_DEVICE_INFO);
      r := if device.Err? then Err(device.status) else Ok(false);
    } else if id == OID_EXT_KEY_USAGE {
      var responder := FindTargetObjectIdentifierInSingleExtension(extension, OID_RESPONDER_AUTH);
      if responder.Err? || responder.value {
        return responder;
      }
      r := FindTargetObjectIdentifierInSingleExtension(extension, OID_REQUESTER_AUTH);
    } else if id == OID_SPDM_EXTENSION {
      var found := FindTargetObjectIdentifierInSingleExtension(extension, OID_MUTABLE_CERTIFICATE);
      if found.Ok? && !found.value {
        found := FindTargetObjectIdentifierInSingleExtension(extension, OID_HARDWARE_IDENTITY);
      }
      r := if found.Err? then Err(found.status) else Ok(false);
    } else {
      r := Ok(false);
    }
  }

  method CheckTbsCertificate(data: bytes, oid: AlgoOid, isLeaf: bool) returns (r: Result<nat>)
    ensures r == CheckTbs(data, oid, isLeaf)
  {
    hide CheckLength, WalkFields, GetExtensions, KeyUsage, CheckSpdmOids, KeyUsageAllowed;
    if |data| < 1 || data[0] != TAG_SEQUENCE {
      return Err(VerifFail);
    }
    var l :- CheckLength(data[1..]);
    var walker := 1 + l.1;
    var fields := WalkTbsFields(data, walker, if isLeaf then oid else None);
    if fields.Err? {
      return Err(fields.status);
    }
    walker := fields.value;
    var ext :- GetExtensions(data[walker..]);
    var usage := GetKeyUsageValue(ext.1);
    if usage.Err? {
      return Err(usage.status);
    }
    var allowed := CheckExtensionsSpdmOid(ext.1, isLeaf);
    if allowed.Err? {
      return Err(allowed.status);
    }
    walker := walker + ext.0;
    if walker == 1 + l.1 + l.0 && KeyUsageAllowed(usage.value, isLeaf) && allowed.value {
      r := Ok(walker);
    } else {
      r := Err(VerifFail);
    }
  }

  /** Version, serial number, signature algorithm, issuer, validity, subject and
      public key, one after the other. */
  method WalkTbsFields(data: bytes, start: nat, oid: AlgoOid) returns (r: Result<nat>)
    requires start <= |data|
    ensures r == WalkFields(data, start, TBS_FIELDS, oid)
  {
    hide WalkFields, CheckVersion, SkipTag, CheckAlgorithm, SkipSequence;
    assert TBS_FIELDS[0..] == TBS_FIELDS;
    var w := start;
    WalkStep(data, w, 0, oid);
    var version :- CheckVersion(data[w..]);
    w := w + version;
    WalkStep(data, w, 1, oid);
    var serial :- SkipTag(data[w..]);
    w := w + serial;
    WalkStep(data, w, 2, oid);
    var signature :- CheckAlgorithm(data[w..], oid);
    w := w + signature;
    r := WalkNames(data, w, oid);
  }

  method WalkNames(data: bytes, start: nat, oid: AlgoOid) returns (r: Result<nat>)
    requires start <= |data|
    ensures r == WalkFields(data, start, TBS_FIELDS[3..], oid)
  {
    hide WalkFields, SkipSequence;
    var w := start;
    WalkStep(data, w, 3, oid);
    var issuer :- SkipSequence(data[w..]);
    w := w + issuer;
    WalkStep(data, w, 4, oid);
    var validity :- SkipSequence(data[w..]);
    w := w + validity;
    WalkStep(data, w, 5, oid);
    var subject :- SkipSequence(data[w..]);
    w := w + subject;
    WalkStep(data, w, 6, oid);
    var publicKey :- SkipSequence(data[w..]);
    w := w + publicKey;
    NothingLeft(data, w, oid);
    r := Ok(w);
  }

  lemma NothingLeft(data: bytes, w: nat, oid: AlgoOid)
    requires w <= |data|
    ensures WalkFields(data, w, TBS_FIELDS[7..], oid) == Ok(w)
  {
  }

  method CheckCertFormat(cert: bytes, oid: AlgoOid) returns (r: Result<nat>)
    ensures r == CheckCert(X509(oid), cert)
  {
    hide SequenceHeader, CheckTbs, CheckAlgorithm, TlvSize;
    var h :- SequenceHeader(cert);
    var isLeaf := |cert| == h.0 + h.1;
    var walker := cert[h.0..];
    var tbs := CheckTbsCertificate(walker, oid, isLeaf);
    if tbs.Err? {
      return Err(tbs.status);
    }
    walker := walker[tbs.value..];
    var algorithm :- CheckAlgorithm(walker, if isLeaf then oid else None);
    walker := walker[algorithm..];
    var signature :- SkipTag(walker);
    r := if tbs.value + algorithm + signature == h.1 then Ok(h.0 + h.1) else Err(VerifFail);
  }

  /** Terminates on every octet string; the count is the number of certificates
      that tile the chain. */
  method CheckCertChainFormat(chain: bytes, oid: AlgoOid) returns (r: Result<nat>)
    ensures r.Ok? <==> Cuts(chain, oid).Ok?
    ensures r.Ok? ==> r.value == |Cuts(chain, oid).value| - 1
    ensures r.Ok? ==> TiledByCertificates(chain, oid, Cuts(chain, oid).value)
  {
    hide CheckCert, TiledByCertificates;
    var walker, count := 0, 0;
    while walker < |chain|
      invariant walker <= |chain|
      invariant Cuts(chain, oid).Ok? <==> ChainFrom(CertCheck(oid), chain, walker).Ok?
      invariant Cuts(chain, oid).Ok? ==>
        |Cuts(chain, oid).value| == count + |ChainFrom(CertCheck(oid), chain, walker).value|
    {
      var n := CheckCertFormat(chain[walker..], oid);
      if n.Err? {
        return Err(n.status);
      }
      walker := walker + n.value;
      count := count + 1;
    }
    r := Ok(count);
    ChainAcceptedIff(chain, oid, Cuts(chain, oid).value);
  }

  method FindTargetObjectIdentifierInExtensions(data: bytes, oid: bytes) returns (r: Result<bool>)
    ensures r == FindInExtensions(data, oid)
  {
    hide CheckLength, Enter, SpdmExtensionHolds;
    if |data| < 2 || data[0] != TAG_SEQUENCE {
      return Err(VerifFail);
    }
    var outer :- CheckLength(data[1..]);
    var payload := data[1 + outer.1..1 + outer.1 + outer.0];
    var walker := 0;
    while walker < |payload|
      invariant walker <= |payload|
      invariant FindInExtensions(data, oid) == FindInExtensionsFrom(payload, oid, walker)
    {
      var extension :- Enter(payload, walker, TAG_SEQUENCE);
      var id :- Enter(payload, extension.1, TAG_OID);
      if id.1 + id.0 < |payload| {
        var same := ObjectIdentifiersAreSame(payload[id.1..id.1 + id.0], OID_SPDM_EXTENSION);
        if same {
          var holds :- SpdmExtensionHolds(payload, oid, id.1 + id.0);
          if holds {
            return Ok(true);
          }
        }
      }
      walker := extension.1 + extension.0;
    }
    r := Ok(false);
  }

  /** The other chain walker: it knows only two-octet lengths and reads nothing
      inside a certificate. Index -1 asks for the last certificate. */
  function CertAtIndex(chain: bytes, offset: nat, this': int, index: int): Result<(nat, nat)>
    requires offset <= |chain|
    decreases |chain| - offset
  {
    if |chain| - offset < 4 || chain[offset] != 0x30 || chain[offset + 1] != 0x82 then Err(InvalidCert) else
    var size := BigEndian16(chain[offset + 2], chain[offset + 3]) + 4;
    if size > |chain| - offset then Err(InvalidCert)
    else if this' == index || (offset + size == |chain| && index == -1) then Ok((offset, offset + size))
    else CertAtIndex(chain, offset + size, this' + 1, index)
  }

  method GetCertFromCertChain(chain: bytes, index: int) returns (r: Result<(nat, nat)>)
    ensures r == CertAtIndex(chain, 0, 0, index)
  {
    var offset, this' := 0, 0;
    while true
      invariant offset <= |chain|
      invariant CertAtIndex(chain, 0, 0, index) == CertAtIndex(chain, offset, this', index)
      decreases |chain| - offset
    {
      if |chain| - offset < 4 || chain[offset] != 0x30 || chain[offset + 1] != 0x82 {
        return Err(InvalidCert);
      }
      var size := BigEndian16(chain[offset + 2], chain[offset + 3]) + 4;
      if size > |chain| - offset {
        return Err(InvalidCert);
      }
      if this' == index {
        return Ok((offset, offset + size));
      }
      this' := this' + 1;
      if offset + size == |chain| && index == -1 {
        return Ok((offset, offset + size));
      }
      offset := offset + size;
    }
  }

  /** Certificates lo to hi all give their length in two octets. */
  ghost predicate TwoOctetLengths(chain: bytes, cuts: seq<nat>, lo: nat, hi: int) {
    forall i :: lo <= i <= hi && i < |cuts| ==> cuts[i] + 1 < |chain| && chain[cuts[i] + 1] == 0x82
  }

  /** The certificate that an index asks for, of n. */
  function Wanted(index: int, n: nat): int {
    if index == -1 then n - 1 else index
  }

  /** At a cut, the second walker sees the same certificate or gives up. */
  lemma SameSegment(chain: bytes, oid: AlgoOid, lo: nat, hi: nat)
    requires lo < hi <= |chain| && Certificate(X509(oid), chain[lo..], hi - lo)
    ensures chain[lo] == 0x30
    ensures lo + 1 < |chain| && chain[lo + 1] == 0x82 ==>
              |chain| - lo >= 4 && BigEndian16(chain[lo + 2], chain[lo + 3]) + 4 == hi - lo
  {
    hide BodyOf;
    var p: Parts :| CertificateOf(X509(oid), chain[lo..], hi - lo, p);
    assert chain[lo..][1..] == chain[lo + 1..];
  }

  lemma {:induction false} WalkersAgreeFrom(chain: bytes, oid: AlgoOid, cuts: seq<nat>, k: nat, index: int)
    requires TiledByCertificates(chain, oid, cuts) && k < |cuts| && cuts[k] <= |chain|
    ensures
      var r, n := CertAtIndex(chain, cuts[k], k, index), |cuts| - 1;
      var i := Wanted(index, n);
      && (r.Ok? <==> k <= i < n && TwoOctetLengths(chain, cuts, k, i))
      && (r.Ok? ==> r.value == (cuts[i], cuts[i + 1]))
    decreases |cuts| - k
  {
    hide Certificate;
    if k < |cuts| - 1 {
      assert CertificateAt(chain, oid, cuts, k);
      SameSegment(chain, oid, cuts[k], cuts[k + 1]);
      EndIsLast(chain, oid, cuts, k);
      WalkersAgreeFrom(chain, oid, cuts, k + 1, index);
    }
  }

  lemma EndIsLast(chain: bytes, oid: AlgoOid, cuts: seq<nat>, k: nat)
    requires TiledByCertificates(chain, oid, cuts) && k < |cuts| - 1
    ensures cuts[k + 1] == |chain| <==> k == |cuts| - 2
  {
    hide Certificate;
    if k < |cuts| - 2 {
      assert CertificateAt(chain, oid, cuts, k + 1);
    }
  }

  /** On an accepted chain of n certificates the second walker finds certificate i
      (the last one for -1) exactly if there is one and the lengths up to it are in
      two octets, and what it finds is segment i of the tiling. */
  lemma WalkersAgree(chain: bytes, oid: AlgoOid, index: int)
    requires Cuts(chain, oid).Ok?
    ensures
      var cuts := Cuts(chain, oid).value;
      var r, n := CertAtIndex(chain, 0, 0, index), |cuts| - 1;
      var i := Wanted(index, n);
      && (r.Ok? <==> 0 <= i < n && TwoOctetLengths(chain, cuts, 0, i))
      && (r.Ok? ==> r.value == (cuts[i], cuts[i + 1]))
  {
    hide Certificate, CheckCert;
    var cuts := Cuts(chain, oid).value;
    ChainAcceptedIff(chain, oid, cuts);
    WalkersAgreeFrom(chain, oid, cuts, 0, index);
  }
}
