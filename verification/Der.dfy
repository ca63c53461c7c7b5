/** DER lengths and tag-length-value elements as the certificate checks read them,
    next to the encoding of section 10.1 of X.690 they stand for. */
module Der {
  import opened Bytes
  import opened Status

  const TAG_BOOLEAN: byte := 0x01
  const TAG_INTEGER: byte := 0x02
  const TAG_BIT_STRING: byte := 0x03
  const TAG_OCTET_STRING: byte := 0x04
  const TAG_OID: byte := 0x06
  const TAG_SEQUENCE: byte := 0x30
  const TAG_VERSION: byte := 0xA0
  const TAG_EXTENSIONS: byte := 0xA3

  /** The one DER encoding of a length below 2^16. */
  function DerLength(n: nat): bytes
    requires n < 0x1_0000
  {
    if n < 0x80 then [n]
    else if n < 0x100 then [0x81, n]
    else [0x82, n / 256, n % 256]
  }

  /** By section 10.1 of X.690: the short form below 0x80, else a count of octets and the
      length in as few octets as hold it, highest first. */
  lemma DerLengthMeans(n: nat)
    requires n < 0x1_0000
    ensures
      var d := DerLength(n);
      && (n < 0x80 ==> d == [n])
      && (n >= 0x80 ==> |d| >= 2 && d[0] == 0x80 + (|d| - 1) && FromBE(d[1..]) == n && d[1] != 0)
  {
    var d := DerLength(n);
    if n >= 0x100 {
      assert d[1..] == [n / 256, n % 256];
      assert d[1..][..1] == [n / 256] && [n / 256][..0] == [];
      assert FromBE([n / 256]) == n / 256;
    } else if n >= 0x80 {
      assert d[1..] == [n] && [n][..0] == [];
    }
  }

  function BigEndian16(high: nat, low: nat): nat {
    high * 256 + low
  }

  /** A length field by its form; only the short, one-octet and two-octet forms are
      known, and only in canonical use. */
  function LengthField(data: bytes): Result<(nat, nat)>
    requires |data| >= 1
  {
    if data[0] < 0x80 then Ok((data[0], 1))
    else if data[0] == 0x81 then
      if |data| < 2 || data[1] < 0x80 then Err(VerifFail) else Ok((data[1], 2))
    else if data[0] == 0x82 then
      if |data| < 3 then Err(VerifFail) else
      var combined := BigEndian16(data[1], data[2]);
      if combined < 0x100 then Err(VerifFail) else Ok((combined, 3))
    else Err(VerifFail)
  }

  /** Length and octets consumed; the value must lie inside the data. */
  function CheckLength(data: bytes): (r: Result<(nat, nat)>)
    ensures r.Ok? ==> 1 <= r.value.1 <= 3 && r.value.1 + r.value.0 <= |data| && r.value.0 < 0x1_0000
    ensures r.Err? ==> r.status == VerifFail
  {
    if |data| < 1 then Err(VerifFail) else
    var l :- LengthField(data);
    if |data| < l.1 + l.0 then Err(VerifFail) else Ok(l)
  }

  /** A length is accepted exactly when it is the DER encoding and its value is
      all there. */
  lemma CheckLengthIsDer(data: bytes, n: nat)
    requires n < 0x1_0000
    ensures CheckLength(data) == Ok((n, |DerLength(n)|))
            <==> DerLength(n) <= data && |DerLength(n)| + n <= |data|
    ensures CheckLength(data).Ok? && CheckLength(data).value.0 == n ==> CheckLength(data).value.1 == |DerLength(n)|
  {
    var d := DerLength(n);
    if d <= data {
      assert forall i :: 0 <= i < |d| ==> data[i] == d[i];
    }
  }

  /** The element `tag`, length, body. */
  function Tlv(tag: byte, body: bytes): bytes
    requires |body| < 0x1_0000
  {
    [tag] + DerLength(|body|) + body
  }

  /** The size of the element at the front of the data. */
  function TlvSize(data: bytes): (r: Result<nat>)
    ensures r.Ok? ==> 2 <= r.value <= |data|
  {
    if |data| < 1 then Err(VerifFail) else
    var l :- CheckLength(data[1..]);
    Ok(1 + l.1 + l.0)
  }

  /** The data is one element with this tag and nothing else. */
  predicate IsTlv(tag: byte, data: bytes) {
    |data| >= 1 && data[0] == tag && TlvSize(data) == Ok(|data|)
  }

  /** An element is its tag, the DER length of its body, and its body. */
  lemma TlvIsElement(tag: byte, data: bytes)
    ensures IsTlv(tag, data) <==> exists body: bytes :: |body| < 0x1_0000 && data == Tlv(tag, body)
  {
    hide IsTlv, Tlv;
    if IsTlv(tag, data) {
      var body := ElementBody(tag, data);
    }
    forall body: bytes | |body| < 0x1_0000 && data == Tlv(tag, body) ensures IsTlv(tag, data) {
      TlvIsTlv(tag, body);
    }
  }

  lemma TlvIsTlv(tag: byte, body: bytes)
    requires |body| < 0x1_0000
    ensures IsTlv(tag, Tlv(tag, body))
  {
    hide CheckLength;
    var data := Tlv(tag, body);
    assert data[1..] == DerLength(|body|) + body;
    CheckLengthIsDer(data[1..], |body|);
  }

  lemma ElementBody(tag: byte, data: bytes) returns (body: bytes)
    requires IsTlv(tag, data)
    ensures |body| < 0x1_0000 && data == Tlv(tag, body)
  {
    hide CheckLength, DerLength;
    var l := CheckLength(data[1..]).value;
    body := data[1 + l.1..];
    CheckLengthIsDer(data[1..], l.0);
    assert data[1..] == DerLength(l.0) + body;
    assert data == [data[0]] + data[1..];
  }

  /** Reading one element does not depend on what follows it. */
  lemma CheckLengthPrefix(data: bytes, m: nat)
    requires m <= |data| && CheckLength(data).Ok?
    requires CheckLength(data).value.1 + CheckLength(data).value.0 <= m
    ensures CheckLength(data[..m]) == CheckLength(data)
  {
  }

  lemma TlvSizePrefix(data: bytes, m: nat)
    requires m <= |data| && TlvSize(data).Ok? && TlvSize(data).value <= m
    ensures TlvSize(data[..m]) == TlvSize(data)
  {
    CheckLengthPrefix(data[1..], m - 1);
    assert data[..m][1..] == data[1..][..m - 1];
  }

  lemma TlvSizeExtend(data: bytes, m: nat)
    requires m <= |data| && TlvSize(data[..m]).Ok?
    ensures TlvSize(data) == TlvSize(data[..m])
  {
    assert data[..m][1..] == data[1..][..m - 1];
  }

  /** `check_and_skip_common_tag`: any element. */
  function SkipTag(data: bytes): (r: Result<nat>)
    ensures r.Ok? ==> 2 <= r.value <= |data|
  {
    TlvSize(data)
  }

  /** `check_and_skip_common_sequence`: an element that is a SEQUENCE. */
  function SkipSequence(data: bytes): (r: Result<nat>)
    ensures r.Ok? ==> 2 <= r.value <= |data|
  {
    if |data| < 1 || data[0] != TAG_SEQUENCE then Err(VerifFail) else TlvSize(data)
  }
}
