/** ECDSA signatures: from two fixed-width halves to the DER SEQUENCE of two INTEGERs
    a verifier wants. */
module EcdsaDer {
  import opened Bytes
  import opened Codec
  import opened Status
  import opened Der

  /** The number of leading zero octets. */
  function LeadingZeros(s: bytes): (n: nat)
    ensures n <= |s|
    ensures n < |s| ==> s[n] != 0
  {
    if s == [] || s[0] != 0 then 0 else 1 + LeadingZeros(s[1..])
  }

  function Strip(s: bytes): bytes {
    s[LeadingZeros(s)..]
  }

  /** The content of the INTEGER for an unsigned number without leading zeros. */
  function Body(v: bytes): (b: bytes)
    requires v != []
    ensures |v| <= |b| <= |v| + 1
  {
    if v[0] < 0x80 then v else [0] + v
  }

  function IntegerBody(half: bytes): (b: bytes)
    requires LeadingZeros(half) < |half|
    ensures |b| <= |half| + 1
  {
    Body(Strip(half))
  }

  function PairDer(a: bytes, b: bytes): bytes
    requires |a| + |b| < 0x100
  {
    Tlv(TAG_SEQUENCE, Tlv(TAG_INTEGER, a) + Tlv(TAG_INTEGER, b))
  }

  function SignatureDer(sig: bytes): bytes
    requires Halves(sig)
  {
    PairDer(IntegerBody(First(sig)), IntegerBody(Second(sig)))
  }

  function First(sig: bytes): bytes {
    sig[..|sig| / 2]
  }

  function Second(sig: bytes): bytes {
    sig[|sig| / 2..]
  }

  /** A P-256 or P-384 signature with two non-zero halves. */
  predicate Halves(sig: bytes) {
    && (|sig| == 64 || |sig| == 96)
    && LeadingZeros(First(sig)) < |First(sig)| && LeadingZeros(Second(sig)) < |Second(sig)|
  }

  /** The shortest content of a non-negative INTEGER, by section 8.3 of X.690. */
  predicate Minimal(body: bytes) {
    body != [] && body[0] < 0x80 && (|body| > 1 && body[0] == 0 ==> body[1] >= 0x80)
  }

  /** The DER of a SEQUENCE of the INTEGERs x and y. */
  ghost predicate IsSignature(der: bytes, x: nat, y: nat) {
    exists a, b :: SignatureOf(der, a, b) && FromBE(a) == x && FromBE(b) == y
  }

  ghost predicate SignatureOf(der: bytes, a: bytes, b: bytes) {
    && Minimal(a) && Minimal(b) && |a| + |b| < 0x100
    && der == Tlv(TAG_SEQUENCE, Tlv(TAG_INTEGER, a) + Tlv(TAG_INTEGER, b))
  }

  lemma {:induction false} FromBECons(s: bytes)
    requires s != []
    ensures FromBE(s) == s[0] * Pow256(|s| - 1) + FromBE(s[1..])
  {
    var n := |s|;
    if n == 1 {
      assert s[..0] == [] && s[1..] == [];
    } else {
      var front := s[..n - 1];
      FromBECons(front);
      assert s[1..][..n - 2] == front[1..];
      assert FromBE(s[1..]) == 256 * FromBE(front[1..]) + s[n - 1];
      Scale(s[0], Pow256(n - 2), FromBE(front[1..]));
    }
  }

  lemma Scale(d: nat, p: nat, v: nat)
    ensures 256 * (d * p + v) == d * (256 * p) + 256 * v
  {
  }

  lemma {:induction false} FromBEBound(s: bytes)
    ensures FromBE(s) < Pow256(|s|)
  {
    if s != [] {
      FromBEBound(s[..|s| - 1]);
    }
  }

  /** Stripping leading zeros keeps the value. */
  lemma {:induction false} StripKeepsValue(s: bytes)
    ensures FromBE(Strip(s)) == FromBE(s)
  {
    if s != [] && s[0] == 0 {
      FromBECons(s);
      StripKeepsValue(s[1..]);
      assert Strip(s) == Strip(s[1..]);
    }
  }

  lemma LeadingZero(v: bytes)
    ensures FromBE([0] + v) == FromBE(v)
  {
    FromBECons([0] + v);
    assert ([0] + v)[1..] == v;
  }

  lemma IntegerBodyIsMinimal(half: bytes)
    requires LeadingZeros(half) < |half|
    ensures Minimal(IntegerBody(half)) && FromBE(IntegerBody(half)) == FromBE(half)
  {
    hide FromBE;
    StripKeepsValue(half);
    LeadingZero(Strip(half));
  }

  lemma LeadingDigit(s: bytes)
    requires s != [] && s[0] != 0
    ensures Pow256(|s| - 1) <= FromBE(s) < Pow256(|s|)
  {
    FromBECons(s);
    FromBEBound(s);
    AtLeastOnce(s[0], Pow256(|s| - 1));
  }

  lemma AtLeastOnce(d: nat, p: nat)
    requires d > 0
    ensures d * p >= p
  {
  }

  lemma {:induction false} PowMonotone(m: nat, n: nat)
    requires m <= n
    ensures Pow256(m) <= Pow256(n)
  {
    if m < n {
      PowMonotone(m, n - 1);
    }
  }

  lemma {:induction false} SameLengthSameValue(a: bytes, b: bytes)
    requires |a| == |b| && FromBE(a) == FromBE(b)
    ensures a == b
  {
    if a != [] {
      var n := |a|;
      Digits(a[n - 1], FromBE(a[..n - 1]));
      Digits(b[n - 1], FromBE(b[..n - 1]));
      SameLengthSameValue(a[..n - 1], b[..n - 1]);
      assert a == a[..n - 1] + [a[n - 1]];
      assert b == b[..n - 1] + [b[n - 1]];
    }
  }

  lemma ShorterIsSmaller(a: bytes, b: bytes)
    requires a != [] && b != [] && a[0] != 0 && b[0] != 0
    ensures |a| < |b| ==> FromBE(a) < FromBE(b)
  {
    LeadingDigit(a);
    LeadingDigit(b);
    if |a| < |b| {
      PowMonotone(|a|, |b| - 1);
    }
  }

  /** Octet strings that do not start with zero are told apart by their value. */
  lemma StrippedUnique(a: bytes, b: bytes)
    requires a != [] && b != [] && a[0] != 0 && b[0] != 0 && FromBE(a) == FromBE(b)
    ensures a == b
  {
    ShorterIsSmaller(a, b);
    ShorterIsSmaller(b, a);
    SameLengthSameValue(a, b);
  }

  /** And so are minimal contents other than zero. */
  lemma MinimalUnique(a: bytes, b: bytes)
    requires Minimal(a) && Minimal(b) && FromBE(a) == FromBE(b) > 0
    ensures a == b
  {
    MinimalIsBodyOfStripped(a);
    MinimalIsBodyOfStripped(b);
    StrippedUnique(Strip(a), Strip(b));
  }

  lemma MinimalIsBodyOfStripped(a: bytes)
    requires Minimal(a) && FromBE(a) > 0
    ensures Strip(a) != [] && Strip(a)[0] != 0 && FromBE(Strip(a)) == FromBE(a)
    ensures a == if Strip(a)[0] < 0x80 then Strip(a) else [0] + Strip(a)
  {
    StripKeepsValue(a);
    if a[0] == 0 {
      assert LeadingZeros(a) == 1 + LeadingZeros(a[1..]) == 1;
      assert a == [0] + a[1..];
    }
  }

  lemma HalfIsPositive(half: bytes)
    requires LeadingZeros(half) < |half|
    ensures FromBE(half) > 0
  {
    StripKeepsValue(half);
    LeadingDigit(Strip(half));
  }

  /** The result is the one DER encoding of the two halves, in their order, as numbers. */
  lemma SignatureIsTheDer(sig: bytes, der: bytes)
    requires Halves(sig)
    ensures IsSignature(der, FromBE(sig[..|sig| / 2]), FromBE(sig[|sig| / 2..])) <==> der == SignatureDer(sig)
  {
    hide Tlv;
    var r, s := IntegerBody(First(sig)), IntegerBody(Second(sig));
    IntegerBodyIsMinimal(First(sig));
    IntegerBodyIsMinimal(Second(sig));
    HalfIsPositive(First(sig));
    HalfIsPositive(Second(sig));
    if der == SignatureDer(sig) {
      assert SignatureOf(der, r, s);
    }
    forall a, b | SignatureOf(der, a, b) && FromBE(a) == FromBE(First(sig)) && FromBE(b) == FromBE(Second(sig))
      ensures der == SignatureDer(sig)
    {
      MinimalUnique(a, r);
      MinimalUnique(b, s);
    }
  }

  lemma {:induction false} LeadingZerosIs(s: bytes, n: nat)
    requires n <= |s| && (forall i :: 0 <= i < n ==> s[i] == 0) && (n < |s| ==> s[n] != 0)
    ensures LeadingZeros(s) == n
  {
    if n > 0 {
      LeadingZerosIs(s[1..], n - 1);
    }
  }

  method FirstNonZero(s: bytes) returns (n: nat)
    ensures n == LeadingZeros(s)
  {
    n := |s|;
    for i := 0 to |s|
      invariant n == |s| && forall j :: 0 <= j < i ==> s[j] == 0
    {
      if s[i] != 0 {
        LeadingZerosIs(s, i);
        return i;
      }
    }
    LeadingZerosIs(s, n);
  }

  lemma IntegerLayout(v: bytes)
    requires v != [] && |v| < 0x7F
    ensures Tlv(TAG_INTEGER, Body(v)) == (if v[0] < 0x80 then [TAG_INTEGER, |v|] else [TAG_INTEGER, |v| + 1, 0]) + v
    ensures |Tlv(TAG_INTEGER, Body(v))| == 2 + |Body(v)|
  {
  }

  /** Writes the INTEGER of v, with a zero in front if it needs one. */
  method WriteInteger(out: array<byte>, at: nat, v: bytes) returns (next: nat)
    requires v != [] && |v| < 0x7F && at + 2 + |Body(v)| <= out.Length
    modifies out
    ensures |Tlv(TAG_INTEGER, Body(v))| == 2 + |Body(v)|
    ensures next == at + 2 + |Body(v)| <= out.Length
    ensures out[..] == Splice(old(out[..]), at, Tlv(TAG_INTEGER, Body(v)))
  {
    hide Splice, Tlv, Body;
    ghost var before := out[..];
    IntegerLayout(v);
    var head := if v[0] < 0x80 then [TAG_INTEGER, |v|] else [TAG_INTEGER, |v| + 1, 0];
    CopyAt(out, at, head);
    CopyAt(out, at + |head|, v);
    SpliceTwice(before, at, head, v);
    next := at + |head| + |v|;
  }

  /** Short contents have short lengths throughout. */
  lemma PairLayout(a: bytes, b: bytes)
    requires |a| + |b| + 4 < 0x80
    ensures
      var x, y := Tlv(TAG_INTEGER, a), Tlv(TAG_INTEGER, b);
      && |x| == 2 + |a| && |y| == 2 + |b|
      && PairDer(a, b) == [TAG_SEQUENCE, |a| + |b| + 4] + x + y
  {
  }

  method WritePair(out: array<byte>, x: bytes, y: bytes) returns (size: nat)
    requires x != [] && y != [] && |Body(x)| + |Body(y)| + 4 < 0x80
    requires |Body(x)| + |Body(y)| + 6 <= out.Length
    modifies out
    ensures size == |Body(x)| + |Body(y)| + 6 == |PairDer(Body(x), Body(y))|
    ensures out[..size] == PairDer(Body(x), Body(y))
  {
    hide Tlv, Splice, Body;
    PairLayout(Body(x), Body(y));
    hide PairDer;
    ghost var before := out[..];
    ghost var a, b := Tlv(TAG_INTEGER, Body(x)), Tlv(TAG_INTEGER, Body(y));
    var n: byte := |Body(x)| + |Body(y)| + 4;
    CopyAt(out, 0, [TAG_SEQUENCE, n]);
    var at := WriteInteger(out, 2, x);
    var end := WriteInteger(out, at, y);
    SpliceTwice(before, 0, [TAG_SEQUENCE, n], a);
    SpliceTwice(before, 0, [TAG_SEQUENCE, n] + a, b);
    size := n + 2;
    assert out[..size] == before[..0] + PairDer(Body(x), Body(y));
  }

  /** All-zero halves give an empty result. The source also refuses sizes above 255,
      which these signatures do not reach: the result never needs more than 104. */
  method EccSignatureBinToDer(sig: bytes, out: array<byte>) returns (r: Result<nat>)
    requires |sig| == 64 || |sig| == 96
    modifies out
    ensures !Halves(sig) ==> r == Ok(0) && out[..] == old(out[..])
    ensures
      Halves(sig) ==>
        var der := SignatureDer(sig);
        && |der| <= |sig| + 8 <= 104
        && (out.Length < |der| ==> r == Err(VerifFail) && out[..] == old(out[..]))
        && (out.Length >= |der| ==> r == Ok(|der|) && out[..|der|] == der)
  {
    hide LeadingZeros, Tlv, PairDer, Body;
    var half := |sig| / 2;
    var i := FirstNonZero(sig[..half]);
    var j := FirstNonZero(sig[half..]);
    if i == half || j == half {
      return Ok(0);
    }
    var x, y := sig[i..half], sig[half + j..];
    assert x == Strip(First(sig)) && y == Strip(Second(sig));
    PairLayout(Body(x), Body(y));
    var size := |Body(x)| + |Body(y)| + 6;
    if out.Length < size {
      return Err(VerifFail);
    }
    size := WritePair(out, x, y);
    r := Ok(size);
  }
}
