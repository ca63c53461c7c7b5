/** Octets, fixed-width unsigned integers and their little-endian octet strings,
    and the octet XOR used to build AEAD nonces. */
module Bytes {

  type byte = x: int | 0 <= x < 256
  type bytes = seq<byte>
  type u16 = x: int | 0 <= x < 0x1_0000
  type u32 = x: int | 0 <= x < 0x1_0000_0000
  type u64 = x: int | 0 <= x < 0x1_0000_0000_0000_0000

  datatype Option<+T> = None | Some(value: T)

  /** 256 to the power n. */
  function Pow256(n: nat): (p: nat)
    ensures p > 0
  {
    if n == 0 then 1 else 256 * Pow256(n - 1)
  }

  lemma Pow256Values()
    ensures Pow256(1) == 0x100
    ensures Pow256(2) == 0x1_0000
    ensures Pow256(3) == 0x100_0000
    ensures Pow256(4) == 0x1_0000_0000
    ensures Pow256(8) == 0x1_0000_0000_0000_0000
  {
    assert Pow256(3) == 256 * Pow256(2);
    assert Pow256(5) == 256 * Pow256(4);
    assert Pow256(7) == 256 * Pow256(6);
  }

  /** v shifted right by 8 * i bits. */
  function Shr8(v: nat, i: nat): nat
    decreases i
  {
    if i == 0 then v else Shr8(v / 256, i - 1)
  }

  /** The n low octets of v, least significant first; higher octets are dropped,
      as the source's casts to a narrower integer do. */
  function LE(v: nat, n: nat): (s: bytes)
    ensures |s| == n
    ensures forall i :: 0 <= i < n ==> s[i] == Shr8(v, i) % 256
  {
    seq(n, i requires 0 <= i < n => Shr8(v, i) % 256)
  }

  lemma LECons(v: nat, n: nat)
    requires n > 0
    ensures LE(v, n) == [v % 256] + LE(v / 256, n - 1)
  {
  }

  /** The number an octet string denotes, least significant octet first. */
  function FromLE(s: bytes): nat
  {
    if s == [] then 0 else s[0] + 256 * FromLE(s[1..])
  }

  /** The number an octet string denotes, most significant octet first. */
  function FromBE(s: bytes): nat
  {
    if s == [] then 0 else 256 * FromBE(s[..|s| - 1]) + s[|s| - 1]
  }

  lemma {:induction false} FromLEBound(s: bytes)
    ensures FromLE(s) < Pow256(|s|)
  {
    if s != [] {
      FromLEBound(s[1..]);
    }
  }

  lemma {:induction false} DecodeEncode(v: nat, n: nat)
    requires v < Pow256(n)
    ensures FromLE(LE(v, n)) == v
    decreases n
  {
    if n > 0 {
      DecodeEncode(v / 256, n - 1);
      LECons(v, n);
    }
  }

  lemma Digits(d: byte, k: nat)
    ensures (d + 256 * k) % 256 == d && (d + 256 * k) / 256 == k
  {
  }

  lemma {:induction false} EncodeDecode(s: bytes)
    ensures LE(FromLE(s), |s|) == s
  {
    if s != [] {
      EncodeDecode(s[1..]);
      Digits(s[0], FromLE(s[1..]));
      LECons(FromLE(s), |s|);
      assert s == [s[0]] + s[1..];
    }
  }

  lemma LEInjective(v: nat, w: nat, n: nat)
    requires v < Pow256(n) && w < Pow256(n)
    requires LE(v, n) == LE(w, n)
    ensures v == w
  {
    DecodeEncode(v, n);
    DecodeEncode(w, n);
  }

  lemma FieldsDiffer(v: nat, w: nat, n: nat)
    requires v < Pow256(n) && w < Pow256(n) && v != w
    ensures LE(v, n) != LE(w, n)
  {
    if LE(v, n) == LE(w, n) {
      LEInjective(v, w, n);
    }
  }

  lemma LEAppend(v: nat, i: nat)
    ensures LE(v, i + 1) == LE(v, i) + [Shr8(v, i) % 256]
  {
  }

  lemma Middle(a: bytes, b: bytes, c: bytes)
    ensures var s := a + b + c; s[..|a|] == a && s[|a|..|a| + |b|] == b && s[|a| + |b|..] == c
  {
  }

  lemma InPrefix(h: bytes, rest: bytes, i: nat, j: nat)
    requires i <= j <= |h|
    ensures (h + rest)[i..j] == h[i..j]
  {
  }

  /** Octet strings one after another. */
  function Concat(parts: seq<bytes>): bytes {
    if parts == [] then [] else parts[0] + Concat(parts[1..])
  }

  lemma ConcatNone()
    ensures Concat([]) == []
  {
  }

  lemma {:induction false} ConcatSnoc(parts: seq<bytes>, last: bytes)
    ensures Concat(parts + [last]) == Concat(parts) + last
  {
    if parts == [] {
      assert [last][1..] == [];
    } else {
      ConcatSnoc(parts[1..], last);
      assert (parts + [last])[1..] == parts[1..] + [last];
    }
  }

  /** Bitwise exclusive or of the low k bits. */
  function XorBits(a: nat, b: nat, k: nat): nat
    decreases k
  {
    if k == 0 then 0 else (a % 2 + b % 2) % 2 + 2 * XorBits(a / 2, b / 2, k - 1)
  }

  function Pow2(k: nat): (p: nat)
    ensures p > 0
  {
    if k == 0 then 1 else 2 * Pow2(k - 1)
  }

  lemma {:induction false} XorBitsBound(a: nat, b: nat, k: nat)
    ensures XorBits(a, b, k) < Pow2(k)
    decreases k
  {
    if k > 0 {
      XorBitsBound(a / 2, b / 2, k - 1);
    }
  }

  lemma LowBit(d: nat, y: nat)
    requires d < 2
    ensures (d + 2 * y) % 2 == d && (d + 2 * y) / 2 == y
  {
  }

  lemma {:induction false} XorBitsUndo(a: nat, b: nat, k: nat)
    requires b < Pow2(k)
    ensures XorBits(a, XorBits(a, b, k), k) == b
    decreases k
  {
    if k > 0 {
      XorBitsUndo(a / 2, b / 2, k - 1);
      var d, y := (a % 2 + b % 2) % 2, XorBits(a / 2, b / 2, k - 1);
      assert XorBits(a, b, k) == d + 2 * y;
      LowBit(d, y);
      assert XorBits(a, d + 2 * y, k) == (a % 2 + d) % 2 + 2 * XorBits(a / 2, y, k - 1);
    }
  }

  function Xor(a: byte, b: byte): byte
  {
    XorBitsBound(a, b, 8);
    assert Pow2(8) == 256 by { assert Pow2(4) == 16 && Pow2(6) == 64; }
    XorBits(a, b, 8)
  }

  lemma XorUndo(a: byte, b: byte)
    ensures Xor(a, Xor(a, b)) == b
  {
    assert Pow2(8) == 256 by { assert Pow2(4) == 16 && Pow2(6) == 64; }
    XorBitsUndo(a, b, 8);
  }

  /** Bit k of a number, the lowest one being bit 0. */
  predicate Bit(n: nat, k: nat) {
    n / Pow2(k) % 2 == 1
  }

  lemma LowestBit(n: nat)
    ensures Bit(n, 0) <==> n % 2 == 1
  {
  }

  /** Bit k + 1 of a number is bit k of its half. */
  lemma BitOfHalf(n: nat, k: nat)
    ensures Bit(n, k + 1) <==> Bit(n / 2, k)
  {
    HalfFirst(n, Pow2(k));
  }

  lemma HalfFirst(n: nat, p: nat)
    requires p > 0
    ensures n / (2 * p) == n / 2 / p
  {
    var q, r := n / 2 / p, n / 2 % p;
    assert n / 2 == p * q + r;
    var low := n - 2 * p * q;
    assert low == 2 * r + n % 2 < 2 * p;
    Quotient(n, 2 * p, q, low);
  }

  lemma Quotient(n: nat, d: nat, q: nat, r: nat)
    requires d > 0 && n == d * q + r && r < d
    ensures n / d == q
  {
    var q' := n / d;
    assert n == d * q' + n % d;
    assert q' < q ==> d * (q' + 1) <= d * q;
    assert q < q' ==> d * (q + 1) <= d * q';
  }

  /** The exclusive or has a bit exactly if one of the two has it and the other not. */
  lemma {:induction false} XorBitsBit(a: nat, b: nat, m: nat, k: nat)
    requires k < m
    ensures Bit(XorBits(a, b, m), k) <==> Bit(a, k) != Bit(b, k)
    decreases m
  {
    hide Bit;
    var d, y := (a % 2 + b % 2) % 2, XorBits(a / 2, b / 2, m - 1);
    assert XorBits(a, b, m) == d + 2 * y;
    LowBit(d, y);
    if k == 0 {
      LowestBit(d + 2 * y);
      LowestBit(a);
      LowestBit(b);
    } else {
      XorBitsBit(a / 2, b / 2, m - 1, k - 1);
      BitOfHalf(d + 2 * y, k - 1);
      BitOfHalf(a, k - 1);
      BitOfHalf(b, k - 1);
    }
  }

  lemma XorBit(a: byte, b: byte, k: nat)
    requires k < 8
    ensures Bit(Xor(a, b), k) <==> Bit(a, k) != Bit(b, k)
  {
    XorBitsBit(a, b, 8, k);
  }

  /** The low bits of a number are those of its lowest octet. */
  lemma BitOfOctet(n: nat, k: nat)
    requires k < 8
    ensures Bit(n % 256, k) <==> Bit(n, k)
  {
    LowBits(n, 8, k);
    assert Pow2(8) == 256 by { assert Pow2(4) == 16 && Pow2(6) == 64; }
  }

  lemma {:induction false} LowBits(n: nat, m: nat, k: nat)
    requires k < m
    ensures Bit(n % Pow2(m), k) <==> Bit(n, k)
    decreases m
  {
    hide Bit;
    var p, q := Pow2(m - 1), n / 2;
    Remainder(n, p);
    assert n % Pow2(m) == n % 2 + 2 * (q % p);
    LowBit(n % 2, q % p);
    if k == 0 {
      LowestBit(n % Pow2(m));
      LowestBit(n);
    } else {
      LowBits(q, m - 1, k - 1);
      BitOfHalf(n % Pow2(m), k - 1);
      BitOfHalf(n, k - 1);
    }
  }

  lemma Remainder(n: nat, p: nat)
    requires p > 0
    ensures n % (2 * p) == n % 2 + 2 * (n / 2 % p)
  {
    HalfFirst(n, p);
    var q := n / 2 / p;
    assert n / 2 == p * q + n / 2 % p;
    assert n == 2 * p * q + n % (2 * p);
  }

  /** A number without its m lowest bits. */
  function Drop(n: nat, m: nat): nat
    decreases m
  {
    if m == 0 then n else Drop(n / 2, m - 1)
  }

  lemma {:induction false} BitsAbove(n: nat, m: nat, k: nat)
    ensures Bit(n, k + m) <==> Bit(Drop(n, m), k)
    decreases m
  {
    hide Bit;
    if m > 0 {
      BitOfHalf(n, k + m - 1);
      BitsAbove(n / 2, m - 1, k);
    }
  }

  lemma DropOctet(n: nat)
    ensures Drop(n, 8) == n / 256
  {
    assert Drop(n, 2) == n / 4;
    assert Drop(n / 4, 2) == n / 16 && Drop(n / 16, 2) == n / 64 && Drop(n / 64, 2) == n / 256;
    assert Drop(n, 8) == Drop(n / 4, 6) == Drop(n / 16, 4) == Drop(n / 64, 2);
  }

  /** Octet i of a little-endian number holds its bits from 8 * i on. */
  lemma LEBits(n: nat, size: nat, i: nat, k: nat)
    requires i < size && k < 8
    ensures Bit(LE(n, size)[i], k) <==> Bit(n, 8 * i + k)
  {
    BitOfOctet(Shr8(n, i), k);
    ShiftedBit(n, i, k);
  }

  /** The octets hold the lowest bits of the number, lowest first. */
  ghost predicate HoldsBits(q: bytes, n: nat) {
    forall i: nat, k: nat :: i < |q| && k < 8 ==> (Bit(q[i], k) <==> Bit(n, 8 * i + k))
  }

  lemma LEHoldsBits(n: nat, size: nat)
    ensures HoldsBits(LE(n, size), n)
  {
    hide Bit;
    forall i: nat, k: nat | i < size && k < 8 ensures Bit(LE(n, size)[i], k) <==> Bit(n, 8 * i + k) {
      LEBits(n, size, i, k);
    }
  }

  /** A number by its lowest octet and the rest. */
  function Word(low: nat, high: nat): nat {
    low + 256 * high
  }

  lemma TwoOctets(s: bytes)
    requires |s| == 2
    ensures FromLE(s) == Word(s[0], s[1])
  {
    assert s[1..][1..] == [];
    assert FromLE(s[1..]) == s[1];
  }

  /** Two to four octets, written out. */
  lemma LEOctets(n: nat)
    ensures LE(n, 2) == [n % 256, n / 256 % 256]
    ensures LE(n, 3) == [n % 256, n / 256 % 256, n / 0x1_0000 % 256]
    ensures LE(n, 4) == [n % 256, n / 256 % 256, n / 0x1_0000 % 256, n / 0x100_0000 % 256]
  {
    assert Shr8(n, 1) == n / 256 && Shr8(n, 2) == n / 0x1_0000;
    assert Shr8(n, 3) == Shr8(n / 256, 2) == n / 0x100_0000;
  }

  lemma {:induction false} ShiftedBit(n: nat, i: nat, k: nat)
    ensures Bit(Shr8(n, i), k) <==> Bit(n, 8 * i + k)
    decreases i
  {
    hide Bit;
    if i > 0 {
      ShiftedBit(n / 256, i - 1, k);
      BitsAbove(n, 8, 8 * (i - 1) + k);
      DropOctet(n);
      assert 8 * (i - 1) + k + 8 == 8 * i + k;
    }
  }
}
