/** How a chain is cut into certificates. The two levels are kept apart: any check
    that consumes a prefix tiles the chain, and a certificate is a SEQUENCE of
    exactly three elements, whatever is checked inside them. */
module ChainTiling {
  import opened Bytes
  import opened Status

  /** A check of the front of the data that returns how much it consumed. */
  type Check = bytes -> Result<nat>

  ghost predicate Consumes(check: Check) {
    forall data :: check(data).Ok? ==> 0 < check(data).value <= |data|
  }

  /** Piece by piece; the offsets at which pieces start and end. */
  ghost function ChainFrom(check: Check, chain: bytes, w: nat): Result<seq<nat>>
    requires Consumes(check) && w <= |chain|
    decreases |chain| - w
  {
    if w == |chain| then Ok([w]) else
    var n :- check(chain[w..]);
    var rest :- ChainFrom(check, chain, w + n);
    Ok([w] + rest)
  }

  /** Piece i passes the check on what is left of the chain from its start, and
      ends where the next one starts. */
  ghost predicate CutAt(check: Check, chain: bytes, cuts: seq<nat>, i: nat)
    requires i + 1 < |cuts|
  {
    cuts[i] < cuts[i + 1] <= |chain| && check(chain[cuts[i]..]) == Ok(cuts[i + 1] - cuts[i])
  }

  ghost predicate Tiled(check: Check, chain: bytes, cuts: seq<nat>) {
    && |cuts| >= 1 && cuts[|cuts| - 1] == |chain|
    && forall i :: 0 <= i < |cuts| - 1 ==> CutAt(check, chain, cuts, i)
  }

  lemma TiledCons(check: Check, chain: bytes, w: nat, rest: seq<nat>)
    requires |rest| >= 1 && w < rest[0] <= |chain| && check(chain[w..]) == Ok(rest[0] - w)
    ensures Tiled(check, chain, [w] + rest) <==> Tiled(check, chain, rest)
  {
    var cuts := [w] + rest;
    assert CutAt(check, chain, cuts, 0);
    if Tiled(check, chain, rest) {
      forall i | 0 <= i < |cuts| - 1 ensures CutAt(check, chain, cuts, i) {
        if i > 0 {
          assert CutAt(check, chain, rest, i - 1);
        }
      }
    }
    if Tiled(check, chain, cuts) {
      forall i | 0 <= i < |rest| - 1 ensures CutAt(check, chain, rest, i) {
        assert CutAt(check, chain, cuts, i + 1);
      }
    }
  }

  /** Only the last cut is at the end. */
  lemma LastCut(check: Check, chain: bytes, cuts: seq<nat>)
    requires Tiled(check, chain, cuts)
    ensures cuts[0] <= |chain| && (cuts[0] == |chain| <==> |cuts| == 1)
  {
    if |cuts| > 1 {
      assert CutAt(check, chain, cuts, 0);
    }
  }

  /** Acceptance means tiling... */
  lemma {:induction false} ChainSound(check: Check, chain: bytes, w: nat)
    requires Consumes(check) && w <= |chain| && ChainFrom(check, chain, w).Ok?
    ensures var cuts := ChainFrom(check, chain, w).value; cuts != [] && cuts[0] == w && Tiled(check, chain, cuts)
    decreases |chain| - w
  {
    if w < |chain| {
      var n := check(chain[w..]).value;
      ChainSound(check, chain, w + n);
      TiledCons(check, chain, w, ChainFrom(check, chain, w + n).value);
    }
  }

  /** ...and tiling means acceptance, with these cuts and no others. */
  lemma {:induction false} ChainComplete(check: Check, chain: bytes, cuts: seq<nat>)
    requires Consumes(check) && Tiled(check, chain, cuts)
    ensures cuts[0] <= |chain| && ChainFrom(check, chain, cuts[0]) == Ok(cuts)
    decreases |cuts|
  {
    LastCut(check, chain, cuts);
    if |cuts| > 1 {
      var w, rest := cuts[0], cuts[1..];
      assert cuts == [w] + rest;
      assert CutAt(check, chain, cuts, 0);
      TiledCons(check, chain, w, rest);
      ChainComplete(check, chain, rest);
    } else {
      assert cuts == [cuts[0]];
    }
  }
}

module CertificateShape {
  import opened Bytes
  import opened Status
  import opened Der

  /** The checks of the TBS and of the algorithm element at the front of the data;
      the flag asks for the leaf rules. */
  datatype Checks = Checks(tbs: (bytes, bool) -> Result<nat>, algorithm: (bytes, bool) -> Result<nat>) {
    /** What passes a check is a SEQUENCE element of the size returned. */
    ghost predicate Elements() {
      && (forall data, isLeaf :: tbs(data, isLeaf).Ok? ==> StartsWithSequence(data, tbs(data, isLeaf).value))
      && (forall data, isLeaf :: algorithm(data, isLeaf).Ok? ==> StartsWithSequence(data, algorithm(data, isLeaf).value))
    }
  }

  predicate StartsWithSequence(data: bytes, n: nat) {
    n <= |data| && IsTlv(TAG_SEQUENCE, data[..n])
  }

  /** Three elements at the front of the data, m octets in all. */
  function CheckBody(checks: Checks, data: bytes, m: nat, isLeaf: bool): Result<()> {
    var tbs :- checks.tbs(data, isLeaf);
    if tbs > |data| then Err(VerifFail) else
    var algorithm :- checks.algorithm(data[tbs..], isLeaf);
    if algorithm > |data[tbs..]| then Err(VerifFail) else
    var signature :- TlvSize(data[tbs..][algorithm..]);
    if tbs + algorithm + signature == m then Ok(()) else Err(VerifFail)
  }

  /** Where the body of the SEQUENCE at the front starts, and its size. */
  function SequenceHeader(rest: bytes): (r: Result<(nat, nat)>)
    ensures r.Ok? ==> 2 <= r.value.0 && r.value.0 + r.value.1 <= |rest|
  {
    if |rest| < 1 || rest[0] != TAG_SEQUENCE then Err(VerifFail) else
    var l :- CheckLength(rest[1..]);
    Ok((1 + l.1, l.0))
  }

  /** One certificate at the front of what is left of the chain; it is the leaf if
      it is all that is left. */
  function CheckCert(checks: Checks, rest: bytes): (r: Result<nat>)
    ensures r.Ok? ==> 0 < r.value <= |rest|
  {
    var h :- SequenceHeader(rest);
    var _ :- CheckBody(checks, rest[h.0..], h.1, h.0 + h.1 == |rest|);
    Ok(h.0 + h.1)
  }

  /** The parts of a certificate and the octets that follow it in the chain. */
  datatype Parts = Parts(tbs: bytes, algorithm: bytes, signature: bytes, more: bytes) {
    function BodySize(): nat {
      |tbs| + |algorithm| + |signature|
    }
  }

  /** The body is exactly a TBS, an algorithm and a signature element, and the first
      two pass their checks. */
  ghost predicate BodyOf(checks: Checks, body: bytes, isLeaf: bool, p: Parts)
    ensures BodyOf(checks, body, isLeaf, p) ==> |body| == p.BodySize() + |p.more|
  {
    && body == p.tbs + (p.algorithm + (p.signature + p.more))
    && IsTlv(TAG_SEQUENCE, p.tbs) && checks.tbs(body, isLeaf) == Ok(|p.tbs|)
    && IsTlv(TAG_SEQUENCE, p.algorithm) && checks.algorithm(body[|p.tbs|..], isLeaf) == Ok(|p.algorithm|)
    && p.signature != [] && IsTlv(p.signature[0], p.signature)
  }

  /** What is left of the chain starts with a certificate of n octets: a SEQUENCE
      around that body, held to the leaf rules exactly when nothing follows it. */
  ghost predicate Certificate(checks: Checks, rest: bytes, n: nat) {
    exists p: Parts :: CertificateOf(checks, rest, n, p)
  }

  ghost predicate CertificateOf(checks: Checks, rest: bytes, n: nat, p: Parts) {
    match SequenceHeader(rest)
    case Err(_) => false
    case Ok((start, m)) =>
      n == start + m && m == p.BodySize() && BodyOf(checks, rest[start..], p.more == [], p)
  }

  lemma BodySound(checks: Checks, body: bytes, m: nat, isLeaf: bool)
    requires checks.Elements() && CheckBody(checks, body, m, isLeaf).Ok?
    ensures exists p: Parts :: BodyOf(checks, body, isLeaf, p) && p.BodySize() == m
  {
    hide TlvSize;
    var t := checks.tbs(body, isLeaf).value;
    var afterTbs := body[t..];
    var a := checks.algorithm(afterTbs, isLeaf).value;
    var afterAlgorithm := afterTbs[a..];
    var s := TlvSize(afterAlgorithm).value;
    var p := Parts(body[..t], afterTbs[..a], afterAlgorithm[..s], afterAlgorithm[s..]);
    assert body == p.tbs + afterTbs;
    assert afterTbs == p.algorithm + afterAlgorithm;
    assert afterAlgorithm == p.signature + p.more;
    assert StartsWithSequence(body, t);
    assert StartsWithSequence(afterTbs, a);
    TlvSizePrefix(afterAlgorithm, s);
    assert BodyOf(checks, body, isLeaf, p);
  }

  lemma BodyComplete(checks: Checks, body: bytes, isLeaf: bool, p: Parts)
    requires BodyOf(checks, body, isLeaf, p)
    ensures CheckBody(checks, body, p.BodySize(), isLeaf).Ok?
  {
    var afterTbs := p.algorithm + (p.signature + p.more);
    assert body[|p.tbs|..] == afterTbs;
    var afterAlgorithm := p.signature + p.more;
    assert afterTbs[|p.algorithm|..] == afterAlgorithm;
    assert afterAlgorithm[..|p.signature|] == p.signature;
    TlvSizeExtend(afterAlgorithm, |p.signature|);
  }

  lemma CertSound(checks: Checks, rest: bytes)
    requires checks.Elements() && CheckCert(checks, rest).Ok?
    ensures Certificate(checks, rest, CheckCert(checks, rest).value)
  {
    hide BodyOf, CheckBody, SequenceHeader;
    var (start, m) := SequenceHeader(rest).value;
    BodySound(checks, rest[start..], m, start + m == |rest|);
    var p: Parts :| BodyOf(checks, rest[start..], start + m == |rest|, p) && p.BodySize() == m;
    assert CertificateOf(checks, rest, start + m, p);
  }

  lemma CertComplete(checks: Checks, rest: bytes, n: nat)
    requires Certificate(checks, rest, n)
    ensures CheckCert(checks, rest) == Ok(n)
  {
    hide BodyOf, CheckBody, SequenceHeader;
    var p: Parts :| CertificateOf(checks, rest, n, p);
    var (start, m) := SequenceHeader(rest).value;
    BodyComplete(checks, rest[start..], p.more == [], p);
  }

  /** The certificate's octets are the DER element around its three parts. */
  lemma CertificateIsElement(checks: Checks, rest: bytes, n: nat, p: Parts)
    requires CertificateOf(checks, rest, n, p)
    ensures p.BodySize() < 0x1_0000 && n <= |rest|
    ensures rest[..n] == Tlv(TAG_SEQUENCE, p.tbs + p.algorithm + p.signature)
  {
    hide CheckLength, DerLength, IsTlv;
    var (start, m) := SequenceHeader(rest).value;
    var body := p.tbs + p.algorithm + p.signature;
    assert rest[1..start] == DerLength(m) by {
      CheckLengthIsDer(rest[1..], m);
      assert rest[1..start] == rest[1..][..start - 1];
    }
    assert rest[start..n] == body by {
      assert rest[start..n] == rest[start..][..m];
    }
    assert rest[..n] == [rest[0]] + rest[1..start] + rest[start..n];
  }
}
