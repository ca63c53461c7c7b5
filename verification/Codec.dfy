/** The status codes the modelled operations return, and the octet-string
    `Reader` and `Writer` every message codec is built on. */
module Status {

  datatype Status =
    | BufferFull | BufferTooSmall | CryptoError | DecapAppFail | DecapFail
    | DecodeAeadFail | EncapAppFail | EncapFail | InvalidCert | InvalidParameter
    | InvalidStateLocal | SequenceNumberOverflow | SessionNumberExceed | VerifFail

  datatype Result<+T> = Ok(value: T) | Err(status: Status) {
    predicate IsFailure() {
      Err?
    }

    function PropagateFailure<U>(): Result<U>
      requires Err?
    {
      Err(status)
    }

    function Extract(): T
      requires Ok?
    {
      value
    }
  }
}

/** Sizes the protocol fixes. */
module Limits {
  const MAX_HASH_SIZE: nat := 64
}

module Codec {
  import opened Bytes

  /** Reads from the front of a byte slice. */
  class Reader {
    const buf: bytes
    var offs: nat

    ghost predicate Valid()
      reads this
    {
      offs <= |buf|
    }

    constructor (data: bytes)
      ensures Valid() && buf == data && offs == 0
    {
      buf := data;
      offs := 0;
    }

    /** All or nothing: either n octets are consumed or the reader stays put. */
    method Take(n: nat) returns (r: Option<bytes>)
      requires Valid()
      modifies this
      ensures Valid()
      ensures r.Some? <==> old(offs) + n <= |buf|
      ensures r.Some? ==> offs == old(offs) + n && r.value == buf[old(offs)..offs]
      ensures r.None? ==> offs == old(offs)
    {
      if |buf| - offs < n {
        return None;
      }
      r := Some(buf[offs..offs + n]);
      offs := offs + n;
    }

    /** Reads an n-octet little-endian unsigned integer. */
    method ReadLE(n: nat) returns (r: Option<nat>)
      requires Valid()
      modifies this
      ensures Valid()
      ensures r.Some? <==> old(offs) + n <= |buf|
      ensures r.Some? ==> offs == old(offs) + n && r.value < Pow256(n) && buf[old(offs)..offs] == LE(r.value, n)
      ensures r.None? ==> offs == old(offs)
    {
      var t := Take(n);
      if t.None? {
        return None;
      }
      EncodeDecode(t.value);
      FromLEBound(t.value);
      r := Some(FromLE(t.value));
    }
  }

  /** Writes into the part of a buffer that starts at `base`. */
  class Writer {
    const buf: array<byte>
    const base: nat
    var offs: nat

    ghost predicate Valid()
      reads this
    {
      base + offs <= buf.Length
    }

    constructor (b: array<byte>, from: nat)
      requires from <= b.Length
      ensures Valid() && buf == b && base == from && offs == 0
    {
      buf := b;
      base := from;
      offs := 0;
    }

    /** The octets written so far. */
    function Written(): bytes
      requires Valid()
      reads this, buf
    {
      buf[base..base + offs]
    }

    /** All or nothing: the octets are appended if they fit, else nothing is written. */
    method ExtendFromSlice(v: bytes) returns (ok: bool)
      requires Valid()
      modifies this, buf
      ensures Valid()
      ensures ok <==> old(base + offs) + |v| <= buf.Length
      ensures ok ==> offs == old(offs) + |v| && buf[..] == Splice(old(buf[..]), old(base + offs), v)
      ensures ok ==> Written() == old(Written()) + v
      ensures !ok ==> offs == old(offs) && buf[..] == old(buf[..])
    {
      if buf.Length - base - offs < |v| {
        return false;
      }
      var start := base + offs;
      for i := 0 to |v|
        invariant offs == old(offs)
        invariant forall j :: 0 <= j < i ==> buf[start + j] == v[j]
        invariant forall j :: 0 <= j < buf.Length && !(start <= j < start + i) ==> buf[j] == old(buf[j])
      {
        buf[start + i] := v[i];
      }
      offs := offs + |v|;
      ok := true;
    }

    /** One octet at a time: as many as fit are appended. */
    method PushAll(v: bytes) returns (ok: bool)
      requires Valid()
      modifies this, buf
      ensures Valid()
      ensures ok <==> old(base + offs) + |v| <= buf.Length
      ensures
        var k := Min(|v|, buf.Length - old(base + offs));
        offs == old(offs) + k && buf[..] == Splice(old(buf[..]), old(base + offs), v[..k]) && Written() == old(Written()) + v[..k]
    {
      hide Splice;
      ghost var start, before, written := base + offs, buf[..], Written();
      SpliceNothing(before, start);
      for i := 0 to |v|
        invariant Valid() && offs == old(offs) + i
        invariant buf[..] == Splice(before, start, v[..i])
        invariant Written() == written + v[..i]
      {
        ok := ExtendFromSlice([v[i]]);
        if !ok {
          return;
        }
        SpliceTwice(before, start, v[..i], [v[i]]);
        assert v[..i] + [v[i]] == v[..i + 1];
      }
      assert v[..|v|] == v;
      ok := true;
    }
  }

  lemma SpliceNothing(s: bytes, at: nat)
    requires at <= |s|
    ensures Splice(s, at, []) == s
  {
  }

  function Min(a: nat, b: nat): nat {
    if a <= b then a else b
  }

  /** The buffer with the octets from `at` on overwritten by v. */
  function Splice(s: bytes, at: nat, v: bytes): (t: bytes)
    requires at + |v| <= |s|
    ensures |t| == |s|
    ensures t[..at + |v|] == s[..at] + v
    ensures t[at + |v|..] == s[at + |v|..]
  {
    s[..at] + v + s[at + |v|..]
  }

  /** Overwriting two adjacent parts is overwriting both at once. */
  lemma SpliceTwice(s: bytes, at: nat, a: bytes, b: bytes)
    requires at + |a| + |b| <= |s|
    ensures Splice(Splice(s, at, a), at + |a|, b) == Splice(s, at, a + b)
  {
  }

  /** Copies octets to a place in a buffer. */
  method CopyAt(dst: array<byte>, at: nat, src: bytes)
    requires at + |src| <= dst.Length
    modifies dst
    ensures dst[..] == Splice(old(dst[..]), at, src)
  {
    var w := new Writer(dst, at);
    var _ := w.ExtendFromSlice(src);
  }
}
