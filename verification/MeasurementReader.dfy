/** The measurement codec as it runs: a reader whose offset moves, and arrays filled
    one octet at a time. */
module MeasurementReader {
  import opened Bytes
  import opened Codec
  import opened Measurement

  /** What a reader has not consumed. */
  ghost function Left(r: Reader): bytes
    requires r.Valid()
    reads r
  {
    r.buf[r.offs..]
  }

  /** Fills the first n places of an array. */
  method ReadOctets(r: Reader, dst: array<byte>, n: nat) returns (ok: bool)
    requires r.Valid() && n <= dst.Length
    modifies r, dst
    ensures r.Valid()
    ensures ok <==> n <= |old(Left(r))|
    ensures ok ==> r.offs == old(r.offs) + n && dst[..n] == old(Left(r))[..n]
  {
    ghost var start := r.offs;
    for i := 0 to n
      invariant r.Valid() && r.offs == start + i
      invariant dst[..i] == r.buf[start..start + i]
    {
      var d := r.Take(1);
      if d.None? {
        return false;
      }
      dst[i] := d.value[0];
    }
    ok := true;
  }

  method ReadMeasurement(cfg: Config, r: Reader) returns (m: Option<(Kind, bool, bytes)>)
    requires r.Valid()
    modifies r
    ensures r.Valid() && m == ReadValue(cfg, old(Left(r)))
    ensures m.Some? ==> r.offs == old(r.offs) + 3 + |m.value.2|
  {
    ghost var s := Left(r);
    var first := r.Take(1);
    if first.None? {
      return None;
    }
    var kind, raw := first.value[0] % 128, first.value[0] >= 128;
    if !KindAllows(kind, raw) {
      return None;
    }
    var field := r.Take(2);
    if field.None? {
      return None;
    }
    assert field.value == s[1..3] && Left(r) == s[3..];
    var size := FromLE(field.value);
    if size > cfg.maxValue || (!raw && cfg.digest != Some(size)) {
      return None;
    }
    var value := new byte[cfg.maxValue](_ => 0);
    var ok := ReadOctets(r, value, size);
    if !ok {
      return None;
    }
    assert value[..size] == s[3..3 + size];
    m := Some((kind, raw, value[..size]));
  }

  method ReadMeasurementBlock(cfg: Config, r: Reader) returns (b: Option<Block>)
    requires r.Valid()
    modifies r
    ensures r.Valid() && b == ReadBlock(cfg, old(Left(r)))
    ensures b.Some? ==> Left(r) == old(Left(r))[7 + |b.value.value|..]
  {
    hide ReadValue;
    ghost var s := Left(r);
    var index := r.Take(1);
    if index.None? {
      return None;
    }
    var spec := r.Take(1);
    if spec.None? || spec.value[0] % 2 != 1 {
      return None;
    }
    var field := r.Take(2);
    if field.None? {
      return None;
    }
    assert field.value == s[2..4] && Left(r) == s[4..];
    var size := FromLE(field.value);
    if size > 3 + cfg.maxValue {
      return None;
    }
    var m := ReadMeasurement(cfg, r);
    if m.None? || size != 3 + |m.value.2| {
      return None;
    }
    b := Some(Block(index.value[0], m.value.0, m.value.1, m.value.2));
  }

  method VerifyMeasurementRecord(cfg: Config, n: byte, data: bytes) returns (ok: bool)
    ensures ok <==> ReadBlocks(cfg, n, data, 0).Some?
  {
    hide ReadBlock;
    var reader := new Reader(data);
    var curIndex: byte := 0;
    for i := 0 to n
      invariant reader.Valid()
      invariant ReadBlocks(cfg, n, data, 0).Some? <==> ReadBlocks(cfg, n - i, Left(reader), curIndex).Some?
    {
      var b := ReadMeasurementBlock(cfg, reader);
      if b.None? || b.value.index <= curIndex {
        return false;
      }
      curIndex := b.value.index;
    }
    ok := reader.offs == |data|;
  }

  method ReadMeasurementRecord(cfg: Config, r: Reader) returns (record: Option<(byte, bytes)>)
    requires r.Valid()
    modifies r
    ensures record == ReadRecord(cfg, old(Left(r)))
  {
    hide ReadBlocks;
    ghost var s := Left(r);
    var n := r.Take(1);
    if n.None? {
      return None;
    }
    var field := r.Take(3);
    if field.None? {
      return None;
    }
    assert field.value == s[1..4] && Left(r) == s[4..];
    var size := FromLE(field.value);
    if size > cfg.maxRecord {
      return None;
    }
    var data := new byte[cfg.maxRecord](_ => 0);
    var ok := ReadOctets(r, data, size);
    if !ok {
      return None;
    }
    assert data[..size] == s[4..4 + size];
    var verified := VerifyMeasurementRecord(cfg, n.value[0], data[..size]);
    record := if verified then Some((n.value[0], data[..size])) else None;
  }

  /** What stays behind of a block and of a measurement of which n octets would fit: a
      size field is written whole or not at all. */
  function BlockKept(n: nat): nat {
    if n == 3 then 2 else if n == 6 then 5 else n
  }

  function ValueKept(n: nat): nat {
    if n == 2 then 1 else n
  }

  /** The front of three parts, by where it ends. */
  lemma Fronts(written: bytes, a: bytes, b: bytes, c: bytes, k: nat)
    ensures k <= |a| ==> written + a[..k] == written + (a + b + c)[..k]
    ensures k <= |c| ==> written + (a + b) + c[..k] == written + (a + b + c)[..|a| + |b| + k]
  {
    assert k <= |a| ==> (a + b + c)[..k] == a[..k];
    assert k <= |c| ==> (a + b + c)[..|a| + |b| + k] == a + b + c[..k];
  }

  /** A few octets, one at a time, and then a size field. */
  method EncodeHead(head: bytes, size: bytes, w: Writer) returns (ok: bool)
    requires w.Valid()
    modifies w, w.buf
    ensures w.Valid() && (ok ==> w.offs == old(w.offs) + |head| + |size|)
    ensures ok <==> old(w.base + w.offs) + |head| + |size| <= w.buf.Length
    ensures ok ==> w.Written() == old(w.Written()) + (head + size)
    ensures !ok ==> w.Written() == old(w.Written()) + head[..Min(|head|, w.buf.Length - old(w.base + w.offs))]
  {
    hide Splice;
    ghost var written := w.Written();
    ok := w.PushAll(head);
    if ok {
      assert w.Written() == written + head;
      ok := w.ExtendFromSlice(size);
      assert ok ==> w.Written() == written + head + size == written + (head + size);
    }
  }

  /** Appends a block, or as much of it as fits by whole fields. */
  method EncodeBlock(b: Block, w: Writer) returns (ok: bool)
    requires w.Valid()
    modifies w, w.buf
    ensures w.Valid()
    ensures ok <==> old(w.base + w.offs) + |Octets(b, 1)| <= w.buf.Length
    ensures
      var n := Min(|Octets(b, 1)|, w.buf.Length - old(w.base + w.offs));
      w.Written() == old(w.Written()) + Octets(b, 1)[..BlockKept(n)]
  {
    ghost var room, written := w.buf.Length - w.base - w.offs, w.Written();
    var head, size := [b.index, 1], LE(3 + |b.value|, 2);
    BlockParts(b);
    hide LE, Octets, ValueOctets, Writer.Written;
    ok := EncodeHead(head, size, w);
    if ok {
      ghost var k := ValueKept(Min(3 + |b.value|, room - 4));
      ok := EncodeMeasurement(b, w);
      Fronts(written, head, size, ValueOctets(b), k);
    } else {
      Fronts(written, head, size, ValueOctets(b), Min(2, room));
    }
  }

  lemma BlockParts(b: Block)
    ensures Octets(b, 1) == [b.index, 1] + LE(3 + |b.value|, 2) + ValueOctets(b)
  {
    hide LE;
  }

  function ValueOctets(b: Block): (s: bytes)
    ensures |s| == 3 + |b.value|
  {
    [b.kind + if b.raw then 128 else 0] + LE(|b.value|, 2) + b.value
  }

  method EncodeMeasurement(b: Block, w: Writer) returns (ok: bool)
    requires w.Valid()
    modifies w, w.buf
    ensures w.Valid()
    ensures ok <==> old(w.base + w.offs) + 3 + |b.value| <= w.buf.Length
    ensures
      var n := Min(3 + |b.value|, w.buf.Length - old(w.base + w.offs));
      w.Written() == old(w.Written()) + ValueOctets(b)[..ValueKept(n)]
  {
    ghost var room, written := w.buf.Length - w.base - w.offs, w.Written();
    var head, size := [b.kind + if b.raw then 128 else 0], LE(|b.value|, 2);
    assert ValueOctets(b) == head + size + b.value;
    hide LE, Splice, ValueOctets, Writer.Written;
    ok := EncodeHead(head, size, w);
    if ok {
      ghost var k := Min(|b.value|, room - 3);
      ok := w.PushAll(b.value);
      Fronts(written, head, size, b.value, k);
    } else {
      Fronts(written, head, size, b.value, Min(1, room));
    }
  }
}
