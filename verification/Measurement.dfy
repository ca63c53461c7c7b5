/** Measurement blocks and records, what makes them well formed, and the reader that
    accepts them. */
module Measurement {
  import opened Bytes

  /** Build-time limits and the negotiated measurement hash: the size of a digest, or
      None for raw bit streams. */
  datatype Config = Config(maxValue: nat, maxRecord: nat, digest: Option<nat>) {
    ghost predicate Valid() {
      maxValue <= 0xFFFF - 7 && maxRecord <= 0xFF_FFFF
    }
  }

  /** The type of a measurement is seven bits; the eighth says that the value is raw. */
  type Kind = k: int | 0 <= k < 128

  datatype Block = Block(index: byte, kind: Kind, raw: bool, value: bytes)

  predicate KindAllows(kind: Kind, raw: bool) {
    match kind
    case 5 => raw
    case 6 => raw
    case 7 => raw
    case 8 => !raw
    case 9 => raw
    case _ => true
  }

  predicate Acceptable(cfg: Config, b: Block) {
    && KindAllows(b.kind, b.raw) && |b.value| <= cfg.maxValue
    && (!b.raw ==> cfg.digest == Some(|b.value|))
  }

  /** The octets of a block with this specification octet; only its lowest bit counts. */
  function Octets(b: Block, spec: byte): (s: bytes)
    ensures |s| == 7 + |b.value|
  {
    [b.index, spec] + LE(3 + |b.value|, 2) + [b.kind + if b.raw then 128 else 0] + LE(|b.value|, 2) + b.value
  }

  /** The value with its type and size, from the front of s. */
  function ReadValue(cfg: Config, s: bytes): Option<(Kind, bool, bytes)> {
    if |s| < 1 then None else
    var kind, raw := s[0] % 128, s[0] >= 128;
    if !KindAllows(kind, raw) || |s| < 3 then None else
    var size := FromLE(s[1..3]);
    if size > cfg.maxValue || (!raw && cfg.digest != Some(size)) || |s| < 3 + size then None
    else Some((kind, raw, s[3..3 + size]))
  }

  /** The block at the front of s. */
  function ReadBlock(cfg: Config, s: bytes): (r: Option<Block>)
    ensures r.Some? ==> 7 + |r.value.value| <= |s|
  {
    if |s| < 2 || s[1] % 2 != 1 || |s| < 4 then None else
    var size := FromLE(s[2..4]);
    if size > 3 + cfg.maxValue then None else
    match ReadValue(cfg, s[4..])
    case None => None
    case Some((kind, raw, value)) =>
      if size != 3 + |value| then None else Some(Block(s[0], kind, raw, value))
  }

  lemma OctetFields(b: Block, spec: byte, rest: bytes)
    ensures
      var s := Octets(b, spec) + rest;
      && s[0] == b.index && s[1] == spec && s[2..4] == LE(3 + |b.value|, 2)
      && s[4] == b.kind + (if b.raw then 128 else 0) && s[5..7] == LE(|b.value|, 2)
      && s[7..7 + |b.value|] == b.value && s[7 + |b.value|..] == rest
  {
    hide LE;
  }

  /** Reading finds exactly the acceptable blocks. */
  lemma ReadBlockFinds(cfg: Config, b: Block, spec: byte, rest: bytes)
    requires cfg.Valid() && |b.value| < 0x1_0000 - 3
    ensures ReadBlock(cfg, Octets(b, spec) + rest) == if spec % 2 == 1 && Acceptable(cfg, b) then Some(b) else None
  {
    hide LE, Octets;
    var s := Octets(b, spec) + rest;
    OctetFields(b, spec, rest);
    Pow256Values();
    DecodeEncode(3 + |b.value|, 2);
    DecodeEncode(|b.value|, 2);
    var t := s[4..];
    assert t[1..3] == s[5..7] && t[3..3 + |b.value|] == s[7..7 + |b.value|] && t[0] == s[4];
  }

  /** Which blocks these are: the specification is DMTF, the value is within the limit, a
      digest has the size of the negotiated hash, versions and modes (types 5, 6, 7 and 9)
      are raw and a hash-extend measurement (type 8) is a digest. The octets are index,
      specification, size, type, value size and value, sizes lowest octet first. */
  lemma BlockReadIff(cfg: Config, b: Block, spec: byte, rest: bytes)
    requires cfg.Valid() && |b.value| < 0x1_0000 - 3
    ensures
      var n := |b.value|;
      var octets := [b.index, spec, (3 + n) % 256, (3 + n) / 256, b.kind + if b.raw then 128 else 0, n % 256, n / 256] + b.value;
      var r := ReadBlock(cfg, octets + rest);
      && (r.Some? <==>
            && spec % 2 == 1 && n <= cfg.maxValue
            && (!b.raw ==> cfg.digest == Some(n) && b.kind !in {5, 6, 7, 9})
            && (b.raw ==> b.kind != 8))
      && (r.Some? ==> r.value == b)
  {
    var n := |b.value|;
    LEOctets(3 + n);
    LEOctets(n);
    assert Octets(b, spec)
        == [b.index, spec, (3 + n) % 256, (3 + n) / 256, b.kind + if b.raw then 128 else 0, n % 256, n / 256] + b.value;
    hide LE, Octets, ReadBlock;
    ReadBlockFinds(cfg, b, spec, rest);
  }

  /** And whatever it finds was there, octet for octet. */
  lemma FoundWasThere(cfg: Config, s: bytes)
    requires cfg.Valid() && ReadBlock(cfg, s).Some?
    ensures
      var b := ReadBlock(cfg, s).value;
      && Acceptable(cfg, b) && s[1] % 2 == 1 && |Octets(b, s[1])| <= |s|
      && s == Octets(b, s[1]) + s[7 + |b.value|..]
  {
    hide LE;
    var b := ReadBlock(cfg, s).value;
    var t := s[4..];
    EncodeDecode(s[2..4]);
    EncodeDecode(t[1..3]);
    assert t[1..3] == s[5..7];
    assert s == [s[0], s[1]] + s[2..4] + [s[4]] + s[5..7] + s[7..7 + |b.value|] + s[7 + |b.value|..];
  }

  /** The blocks one after another. */
  function Join(blocks: seq<Block>, specs: seq<byte>): bytes
    requires |blocks| == |specs|
  {
    if blocks == [] then [] else Octets(blocks[0], specs[0]) + Join(blocks[1..], specs[1..])
  }

  /** Acceptable blocks under strictly increasing indexes, the first above `last`. */
  predicate WellFormed(cfg: Config, blocks: seq<Block>, specs: seq<byte>, last: byte) {
    && |blocks| == |specs|
    && (blocks != [] ==>
          && specs[0] % 2 == 1 && Acceptable(cfg, blocks[0]) && blocks[0].index > last
          && WellFormed(cfg, blocks[1..], specs[1..], blocks[0].index))
  }

  /** n blocks and nothing else. */
  function ReadBlocks(cfg: Config, n: nat, s: bytes, last: byte): Option<seq<Block>>
    decreases n
  {
    if n == 0 then if s == [] then Some([]) else None else
    match ReadBlock(cfg, s)
    case None => None
    case Some(b) =>
      if b.index <= last then None else
      match ReadBlocks(cfg, n - 1, s[7 + |b.value|..], b.index)
      case None => None
      case Some(more) => Some([b] + more)
  }

  lemma {:induction false} ReadsJoined(cfg: Config, blocks: seq<Block>, specs: seq<byte>, last: byte)
    requires cfg.Valid() && WellFormed(cfg, blocks, specs, last)
    ensures ReadBlocks(cfg, |blocks|, Join(blocks, specs), last) == Some(blocks)
    decreases |blocks|
  {
    hide Octets, ReadBlock;
    if blocks != [] {
      var rest := Join(blocks[1..], specs[1..]);
      ReadBlockFinds(cfg, blocks[0], specs[0], rest);
      ReadsJoined(cfg, blocks[1..], specs[1..], blocks[0].index);
      assert Join(blocks, specs)[7 + |blocks[0].value|..] == rest;
      assert blocks == [blocks[0]] + blocks[1..];
    }
  }

  lemma {:induction false} JoinedWhatWasRead(cfg: Config, n: nat, s: bytes, last: byte) returns (specs: seq<byte>)
    requires cfg.Valid() && ReadBlocks(cfg, n, s, last).Some?
    ensures
      var blocks := ReadBlocks(cfg, n, s, last).value;
      |blocks| == n && WellFormed(cfg, blocks, specs, last) && s == Join(blocks, specs)
    decreases n
  {
    hide Octets, ReadBlock;
    if n == 0 {
      specs := [];
    } else {
      FoundWasThere(cfg, s);
      var b := ReadBlock(cfg, s).value;
      var more := JoinedWhatWasRead(cfg, n - 1, s[7 + |b.value|..], b.index);
      specs := [s[1]] + more;
      var blocks := ReadBlocks(cfg, n, s, last).value;
      assert blocks[1..] == ReadBlocks(cfg, n - 1, s[7 + |b.value|..], b.index).value && specs[1..] == more;
    }
  }

  /** A record is accepted as these blocks exactly if it is the octets of n acceptable
      blocks with strictly increasing non-zero indexes, and nothing more. */
  lemma RecordAcceptedIff(cfg: Config, n: nat, s: bytes, blocks: seq<Block>)
    requires cfg.Valid()
    ensures ReadBlocks(cfg, n, s, 0) == Some(blocks)
            <==> |blocks| == n && exists specs :: WellFormed(cfg, blocks, specs, 0) && s == Join(blocks, specs)
  {
    if ReadBlocks(cfg, n, s, 0) == Some(blocks) {
      var specs := JoinedWhatWasRead(cfg, n, s, 0);
    }
    forall specs | |blocks| == n && WellFormed(cfg, blocks, specs, 0) && s == Join(blocks, specs)
      ensures ReadBlocks(cfg, n, s, 0) == Some(blocks)
    {
      ReadsJoined(cfg, blocks, specs, 0);
    }
  }

  /** The record: number of blocks, 24-bit length, data. */
  function RecordOctets(n: byte, data: bytes): bytes {
    [n] + LE(|data|, 3) + data
  }

  /** Number and data of the record at the front of s, if it verifies. */
  function ReadRecord(cfg: Config, s: bytes): Option<(byte, bytes)> {
    if |s| < 4 then None else
    var size := FromLE(s[1..4]);
    if size > cfg.maxRecord || |s| < 4 + size then None else
    var data := s[4..4 + size];
    if ReadBlocks(cfg, s[0], data, 0).None? then None else Some((s[0], data))
  }

  /** A record, octet by octet. */
  lemma RecordLayout(n: byte, data: bytes)
    requires |data| <= 0xFF_FFFF
    ensures RecordOctets(n, data) == [n, |data| % 256, |data| / 256 % 256, |data| / 0x1_0000] + data
  {
    LEOctets(|data|);
  }

  lemma RecordFields(n: byte, data: bytes, rest: bytes)
    requires |data| <= 0xFF_FFFF
    ensures
      var s := RecordOctets(n, data) + rest;
      s[0] == n && FromLE(s[1..4]) == |data| && s[4..4 + |data|] == data && |s| >= 4 + |data|
  {
    hide LE;
    var s := RecordOctets(n, data) + rest;
    Pow256Values();
    DecodeEncode(|data|, 3);
    assert s[1..4] == LE(|data|, 3);
  }

  /** Encoding any list of blocks and reading it back gives the list, exactly if the
      list is well formed and within the record limit. */
  lemma RecordRoundTrip(cfg: Config, blocks: seq<Block>, rest: bytes)
    requires cfg.Valid() && |blocks| < 256
    requires forall b :: b in blocks ==> |b.value| < 0x1_0000 - 3
    ensures
      var specs := Ones(|blocks|);
      var data := Join(blocks, specs);
      |data| <= 0xFF_FFFF ==>
        var r := ReadRecord(cfg, RecordOctets(|blocks|, data) + rest);
        && (r.Some? <==> |data| <= cfg.maxRecord && WellFormed(cfg, blocks, specs, 0))
        && (r.Some? ==> r.value == (|blocks|, data) && ReadBlocks(cfg, |blocks|, data, 0) == Some(blocks))
  {
    var specs := Ones(|blocks|);
    var data := Join(blocks, specs);
    if |data| <= 0xFF_FFFF {
      hide RecordOctets, ReadBlocks;
      RecordFields(|blocks|, data, rest);
      if WellFormed(cfg, blocks, specs, 0) {
        ReadsJoined(cfg, blocks, specs, 0);
      } else {
        RejectsIllFormed(cfg, blocks, specs, 0);
      }
    }
  }

  /** The specification octet the encoder writes, n times. */
  function Ones(n: nat): seq<byte> {
    seq(n, _ => 1)
  }

  lemma {:induction false} RejectsIllFormed(cfg: Config, blocks: seq<Block>, specs: seq<byte>, last: byte)
    requires cfg.Valid() && |blocks| == |specs| && !WellFormed(cfg, blocks, specs, last)
    requires forall b :: b in blocks ==> |b.value| < 0x1_0000 - 3
    ensures ReadBlocks(cfg, |blocks|, Join(blocks, specs), last) == None
    decreases |blocks|
  {
    hide Octets, ReadBlock;
    var rest := Join(blocks[1..], specs[1..]);
    ReadBlockFinds(cfg, blocks[0], specs[0], rest);
    assert Join(blocks, specs)[7 + |blocks[0].value|..] == rest;
    if specs[0] % 2 == 1 && Acceptable(cfg, blocks[0]) && blocks[0].index > last {
      RejectsIllFormed(cfg, blocks[1..], specs[1..], blocks[0].index);
    }
  }
}
