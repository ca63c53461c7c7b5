/** The info strings of the key schedule's HKDF-Expand calls. */
module KeySchedule {
  import opened Bytes
  import opened Codec
  import opened Limits

  const BUFFER_SIZE := 2 + 8 + 12 + MAX_HASH_SIZE

  datatype Version = Version10 | Version11 | Version12 | Version13 | Version14

  function VersionOctet(v: Version): byte {
    match v
    case Version10 => 0x10
    case Version11 => 0x11
    case Version12 => 0x12
    case Version13 => 0x13
    case Version14 => 0x14
  }

  /** The derivations, by their labels. */
  datatype Label = Derived | ReqHsData | RspHsData | ReqAppData | RspAppData | Key | Iv | Finished | ExpMaster | TrafficUpd

  function Text(l: Label): string {
    match l
    case Derived => "derived"
    case ReqHsData => "req hs data"
    case RspHsData => "rsp hs data"
    case ReqAppData => "req app data"
    case RspAppData => "rsp app data"
    case Key => "key"
    case Iv => "iv"
    case Finished => "finished"
    case ExpMaster => "exp master"
    case TrafficUpd => "traffic upd"
  }

  function Ascii(s: string): (b: bytes)
    ensures |b| == |s|
    ensures forall i :: 0 <= i < |s| ==> b[i] == s[i] as int % 256
  {
    seq(|s|, i requires 0 <= i < |s| => s[i] as int % 256)
  }

  /** "spdmM.m " with the two digits of the version. */
  function VersionText(v: Version): (b: bytes)
    ensures |b| == 8
  {
    Ascii("spdm .  ")[4 := VersionOctet(v) / 16 + 0x30][6 := VersionOctet(v) % 16 + 0x30]
  }

  function Info(length: u16, v: Version, name: bytes, context: bytes): bytes {
    LE(length, 2) + VersionText(v) + (name + context)
  }

  /** The version in every info string. */
  lemma VersionTexts()
    ensures VersionText(Version10) == Ascii("spdm1.0 ") && VersionText(Version11) == Ascii("spdm1.1 ")
    ensures VersionText(Version12) == Ascii("spdm1.2 ") && VersionText(Version13) == Ascii("spdm1.3 ")
    ensures VersionText(Version14) == Ascii("spdm1.4 ")
  {
  }

  /** The labels of the handshake secrets by their octets. */
  lemma HandshakeLabels()
    ensures Ascii(Text(ReqHsData)) == [0x72, 0x65, 0x71, 0x20, 0x68, 0x73, 0x20, 0x64, 0x61, 0x74, 0x61]
    ensures Ascii(Text(RspHsData)) == [0x72, 0x73, 0x70, 0x20, 0x68, 0x73, 0x20, 0x64, 0x61, 0x74, 0x61]
  {
  }

  /** Those of the data secrets. */
  lemma DataLabels()
    ensures Ascii(Text(ReqAppData)) == [0x72, 0x65, 0x71, 0x20, 0x61, 0x70, 0x70, 0x20, 0x64, 0x61, 0x74, 0x61]
    ensures Ascii(Text(RspAppData)) == [0x72, 0x73, 0x70, 0x20, 0x61, 0x70, 0x70, 0x20, 0x64, 0x61, 0x74, 0x61]
  {
  }

  /** Those of what is derived from a secret. */
  lemma KeyLabels()
    ensures Ascii(Text(Key)) == [0x6B, 0x65, 0x79]
    ensures Ascii(Text(Iv)) == [0x69, 0x76]
    ensures Ascii(Text(Finished)) == [0x66, 0x69, 0x6E, 0x69, 0x73, 0x68, 0x65, 0x64]
    ensures Ascii(Text(Derived)) == [0x64, 0x65, 0x72, 0x69, 0x76, 0x65, 0x64]
  {
  }

  /** And those of the exported and the updated secret. */
  lemma LateLabels()
    ensures Ascii(Text(ExpMaster)) == [0x65, 0x78, 0x70, 0x20, 0x6D, 0x61, 0x73, 0x74, 0x65, 0x72]
    ensures Ascii(Text(TrafficUpd)) == [0x74, 0x72, 0x61, 0x66, 0x66, 0x69, 0x63, 0x20, 0x75, 0x70, 0x64]
  {
  }

  lemma Version12Octets()
    ensures VersionText(Version12) == [0x73, 0x70, 0x64, 0x6D, 0x31, 0x2E, 0x32, 0x20]
  {
  }

  /** An info string, part by part: the length lowest octet first, the version, the label
      and the context. Here for version 1.2 and the first label of the schedule. */
  lemma InfoOctets(length: u16, context: bytes)
    ensures Info(length, Version12, Ascii(Text(ReqHsData)), context)
            == [length % 256, length / 256] + [0x73, 0x70, 0x64, 0x6D, 0x31, 0x2E, 0x32, 0x20]
               + ([0x72, 0x65, 0x71, 0x20, 0x68, 0x73, 0x20, 0x64, 0x61, 0x74, 0x61] + context)
  {
    hide LE, VersionText, Ascii, Text;
    LEOctets(length);
    HandshakeLabels();
    Version12Octets();
  }

  /** A label can be told from its first octet or, where several start alike, from
      the second and the fifth. */
  lemma LabelsDiffer(a: Label, b: Label)
    requires Text(a)[0] == Text(b)[0]
    requires Text(a)[0] == 'r' ==> Text(a)[1] == Text(b)[1] && Text(a)[4] == Text(b)[4]
    ensures a == b
  {
  }

  lemma LabelStart(l: Label, context: bytes)
    ensures
      var s := Ascii(Text(l)) + context;
      && |Text(l)| > 1 && s[0] == Text(l)[0] as int && (Text(l)[0] == 'r' ==> |Text(l)| > 4)
      && (Text(l)[0] == 'r' ==> s[1] == Text(l)[1] as int && s[4] == Text(l)[4] as int)
  {
  }

  /** The labels are prefix-free: whatever follows them, the label can be read back. */
  lemma PrefixFree(a: Label, b: Label, x: bytes, y: bytes)
    requires Ascii(Text(a)) + x == Ascii(Text(b)) + y
    ensures a == b && x == y
  {
    LabelStart(a, x);
    LabelStart(b, y);
    LabelsDiffer(a, b);
    var n := |Text(a)|;
    assert x == (Ascii(Text(a)) + x)[n..];
    assert y == (Ascii(Text(b)) + y)[n..];
  }

  lemma VersionsDiffer(v: Version, w: Version)
    requires VersionText(v) == VersionText(w)
    ensures v == w
  {
    assert VersionText(v)[6] == VersionOctet(v) % 16 + 0x30;
    assert VersionText(w)[6] == VersionOctet(w) % 16 + 0x30;
  }

  lemma InfoFields(length: u16, v: Version, name: bytes, context: bytes)
    ensures
      var s := Info(length, v, name, context);
      s[..2] == LE(length, 2) && s[2..10] == VersionText(v) && s[10..] == name + context
  {
    hide LE, VersionText;
  }

  /** No two derivations share an info string: output length, version, label and
      context octets can all be told from it. */
  lemma InfoInjective(m: u16, n: u16, v: Version, w: Version, a: Label, b: Label, x: bytes, y: bytes)
    requires Info(m, v, Ascii(Text(a)), x) == Info(n, w, Ascii(Text(b)), y)
    ensures m == n && v == w && a == b && x == y
  {
    hide LE, Info, Text, Ascii, VersionText;
    InfoFields(m, v, Ascii(Text(a)), x);
    InfoFields(n, w, Ascii(Text(b)), y);
    Pow256Values();
    LEInjective(m, n, 2);
    VersionsDiffer(v, w);
    PrefixFree(a, b, x, y);
  }

  function ContextOctets(context: Option<bytes>): bytes {
    match context
    case None => []
    case Some(c) => c
  }

  /** Builds an info string in the caller's buffer, unless it does not fit. */
  method BinConcat(length: u16, v: Version, name: bytes, context: Option<bytes>, buf: array<byte>) returns (r: Option<bytes>)
    requires buf.Length >= 10
    modifies buf
    ensures
      var info := Info(length, v, name, ContextOctets(context));
      r == if |info| <= buf.Length then Some(info) else None
  {
    hide LE, Splice;
    var n := |name|;
    if context.Some? {
      n := n + |context.value|;
    }
    if n > buf.Length - 2 - 8 {
      return None;
    }
    var version := Ascii("spdm .  ");
    version := version[4 := VersionOctet(v) / 16 + 0x30];
    version := version[6 := VersionOctet(v) % 16 + 0x30];
    assert version == VersionText(v);
    hide VersionText, Ascii, VersionOctet;
    var w := new Writer(buf, 0);
    assert w.Written() == [];
    var _ := w.ExtendFromSlice(LE(length, 2));
    var _ := w.ExtendFromSlice(version);
    var _ := w.ExtendFromSlice(name);
    if context.Some? {
      var _ := w.ExtendFromSlice(context.value);
    }
    assert w.Written() == Info(length, v, name, ContextOctets(context));
    r := Some(w.Written());
  }

  /** Every derivation's info string fits the schedule's buffer. */
  lemma InfoFits(length: u16, v: Version, l: Label, context: bytes)
    requires |context| <= MAX_HASH_SIZE
    ensures |Info(length, v, Ascii(Text(l)), context)| <= BUFFER_SIZE
  {
    assert |Text(l)| <= 12;
  }
}
