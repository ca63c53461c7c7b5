/** The two transport bindings, MCTP and PCI DOE, and the whole path of a session
    message: application framing, sealing, transport framing, and back. */
module Transport {
  import opened Bytes
  import opened Status
  import opened SecuredMessage
  import opened SessionModel

  datatype Transport = Mctp | PciDoe

  const MCTP_PLDM: byte := 1
  const MCTP_SPDM: byte := 5
  const MCTP_SECURED: byte := 6
  const DOE_VENDOR_PCISIG: u16 := 1
  const DOE_SPDM: byte := 1
  const DOE_SECURED: byte := 2
  const DOE_HEADER_SIZE := 8
  /** The largest data object, in 32-bit words; the header writes it as 0. */
  const DOE_MAX_WORDS := 0x40000
  /** What a buffer must leave for headers, tag and padding. */
  const OVERHEAD := 64

  function SequenceNumberCount(t: Transport): nat {
    if t.Mctp? then 2 else 0
  }

  /** PCI DOE frames nothing here, and copies without checking. */
  function EncapApp(t: Transport, m: bytes, isApp: bool, room: nat): Result<bytes>
    requires t.PciDoe? ==> |m| <= room
  {
    if t.PciDoe? then Ok(m)
    else if room < 1 + |m| then Err(EncapAppFail)
    else Ok([if isApp then MCTP_PLDM else MCTP_SPDM] + m)
  }

  function DecapApp(t: Transport, app: bytes, room: nat): Result<(bytes, bool)>
    requires t.PciDoe? ==> |app| <= room
  {
    if t.PciDoe? then Ok((app, false))
    else if |app| < 1 || (app[0] != MCTP_SPDM && app[0] != MCTP_PLDM) || room < |app| - 1 then Err(DecapAppFail)
    else Ok((app[1..], app[0] == MCTP_PLDM))
  }

  function Aligned(n: nat): (a: nat)
    ensures a % 4 == 0 && n <= a < n + 4
  {
    (n + 3) / 4 * 4
  }

  /** The header for a payload of `size` octets. The source panics on objects beyond
      the largest. */
  function DoeHeader(secured: bool, size: nat): (h: bytes)
    requires size % 4 == 0 && (size + DOE_HEADER_SIZE) / 4 <= DOE_MAX_WORDS
    ensures |h| == DOE_HEADER_SIZE
  {
    var words := (size + DOE_HEADER_SIZE) / 4;
    LE(DOE_VENDOR_PCISIG, 2) + [if secured then DOE_SECURED else DOE_SPDM, 0] + LE(words % DOE_MAX_WORDS, 4)
  }

  /** Vendor, object type and payload size in octets. The upper 14 bits of the length
      word are not part of the length. */
  function ReadDoeHeader(b: bytes): Option<(nat, byte, nat)> {
    if |b| < DOE_HEADER_SIZE then None else
    var field := FromLE(b[4..8]) % DOE_MAX_WORDS;
    var words := if field == 0 then DOE_MAX_WORDS else field;
    if words < 2 then None else Some((FromLE(b[..2]), b[2], words * 4 - DOE_HEADER_SIZE))
  }

  /** A frame in a transport buffer that held `buf`; PCI DOE pads with what was there. */
  function EncapFrame(t: Transport, payload: bytes, buf: bytes, secured: bool): Result<bytes>
    requires t.PciDoe? ==> (Aligned(|payload|) + DOE_HEADER_SIZE) / 4 <= DOE_MAX_WORDS
  {
    match t
    case Mctp =>
      if |buf| < 1 + |payload| then Err(EncapFail)
      else Ok([if secured then MCTP_SECURED else MCTP_SPDM] + payload)
    case PciDoe =>
      var n := DOE_HEADER_SIZE + Aligned(|payload|);
      if |buf| < n then Err(EncapFail)
      else Ok(DoeHeader(secured, Aligned(|payload|)) + (payload + buf[DOE_HEADER_SIZE + |payload|..n]))
  }

  /** The payload of a received frame and whether it is secured. */
  function DecapFrame(t: Transport, wire: bytes, room: nat): Result<(bytes, bool)> {
    match t
    case Mctp =>
      if |wire| < 1 || (wire[0] != MCTP_SPDM && wire[0] != MCTP_SECURED) || room < |wire| - 1 then Err(DecapFail)
      else Ok((wire[1..], wire[0] == MCTP_SECURED))
    case PciDoe =>
      match ReadDoeHeader(wire)
      case None => Err(DecapFail)
      case Some((vendor, kind, size)) =>
        if vendor != DOE_VENDOR_PCISIG || (kind != DOE_SPDM && kind != DOE_SECURED)
           || |wire| < DOE_HEADER_SIZE + size || room < size then Err(DecapFail)
        else Ok((wire[DOE_HEADER_SIZE..DOE_HEADER_SIZE + size], kind == DOE_SECURED))
  }

  /** What the layers demand of a message on its way out: PCI DOE copies it unchecked, a
      message that is framed is sealed into a buffer of the same size unchecked, and
      there is a largest data object. */
  predicate Sendable(t: Transport, m: bytes, isApp: bool, room: nat) {
    && (t.PciDoe? ==> |m| <= room && Aligned(|m| + 24) + DOE_HEADER_SIZE <= 4 * DOE_MAX_WORDS)
    && (EncapApp(t, m, isApp, room).Ok? ==> |EncapApp(t, m, isApp, room).value| + SequenceNumberCount(t) + 24 <= room)
  }

  /** Message to frame, through buffers of the transport buffer's size. */
  function EncodeSecured(t: Transport, aead: Aead, s: Session, dir: Direction, m: bytes, isApp: bool, buf: bytes)
    : (Session, Result<bytes>)
    requires Sendable(t, m, isApp, |buf|) && aead.Sized() && s.seqCount == SequenceNumberCount(t)
  {
    match EncapApp(t, m, isApp, |buf|)
    case Err(e) => (s, Err(e))
    case Ok(app) =>
      var (s1, r) := Encode(aead, s, dir, app);
      match r
      case Err(e) => (s1, Err(e))
      case Ok(secured) => SealedSize(aead, s, dir, app); (s1, EncapFrame(t, secured, buf, true))
  }

  /** Frame to application message, through buffers of `room` octets. */
  function OpenFrame(t: Transport, aead: Aead, s: Session, dir: Direction, wire: bytes, room: nat): (Session, Result<bytes>) {
    match DecapFrame(t, wire, room)
    case Err(e) => (s, Err(e))
    case Ok((payload, secured)) => if !secured then (s, Err(DecapFail)) else Decode(aead, s, dir, payload)
  }

  /** And on to the message, in a buffer of `space`. PCI DOE demands that it fits. */
  function DecodeSecured(t: Transport, aead: Aead, s: Session, dir: Direction, wire: bytes, room: nat, space: nat)
    : (Session, Result<bytes>)
    requires var app := OpenFrame(t, aead, s, dir, wire, room).1;
             t.PciDoe? && app.Ok? ==> |app.value| <= space
  {
    var (s1, r) := OpenFrame(t, aead, s, dir, wire, room);
    match r
    case Err(e) => (s1, Err(e))
    case Ok(app) =>
      match DecapApp(t, app, space)
      case Err(e) => (s1, Err(e))
      case Ok((m, _)) => (s1, Ok(m))
  }

  lemma SealedSize(aead: Aead, s: Session, dir: Direction, app: bytes)
    requires aead.Sized()
    ensures var r := Encode(aead, s, dir, app).1;
            r.Ok? ==> |r.value| == 6 + s.seqCount + |app| + 2 + TAG_SIZE
  {
  }

  lemma DoeHeaderFields(secured: bool, size: nat, tail: bytes)
    requires size % 4 == 0 && (size + DOE_HEADER_SIZE) / 4 <= DOE_MAX_WORDS
    ensures
      var b := DoeHeader(secured, size) + tail;
      var words := (size + DOE_HEADER_SIZE) / 4;
      && b[..2] == LE(DOE_VENDOR_PCISIG, 2) && b[2] == (if secured then DOE_SECURED else DOE_SPDM)
      && b[4..8] == LE(words % DOE_MAX_WORDS, 4) && b[8..] == tail
  {
    hide LE;
  }

  /** Frames, octet by octet. Over MCTP one octet tells secured messages, 6, from others,
      5. A PCI DOE header is the vendor 0001h, the object type, 2 or 1, a reserved octet,
      and the length in words in the low 18 bits of four octets, where 0 stands for 2^18;
      the payload follows. */
  lemma FrameOctets(t: Transport, payload: bytes, buf: bytes, secured: bool)
    requires t.PciDoe? ==> (Aligned(|payload|) + DOE_HEADER_SIZE) / 4 <= DOE_MAX_WORDS
    ensures
      var r, words := EncapFrame(t, payload, buf, secured), (|payload| + 8 + 3) / 4;
      && (r.Ok? <==> (if t.Mctp? then 1 + |payload| else 4 * words) <= |buf|)
      && (r.Err? ==> r == Err(EncapFail))
      && (r.Ok? && t.Mctp? ==> r.value == [if secured then 6 else 5] + payload)
      && (r.Ok? && t.PciDoe? ==>
            && |r.value| == 4 * words
            && r.value[..4] == [1, 0, if secured then 2 else 1, 0]
            && r.value[4..8] == [words % 256, words / 256 % 256, words / 0x1_0000 % 4, 0]
            && r.value[8..8 + |payload|] == payload && r.value[8 + |payload|..] == buf[8 + |payload|..4 * words])
  {
    if t.PciDoe? && EncapFrame(t, payload, buf, secured).Ok? {
      var size := Aligned(|payload|);
      var words := (size + DOE_HEADER_SIZE) / 4;
      DoeOctets(secured, size);
      hide DoeHeader;
      var h, wire := DoeHeader(secured, size), EncapFrame(t, payload, buf, secured).value;
      var pad := buf[8 + |payload|..4 * words];
      assert wire == h + (payload + pad);
      assert wire[..4] == h[..4] && wire[4..8] == h[4..];
    }
  }

  /** What a receiver takes, octet by octet: over MCTP one type octet, 6 for secured
      messages and 5 for others; over PCI DOE vendor 0001h, type 2 or 1, and a length in
      the low 18 bits that covers the header and is all there. */
  lemma DecapFrameIs(t: Transport, wire: bytes, room: nat)
    ensures
      var r := DecapFrame(t, wire, room);
      && (t.Mctp? ==>
            && (r.Ok? <==> |wire| >= 1 && wire[0] in {5, 6} && |wire| <= 1 + room)
            && (r.Ok? ==> r.value == (wire[1..], wire[0] == 6)))
      && (t.PciDoe? && |wire| < 8 ==> r.Err?)
      && (t.PciDoe? && |wire| >= 8 ==>
            var field := Word(wire[4], Word(wire[5], wire[6] % 4));
            var size := 4 * (if field == 0 then 0x4_0000 else field);
            && (r.Ok? <==> wire[..2] == [1, 0] && wire[2] in {1, 2} && 8 <= size <= |wire| && size <= 8 + room)
            && (r.Ok? ==> r.value == (wire[8..size], wire[2] == 2)))
      && (r.Err? ==> r == Err(DecapFail))
  {
    if t.PciDoe? && |wire| >= 8 {
      LengthWord(wire[4..8]);
      Vendor(wire[..2]);
      assert wire[4..8][0] == wire[4] && wire[4..8][1] == wire[5] && wire[4..8][2] == wire[6];
      hide FromLE;
    }
  }

  lemma LengthWord(s: bytes)
    requires |s| == 4
    ensures FromLE(s) % DOE_MAX_WORDS == Word(s[0], Word(s[1], s[2] % 4))
  {
    assert s[1..][1..] == s[2..] && s[2..][1..] == s[3..] && s[3..][1..] == [];
    assert FromLE(s[3..]) == s[3];
    assert FromLE(s[2..]) == Word(s[2], s[3]);
    assert FromLE(s[1..]) == Word(s[1], Word(s[2], s[3]));
    Low18(s[0], s[1], s[2], s[3]);
  }

  lemma Low18(a: nat, b: nat, c: nat, d: nat)
    requires a < 256 && b < 256
    ensures Word(a, Word(b, Word(c, d))) % 0x4_0000 == Word(a, Word(b, c % 4))
  {
    var q, r := c / 4, c % 4;
    assert c == 4 * q + r;
    assert Word(a, Word(b, Word(c, d))) == Word(a, Word(b, r)) + 0x4_0000 * (q + 64 * d);
    Modulo(Word(a, Word(b, r)), q + 64 * d);
  }

  lemma Modulo(r: nat, q: nat)
    requires r < 0x4_0000
    ensures (r + 0x4_0000 * q) % 0x4_0000 == r
  {
  }

  lemma Vendor(s: bytes)
    requires |s| == 2
    ensures FromLE(s) == DOE_VENDOR_PCISIG <==> s == [1, 0]
  {
    TwoOctets(s);
  }

  /** Over MCTP an application message is told from an SPDM message by its first octet,
      1 or 5, and nothing else is taken, nor what does not fit; PCI DOE adds nothing. */
  lemma AppOctets(t: Transport, m: bytes, isApp: bool, room: nat)
    requires t.PciDoe? ==> |m| <= room
    ensures
      var out, back := EncapApp(t, m, isApp, room), DecapApp(t, m, room);
      && (t.Mctp? ==> out == if 1 + |m| <= room then Ok([if isApp then 1 else 5] + m) else Err(EncapAppFail))
      && (t.Mctp? ==>
            back == if m != [] && m[0] in {1, 5} && |m| <= 1 + room then Ok((m[1..], m[0] == 1)) else Err(DecapAppFail))
      && (t.PciDoe? ==> out == Ok(m) && back == Ok((m, false)))
  {
  }

  lemma DoeOctets(secured: bool, size: nat)
    requires size % 4 == 0 && (size + DOE_HEADER_SIZE) / 4 <= DOE_MAX_WORDS
    ensures
      var h, words := DoeHeader(secured, size), (size + 8) / 4;
      h[..4] == [1, 0, if secured then 2 else 1, 0]
      && h[4..] == [words % 256, words / 256 % 256, words / 0x1_0000 % 4, 0]
  {
    var words := (size + 8) / 4;
    LEOctets(1);
    LEOctets(words % DOE_MAX_WORDS);
    WordOctets(words);
    hide LE;
  }

  lemma WordOctets(words: nat)
    requires words <= 0x40000
    ensures
      var f := words % 0x40000;
      f % 256 == words % 256 && f / 256 % 256 == words / 256 % 256 && f / 0x1_0000 % 256 == words / 0x1_0000 % 4
      && f / 0x100_0000 % 256 == 0
  {
  }

  /** The length field says how many words there are, 0 standing for the most. */
  lemma WordsBack(size: nat)
    requires size % 4 == 0 && (size + DOE_HEADER_SIZE) / 4 <= DOE_MAX_WORDS
    ensures
      var words := (size + DOE_HEADER_SIZE) / 4;
      var field := words % DOE_MAX_WORDS;
      && field % DOE_MAX_WORDS == field && 2 <= words && words * 4 - DOE_HEADER_SIZE == size
      && words == if field == 0 then DOE_MAX_WORDS else field
  {
  }

  /** Reading a header gives the padded size back, for every size up to the largest,
      which goes over the wire as 0. */
  lemma ReadDoeHeaderBack(secured: bool, size: nat, tail: bytes)
    requires size % 4 == 0 && (size + DOE_HEADER_SIZE) / 4 <= DOE_MAX_WORDS
    ensures ReadDoeHeader(DoeHeader(secured, size) + tail)
            == Some((DOE_VENDOR_PCISIG, if secured then DOE_SECURED else DOE_SPDM, size))
  {
    hide LE, DoeHeader;
    DoeHeaderFields(secured, size, tail);
    var field := (size + DOE_HEADER_SIZE) / 4 % DOE_MAX_WORDS;
    Pow256Values();
    DecodeEncode(DOE_VENDOR_PCISIG, 2);
    DecodeEncode(field, 4);
    WordsBack(size);
  }

  /** What comes out of a frame is what went in, followed by at most three octets of
      padding, and by none over MCTP. */
  lemma FrameRoundTrip(t: Transport, payload: bytes, buf: bytes, secured: bool, room: nat)
    requires t.PciDoe? ==> (Aligned(|payload|) + DOE_HEADER_SIZE) / 4 <= DOE_MAX_WORDS
    requires EncapFrame(t, payload, buf, secured).Ok? && Aligned(|payload|) <= room
    ensures
      var wire := EncapFrame(t, payload, buf, secured).value;
      && |wire| <= |buf|
      && exists pad :: |pad| < 4 && (t.Mctp? ==> pad == []) && DecapFrame(t, wire, room) == Ok((payload + pad, secured))
  {
    var wire := EncapFrame(t, payload, buf, secured).value;
    if t.Mctp? {
      assert wire[1..] == payload + [];
      assert DecapFrame(t, wire, room) == Ok((payload + [], secured));
    } else {
      hide LE, DoeHeader, ReadDoeHeader;
      var size := Aligned(|payload|);
      var pad := buf[DOE_HEADER_SIZE + |payload|..DOE_HEADER_SIZE + size];
      ReadDoeHeaderBack(secured, size, payload + pad);
      assert wire[DOE_HEADER_SIZE..DOE_HEADER_SIZE + size] == payload + pad;
      assert DecapFrame(t, wire, room) == Ok((payload + pad, secured));
    }
  }

  lemma AppRoundTrip(t: Transport, m: bytes, isApp: bool, room: nat, space: nat)
    requires 1 + |m| <= room && |m| <= space
    ensures
      var app := EncapApp(t, m, isApp, room);
      && app.Ok? && |app.value| == |m| + (if t.Mctp? then 1 else 0)
      && DecapApp(t, app.value, space) == Ok((m, t.Mctp? && isApp))
  {
  }

  /** Only secured frames reach the session: any other, by its type octet, and anything
      that is no frame is refused and leaves the session as it is. */
  lemma OnlySecuredReach(t: Transport, aead: Aead, s: Session, dir: Direction, wire: bytes, room: nat)
    ensures
      var frame, r := DecapFrame(t, wire, room), OpenFrame(t, aead, s, dir, wire, room);
      && ((t.Mctp? && wire != [] && wire[0] != 6) || (t.PciDoe? && |wire| >= 3 && wire[2] != 2) || frame.Err? ==>
            r == (s, Err(DecapFail)))
      && (frame.Ok? && frame.value.1 ==> r == Decode(aead, s, dir, frame.value.0))
  {
    DecapFrameIs(t, wire, room);
    hide DecapFrame, Decode;
  }

  /** And what is sent in a session goes out in a secured frame. */
  lemma SentSecured(t: Transport, aead: Aead, s: Session, dir: Direction, m: bytes, isApp: bool, buf: bytes)
    requires Sendable(t, m, isApp, |buf|) && aead.Sized() && s.seqCount == SequenceNumberCount(t)
    ensures
      var wire := EncodeSecured(t, aead, s, dir, m, isApp, buf).1;
      wire.Ok? ==> (t.Mctp? ==> wire.value[..1] == [6]) && (t.PciDoe? ==> wire.value[..4] == [1, 0, 2, 0])
  {
    hide Encode, EncapFrame;
    var app := EncapApp(t, m, isApp, |buf|);
    if app.Ok? {
      SealedSize(aead, s, dir, app.value);
      var secured := Encode(aead, s, dir, app.value).1;
      if secured.Ok? && EncapFrame(t, secured.value, buf, true).Ok? {
        FrameOctets(t, secured.value, buf, true);
      }
    }
  }

  /** MCTP carries two octets of the counter and PCI DOE none. */
  lemma CounterOctets(t: Transport, aead: Aead, s: Session, dir: Direction, app: bytes)
    requires !s.phase.NotStarted? && s.seqCount == SequenceNumberCount(t) && aead.Sized()
    ensures
      var r := Encode(aead, s, dir, app).1;
      r.Ok? ==> |r.value| == |app| + (if t.Mctp? then 26 else 24)
  {
    SealedSize(aead, s, dir, app);
  }

  /** Both ends of one direction hold the same key, salt and counter. */
  ghost predicate InStep(t: Transport, aead: Aead, s: Session, r: Session, dir: Direction) {
    && !s.phase.NotStarted? && !r.phase.NotStarted? && s.id == r.id
    && s.seqCount == r.seqCount == SequenceNumberCount(t)
    && s.Current(dir) == r.Current(dir) && s.Current(dir).seqNum < MAX_SEQUENCE_NUMBER
    && aead.Correct() && aead.Seals(s.Current(dir).key)
  }

  /** Session to session: a sealed message, padded or not, opens as itself exactly if
      its framed length fits the 16-bit length field. */
  lemma SessionRoundTrip(t: Transport, aead: Aead, s: Session, r: Session, dir: Direction, app: bytes, pad: bytes)
    requires InStep(t, aead, s, r, dir)
    ensures
      var (s', secured) := Encode(aead, s, dir, app);
      && secured.Ok? && s'.Current(dir) == Advance(s.Current(dir))
      && var (r', got) := Decode(aead, r, dir, secured.value + pad);
      && (got == Ok(app) <==> |app| + 2 + TAG_SIZE < 0x1_0000)
      && (got == Ok(app) ==> r'.Current(dir) == s'.Current(dir))
  {
    var p := s.Current(dir);
    var secured := SealMsg(aead, s.id, s.seqCount, p, app);
    assert secured.Ok? by {
      hide LE, Nonce, Plain;
    }
    OpenSeal(aead, s.id, s.seqCount, p, app, pad);
    OpenedSize(aead, r.id, r.seqCount, r.backupResponse.param, secured.value + pad);
    hide SealMsg, OpenMsg, Aead.Correct, Aead.Sized, Aead.Seals;
    CurrentWith(s, dir, Advance(p));
    CurrentWith(r, dir, Advance(p));
  }

  /** End to end: a message that leaves the overhead free in both buffers passes every
      buffer check, and the peer gets exactly it, if and only if its framed length
      fits the 16-bit length field; both counters then move on together. */
  lemma EndToEnd(t: Transport, aead: Aead, s: Session, r: Session, dir: Direction,
                 m: bytes, isApp: bool, buf: bytes, room: nat, space: nat)
    requires InStep(t, aead, s, r, dir)
    requires |m| + OVERHEAD <= |buf| && |m| + OVERHEAD <= room && |m| <= space
    requires t.PciDoe? ==> |m| + OVERHEAD <= 4 * DOE_MAX_WORDS
    ensures
      var (s', wire) := EncodeSecured(t, aead, s, dir, m, isApp, buf);
      var app := EncapApp(t, m, isApp, |buf|).value;
      && wire.Ok? && |wire.value| <= |buf|
      && var got := OpenFrame(t, aead, r, dir, wire.value, room).1;
      && (got == Ok(app) <==> |app| + 2 + TAG_SIZE < 0x1_0000)
      && (got == Ok(app) ==>
            var (r', message) := DecodeSecured(t, aead, r, dir, wire.value, room, space);
            message == Ok(m) && r'.Current(dir) == s'.Current(dir) == Advance(s.Current(dir)))
  {
    hide Encode, Decode, DecapFrame, InStep, Aead.Sized, Advance;
    AppRoundTrip(t, m, isApp, |buf|, space);
    var app := EncapApp(t, m, isApp, |buf|).value;
    InStepFacts(t, aead, s, r, dir);
    SessionRoundTrip(t, aead, s, r, dir, app, []);
    SealedSize(aead, s, dir, app);
    var secured := Encode(aead, s, dir, app).1.value;
    FrameRoundTrip(t, secured, buf, true, room);
    var wire := EncapFrame(t, secured, buf, true).value;
    var pad :| |pad| < 4 && DecapFrame(t, wire, room) == Ok((secured + pad, true));
    SessionRoundTrip(t, aead, s, r, dir, app, pad);
  }

  lemma InStepFacts(t: Transport, aead: Aead, s: Session, r: Session, dir: Direction)
    requires InStep(t, aead, s, r, dir)
    ensures s.seqCount == SequenceNumberCount(t) && aead.Sized() && s.Current(dir).seqNum < MAX_SEQUENCE_NUMBER
  {
  }
}
