/** The transport bindings as they work on the caller's buffers, and the two context
    operations that take a session message through them. */
module TransportObject {
  import opened Bytes
  import opened Codec
  import opened Status
  import opened SecuredMessage
  import opened SessionModel
  import opened SessionObject
  import opened Transport

  /** How much of a DOE header gets written where there is room for less. */
  function DoeHeaderRoom(room: nat): nat {
    if room < 2 then 0 else Min(room, DOE_HEADER_SIZE)
  }

  /** The vendor at once, everything behind it octet by octet. */
  method EncodeDoeHeader(w: Writer, secured: bool, size: nat) returns (ok: bool)
    requires w.Valid() && size % 4 == 0 && (size + DOE_HEADER_SIZE) / 4 <= DOE_MAX_WORDS
    modifies w, w.buf
    ensures w.Valid()
    ensures ok <==> old(w.base + w.offs) + DOE_HEADER_SIZE <= w.buf.Length
    ensures
      var n := DoeHeaderRoom(w.buf.Length - old(w.base + w.offs));
      w.buf[..] == Splice(old(w.buf[..]), old(w.base + w.offs), DoeHeader(secured, size)[..n])
  {
    hide LE, Splice, DoeHeader;
    var words := (size + DOE_HEADER_SIZE) / 4;
    if words == DOE_MAX_WORDS {
      words := 0;
    }
    DoeHeaderParts(secured, size, words);
    ghost var before, at, room := w.buf[..], w.base + w.offs, w.buf.Length - (w.base + w.offs);
    var vendor, rest := LE(DOE_VENDOR_PCISIG, 2), DoeRest(secured, words);
    ok := w.ExtendFromSlice(vendor);
    if !ok {
      SpliceNothing(before, at);
      return;
    }
    ok := w.PushAll(rest);
    ghost var k := Min(|rest|, room - 2);
    SpliceTwice(before, at, vendor, rest[..k]);
    assert vendor + rest[..k] == (vendor + rest)[..2 + k];
  }

  function DoeRest(secured: bool, words: nat): (s: bytes)
    ensures |s| == 6
  {
    [if secured then DOE_SECURED else DOE_SPDM, 0] + LE(words, 4)
  }

  lemma DoeHeaderParts(secured: bool, size: nat, words: nat)
    requires size % 4 == 0 && (size + DOE_HEADER_SIZE) / 4 <= DOE_MAX_WORDS
    requires words == if (size + DOE_HEADER_SIZE) / 4 == DOE_MAX_WORDS then 0 else (size + DOE_HEADER_SIZE) / 4
    ensures DoeHeader(secured, size) == LE(DOE_VENDOR_PCISIG, 2) + DoeRest(secured, words)
  {
    hide LE;
    assert words == (size + DOE_HEADER_SIZE) / 4 % DOE_MAX_WORDS;
  }

  /** A header and a payload at the front of a buffer. */
  lemma FrameLayout(buf: bytes, header: bytes, payload: bytes, n: nat)
    requires |header| + |payload| <= n <= |buf|
    ensures
      var w := header + (payload + buf[|header| + |payload|..n]);
      Splice(Splice(buf, 0, header), |header|, payload) == w + buf[n..]
  {
    SpliceTwice(buf, 0, header, payload);
  }

  /** A transport buffer after framing: the frame in front, or as much of the header as
      fits. */
  ghost predicate Framed(t: Transport, payload: bytes, before: bytes, secured: bool, r: Result<nat>, after: bytes)
    requires t.PciDoe? ==> (Aligned(|payload|) + DOE_HEADER_SIZE) / 4 <= DOE_MAX_WORDS
  {
    match EncapFrame(t, payload, before, secured)
    case Ok(w) => r == Ok(|w|) && |w| <= |before| && after == w + before[|w|..]
    case Err(e) =>
      && r == Err(e)
      && var header := if t.Mctp? then [if secured then MCTP_SECURED else MCTP_SPDM] else DoeHeader(secured, Aligned(|payload|));
      && var n := if t.Mctp? then Min(1, |before|) else DoeHeaderRoom(|before|);
      after == header[..n] + before[n..]
  }

  method EncapMctp(payload: bytes, buf: array<byte>, secured: bool) returns (r: Result<nat>)
    modifies buf
    ensures Framed(Mctp, payload, old(buf[..]), secured, r, buf[..])
  {
    hide Splice;
    var w := new Writer(buf, 0);
    ghost var before := buf[..];
    var header: bytes := [if secured then MCTP_SECURED else MCTP_SPDM];
    var ok := w.ExtendFromSlice(header);
    if !ok {
      return Err(EncapFail);
    }
    FrontLayout(before, header);
    if buf.Length < 1 + |payload| {
      return Err(EncapFail);
    }
    CopyAt(buf, 1, payload);
    FrameLayout(before, header, payload, 1 + |payload|);
    assert header + payload == header + (payload + before[1 + |payload|..1 + |payload|]);
    r := Ok(1 + |payload|);
  }

  lemma FrontLayout(buf: bytes, v: bytes)
    requires |v| <= |buf|
    ensures Splice(buf, 0, v) == v + buf[|v|..]
  {
  }

  lemma DoeFailed(payload: bytes, before: bytes, secured: bool, after: bytes)
    requires (Aligned(|payload|) + DOE_HEADER_SIZE) / 4 <= DOE_MAX_WORDS
    requires |before| < DOE_HEADER_SIZE + Aligned(|payload|)
    requires var n := DoeHeaderRoom(|before|); after == DoeHeader(secured, Aligned(|payload|))[..n] + before[n..]
    ensures Framed(PciDoe, payload, before, secured, Err(EncapFail), after)
  {
    hide DoeHeader;
  }

  lemma DoeDone(payload: bytes, before: bytes, secured: bool, after: bytes)
    requires (Aligned(|payload|) + DOE_HEADER_SIZE) / 4 <= DOE_MAX_WORDS
    requires |before| >= DOE_HEADER_SIZE + Aligned(|payload|)
    requires var n := DOE_HEADER_SIZE + Aligned(|payload|);
             after == DoeHeader(secured, Aligned(|payload|)) + (payload + before[DOE_HEADER_SIZE + |payload|..n]) + before[n..]
    ensures Framed(PciDoe, payload, before, secured, Ok(DOE_HEADER_SIZE + Aligned(|payload|)), after)
  {
    hide DoeHeader;
  }

  method EncapDoe(payload: bytes, buf: array<byte>, secured: bool) returns (r: Result<nat>)
    requires (Aligned(|payload|) + DOE_HEADER_SIZE) / 4 <= DOE_MAX_WORDS
    modifies buf
    ensures Framed(PciDoe, payload, old(buf[..]), secured, r, buf[..])
  {
    hide DoeHeader, Splice, Framed, Aligned;
    var w := new Writer(buf, 0);
    ghost var before := buf[..];
    var n := Aligned(|payload|);
    var ok := EncodeDoeHeader(w, secured, n);
    ghost var k := DoeHeaderRoom(|before|);
    assert buf[..] == DoeHeader(secured, n)[..k] + before[k..] by {
      FrontLayout(before, DoeHeader(secured, n)[..k]);
    }
    if !ok || buf.Length < DOE_HEADER_SIZE + n {
      DoeFailed(payload, before, secured, buf[..]);
      return Err(EncapFail);
    }
    assert DoeHeader(secured, n)[..k] == DoeHeader(secured, n);
    CopyAt(buf, DOE_HEADER_SIZE, payload);
    FrameLayout(before, DoeHeader(secured, n), payload, DOE_HEADER_SIZE + n);
    DoeDone(payload, before, secured, buf[..]);
    r := Ok(DOE_HEADER_SIZE + n);
  }

  method Encap(t: Transport, payload: bytes, buf: array<byte>, secured: bool) returns (r: Result<nat>)
    requires t.PciDoe? ==> (Aligned(|payload|) + DOE_HEADER_SIZE) / 4 <= DOE_MAX_WORDS
    modifies buf
    ensures Framed(t, payload, old(buf[..]), secured, r, buf[..])
  {
    hide Framed;
    if t.Mctp? {
      r := EncapMctp(payload, buf, secured);
    } else {
      r := EncapDoe(payload, buf, secured);
    }
  }

  method DecodeDoeHeader(r: Reader) returns (h: Option<(nat, byte, nat)>)
    requires r.Valid() && r.offs == 0
    modifies r
    ensures r.Valid() && h == ReadDoeHeader(r.buf) && (h.Some? ==> r.offs == DOE_HEADER_SIZE)
  {
    var vendor := r.Take(2);
    if vendor.None? { return None; }
    var kind := r.Take(1);
    if kind.None? { return None; }
    var reserved := r.Take(1);
    if reserved.None? { return None; }
    var field := r.Take(4);
    if field.None? { return None; }
    var words := FromLE(field.value) % DOE_MAX_WORDS;
    if words == 0 {
      words := DOE_MAX_WORDS;
    }
    if words < 2 {
      return None;
    }
    h := Some((FromLE(vendor.value), kind.value[0], words * 4 - DOE_HEADER_SIZE));
  }

  method DecapMctp(wire: bytes, buf: array<byte>) returns (r: Result<(nat, bool)>)
    modifies buf
    ensures match DecapFrame(Mctp, wire, buf.Length)
            case Ok((m, secured)) => r == Ok((|m|, secured)) && |m| <= buf.Length && buf[..] == m + old(buf[|m|..])
            case Err(e) => r == Err(e) && buf[..] == old(buf[..])
  {
    var reader := new Reader(wire);
    var kind := reader.Take(1);
    if kind.None? || (kind.value[0] != MCTP_SPDM && kind.value[0] != MCTP_SECURED) {
      return Err(DecapFail);
    }
    var size := |wire| - reader.offs;
    if buf.Length < size {
      return Err(DecapFail);
    }
    CopyAt(buf, 0, wire[reader.offs..]);
    r := Ok((size, kind.value[0] == MCTP_SECURED));
  }

  method DecapDoe(wire: bytes, buf: array<byte>) returns (r: Result<(nat, bool)>)
    modifies buf
    ensures match DecapFrame(PciDoe, wire, buf.Length)
            case Ok((m, secured)) => r == Ok((|m|, secured)) && |m| <= buf.Length && buf[..] == m + old(buf[|m|..])
            case Err(e) => r == Err(e) && buf[..] == old(buf[..])
  {
    hide ReadDoeHeader;
    var reader := new Reader(wire);
    var h := DecodeDoeHeader(reader);
    if h.None? || h.value.0 != DOE_VENDOR_PCISIG || (h.value.1 != DOE_SPDM && h.value.1 != DOE_SECURED) {
      return Err(DecapFail);
    }
    var size := h.value.2;
    if |wire| < reader.offs + size || buf.Length < size {
      return Err(DecapFail);
    }
    CopyAt(buf, 0, wire[reader.offs..reader.offs + size]);
    r := Ok((size, h.value.1 == DOE_SECURED));
  }

  method Decap(t: Transport, wire: bytes, buf: array<byte>) returns (r: Result<(nat, bool)>)
    modifies buf
    ensures match DecapFrame(t, wire, buf.Length)
            case Ok((m, secured)) => r == Ok((|m|, secured)) && |m| <= buf.Length && buf[..] == m + old(buf[|m|..])
            case Err(e) => r == Err(e) && buf[..] == old(buf[..])
  {
    hide DecapFrame;
    if t.Mctp? {
      r := DecapMctp(wire, buf);
    } else {
      r := DecapDoe(wire, buf);
    }
  }

  method EncapAppMessage(t: Transport, m: bytes, isApp: bool, buf: array<byte>) returns (r: Result<nat>)
    requires t.PciDoe? ==> |m| <= buf.Length
    modifies buf
    ensures match EncapApp(t, m, isApp, buf.Length)
            case Ok(app) => r == Ok(|app|) && |app| <= buf.Length && buf[..] == app + old(buf[|app|..])
            case Err(e) =>
              var n := Min(1, buf.Length);
              r == Err(e) && buf[..] == [if isApp then MCTP_PLDM else MCTP_SPDM][..n] + old(buf[n..])
  {
    hide Splice;
    ghost var before := buf[..];
    if t.PciDoe? {
      CopyAt(buf, 0, m);
      FrontLayout(before, m);
      return Ok(|m|);
    }
    var w := new Writer(buf, 0);
    var header: bytes := [if isApp then MCTP_PLDM else MCTP_SPDM];
    var ok := w.ExtendFromSlice(header);
    if !ok {
      return Err(EncapAppFail);
    }
    FrontLayout(before, header);
    if buf.Length < 1 + |m| {
      return Err(EncapAppFail);
    }
    CopyAt(buf, 1, m);
    FrameLayout(before, header, m, 1 + |m|);
    assert header + m == header + (m + before[1 + |m|..1 + |m|]);
    r := Ok(1 + |m|);
  }

  method DecapAppMessage(t: Transport, app: bytes, buf: array<byte>) returns (r: Result<(nat, bool)>)
    requires t.PciDoe? ==> |app| <= buf.Length
    modifies buf
    ensures match DecapApp(t, app, buf.Length)
            case Ok((m, isApp)) => r == Ok((|m|, isApp)) && |m| <= buf.Length && buf[..] == m + old(buf[|m|..])
            case Err(e) => r == Err(e) && buf[..] == old(buf[..])
  {
    hide Splice;
    ghost var before := buf[..];
    if t.PciDoe? {
      CopyAt(buf, 0, app);
      FrontLayout(before, app);
      return Ok((|app|, false));
    }
    var reader := new Reader(app);
    var kind := reader.Take(1);
    if kind.None? || (kind.value[0] != MCTP_SPDM && kind.value[0] != MCTP_PLDM) || buf.Length < |app| - reader.offs {
      return Err(DecapAppFail);
    }
    CopyAt(buf, 0, app[reader.offs..]);
    FrontLayout(before, app[1..]);
    r := Ok((|app| - reader.offs, kind.value[0] == MCTP_PLDM));
  }

  method EncodeSecuredMessage(t: Transport, session: SpdmSession, m: bytes, buf: array<byte>, isRequester: bool, isApp: bool)
    returns (r: Result<nat>)
    requires session.Valid() && session.senderBufferSize == buf.Length
    requires Sendable(t, m, isApp, buf.Length) && session.sequenceNumberCount == SequenceNumberCount(t)
    modifies session, buf
    ensures session.Valid()
    ensures
      var (s, w) := EncodeSecured(t, session.aead, old(session.View()), if isRequester then Request else Response, m, isApp, old(buf[..]));
      && session.View() == s
      && match w {
           case Ok(wire) => r == Ok(|wire|) && |wire| <= buf.Length && buf[..|wire|] == wire
           case Err(e) => r == Err(e)
         }
  {
    hide Encode, EncapFrame;
    var appBuffer := new byte[buf.Length](_ => 0);
    var used :- EncapAppMessage(t, m, isApp, appBuffer);
    var secured := new byte[buf.Length](_ => 0);
    ghost var dir := if isRequester then Request else Response;
    ghost var before, app := session.View(), EncapApp(t, m, isApp, buf.Length).value;
    assert appBuffer[..used] == app;
    SealedSize(session.aead, before, dir, app);
    var size := session.EncodeSpdmSecuredMessage(appBuffer[..used], secured, isRequester);
    if size.Err? {
      return Err(size.status);
    }
    assert secured[..size.value] == Encode(session.aead, before, dir, app).1.value;
    r := Encap(t, secured[..size.value], buf, true);
  }

  method DecodeSecuredMessage(t: Transport, session: SpdmSession, wire: bytes, buf: array<byte>, isRequester: bool)
    returns (r: Result<nat>)
    requires session.Valid()
    requires
      var app := OpenFrame(t, session.aead, session.View(), if isRequester then Request else Response, wire, session.receiverBufferSize).1;
      t.PciDoe? && app.Ok? ==> |app.value| <= buf.Length
    modifies session, buf
    ensures session.Valid()
    ensures
      var (s, w) := DecodeSecured(t, session.aead, old(session.View()), if isRequester then Request else Response, wire,
                                  session.receiverBufferSize, buf.Length);
      && session.View() == s
      && match w {
           case Ok(m) => r == Ok(|m|) && |m| <= buf.Length && buf[..|m|] == m
           case Err(e) => r == Err(e)
         }
  {
    hide Decode, DecapFrame;
    var encoded := new byte[session.receiverBufferSize](_ => 0);
    var payload :- Decap(t, wire, encoded);
    if !payload.1 {
      return Err(DecapFail);
    }
    assert encoded[..payload.0] == DecapFrame(t, wire, session.receiverBufferSize).value.0;
    var appBuffer := new byte[session.receiverBufferSize](_ => 0);
    DecodedFits(session.aead, session.View(), if isRequester then Request else Response, encoded[..payload.0]);
    var size :- session.DecodeSpdmSecuredMessage(encoded[..payload.0], appBuffer, isRequester);
    ghost var app := OpenFrame(t, session.aead, old(session.View()), if isRequester then Request else Response, wire, session.receiverBufferSize).1;
    assert app == Ok(appBuffer[..size]);
    var used :- DecapAppMessage(t, appBuffer[..size], buf);
    r := Ok(used.0);
  }
}
