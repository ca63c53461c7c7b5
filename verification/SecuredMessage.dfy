/** The secured-message format: what one direction's key, salt and counter make of
    an application message, and what the peer makes of the octets it receives. */
module SecuredMessage {
  import opened Bytes
  import opened Status

  const MAX_SEQUENCE_NUMBER: u64 := 0xFFFF_FFFF_FFFF_FFFF
  const TAG_SIZE: nat := 16
  const IV_SIZE: nat := 12

  type Salt = s: bytes | |s| == IV_SIZE witness seq(IV_SIZE, _ => 0)

  datatype Sealed = Sealed(cipher: bytes, tag: bytes)

  /** The AEAD primitive is a parameter: `seal(key, nonce, aad, plain)` and
      `open(key, nonce, aad, cipher, tag)`. */
  datatype Aead = Aead(
    seal: (bytes, bytes, bytes, bytes) -> Result<Sealed>,
    open: (bytes, bytes, bytes, bytes, bytes) -> Result<bytes>)
  {
    /** Output sizes, as the source asserts after every call. */
    ghost predicate Sized() {
      && (forall k, n, a, p :: seal(k, n, a, p).Ok? ==>
            |seal(k, n, a, p).value.cipher| == |p| && |seal(k, n, a, p).value.tag| == TAG_SIZE)
      && (forall k, n, a, c, t :: open(k, n, a, c, t).Ok? ==> |open(k, n, a, c, t).value| == |c|)
    }

    /** What was sealed opens under the same key, nonce and associated data. */
    ghost predicate Correct() {
      && Sized()
      && forall k, n, a, p :: seal(k, n, a, p).Ok? ==>
           open(k, n, a, seal(k, n, a, p).value.cipher, seal(k, n, a, p).value.tag) == Ok(p)
    }

    /** Nothing sealed under `k` opens under `k'`, and the failure is reported as `e`. */
    ghost predicate Separates(k: bytes, k': bytes, e: Status) {
      forall n, n', a, p :: seal(k, n, a, p).Ok? ==>
        open(k', n', a, seal(k, n, a, p).value.cipher, seal(k, n, a, p).value.tag) == Err(e)
    }

    /** Sealing under `k` never fails. */
    ghost predicate Seals(k: bytes) {
      forall n, a, p :: seal(k, n, a, p).Ok?
    }
  }

  /** One direction's traffic key, salt and message counter. */
  datatype SecretParam = SecretParam(key: bytes, salt: Salt, seqNum: u64)

  function Advance(p: SecretParam): SecretParam
    requires p.seqNum < MAX_SEQUENCE_NUMBER
  {
    p.(seqNum := p.seqNum + 1)
  }

  /** The salt with its first eight octets XORed with the counter. */
  function Nonce(salt: Salt, seqNum: u64): (n: bytes)
    ensures |n| == IV_SIZE
  {
    var q := LE(seqNum, 8);
    seq(IV_SIZE, i requires 0 <= i < IV_SIZE => if i < 8 then Xor(salt[i], q[i]) else salt[i])
  }

  /** The counter a nonce was built from. */
  function CounterOf(salt: Salt, nonce: bytes): nat
    requires |nonce| == IV_SIZE
  {
    FromLE(seq(8, i requires 0 <= i < 8 => Xor(salt[i], nonce[i])))
  }

  /** The counter can be read back, so under one salt distinct counters give
      distinct nonces. */
  lemma NonceUndo(salt: Salt, n: u64)
    ensures CounterOf(salt, Nonce(salt, n)) == n
  {
    var q, nonce := LE(n, 8), Nonce(salt, n);
    var back: bytes := seq(8, i requires 0 <= i < 8 => Xor(salt[i], nonce[i]));
    forall i | 0 <= i < 8 ensures back[i] == q[i] {
      XorUndo(salt[i], q[i]);
    }
    assert back == q;
    Pow256Values();
    DecodeEncode(n, 8);
  }

  /** Bit by bit the first eight octets are the exclusive or of the salt and the counter,
      lowest octet first, and the others are those of the salt. */
  lemma NonceBits(salt: Salt, n: u64)
    ensures forall i: nat, k: nat :: i < 8 && k < 8 ==>
              (Bit(Nonce(salt, n)[i], k) <==> Bit(salt[i], k) != Bit(n, 8 * i + k))
    ensures Nonce(salt, n)[8..] == salt[8..]
  {
    hide Bit, Xor;
    var q := LE(n, 8);
    forall i: nat, k: nat | i < 8 && k < 8
      ensures Bit(Nonce(salt, n)[i], k) <==> Bit(salt[i], k) != Bit(n, 8 * i + k)
    {
      XorBit(salt[i], q[i], k);
      LEBits(n, 8, i, k);
    }
  }

  /** The clear header, which is also the associated data: session id, the low
      `count` octets of the counter, and the length of what follows. */
  function Header(id: u32, count: nat, seqNum: u64, length: nat): (h: bytes)
    ensures |h| == 6 + count
  {
    LE(id, 4) + LE(seqNum, count) + LE(length, 2)
  }

  function Plain(app: bytes): bytes {
    LE(|app|, 2) + app
  }

  /** What `encode_msg` puts on the wire. */
  function SealMsg(aead: Aead, id: u32, count: nat, p: SecretParam, app: bytes): Result<bytes> {
    if p.seqNum == MAX_SEQUENCE_NUMBER then Err(SequenceNumberOverflow) else
    var aad := Header(id, count, p.seqNum, |app| + 2 + TAG_SIZE);
    match aead.seal(p.key, Nonce(p.salt, p.seqNum), aad, Plain(app))
    case Err(e) => Err(e)
    case Ok(s) => Ok(aad + s.cipher + s.tag)
  }

  /** The record, octet by octet: the session id in four octets, `count` octets of the
      counter and the length of what follows in two, all lowest octet first. These are
      the associated data under which the message, behind its own length in two octets,
      is sealed with the key and nonce of the direction; ciphertext and tag follow. */
  lemma SealedRecordIs(aead: Aead, id: u32, count: nat, p: SecretParam, app: bytes)
    requires SealMsg(aead, id, count, p, app).Ok?
    ensures
      var w := SealMsg(aead, id, count, p, app).value;
      var length := |app| + 2 + 16;
      && |w| >= 6 + count
      && w[..4] == [id % 256, id / 256 % 256, id / 0x1_0000 % 256, id / 0x100_0000]
      && HoldsBits(w[4..4 + count], p.seqNum)
      && w[4 + count] == length % 256 && w[5 + count] == length / 256 % 256
      && var s := aead.seal(p.key, Nonce(p.salt, p.seqNum), w[..6 + count], [|app| % 256, |app| / 256 % 256] + app);
      s.Ok? && w[6 + count..] == s.value.cipher + s.value.tag
  {
    var h := Header(id, count, p.seqNum, |app| + 2 + TAG_SIZE);
    HeaderOctets(id, count, p.seqNum, |app| + 2 + TAG_SIZE);
    LEOctets(|app|);
    hide LE, Nonce, HoldsBits, Header;
    var s := aead.seal(p.key, Nonce(p.salt, p.seqNum), h, Plain(app)).value;
    var w := SealMsg(aead, id, count, p, app).value;
    assert w == h + (s.cipher + s.tag);
    assert w[..6 + count] == h && w[6 + count..] == s.cipher + s.tag;
    assert w[..4] == h[..4] && w[4..4 + count] == h[4..4 + count];
    assert forall i :: 0 <= i < |h| ==> w[i] == h[i];
  }

  lemma HeaderOctets(id: u32, count: nat, seqNum: u64, length: nat)
    ensures
      var h := Header(id, count, seqNum, length);
      && h[..4] == [id % 256, id / 256 % 256, id / 0x1_0000 % 256, id / 0x100_0000]
      && HoldsBits(h[4..4 + count], seqNum)
      && h[4 + count] == length % 256 && h[5 + count] == length / 256 % 256
  {
    LEOctets(id);
    LEOctets(length);
    LEHoldsBits(seqNum, count);
    hide LE, HoldsBits;
    var h := Header(id, count, seqNum, length);
    assert h[..4] == LE(id, 4) && h[4..4 + count] == LE(seqNum, count) && h[4 + count..] == LE(length, 2);
    assert h[4 + count] == h[4 + count..][0] && h[5 + count] == h[4 + count..][1];
  }

  /** The application message inside a decrypted payload. */
  function Unframe(plain: bytes): Result<bytes> {
    if |plain| < 2 then Err(DecodeAeadFail) else
    var n := FromLE(plain[..2]);
    if |plain| < n + 2 then Err(DecodeAeadFail) else Ok(plain[2..n + 2])
  }

  /** The octets of a received buffer that the AEAD is asked to open. */
  datatype Parts = Parts(aad: bytes, cipher: bytes, tag: bytes)

  /** Header checks of `decode_msg` against the expected session id and counter
      octets; the buffer may be longer than the message. */
  function Split(idField: bytes, seqField: bytes, buf: bytes): Option<Parts> {
    var lengthAt := |idField| + |seqField|;
    var aadSize := lengthAt + 2;
    if |buf| < aadSize || buf[..|idField|] != idField || buf[|idField|..lengthAt] != seqField then None else
    var length := FromLE(buf[lengthAt..aadSize]);
    if |buf| < length + aadSize || length < TAG_SIZE then None else
    var cut := aadSize + length - TAG_SIZE;
    Some(Parts(buf[..aadSize], buf[aadSize..cut], buf[cut..aadSize + length]))
  }

  /** What `decode_msg` makes of a received buffer. */
  function OpenMsg(aead: Aead, id: u32, count: nat, p: SecretParam, buf: bytes): Result<bytes> {
    if p.seqNum == MAX_SEQUENCE_NUMBER then Err(SequenceNumberOverflow) else
    match Split(LE(id, 4), LE(p.seqNum, count), buf)
    case None => Err(DecodeAeadFail)
    case Some(w) =>
      match aead.open(p.key, Nonce(p.salt, p.seqNum), w.aad, w.cipher, w.tag)
      case Err(e) => Err(e)
      case Ok(plain) => Unframe(plain)
  }

  lemma SplitIs(id: u32, count: nat, seqNum: u64, buf: bytes)
    ensures
      var r, at := Split(LE(id, 4), LE(seqNum, count), buf), 6 + count;
      if |buf| < at || buf[..4] != [id % 256, id / 256 % 256, id / 0x1_0000 % 256, id / 0x100_0000]
         || buf[4..4 + count] != LE(seqNum, count) then r == None
      else
        var n := Word(buf[4 + count], buf[5 + count]);
        r == if n < 16 || |buf| < at + n then None
             else Some(Parts(buf[..at], buf[at..at + n - 16], buf[at + n - 16..at + n]))
  {
    LEOctets(id);
    hide LE, FromLE;
    var at := 6 + count;
    if |buf| >= at {
      var field := buf[4 + count..at];
      TwoOctets(field);
      assert field[0] == buf[4 + count] && field[1] == buf[5 + count];
    }
  }

  lemma UnframeIs(plain: bytes)
    ensures
      Unframe(plain)
      == if |plain| < 2 || |plain| < 2 + Word(plain[0], plain[1]) then Err(DecodeAeadFail)
         else Ok(plain[2..2 + Word(plain[0], plain[1])])
  {
    hide FromLE;
    if |plain| >= 2 {
      TwoOctets(plain[..2]);
    }
  }

  /** What is decoded, octet by octet: the buffer must start with the session id in four
      octets, the expected counter octets and a length of at least a tag that is all
      there. What the AEAD makes of the rest under this direction's key and nonce, with
      those octets as associated data, must start with a length that is all there. Of an
      AEAD error the status is passed on. */
  lemma OpenedRecordIs(aead: Aead, id: u32, count: nat, p: SecretParam, buf: bytes)
    requires p.seqNum < 0xFFFF_FFFF_FFFF_FFFF
    ensures
      var r, at := OpenMsg(aead, id, count, p, buf), 6 + count;
      if |buf| < at || buf[..4] != [id % 256, id / 256 % 256, id / 0x1_0000 % 256, id / 0x100_0000]
         || buf[4..4 + count] != LE(p.seqNum, count) then r == Err(DecodeAeadFail)
      else
        var n := Word(buf[4 + count], buf[5 + count]);
        if n < 16 || |buf| < at + n then r == Err(DecodeAeadFail)
        else
          match aead.open(p.key, Nonce(p.salt, p.seqNum), buf[..at], buf[at..at + n - 16], buf[at + n - 16..at + n])
          case Err(e) => r == Err(e)
          case Ok(plain) =>
            if |plain| < 2 || |plain| < 2 + Word(plain[0], plain[1]) then r == Err(DecodeAeadFail)
            else r == Ok(plain[2..2 + Word(plain[0], plain[1])])
  {
    hide LE, Nonce, Split, Unframe, Word;
    SplitIs(id, count, p.seqNum, buf);
    var w := Split(LE(id, 4), LE(p.seqNum, count), buf);
    if w.Some? {
      var plain := aead.open(p.key, Nonce(p.salt, p.seqNum), w.value.aad, w.value.cipher, w.value.tag);
      if plain.Ok? {
        UnframeIs(plain.value);
      }
    }
  }

  lemma UnframePlain(app: bytes)
    requires |app| < 0x1_0000
    ensures Unframe(Plain(app)) == Ok(app)
  {
    Pow256Values();
    DecodeEncode(|app|, 2);
    assert Plain(app)[..2] == LE(|app|, 2);
    assert Plain(app)[2..|app| + 2] == app;
  }

  /** A wire message splits back into header, ciphertext and tag, whatever
      alignment padding follows it, exactly when the receiver expects the same
      counter octets. */
  lemma SplitWire(idField: bytes, seqField: bytes, expected: bytes, lengthField: bytes, s: Sealed, pad: bytes)
    requires |s.tag| == TAG_SIZE && |expected| == |seqField|
    requires |lengthField| == 2 && FromLE(lengthField) == |s.cipher| + TAG_SIZE
    ensures
      var h := idField + seqField + lengthField;
      Split(idField, expected, h + s.cipher + s.tag + pad)
        == if expected == seqField then Some(Parts(h, s.cipher, s.tag)) else None
  {
    hide FromLE;
    WireFields(idField, seqField, lengthField, s, pad);
  }

  lemma WireFields(a: bytes, b: bytes, l: bytes, s: Sealed, pad: bytes)
    ensures
      var h := a + b + l;
      var buf := h + s.cipher + s.tag + pad;
      var cut := |h| + |s.cipher|;
      && buf[..|a|] == a && buf[|a|..|a| + |b|] == b && buf[|a| + |b|..|h|] == l && buf[..|h|] == h
      && buf[|h|..cut] == s.cipher && buf[cut..cut + |s.tag|] == s.tag
  {
    var h := a + b + l;
    var core := h + s.cipher + s.tag;
    Middle(a, b, l);
    Middle(h, s.cipher, s.tag);
    Middle(h + s.cipher, s.tag, pad);
    InPrefix(core, pad, |h|, |h| + |s.cipher|);
    HeaderSlice(h, s.cipher, s.tag, pad, 0, |a|);
    HeaderSlice(h, s.cipher, s.tag, pad, |a|, |a| + |b|);
    HeaderSlice(h, s.cipher, s.tag, pad, |a| + |b|, |h|);
    HeaderSlice(h, s.cipher, s.tag, pad, 0, |h|);
  }

  lemma HeaderSlice(h: bytes, c: bytes, t: bytes, pad: bytes, i: nat, j: nat)
    requires i <= j <= |h|
    ensures (h + c + t + pad)[i..j] == h[i..j]
  {
    InPrefix(h, c, i, j);
    InPrefix(h + c, t, i, j);
    InPrefix(h + c + t, pad, i, j);
  }

  /** Decoding undoes encoding, alignment padding included, exactly for messages
      whose framed length fits the 16-bit length field. */
  lemma OpenSeal(aead: Aead, id: u32, count: nat, p: SecretParam, app: bytes, pad: bytes)
    requires aead.Correct()
    requires SealMsg(aead, id, count, p, app).Ok?
    ensures OpenMsg(aead, id, count, p, SealMsg(aead, id, count, p, app).value + pad) == Ok(app)
            <==> |app| + 2 + TAG_SIZE < 0x1_0000
  {
    if |app| + 2 + TAG_SIZE < 0x1_0000 {
      OpenWire(aead, id, count, p, p, app, pad);
    } else {
      var buf := SealMsg(aead, id, count, p, app).value + pad;
      OpenedSize(aead, id, count, p, buf);
    }
  }

  /** What a receiver holding `q` makes of a message sealed under `p`: a header
      mismatch if the counter octets differ, else whatever the AEAD says. */
  lemma OpenWire(aead: Aead, id: u32, count: nat, p: SecretParam, q: SecretParam, app: bytes, pad: bytes)
    requires aead.Correct()
    requires SealMsg(aead, id, count, p, app).Ok?
    requires |app| + 2 + TAG_SIZE < 0x1_0000
    requires q.seqNum < MAX_SEQUENCE_NUMBER
    ensures
      var r := OpenMsg(aead, id, count, q, SealMsg(aead, id, count, p, app).value + pad);
      var aad := Header(id, count, p.seqNum, |app| + 2 + TAG_SIZE);
      var s := aead.seal(p.key, Nonce(p.salt, p.seqNum), aad, Plain(app));
      && s.Ok?
      && (LE(q.seqNum, count) != LE(p.seqNum, count) ==> r == Err(DecodeAeadFail))
      && (LE(q.seqNum, count) == LE(p.seqNum, count) ==>
            match aead.open(q.key, Nonce(q.salt, q.seqNum), aad, s.value.cipher, s.value.tag)
            case Err(e) => r == Err(e)
            case Ok(plain) => r == Unframe(plain))
      && (q == p ==> r == Ok(app))
  {
    var length := |app| + 2 + TAG_SIZE;
    var aad := Header(id, count, p.seqNum, length);
    var s := aead.seal(p.key, Nonce(p.salt, p.seqNum), aad, Plain(app)).value;
    assert SealMsg(aead, id, count, p, app).value + pad == aad + s.cipher + s.tag + pad;
    Pow256Values();
    DecodeEncode(length, 2);
    SplitWire(LE(id, 4), LE(p.seqNum, count), LE(q.seqNum, count), LE(length, 2), s, pad);
    UnframePlain(app);
  }

  /** No accepted message is longer than the length field can announce. */
  lemma OpenedSize(aead: Aead, id: u32, count: nat, p: SecretParam, buf: bytes)
    requires aead.Sized()
    ensures var r := OpenMsg(aead, id, count, p, buf); r.Ok? ==> |r.value| + 2 + TAG_SIZE < 0x1_0000
  {
    var w := Split(LE(id, 4), LE(p.seqNum, count), buf);
    if w.Some? {
      Pow256Values();
      FromLEBound(buf[4 + count..6 + count]);
      assert |w.value.cipher| + TAG_SIZE < 0x1_0000;
    }
  }
}
