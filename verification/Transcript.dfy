/** The handshake and measurement transcripts, in the form that keeps raw message
    buffers and concatenates on demand and in the form that feeds an incremental
    hash. A hash context is the octet string it has been fed. */
module TranscriptModel {
  import opened Bytes
  import opened Limits
  import opened Status

  const MAX_SLOT_NUMBER: nat := 8
  const MAX_ASYM_SIG_SIZE: nat := 4627
  const MAX_KEY_EXCHANGE_SIZE: nat := 1568
  const MAX_OPAQUE_SIZE: nat := 1024
  const KEY_SLOT_KEY_EXCHANGE: byte := 0xFF
  const KEY_SLOT_KEY_EXCHANGE_RSP: byte := 0xF

  const MAX_A_SIZE: nat := 150 + 2 * 255
  const MAX_K_SIZE: nat := 84 + MAX_KEY_EXCHANGE_SIZE + MAX_KEY_EXCHANGE_SIZE + MAX_HASH_SIZE * 2
                           + MAX_ASYM_SIG_SIZE + MAX_OPAQUE_SIZE * 2
  const MAX_F_SIZE: nat := 8 + MAX_HASH_SIZE * 2 + MAX_ASYM_SIG_SIZE
  const MAX_TH_SIZE: nat := MAX_A_SIZE + MAX_HASH_SIZE + MAX_K_SIZE + MAX_HASH_SIZE + MAX_F_SIZE
  const MAX_VDM_TRANSCRIPT_SIZE: nat := 128

  /** The negotiated hash: unknown to the backend, or a digest function. */
  datatype Hash = Unsupported | Supported(digest: bytes -> bytes) {
    function All(data: bytes): Option<bytes> {
      if Unsupported? then None else Some(digest(data))
    }

    ghost predicate Bounded() {
      Supported? ==> forall data :: |digest(data)| <= MAX_HASH_SIZE
    }
  }

  /** Where a certificate hash is taken from: the chain in a slot, or the raw
      public key if the slot is the reserved one; `missing` is the status for an
      empty slot. */
  datatype Source = Source(slot: byte, keySlot: byte, key: Option<bytes>, chains: seq<Option<bytes>>, missing: Status) {
    /** The slot id indexes the slot array, or the source panics. */
    predicate Valid() {
      |chains| == MAX_SLOT_NUMBER && (slot != keySlot ==> slot < MAX_SLOT_NUMBER)
    }

    function Data(): Option<bytes>
      requires Valid()
    {
      if slot == keySlot then key else chains[slot]
    }
  }

  function CertHash(hash: Hash, src: Source): Result<bytes>
    requires src.Valid()
  {
    match src.Data()
    case None => Err(if src.slot == src.keySlot then InvalidParameter else src.missing)
    case Some(data) =>
      match hash.All(data)
      case None => Err(CryptoError)
      case Some(digest) => Ok(digest)
  }

  /** What one end knows about slots, keys and chains. */
  datatype Endpoint = Endpoint(
    localSlot: byte, peerSlot: byte,
    myKey: Option<bytes>, peerKey: Option<bytes>,
    myChains: seq<Option<bytes>>, peerChains: seq<Option<bytes>>)
  {
    function Local(keySlot: byte, missing: Status): Source {
      Source(localSlot, keySlot, myKey, myChains, missing)
    }

    function Peer(keySlot: byte): Source {
      Source(peerSlot, keySlot, peerKey, peerChains, InvalidParameter)
    }

    /** The responder's certificate, seen from either end. */
    function ResponderCert(isRequester: bool): Source {
      if isRequester then Peer(KEY_SLOT_KEY_EXCHANGE) else Local(KEY_SLOT_KEY_EXCHANGE, InvalidStateLocal)
    }

    /** The requester's certificate for mutual authentication. */
    function RequesterCert(isRequester: bool): Source {
      if isRequester then Local(KEY_SLOT_KEY_EXCHANGE_RSP, InvalidParameter) else Peer(KEY_SLOT_KEY_EXCHANGE_RSP)
    }

    predicate Valid(isRequester: bool) {
      ResponderCert(isRequester).Valid() && RequesterCert(isRequester).Valid()
    }
  }

  ghost predicate Mirrored(req: Endpoint, rsp: Endpoint) {
    && req.peerSlot == rsp.localSlot && req.localSlot == rsp.peerSlot
    && req.peerKey == rsp.myKey && req.myKey == rsp.peerKey
    && req.peerChains == rsp.myChains && req.myChains == rsp.peerChains
  }

  /** The handshake parameters and messages that TH covers. */
  datatype Handshake = Handshake(
    usePsk: bool, mutAuth: bool, messageA: bytes, messageK: bytes, messageF: bytes,
    vdmBeforeKeyExchange: Option<bytes>, vdmBeforeFinish: Option<bytes>)

  /** A buffer of fixed capacity takes all of a part or fails. */
  function Append(cap: nat, buf: Result<bytes>, part: Result<bytes>): Result<bytes> {
    match (buf, part)
    case (Ok(b), Ok(p)) => if |b| + |p| <= cap then Ok(b + p) else Err(BufferFull)
    case (Ok(_), Err(e)) => Err(e)
    case (Err(e), _) => Err(e)
  }

  /** What stands for the responder's identity before the K messages. */
  function IdentityBeforeK(hash: Hash, h: Handshake, src: Source): Result<bytes>
    requires src.Valid()
  {
    if h.usePsk then Ok([]) else
    match h.vdmBeforeKeyExchange
    case Some(vdm) => Ok(vdm)
    case None => CertHash(hash, src)
  }

  /** What stands for the requester's identity before the F messages. */
  function IdentityBeforeF(hash: Hash, h: Handshake, src: Source): Result<bytes>
    requires src.Valid()
  {
    if h.usePsk || !h.mutAuth then Ok([]) else
    match h.vdmBeforeFinish
    case Some(vdm) => Ok(vdm)
    case None => CertHash(hash, src)
  }

  /** The TH data of the raw form, built by successive appends. */
  function TranscriptData(hash: Hash, e: Endpoint, isRequester: bool, h: Handshake): Result<bytes>
    requires e.Valid(isRequester)
  {
    var a := Append(MAX_TH_SIZE, Ok([]), Ok(h.messageA));
    var ai := Append(MAX_TH_SIZE, a, IdentityBeforeK(hash, h, e.ResponderCert(isRequester)));
    var aik := Append(MAX_TH_SIZE, ai, Ok(h.messageK));
    var aiki := Append(MAX_TH_SIZE, aik, IdentityBeforeF(hash, h, e.RequesterCert(isRequester)));
    Append(MAX_TH_SIZE, aiki, Ok(h.messageF))
  }

  /** Exactly when the build succeeds, and with what. */
  lemma TranscriptDataIs(hash: Hash, e: Endpoint, isRequester: bool, h: Handshake)
    requires e.Valid(isRequester)
    ensures
      var i := IdentityBeforeK(hash, h, e.ResponderCert(isRequester));
      var j := IdentityBeforeF(hash, h, e.RequesterCert(isRequester));
      var r := TranscriptData(hash, e, isRequester, h);
      && (r.Ok? <==> i.Ok? && j.Ok?
                     && |h.messageA| + |i.value| + |h.messageK| + |j.value| + |h.messageF| <= MAX_TH_SIZE)
      && (r.Ok? ==> r.value == h.messageA + i.value + h.messageK + j.value + h.messageF)
  {
    assert [] + h.messageA == h.messageA;
  }

  /** The part a certificate or key contributes: its digest, if it is there and the hash
      is known. */
  function DigestOf(hash: Hash, data: Option<bytes>): Option<bytes> {
    if data.Some? && hash.Supported? then Some(hash.digest(data.value)) else None
  }

  lemma CertHashIs(hash: Hash, src: Source)
    requires src.Valid()
    ensures
      var r, data := CertHash(hash, src), src.Data();
      && (r.Ok? <==> DigestOf(hash, data).Some?) && (r.Ok? ==> DigestOf(hash, data) == Some(r.value))
      && (r.Err? ==> r.status
                     == if data.Some? then CryptoError else if src.slot == src.keySlot then InvalidParameter else src.missing)
  {
  }

  /** The errors of the build, in the order of its parts. */
  lemma TranscriptErrors(hash: Hash, e: Endpoint, isRequester: bool, h: Handshake)
    requires e.Valid(isRequester)
    ensures
      var i := IdentityBeforeK(hash, h, e.ResponderCert(isRequester));
      var j := IdentityBeforeF(hash, h, e.RequesterCert(isRequester));
      var r := TranscriptData(hash, e, isRequester, h);
      && (i.Err? && |h.messageA| <= MAX_TH_SIZE ==> r == Err(i.status))
      && (i.Ok? && j.Err? && |h.messageA| + |i.value| + |h.messageK| <= MAX_TH_SIZE ==> r == Err(j.status))
      && (i.Ok? && j.Ok? && r.Err? ==> r == Err(BufferFull))
  {
    hide IdentityBeforeK, IdentityBeforeF, Endpoint.ResponderCert, Endpoint.RequesterCert;
  }

  lemma BuiltFrom(hash: Hash, e: Endpoint, isRequester: bool, h: Handshake, missing: Status)
    requires e.Valid(isRequester)
    requires var src := e.ResponderCert(isRequester);
             missing == if src.slot == src.keySlot then InvalidParameter else src.missing
    requires e.RequesterCert(isRequester).missing == InvalidParameter
    ensures
      var responder, requester := e.ResponderCert(isRequester).Data(), e.RequesterCert(isRequester).Data();
      TranscriptIs(hash, h, responder, missing, requester, TranscriptData(hash, e, isRequester, h))
  {
    hide CertHash, DigestOf, TranscriptData, Source.Data, Endpoint.ResponderCert, Endpoint.RequesterCert;
    TranscriptDataIs(hash, e, isRequester, h);
    TranscriptErrors(hash, e, isRequester, h);
    CertHashIs(hash, e.ResponderCert(isRequester));
    CertHashIs(hash, e.RequesterCert(isRequester));
    MissingDigest(hash, e.ResponderCert(isRequester).Data());
    MissingDigest(hash, e.RequesterCert(isRequester).Data());
  }

  lemma MissingDigest(hash: Hash, data: Option<bytes>)
    ensures data.None? ==> DigestOf(hash, data).None?
  {
  }

  /** At the requester TH binds the responder through what the peer's slot holds and the
      requester through what its own slot holds, a slot of 0xFF or 0xF standing for the
      raw public key. A PSK leaves both parts out, no mutual authentication the second,
      and a vendor-defined transcript stands in for a digest. */
  lemma RequesterBinds(hash: Hash, e: Endpoint, h: Handshake)
    requires |e.myChains| == 8 && |e.peerChains| == 8
    requires (e.peerSlot == 0xFF || e.peerSlot < 8) && (e.localSlot == 0xF || e.localSlot < 8)
    ensures e.Valid(true)
    ensures
      var peer := if e.peerSlot == 0xFF then e.peerKey else e.peerChains[e.peerSlot];
      var own := if e.localSlot == 0xF then e.myKey else e.myChains[e.localSlot];
      TranscriptIs(hash, h, peer, InvalidParameter, own, TranscriptData(hash, e, true, h))
  {
    hide TranscriptIs, TranscriptData;
    BuiltFrom(hash, e, true, h, InvalidParameter);
  }

  /** At the responder it is the other way round. */
  lemma ResponderBinds(hash: Hash, e: Endpoint, h: Handshake)
    requires |e.myChains| == 8 && |e.peerChains| == 8
    requires (e.localSlot == 0xFF || e.localSlot < 8) && (e.peerSlot == 0xF || e.peerSlot < 8)
    ensures e.Valid(false)
    ensures
      var own := if e.localSlot == 0xFF then e.myKey else e.myChains[e.localSlot];
      var peer := if e.peerSlot == 0xF then e.peerKey else e.peerChains[e.peerSlot];
      var missing := if e.localSlot == 0xFF then InvalidParameter else InvalidStateLocal;
      TranscriptIs(hash, h, own, missing, peer, TranscriptData(hash, e, false, h))
  {
    hide TranscriptIs, TranscriptData;
    BuiltFrom(hash, e, false, h, if e.localSlot == 0xFF then InvalidParameter else InvalidStateLocal);
  }

  /** The result is TH with these certificates or keys of responder and requester, or an
      error exactly if a part is missing or the whole does not fit; `missing` is the status
      for want of the first. */
  ghost predicate TranscriptIs(hash: Hash, h: Handshake, responder: Option<bytes>, missing: Status,
                               requester: Option<bytes>, r: Result<bytes>) {
    var i := if h.usePsk then Some([]) else if h.vdmBeforeKeyExchange.Some? then h.vdmBeforeKeyExchange
             else DigestOf(hash, responder);
    var j := if h.usePsk || !h.mutAuth then Some([]) else if h.vdmBeforeFinish.Some? then h.vdmBeforeFinish
             else DigestOf(hash, requester);
    && (r.Ok? <==> i.Some? && j.Some?
                   && |h.messageA| + |i.value| + |h.messageK| + |j.value| + |h.messageF| <= MAX_TH_SIZE)
    && (r.Ok? ==> r.value == h.messageA + i.value + h.messageK + j.value + h.messageF)
    && (i.None? && |h.messageA| <= MAX_TH_SIZE ==> r == Err(if responder.None? then missing else CryptoError))
    && (i.Some? && j.None? && |h.messageA| + |i.value| + |h.messageK| <= MAX_TH_SIZE ==>
          r == Err(if requester.None? then InvalidParameter else CryptoError))
    && (i.Some? && j.Some? && r.Err? ==> r == Err(BufferFull))
  }

  /** Requester and responder compute the same octets, or both fail. */
  lemma RolesAgree(hash: Hash, req: Endpoint, rsp: Endpoint, h: Handshake)
    requires Mirrored(req, rsp) && req.Valid(true) && rsp.Valid(false)
    ensures
      var q, r := TranscriptData(hash, req, true, h), TranscriptData(hash, rsp, false, h);
      q == r || (q.Err? && r.Err?)
  {
    TranscriptDataIs(hash, req, true, h);
    TranscriptDataIs(hash, rsp, false, h);
  }

  ghost predicate WithinBuffers(h: Handshake) {
    && |h.messageA| <= MAX_A_SIZE && |h.messageK| <= MAX_K_SIZE && |h.messageF| <= MAX_F_SIZE
    && (h.vdmBeforeKeyExchange.Some? ==> |h.vdmBeforeKeyExchange.value| <= MAX_VDM_TRANSCRIPT_SIZE)
    && (h.vdmBeforeFinish.Some? ==> |h.vdmBeforeFinish.value| <= MAX_VDM_TRANSCRIPT_SIZE)
  }

  /** Without vendor-defined transcripts the TH buffer holds whatever the component
      buffers can hold. */
  lemma NoOverflow(hash: Hash, e: Endpoint, isRequester: bool, h: Handshake)
    requires e.Valid(isRequester) && hash.Bounded() && WithinBuffers(h)
    requires h.vdmBeforeKeyExchange.None? && h.vdmBeforeFinish.None?
    ensures TranscriptData(hash, e, isRequester, h) != Err(BufferFull)
  {
  }

  /** Vendor-defined transcripts are longer than the hashes they replace, so with
      them full buffers overflow. */
  lemma VdmOverflows(hash: Hash, e: Endpoint, isRequester: bool)
    requires e.Valid(isRequester)
    ensures
      var vdm := Some(Zeros(MAX_VDM_TRANSCRIPT_SIZE));
      var h := Handshake(false, true, Zeros(MAX_A_SIZE), Zeros(MAX_K_SIZE), Zeros(MAX_F_SIZE), vdm, vdm);
      WithinBuffers(h) && TranscriptData(hash, e, isRequester, h) == Err(BufferFull)
  {
  }

  function Zeros(n: nat): bytes {
    seq(n, _ => 0)
  }

  /** The incremental TH context of a session: what it has been fed, and whether
      the requester's identity has gone in. */
  datatype ThContext = ThContext(fed: Option<bytes>, fInitialized: bool)

  /** The responder's identity as the session recorded it. */
  function FedIdentity(h: Handshake, rspCertHash: Option<bytes>): bytes {
    match h.vdmBeforeKeyExchange
    case Some(vdm) => vdm
    case None => if rspCertHash.Some? then rspCertHash.value else []
  }

  /** `append_message_k` of the incremental form; the first call also feeds A and
      the responder's identity as the session recorded it. */
  function HashK(hash: Hash, h: Handshake, rspCertHash: Option<bytes>, c: ThContext, message: bytes): Result<ThContext> {
    match c.fed
    case Some(fed) => Ok(ThContext(Some(fed + message), c.fInitialized))
    case None =>
      if hash.Unsupported? then Err(CryptoError) else
      Ok(ThContext(Some(h.messageA + FedIdentity(h, rspCertHash) + message), c.fInitialized))
  }

  /** The digest fed before the first F message when a chain or key is used. */
  function MutualDigest(hash: Hash, src: Source): Result<bytes>
    requires src.Valid()
  {
    match src.Data()
    case None => Err(if src.slot == src.keySlot then InvalidParameter else InvalidStateLocal)
    case Some(data) =>
      match hash.All(data)
      case None => if src.slot == src.keySlot then Ok([]) else Err(CryptoError)
      case Some(digest) => Ok(digest)
  }

  function HashF(hash: Hash, h: Handshake, src: Source, c: ThContext, message: bytes): Result<ThContext>
    requires src.Valid()
  {
    if c.fed.None? then Err(InvalidStateLocal) else
    var identity := if c.fInitialized || h.usePsk || !h.mutAuth then Ok([]) else
                    match h.vdmBeforeFinish
                    case Some(vdm) => Ok(vdm)
                    case None => MutualDigest(hash, src);
    match identity
    case Err(e) => Err(e)
    case Ok(i) => Ok(ThContext(Some(c.fed.value + i + message), true))
  }

  /** One F append, with all its outcomes: the first one feeds the digest of the
      requester's chain, or of its key for slot 0xF, or a vendor-defined transcript, unless
      there is a PSK or no mutual authentication. A key that cannot be hashed is left out
      without an error. */
  lemma FirstFFeeds(hash: Hash, e: Endpoint, isRequester: bool, h: Handshake, c: ThContext, message: bytes)
    requires |e.myChains| == 8 && |e.peerChains| == 8 && e.RequesterCert(isRequester).Valid()
    requires if isRequester then e.localSlot == 0xF || e.localSlot < 8 else e.peerSlot == 0xF || e.peerSlot < 8
    ensures
      var r := HashF(hash, h, e.RequesterCert(isRequester), c, message);
      var slot, key := if isRequester then e.localSlot else e.peerSlot, if isRequester then e.myKey else e.peerKey;
      if c.fed.None? then r == Err(InvalidStateLocal)
      else if c.fInitialized || h.usePsk || !h.mutAuth then r == Ok(ThContext(Some(c.fed.value + message), true))
      else if h.vdmBeforeFinish.Some? then r == Ok(ThContext(Some(c.fed.value + h.vdmBeforeFinish.value + message), true))
      else if slot == 0xF then
        if key.None? then r == Err(InvalidParameter)
        else if hash.Unsupported? then r == Ok(ThContext(Some(c.fed.value + message), true))
        else r == Ok(ThContext(Some(c.fed.value + hash.digest(key.value) + message), true))
      else
        var chain := if isRequester then e.myChains[slot] else e.peerChains[slot];
        if chain.None? then r == Err(InvalidStateLocal)
        else if hash.Unsupported? then r == Err(CryptoError)
        else r == Ok(ThContext(Some(c.fed.value + hash.digest(chain.value) + message), true))
  {
    if c.fed.Some? {
      assert c.fed.value + [] == c.fed.value;
    }
  }

  /** One K append, with all its outcomes. */
  lemma FirstKFeeds(hash: Hash, h: Handshake, rspCertHash: Option<bytes>, c: ThContext, message: bytes)
    ensures
      var r := HashK(hash, h, rspCertHash, c, message);
      if c.fed.Some? then r == Ok(c.(fed := Some(c.fed.value + message)))
      else if hash.Unsupported? then r == Err(CryptoError)
      else if h.vdmBeforeKeyExchange.Some? then r == Ok(c.(fed := Some(h.messageA + h.vdmBeforeKeyExchange.value + message)))
      else if rspCertHash.Some? then r == Ok(c.(fed := Some(h.messageA + rspCertHash.value + message)))
      else r == Ok(c.(fed := Some(h.messageA + message)))
  {
    assert h.messageA + [] == h.messageA;
  }

  function HashAllK(hash: Hash, h: Handshake, rspCertHash: Option<bytes>, ks: seq<bytes>): Result<ThContext> {
    if ks == [] then Ok(ThContext(None, false)) else
    match HashAllK(hash, h, rspCertHash, ks[..|ks| - 1])
    case Err(e) => Err(e)
    case Ok(c) => HashK(hash, h, rspCertHash, c, ks[|ks| - 1])
  }

  function HashAllF(hash: Hash, h: Handshake, src: Source, c: ThContext, fs: seq<bytes>): Result<ThContext>
    requires src.Valid()
  {
    if fs == [] then Ok(c) else
    match HashAllF(hash, h, src, c, fs[..|fs| - 1])
    case Err(e) => Err(e)
    case Ok(c') => HashF(hash, h, src, c', fs[|fs| - 1])
  }

  lemma {:induction false} KFeeds(hash: Hash, h: Handshake, rspCertHash: Option<bytes>, ks: seq<bytes>)
    requires hash.Supported? && ks != []
    ensures HashAllK(hash, h, rspCertHash, ks)
            == Ok(ThContext(Some(h.messageA + FedIdentity(h, rspCertHash) + Concat(ks)), false))
  {
    hide Concat;
    var prev, last, identity := ks[..|ks| - 1], ks[|ks| - 1], FedIdentity(h, rspCertHash);
    assert ks == prev + [last];
    ConcatSnoc(prev, last);
    ConcatNone();
    if prev != [] {
      KFeeds(hash, h, rspCertHash, prev);
      assert (h.messageA + identity + Concat(prev)) + last == h.messageA + identity + (Concat(prev) + last);
    } else {
      assert Concat(ks) == [] + last == last;
    }
  }

  lemma {:induction false} FFeeds(hash: Hash, h: Handshake, src: Source, c: ThContext, fs: seq<bytes>)
    requires hash.Supported? && src.Valid() && fs != [] && c.fed.Some? && !c.fInitialized
    ensures
      var i := IdentityBeforeF(hash, h, src);
      var r := HashAllF(hash, h, src, c, fs);
      && (r.Ok? <==> i.Ok?)
      && (r.Ok? ==> r.value == ThContext(Some(c.fed.value + i.value + Concat(fs)), true))
  {
    hide Concat;
    var i := IdentityBeforeF(hash, h, src);
    var prev, last := fs[..|fs| - 1], fs[|fs| - 1];
    assert fs == prev + [last];
    ConcatSnoc(prev, last);
    ConcatNone();
    if prev == [] {
      assert HashAllF(hash, h, src, c, prev) == Ok(c);
      assert Concat(fs) == [] + last == last;
    } else {
      FFeeds(hash, h, src, c, prev);
      if i.Ok? {
        var fed := c.fed.value + i.value + Concat(prev);
        assert fed + [] == fed;
        assert fed + last == c.fed.value + i.value + (Concat(prev) + last);
      }
    }
  }

  /** What the incremental form is fed over a run of K and then F messages. */
  function Fed(hash: Hash, h: Handshake, rspCertHash: Option<bytes>, src: Source,
               ks: seq<bytes>, fs: seq<bytes>): Result<ThContext>
    requires src.Valid()
  {
    match HashAllK(hash, h, rspCertHash, ks)
    case Err(e) => Err(e)
    case Ok(c) => HashAllF(hash, h, src, c, fs)
  }

  /** For every run of K appends followed by F appends, in either role, whenever the raw
      form succeeds the incremental form succeeds, and it has been fed exactly the same
      octets except in two cases: raw data asked for before any F message already
      contains the requester's identity, and in a PSK session a vendor-defined
      transcript goes into the incremental form only. */
  lemma IncrementalRefinesRaw(hash: Hash, e: Endpoint, isRequester: bool, h: Handshake, rspCertHash: Option<bytes>,
                              ks: seq<bytes>, fs: seq<bytes>)
    requires hash.Supported? && e.Valid(isRequester) && ks != []
    requires !h.usePsk && h.vdmBeforeKeyExchange.None? && CertHash(hash, e.ResponderCert(isRequester)).Ok? ==>
               rspCertHash == Some(CertHash(hash, e.ResponderCert(isRequester)).value)
    requires h.usePsk ==> rspCertHash.None?
    requires h.messageK == Concat(ks) && h.messageF == Concat(fs)
    requires TranscriptData(hash, e, isRequester, h).Ok?
    ensures
      var raw := TranscriptData(hash, e, isRequester, h).value;
      var fed := Fed(hash, h, rspCertHash, e.RequesterCert(isRequester), ks, fs);
      && fed.Ok? && fed.value.fed.Some?
      && (fed.value.fed.value == raw
          <==> && (fs != [] || IdentityBeforeF(hash, h, e.RequesterCert(isRequester)) == Ok([]))
               && (h.usePsk && h.vdmBeforeKeyExchange.Some? ==> h.vdmBeforeKeyExchange.value == []))
      && (fs == [] && !(h.usePsk && h.vdmBeforeKeyExchange.Some?) ==>
            raw == fed.value.fed.value + IdentityBeforeF(hash, h, e.RequesterCert(isRequester)).value)
  {
    TranscriptDataIs(hash, e, isRequester, h);
    var src := e.RequesterCert(isRequester);
    var i := IdentityBeforeK(hash, h, e.ResponderCert(isRequester)).value;
    var j := IdentityBeforeF(hash, h, src).value;
    var recorded := FedIdentity(h, rspCertHash);
    KFeeds(hash, h, rspCertHash, ks);
    var c := HashAllK(hash, h, rspCertHash, ks).value;
    var raw := TranscriptData(hash, e, isRequester, h).value;
    if fs != [] {
      FFeeds(hash, h, src, c, fs);
      SameFeed(h.messageA, i, recorded, h.messageK, j, h.messageF);
    } else {
      assert h.messageF == [];
      assert raw == h.messageA + i + h.messageK + j;
      assert |raw| == |h.messageA| + |i| + |h.messageK| + |j|;
      assert |c.fed.value| == |h.messageA| + |recorded| + |h.messageK|;
    }
  }

  /** What two builds that differ in one part have in common. */
  lemma SameFeed(a: bytes, i: bytes, i': bytes, k: bytes, j: bytes, f: bytes)
    ensures i == i' ==> a + i + k + j + f == a + i' + k + j + f
    ensures |i| != |i'| ==> a + i + k + j + f != a + i' + k + j + f
  {
    assert |a + i + k + j + f| == |a| + |i| + |k| + |j| + |f|;
    assert |a + i' + k + j + f| == |a| + |i'| + |k| + |j| + |f|;
  }

  /** Clearing K: the raw form clears its F messages and keeps K, the incremental form
      drops its context but not the note that the requester's identity went in.
      Appending a K message again, the two go on in agreement exactly if there was nothing
      in K. Appending an F message after it, they agree exactly if besides that the note
      was not set or the identity is empty. */
  lemma ClearingKAgreesIff(hash: Hash, h: Handshake, rspCertHash: Option<bytes>, src: Source, initialized: bool,
                           ks: seq<bytes>, k: bytes, f: bytes)
    requires hash.Supported? && src.Valid()
    ensures
      var head := h.messageA + FedIdentity(h, rspCertHash) + Concat(ks + [k]);
      var fed := HashK(hash, h, rspCertHash, ThContext(None, initialized), k);
      && fed.Ok? && fed.value.fed.Some?
      && (fed.value.fed.value == head <==> Concat(ks) == [])
      && var i, last := IdentityBeforeF(hash, h, src), HashF(hash, h, src, fed.value, f);
      && (last.Ok? <==> initialized || i.Ok?)
      && (last.Ok? ==> last.value.fed.Some?)
      && (i.Ok? ==> (last.value.fed.value == head + i.value + f <==> Concat(ks) == [] && (!initialized || i == Ok([]))))
  {
    hide Concat, IdentityBeforeF;
    var before := h.messageA + FedIdentity(h, rspCertHash);
    ConcatSnoc(ks, k);
    assert |before + (Concat(ks) + k)| == |before| + |Concat(ks)| + |k|;
    assert Concat(ks) == [] ==> Concat(ks) + k == k;
    var c := HashK(hash, h, rspCertHash, ThContext(None, initialized), k).value;
    var i := IdentityBeforeF(hash, h, src);
    LastFeeds(hash, h, src, c, f);
    if i.Ok? {
      var fed := HashF(hash, h, src, c, f).value.fed.value;
      assert |before + (Concat(ks) + k) + i.value + f| == |before| + |Concat(ks)| + |k| + |i.value| + |f|;
      assert |fed| == |before| + |k| + (if initialized then 0 else |i.value|) + |f|;
    }
  }

  lemma LastFeeds(hash: Hash, h: Handshake, src: Source, c: ThContext, f: bytes)
    requires hash.Supported? && src.Valid() && c.fed.Some?
    ensures
      var i, r := IdentityBeforeF(hash, h, src), HashF(hash, h, src, c, f);
      && (r.Ok? <==> c.fInitialized || i.Ok?)
      && (r.Ok? ==> r.value == ThContext(Some(c.fed.value + (if c.fInitialized then [] else i.value) + f), true))
  {
    if !c.fInitialized {
      FFeeds(hash, h, src, c, [f]);
      assert [f][..0] == [];
      assert Concat([f]) == f;
    }
  }
}
