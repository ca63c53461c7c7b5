/** The transcript buffers and contexts as the source keeps them, updated in place,
    and the transcript builders. */
module TranscriptObject {
  import opened Bytes
  import opened Codec
  import opened Status
  import opened TranscriptModel
  import opened AuthTranscript

  /** A buffer of fixed capacity with a fill mark. */
  class ManagedBuffer {
    const data: array<byte>
    var used: nat

    ghost predicate Valid()
      reads this
    {
      used <= data.Length
    }

    function Contents(): bytes
      requires Valid()
      reads this, data
    {
      data[..used]
    }

    constructor (capacity: nat)
      ensures Valid() && fresh(data) && data.Length == capacity && Contents() == []
    {
      data := new byte[capacity](_ => 0);
      used := 0;
    }

    method AppendMessage(message: bytes) returns (ok: bool)
      requires Valid()
      modifies this, data
      ensures Valid()
      ensures ok <==> |old(Contents())| + |message| <= data.Length
      ensures Contents() == if ok then old(Contents()) + message else old(Contents())
    {
      var writer := new Writer(data, used);
      ok := writer.ExtendFromSlice(message);
      if ok {
        assert data[..used + |message|] == Splice(old(data[..]), used, message)[..used + |message|];
        used := used + |message|;
      }
    }

    method ResetMessage()
      requires Valid()
      modifies this
      ensures Valid() && Contents() == []
    {
      used := 0;
    }
  }

  /** The form that keeps raw messages. */
  class RawTranscript {
    const fixed: Fixed
    const endpoint: Endpoint
    const vdmBeforeKeyExchange: Option<bytes>
    const b: ManagedBuffer
    const c: ManagedBuffer
    const k: ManagedBuffer
    const f: ManagedBuffer
    var m: map<Key, bytes>

    ghost predicate Valid()
      reads this, b, c, k, f
    {
      && b.Valid() && c.Valid() && k.Valid() && f.Valid()
      && |{b, c, k, f}| == 4 && |{b.data, c.data, k.data, f.data}| == 4
      && b.data.Length == MAX_B_SIZE && c.data.Length == MAX_C_SIZE
      && k.data.Length == MAX_K_SIZE && f.data.Length == MAX_F_SIZE
    }

    function View(): Raw
      requires Valid()
      reads this, b, c, k, f, b.data, c.data
    {
      Raw(b.Contents(), c.Contents(), m)
    }

    constructor (x: Fixed, e: Endpoint, vdm: Option<bytes>, keys: set<Key>)
      ensures Valid() && fixed == x && endpoint == e && vdmBeforeKeyExchange == vdm
      ensures View() == Raw([], [], map key | key in keys :: []) && k.Contents() == f.Contents() == []
    {
      fixed, endpoint, vdmBeforeKeyExchange := x, e, vdm;
      b := new ManagedBuffer(MAX_B_SIZE);
      c := new ManagedBuffer(MAX_C_SIZE);
      k := new ManagedBuffer(MAX_K_SIZE);
      f := new ManagedBuffer(MAX_F_SIZE);
      m := map key | key in keys :: [];
    }

    method AppendMessageB(message: bytes) returns (r: Result<()>)
      requires Valid()
      modifies b, b.data
      ensures Valid() && Outcome(old(View()), AppendB(message), View(), r)
    {
      var ok := b.AppendMessage(message);
      r := if ok then Ok(()) else Err(BufferFull);
    }

    /** The new state and status are those of the step. */
    ghost predicate Outcome(was: Raw, ev: Event, now: Raw, r: Result<()>) {
      match RawStep(fixed, was, ev)
      case Ok(s) => r == Ok(()) && now == s
      case Err(e) => r == Err(e) && now == was
    }

    method AppendMessageC(message: bytes) returns (r: Result<()>)
      requires Valid()
      modifies c, c.data
      ensures Valid() && Outcome(old(View()), AppendC(message), View(), r)
    {
      var ok := c.AppendMessage(message);
      r := if ok then Ok(()) else Err(BufferFull);
    }

    method AppendMessageM(key: Key, message: bytes) returns (r: Result<()>)
      requires Valid()
      modifies this
      ensures Valid() && Outcome(old(View()), AppendM(key, message), View(), r)
    {
      if key !in m {
        return Err(InvalidStateLocal);
      }
      if |m[key]| + |message| > MAX_M_SIZE {
        return Err(BufferFull);
      }
      m := m[key := m[key] + message];
      r := Ok(());
    }

    method ResetBufferViaRequestCode(code: Code, key: Key)
      requires Valid()
      modifies this, b, c
      ensures Valid() && RawStep(fixed, old(View()), Request(code, key)) == Ok(View())
    {
      if code != GetMeasurements && key in m {
        m := m[key := []];
      }
      if code == GetMeasurements || code == SessionCode {
        if !fixed.authenticated {
          b.ResetMessage();
          c.ResetMessage();
        }
      } else if code == GetDigests {
        b.ResetMessage();
      }
    }

    method AppendMessageK(message: bytes) returns (r: Result<()>)
      requires Valid()
      modifies k, k.data
      ensures Valid() && View() == old(View())
      ensures r.Ok? <==> |old(k.Contents())| + |message| <= MAX_K_SIZE
      ensures r.Err? ==> r == Err(BufferFull)
      ensures k.Contents() == old(k.Contents()) + (if r.Ok? then message else [])
    {
      var ok := k.AppendMessage(message);
      r := if ok then Ok(()) else Err(BufferFull);
    }

    method AppendMessageF(message: bytes) returns (r: Result<()>)
      requires Valid()
      modifies f, f.data
      ensures Valid() && View() == old(View())
      ensures r.Ok? <==> |old(f.Contents())| + |message| <= MAX_F_SIZE
      ensures r.Err? ==> r == Err(BufferFull)
      ensures f.Contents() == old(f.Contents()) + (if r.Ok? then message else [])
    {
      var ok := f.AppendMessage(message);
      r := if ok then Ok(()) else Err(BufferFull);
    }

    /** The hash of the chain in a slot, or of the raw public key. */
    method HashOfSource(src: Source) returns (r: Result<bytes>)
      requires src.Valid()
      ensures r == CertHash(fixed.hash, src)
    {
      var data: bytes;
      if src.slot == src.keySlot {
        if src.key.None? {
          return Err(InvalidParameter);
        }
        data := src.key.value;
      } else {
        if src.chains[src.slot].None? {
          return Err(src.missing);
        }
        data := src.chains[src.slot].value;
      }
      var digest := fixed.hash.All(data);
      r := if digest.None? then Err(CryptoError) else Ok(digest.value);
    }

    /** Appends a vendor-defined transcript if there is one, else a certificate hash. */
    method AppendIdentity(th: ManagedBuffer, vdm: Option<bytes>, src: Source) returns (r: Result<()>)
      requires th.Valid() && src.Valid()
      modifies th, th.data
      ensures th.Valid()
      ensures
        var part := if vdm.Some? then Ok(vdm.value) else CertHash(fixed.hash, src);
        match Append(th.data.Length, Ok(old(th.Contents())), part)
        case Ok(b) => r == Ok(()) && th.Contents() == b
        case Err(e) => r == Err(e)
    {
      var identity: Result<bytes>;
      if vdm.Some? {
        identity := Ok(vdm.value);
      } else {
        identity := HashOfSource(src);
      }
      if identity.Err? {
        return Err(identity.status);
      }
      var ok := th.AppendMessage(identity.value);
      r := if ok then Ok(()) else Err(BufferFull);
    }

    /** Message A, the responder's identity and the K messages. */
    method AppendHead(th: ManagedBuffer, usePsk: bool, src: Source) returns (r: Result<()>)
      requires Valid() && th.Valid() && src.Valid() && th.Contents() == [] && th.data.Length == MAX_TH_SIZE
      requires th !in {k, f} && th.data !in {k.data, f.data}
      modifies th, th.data
      ensures th.Valid()
      ensures
        var i := if usePsk then Ok([]) else
                 if vdmBeforeKeyExchange.Some? then Ok(vdmBeforeKeyExchange.value) else CertHash(fixed.hash, src);
        var a := Append(MAX_TH_SIZE, Ok([]), Ok(fixed.messageA));
        match Append(MAX_TH_SIZE, Append(MAX_TH_SIZE, a, i), Ok(k.Contents()))
        case Ok(b) => r == Ok(()) && th.Contents() == b
        case Err(e) => r == Err(e)
    {
      var ok := th.AppendMessage(fixed.messageA);
      if !ok {
        return Err(BufferFull);
      }
      AppendNothing(MAX_TH_SIZE, th.Contents());
      if !usePsk {
        var done := AppendIdentity(th, vdmBeforeKeyExchange, src);
        if done.Err? {
          return done;
        }
      }
      ok := th.AppendMessage(k.Contents());
      r := if ok then Ok(()) else Err(BufferFull);
    }

    /** The requester's identity and the F messages. */
    method AppendTail(th: ManagedBuffer, mutual: bool, vdm: Option<bytes>, src: Source, withF: bool) returns (r: Result<()>)
      requires Valid() && th.Valid() && src.Valid() && th.data.Length == MAX_TH_SIZE
      requires th !in {k, f} && th.data !in {k.data, f.data}
      modifies th, th.data
      ensures th.Valid()
      ensures
        var j := if !mutual then Ok([]) else if vdm.Some? then Ok(vdm.value) else CertHash(fixed.hash, src);
        match Append(MAX_TH_SIZE, Append(MAX_TH_SIZE, Ok(old(th.Contents())), j), Ok(if withF then f.Contents() else []))
        case Ok(b) => r == Ok(()) && th.Contents() == b
        case Err(e) => r == Err(e)
    {
      AppendNothing(MAX_TH_SIZE, th.Contents());
      if mutual {
        var done := AppendIdentity(th, vdm, src);
        if done.Err? {
          return done;
        }
      }
      AppendNothing(MAX_TH_SIZE, th.Contents());
      if withF {
        var ok := th.AppendMessage(f.Contents());
        if !ok {
          return Err(BufferFull);
        }
      }
      r := Ok(());
    }

    method CalcReqTranscriptData(usePsk: bool, isMutAuth: bool, withF: bool, vdmBeforeFinish: Option<bytes>)
      returns (r: Result<bytes>)
      requires Valid() && endpoint.Valid(true)
      ensures
        r == TranscriptData(fixed.hash, endpoint, true,
                            Handshake(usePsk, isMutAuth, fixed.messageA, k.Contents(), if withF then f.Contents() else [],
                                      vdmBeforeKeyExchange, vdmBeforeFinish))
    {
      var th := new ManagedBuffer(MAX_TH_SIZE);
      var head := AppendHead(th, usePsk, endpoint.Peer(KEY_SLOT_KEY_EXCHANGE));
      if head.Err? {
        return Err(head.status);
      }
      var tail := AppendTail(th, !usePsk && isMutAuth, vdmBeforeFinish,
                             endpoint.Local(KEY_SLOT_KEY_EXCHANGE_RSP, InvalidParameter), withF);
      r := if tail.Err? then Err(tail.status) else Ok(th.Contents());
    }

    method CalcRspTranscriptData(usePsk: bool, isMutAuth: bool, withF: bool, vdmBeforeFinish: Option<bytes>)
      returns (r: Result<bytes>)
      requires Valid() && endpoint.Valid(false)
      ensures
        r == TranscriptData(fixed.hash, endpoint, false,
                            Handshake(usePsk, isMutAuth, fixed.messageA, k.Contents(), if withF then f.Contents() else [],
                                      vdmBeforeKeyExchange, vdmBeforeFinish))
    {
      var th := new ManagedBuffer(MAX_TH_SIZE);
      var head := AppendHead(th, usePsk, endpoint.Local(KEY_SLOT_KEY_EXCHANGE, InvalidStateLocal));
      if head.Err? {
        return Err(head.status);
      }
      var tail := AppendTail(th, !usePsk && isMutAuth, vdmBeforeFinish, endpoint.Peer(KEY_SLOT_KEY_EXCHANGE_RSP), withF);
      r := if tail.Err? then Err(tail.status) else Ok(th.Contents());
    }
  }

  lemma AppendNothing(cap: nat, b: bytes)
    requires |b| <= cap
    ensures Append(cap, Ok(b), Ok([])) == Ok(b)
  {
    assert b + [] == b;
  }

  /** The form that feeds incremental hashes, for one session. */
  class HashedTranscript {
    const fixed: Fixed
    const endpoint: Endpoint
    const handshake: Handshake
    const rspCertHash: Option<bytes>
    var m1m2: Option<bytes>
    var l1l2: map<Key, Option<bytes>>
    var th: ThContext

    function View(): Inc
      reads this
    {
      Inc(m1m2, l1l2)
    }

    constructor (x: Fixed, e: Endpoint, h: Handshake, certHash: Option<bytes>, keys: set<Key>)
      ensures fixed == x && endpoint == e && handshake == h && rspCertHash == certHash
      ensures View() == Inc(None, map key | key in keys :: None) && th == ThContext(None, false)
    {
      fixed, endpoint, handshake, rspCertHash := x, e, h, certHash;
      m1m2, l1l2, th := None, map key | key in keys :: None, ThContext(None, false);
    }

    ghost predicate Outcome(was: Inc, ev: Event, now: Inc, r: Result<()>) {
      match IncStep(fixed, was, ev)
      case Ok(s) => r == Ok(()) && now == s
      case Err(e) => r == Err(e) && now == was
    }

    method AppendMessageB(message: bytes) returns (r: Result<()>)
      modifies this`m1m2
      ensures Outcome(old(View()), AppendB(message), View(), r)
    {
      if m1m2.None? {
        if fixed.hash.Unsupported? {
          return Err(InvalidStateLocal);
        }
        m1m2 := Some(fixed.messageA);
      }
      m1m2 := Some(m1m2.value + message);
      r := Ok(());
    }

    method AppendMessageC(message: bytes) returns (r: Result<()>)
      modifies this`m1m2
      ensures Outcome(old(View()), AppendC(message), View(), r)
    {
      if m1m2.None? {
        if fixed.hash.Unsupported? {
          return Err(CryptoError);
        }
        m1m2 := Some(fixed.messageA);
      }
      m1m2 := Some(m1m2.value + message);
      r := Ok(());
    }

    method AppendMessageM(key: Key, message: bytes) returns (r: Result<()>)
      modifies this`l1l2
      ensures Outcome(old(View()), AppendM(key, message), View(), r)
    {
      if key !in l1l2 {
        return Err(InvalidStateLocal);
      }
      var fed: bytes := [];
      if l1l2[key].None? {
        if fixed.hash.Unsupported? {
          return Err(CryptoError);
        }
        if fixed.atLeast12 {
          fed := fixed.messageA;
        }
      } else {
        fed := l1l2[key].value;
      }
      l1l2 := l1l2[key := Some(fed + message)];
      r := Ok(());
    }

    method ResetBufferViaRequestCode(code: Code, key: Key)
      modifies this`m1m2, this`l1l2
      ensures IncStep(fixed, old(View()), Request(code, key)) == Ok(View())
    {
      if code != GetMeasurements && key in l1l2 {
        l1l2 := l1l2[key := None];
      }
      if code == GetMeasurements || code == SessionCode {
        if !fixed.authenticated {
          m1m2 := None;
        }
      } else if code == GetDigests {
        m1m2 := None;
      }
    }

    method AppendMessageK(message: bytes) returns (r: Result<()>)
      modifies this`th
      ensures match HashK(fixed.hash, handshake, rspCertHash, old(th), message)
              case Ok(c) => r == Ok(()) && th == c
              case Err(e) => r == Err(e) && th == old(th)
    {
      if th.fed.None? {
        if fixed.hash.Unsupported? {
          return Err(CryptoError);
        }
        th := th.(fed := Some(handshake.messageA));
        if handshake.vdmBeforeKeyExchange.Some? {
          th := th.(fed := Some(th.fed.value + handshake.vdmBeforeKeyExchange.value));
        } else if rspCertHash.Some? {
          th := th.(fed := Some(th.fed.value + rspCertHash.value));
        } else {
          assert handshake.messageA + [] == handshake.messageA;
        }
      }
      th := th.(fed := Some(th.fed.value + message));
      r := Ok(());
    }

    method AppendMessageF(isRequester: bool, message: bytes) returns (r: Result<()>)
      requires endpoint.Valid(isRequester)
      modifies this`th
      ensures match HashF(fixed.hash, handshake, endpoint.RequesterCert(isRequester), old(th), message)
              case Ok(c) => r == Ok(()) && th == c
              case Err(e) => r == Err(e) && th == old(th)
    {
      if th.fed.None? {
        return Err(InvalidStateLocal);
      }
      var fed := th.fed.value;
      assert fed + [] == fed;
      if !th.fInitialized {
        if !handshake.usePsk && handshake.mutAuth {
          if handshake.vdmBeforeFinish.Some? {
            fed := fed + handshake.vdmBeforeFinish.value;
          } else {
            var src := endpoint.RequesterCert(isRequester);
            if src.Data().None? {
              return Err(if src.slot == src.keySlot then InvalidParameter else InvalidStateLocal);
            }
            var digest := fixed.hash.All(src.Data().value);
            if digest.None? && src.slot != src.keySlot {
              return Err(CryptoError);
            }
            if digest.Some? {
              fed := fed + digest.value;
            }
          }
        }
      }
      th := ThContext(Some(fed + message), true);
      r := Ok(());
    }
  }
}
