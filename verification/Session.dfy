/** The secured-session state machine: phases, per-direction secrets, key update
    with backup, rollback and commit, and teardown when a counter is exhausted. */
module SessionModel {
  import opened Bytes
  import opened Status
  import opened SecuredMessage

  const INVALID_SESSION_ID: u32 := 0

  /** Key derivation is a parameter: the next data secret, and the AEAD key and
      salt of a data secret. Either may fail. */
  datatype Kdf = Kdf(update: bytes -> Option<bytes>, keyIv: bytes -> Option<(bytes, Salt)>)

  datatype Direction = Request | Response

  datatype Phase = NotStarted | Handshaking | Established

  datatype DirectionSecret = DirectionSecret(dataSecret: bytes, param: SecretParam)

  const DEFAULT_PARAM := SecretParam([], [0, 0, 0, 0, 0, 0, 0, 0, 0, 0, 0, 0], 0)
  const DEFAULT_SECRET := DirectionSecret([], DEFAULT_PARAM)

  datatype Session = Session(
    id: u32,
    phase: Phase,
    seqCount: nat,
    hsRequest: SecretParam,
    hsResponse: SecretParam,
    appRequest: DirectionSecret,
    appResponse: DirectionSecret,
    backupRequest: DirectionSecret,
    backupResponse: DirectionSecret,
    requesterBackupValid: bool,
    responderBackupValid: bool)
  {
    /** The application secret of a direction. */
    function App(dir: Direction): DirectionSecret {
      if dir.Request? then appRequest else appResponse
    }

    function BackupValid(dir: Direction): bool {
      if dir.Request? then requesterBackupValid else responderBackupValid
    }

    function Backup(dir: Direction): DirectionSecret {
      if dir.Request? then backupRequest else backupResponse
    }

    /** The key, salt and counter that protect a direction in the current phase. */
    function Current(dir: Direction): SecretParam {
      match phase
      case Established => App(dir).param
      case _ => if dir.Request? then hsRequest else hsResponse
    }

    function WithCurrent(dir: Direction, p: SecretParam): Session {
      match (phase, dir)
      case (Established, Request) => this.(appRequest := DirectionSecret(appRequest.dataSecret, p))
      case (Established, Response) => this.(appResponse := DirectionSecret(appResponse.dataSecret, p))
      case (_, Request) => this.(hsRequest := p)
      case (_, Response) => this.(hsResponse := p)
    }

    function AdvanceBackup(): Session
      requires backupResponse.param.seqNum < MAX_SEQUENCE_NUMBER
    {
      this.(backupResponse := DirectionSecret(backupResponse.dataSecret, Advance(backupResponse.param)))
    }
  }

  /** `set_default`: everything but the two backup-valid flags is cleared. */
  function SetDefault(s: Session): Session {
    Session(INVALID_SESSION_ID, NotStarted, 0, DEFAULT_PARAM, DEFAULT_PARAM,
            DEFAULT_SECRET, DEFAULT_SECRET, DEFAULT_SECRET, DEFAULT_SECRET,
            s.requesterBackupValid, s.responderBackupValid)
  }

  /** One direction moved to its next data secret. If a derivation fails, what was
      already replaced stays replaced and the flag is false. */
  function NextSecret(kdf: Kdf, d: DirectionSecret): (DirectionSecret, bool) {
    match kdf.update(d.dataSecret)
    case None => (d, false)
    case Some(secret) =>
      match kdf.keyIv(secret)
      case None => (d.(dataSecret := secret), false)
      case Some((key, salt)) => (DirectionSecret(secret, SecretParam(key, salt, 0)), true)
  }

  /** A direction is backed up before its secret is replaced. */
  function UpdateRequester(kdf: Kdf, s: Session): Session {
    s.(backupRequest := s.appRequest, requesterBackupValid := true, appRequest := NextSecret(kdf, s.appRequest).0)
  }

  function UpdateResponder(kdf: Kdf, s: Session): Session {
    s.(backupResponse := s.appResponse, responderBackupValid := true, appResponse := NextSecret(kdf, s.appResponse).0)
  }

  function CreateUpdate(kdf: Kdf, s: Session, updateRequester: bool, updateResponder: bool): (Session, Result<()>) {
    var s1 := if updateRequester then UpdateRequester(kdf, s) else s;
    if updateRequester && !NextSecret(kdf, s.appRequest).1 then (s1, Err(CryptoError)) else
    var s2 := if updateResponder then UpdateResponder(kdf, s1) else s1;
    (s2, if updateResponder && !NextSecret(kdf, s.appResponse).1 then Err(CryptoError) else Ok(()))
  }

  function ActivateUpdate(s: Session, updateRequester: bool, updateResponder: bool, useNewKey: bool): Session {
    if useNewKey then
      var s1 := if updateRequester
                then s.(backupRequest := DEFAULT_SECRET, requesterBackupValid := false) else s;
      if updateResponder then s1.(backupResponse := DEFAULT_SECRET, responderBackupValid := false) else s1
    else
      var s1 := if updateRequester && s.requesterBackupValid then s.(appRequest := s.backupRequest) else s;
      if updateResponder && s.responderBackupValid then s1.(appResponse := s.backupResponse) else s1
  }

  function Encode(aead: Aead, s: Session, dir: Direction, app: bytes): (Session, Result<bytes>) {
    if s.phase.NotStarted? then (s, Err(InvalidStateLocal)) else
    var r := SealMsg(aead, s.id, s.seqCount, s.Current(dir), app);
    var s1 := if r.Ok? then s.WithCurrent(dir, Advance(s.Current(dir))) else s;
    (if r == Err(SequenceNumberOverflow) then SetDefault(s1) else s1, r)
  }

  /** Received responses are retried under the backup key when the current key
      fails with the generic cryptographic error; the attempt that decides is the
      one whose counter moves. */
  function Decode(aead: Aead, s: Session, dir: Direction, buf: bytes): (Session, Result<bytes>) {
    if s.phase.NotStarted? then (s, Err(InvalidStateLocal)) else
    var r := OpenMsg(aead, s.id, s.seqCount, s.Current(dir), buf);
    if s.phase.Established? && dir.Response? && r == Err(CryptoError) && s.responderBackupValid then
      var r' := OpenMsg(aead, s.id, s.seqCount, s.backupResponse.param, buf);
      if r' == Err(SequenceNumberOverflow) then (SetDefault(s), r')
      else (s.AdvanceBackup(), r')
    else if r == Err(SequenceNumberOverflow) then (SetDefault(s), r)
    else (s.WithCurrent(dir, Advance(s.Current(dir))), r)
  }

  /** An update succeeds exactly if both derivations of every chosen direction do. A
      chosen direction then has the updated data secret, the key and salt that this new
      secret gives, and counter 0, and what it had before as valid backup; nothing else
      changes. */
  lemma UpdateDerives(kdf: Kdf, s: Session, updateRequester: bool, updateResponder: bool)
    ensures
      var (s', r) := CreateUpdate(kdf, s, updateRequester, updateResponder);
      var req, rsp := kdf.update(s.appRequest.dataSecret), kdf.update(s.appResponse.dataSecret);
      && (r.Ok? <==>
            && (updateRequester ==> req.Some? && kdf.keyIv(req.value).Some?)
            && (updateResponder ==> rsp.Some? && kdf.keyIv(rsp.value).Some?))
      && (r.Ok? && updateRequester ==>
            && var (key, salt) := kdf.keyIv(req.value).value;
            && s'.appRequest == DirectionSecret(req.value, SecretParam(key, salt, 0))
            && s'.backupRequest == s.appRequest && s'.requesterBackupValid)
      && (r.Ok? && updateResponder ==>
            && var (key, salt) := kdf.keyIv(rsp.value).value;
            && s'.appResponse == DirectionSecret(rsp.value, SecretParam(key, salt, 0))
            && s'.backupResponse == s.appResponse && s'.responderBackupValid)
      && (!updateRequester ==>
            s'.appRequest == s.appRequest && s'.backupRequest == s.backupRequest
            && s'.requesterBackupValid == s.requesterBackupValid)
      && (!updateResponder ==>
            s'.appResponse == s.appResponse && s'.backupResponse == s.backupResponse
            && s'.responderBackupValid == s.responderBackupValid)
      && s'.id == s.id && s'.phase == s.phase && s'.seqCount == s.seqCount
      && s'.hsRequest == s.hsRequest && s'.hsResponse == s.hsResponse
  {
  }

  /** A commit drops the backups of the chosen directions and changes nothing else; a
      rollback puts those that are valid back in place, and leaves them valid. */
  lemma ActivationIs(s: Session, updateRequester: bool, updateResponder: bool)
    ensures
      var t := ActivateUpdate(s, updateRequester, updateResponder, true);
      && (updateRequester ==> !t.requesterBackupValid && t.backupRequest.dataSecret == t.backupRequest.param.key == [])
      && (!updateRequester ==> t.requesterBackupValid == s.requesterBackupValid && t.backupRequest == s.backupRequest)
      && (updateResponder ==> !t.responderBackupValid && t.backupResponse.dataSecret == t.backupResponse.param.key == [])
      && (!updateResponder ==> t.responderBackupValid == s.responderBackupValid && t.backupResponse == s.backupResponse)
      && t.(requesterBackupValid := s.requesterBackupValid, backupRequest := s.backupRequest,
            responderBackupValid := s.responderBackupValid, backupResponse := s.backupResponse) == s
    ensures
      var t := ActivateUpdate(s, updateRequester, updateResponder, false);
      && t.appRequest == (if updateRequester && s.requesterBackupValid then s.backupRequest else s.appRequest)
      && t.appResponse == (if updateResponder && s.responderBackupValid then s.backupResponse else s.appResponse)
      && t.(appRequest := s.appRequest, appResponse := s.appResponse) == s
  {
  }

  /** After a teardown no key, secret, counter or id of the session is left, only the
      two flags. */
  lemma TeardownForgets(s: Session, other: Session)
    ensures
      var t := SetDefault(s);
      && t.id == 0 && t.phase.NotStarted? && t.seqCount == 0
      && (forall p :: p in {t.hsRequest, t.hsResponse, t.appRequest.param, t.appResponse.param,
                            t.backupRequest.param, t.backupResponse.param} ==>
            p.key == [] && p.seqNum == 0 && forall i :: 0 <= i < |p.salt| ==> p.salt[i] == 0)
      && t.appRequest.dataSecret == t.appResponse.dataSecret == []
      && t.backupRequest.dataSecret == t.backupResponse.dataSecret == []
      && t.requesterBackupValid == s.requesterBackupValid && t.responderBackupValid == s.responderBackupValid
    ensures s.requesterBackupValid == other.requesterBackupValid && s.responderBackupValid == other.responderBackupValid ==>
              SetDefault(s) == SetDefault(other)
  {
  }

  /** A live session encodes under the key its phase and the direction call for, and of
      all keys moves the counter of that one by one. */
  lemma EncodesUnder(aead: Aead, s: Session, dir: Direction, app: bytes)
    requires !s.phase.NotStarted?
    ensures
      var (s', r) := Encode(aead, s, dir, app);
      && (s.phase.Established? && dir.Request? ==>
            && r == SealMsg(aead, s.id, s.seqCount, s.appRequest.param, app)
            && (r.Ok? ==> s' == s.(appRequest := s.appRequest.(param := Later(s.appRequest.param)))))
      && (s.phase.Established? && dir.Response? ==>
            && r == SealMsg(aead, s.id, s.seqCount, s.appResponse.param, app)
            && (r.Ok? ==> s' == s.(appResponse := s.appResponse.(param := Later(s.appResponse.param)))))
      && (s.phase.Handshaking? && dir.Request? ==>
            r == SealMsg(aead, s.id, s.seqCount, s.hsRequest, app) && (r.Ok? ==> s' == s.(hsRequest := Later(s.hsRequest))))
      && (s.phase.Handshaking? && dir.Response? ==>
            && r == SealMsg(aead, s.id, s.seqCount, s.hsResponse, app)
            && (r.Ok? ==> s' == s.(hsResponse := Later(s.hsResponse))))
  {
    hide LE, Nonce, Plain;
  }

  /** The same key and salt, one message later. */
  ghost function Later(p: SecretParam): SecretParam {
    SecretParam(p.key, p.salt, if p.seqNum + 1 < 0x1_0000_0000_0000_0000 then p.seqNum + 1 else 0)
  }

  /** What is decoded is shorter than what it was decoded from. */
  lemma DecodedFits(aead: Aead, s: Session, dir: Direction, buf: bytes)
    requires aead.Sized()
    ensures var m := Decode(aead, s, dir, buf).1; m.Ok? ==> |m.value| < |buf|
  {
    OpenedFits(aead, s.id, s.seqCount, s.Current(dir), buf);
    OpenedFits(aead, s.id, s.seqCount, s.backupResponse.param, buf);
    hide OpenMsg;
  }

  lemma OpenedFits(aead: Aead, id: u32, count: nat, p: SecretParam, buf: bytes)
    requires aead.Sized()
    ensures var m := OpenMsg(aead, id, count, p, buf); m.Ok? ==> |m.value| < |buf|
  {
    hide LE, Nonce;
  }

  lemma CurrentWith(s: Session, dir: Direction, p: SecretParam)
    ensures
      var s' := s.WithCurrent(dir, p);
      && s'.Current(dir) == p
      && s'.phase == s.phase && s'.responderBackupValid == s.responderBackupValid
      && forall d :: d != dir ==> s'.Current(d) == s.Current(d)
  {
  }

  /** Without a retry, a decode that does not exhaust the counter moves it by one
      and gives what the current key makes of the octets. */
  lemma DecodeOnce(aead: Aead, s: Session, dir: Direction, buf: bytes)
    requires !s.phase.NotStarted?
    requires s.phase.Established? && dir.Response? ==> !s.responderBackupValid
    ensures
      var r := Decode(aead, s, dir, buf);
      && r.1 == OpenMsg(aead, s.id, s.seqCount, s.Current(dir), buf)
      && (r.1 == Err(SequenceNumberOverflow) ==> r.0 == SetDefault(s))
      && (r.1 != Err(SequenceNumberOverflow) ==>
            s.Current(dir).seqNum < MAX_SEQUENCE_NUMBER && r.0 == s.WithCurrent(dir, Advance(s.Current(dir))))
  {
  }
}

/** The session object, whose methods update its fields in place. */
module SessionObject {
  import opened Bytes
  import opened Codec
  import opened Status
  import opened SecuredMessage
  import opened SessionModel

  class SpdmSession {
    const aead: Aead
    const kdf: Kdf
    const senderBufferSize: nat
    const receiverBufferSize: nat

    var sessionId: u32
    var sessionState: Phase
    var sequenceNumberCount: nat
    var hsRequest: SecretParam
    var hsResponse: SecretParam
    var appRequest: DirectionSecret
    var appResponse: DirectionSecret
    var backupRequest: DirectionSecret
    var backupResponse: DirectionSecret
    var requesterBackupValid: bool
    var responderBackupValid: bool

    ghost predicate Valid()
      reads this
    {
      aead.Sized() && sequenceNumberCount <= 8 && senderBufferSize >= 2 && receiverBufferSize >= 2
    }

    function View(): Session
      reads this
    {
      Session(sessionId, sessionState, sequenceNumberCount, hsRequest, hsResponse,
              appRequest, appResponse, backupRequest, backupResponse,
              requesterBackupValid, responderBackupValid)
    }

    constructor (a: Aead, k: Kdf, senderSize: nat, receiverSize: nat)
      requires a.Sized() && senderSize >= 2 && receiverSize >= 2
      ensures Valid() && aead == a && kdf == k
      ensures senderBufferSize == senderSize && receiverBufferSize == receiverSize
      ensures View() == SetDefault(View()) && !requesterBackupValid && !responderBackupValid
    {
      aead, kdf, senderBufferSize, receiverBufferSize := a, k, senderSize, receiverSize;
      requesterBackupValid, responderBackupValid := false, false;
      sessionId, sessionState, sequenceNumberCount := INVALID_SESSION_ID, NotStarted, 0;
      hsRequest, hsResponse := DEFAULT_PARAM, DEFAULT_PARAM;
      appRequest, appResponse := DEFAULT_SECRET, DEFAULT_SECRET;
      backupRequest, backupResponse := DEFAULT_SECRET, DEFAULT_SECRET;
    }

    method Teardown()
      requires Valid()
      modifies this
      ensures Valid() && View() == SetDefault(old(View()))
    {
      sessionId, sessionState, sequenceNumberCount := INVALID_SESSION_ID, NotStarted, 0;
      hsRequest, hsResponse := DEFAULT_PARAM, DEFAULT_PARAM;
      appRequest, appResponse := DEFAULT_SECRET, DEFAULT_SECRET;
      backupRequest, backupResponse := DEFAULT_SECRET, DEFAULT_SECRET;
    }

    /** The source panics when the session is occupied. */
    method Setup(id: u32)
      requires Valid() && sessionId == INVALID_SESSION_ID
      modifies this
      ensures Valid() && View() == SetDefault(old(View())).(id := id)
    {
      Teardown();
      sessionId := id;
    }

    method CreateDataSecretUpdate(updateRequester: bool, updateResponder: bool) returns (r: Result<()>)
      requires Valid()
      modifies this
      ensures Valid() && (View(), r) == CreateUpdate(kdf, old(View()), updateRequester, updateResponder)
    {
      if updateRequester {
        backupRequest := appRequest;
        requesterBackupValid := true;
        var secret := kdf.update(appRequest.dataSecret);
        if secret.None? {
          return Err(CryptoError);
        }
        appRequest := appRequest.(dataSecret := secret.value);
        var keys := kdf.keyIv(appRequest.dataSecret);
        if keys.None? {
          return Err(CryptoError);
        }
        appRequest := appRequest.(param := SecretParam(keys.value.0, keys.value.1, 0));
      }
      if updateResponder {
        backupResponse := appResponse;
        responderBackupValid := true;
        var secret := kdf.update(appResponse.dataSecret);
        if secret.None? {
          return Err(CryptoError);
        }
        appResponse := appResponse.(dataSecret := secret.value);
        var keys := kdf.keyIv(appResponse.dataSecret);
        if keys.None? {
          return Err(CryptoError);
        }
        appResponse := appResponse.(param := SecretParam(keys.value.0, keys.value.1, 0));
      }
      return Ok(());
    }

    method ActivateDataSecretUpdate(updateRequester: bool, updateResponder: bool, useNewKey: bool)
      requires Valid()
      modifies this
      ensures Valid() && View() == ActivateUpdate(old(View()), updateRequester, updateResponder, useNewKey)
    {
      if !useNewKey {
        if updateRequester && requesterBackupValid {
          appRequest := backupRequest;
        }
        if updateResponder && responderBackupValid {
          appResponse := backupResponse;
        }
      } else {
        if updateRequester {
          backupRequest := DEFAULT_SECRET;
          requesterBackupValid := false;
        }
        if updateResponder {
          backupResponse := DEFAULT_SECRET;
          responderBackupValid := false;
        }
      }
    }

    method AdvanceCurrent(dir: Direction)
      requires Valid() && sessionState != NotStarted
      requires View().Current(dir).seqNum < MAX_SEQUENCE_NUMBER
      modifies this
      ensures Valid() && View() == old(View()).WithCurrent(dir, Advance(old(View()).Current(dir)))
    {
      if sessionState == Handshaking {
        if dir == Request {
          hsRequest := Advance(hsRequest);
        } else {
          hsResponse := Advance(hsResponse);
        }
      } else {
        if dir == Request {
          appRequest := appRequest.(param := Advance(appRequest.param));
        } else {
          appResponse := appResponse.(param := Advance(appResponse.param));
        }
      }
    }

    /** The buffer ends up holding exactly the message and is untouched behind it. */
    method EncodeSpdmSecuredMessage(app: bytes, secured: array<byte>, isRequester: bool) returns (r: Result<nat>)
      requires Valid()
      requires |app| + 2 <= senderBufferSize
      requires 6 + sequenceNumberCount + |app| + 2 + TAG_SIZE <= secured.Length
      modifies this, secured
      ensures Valid()
      ensures
        var (s, w) := Encode(aead, old(View()), if isRequester then Request else Response, app);
        && View() == s
        && match w {
             case Ok(m) => r == Ok(|m|) && |m| <= secured.Length
                           && secured[..] == m + old(secured[|m|..])
             case Err(e) => r == Err(e) && secured[..] == old(secured[..])
           }
    {
      var dir := if isRequester then Request else Response;
      if sessionState == NotStarted {
        return Err(InvalidStateLocal);
      }
      var param := View().Current(dir);
      r := EncodeMsg(app, secured, param);
      if r.Ok? {
        AdvanceCurrent(dir);
      } else if r.status == SequenceNumberOverflow {
        Teardown();
      }
    }

    /** A message must fit the caller's buffer, into which it is copied unchecked. */
    method DecodeSpdmSecuredMessage(secured: bytes, app: array<byte>, isRequester: bool) returns (r: Result<nat>)
      requires Valid() && |secured| <= receiverBufferSize
      requires var m := Decode(aead, View(), if isRequester then Request else Response, secured).1;
               m.Ok? ==> |m.value| <= app.Length
      modifies this, app
      ensures Valid()
      ensures
        var (s, w) := Decode(aead, old(View()), if isRequester then Request else Response, secured);
        && View() == s
        && match w {
             case Ok(m) => r == Ok(|m|) && |m| <= app.Length && app[..] == m + old(app[|m|..])
             case Err(e) => r == Err(e) && app[..] == old(app[..])
           }
    {
      var dir := if isRequester then Request else Response;
      if sessionState == NotStarted {
        return Err(InvalidStateLocal);
      }
      var param := View().Current(dir);
      r := DecodeMsg(secured, app, param);
      if sessionState == Established && !isRequester && r == Err(CryptoError) && responderBackupValid {
        r := DecodeMsg(secured, app, backupResponse.param);
        if r != Err(SequenceNumberOverflow) {
          backupResponse := backupResponse.(param := Advance(backupResponse.param));
        }
      } else if r != Err(SequenceNumberOverflow) {
        AdvanceCurrent(dir);
      }
      if r == Err(SequenceNumberOverflow) {
        Teardown();
      }
    }

    method EncodeMsg(app: bytes, secured: array<byte>, param: SecretParam) returns (r: Result<nat>)
      requires Valid()
      requires |app| + 2 <= senderBufferSize
      requires 6 + sequenceNumberCount + |app| + 2 + TAG_SIZE <= secured.Length
      modifies secured
      ensures match SealMsg(aead, sessionId, sequenceNumberCount, param, app)
              case Ok(m) => r == Ok(|m|) && |m| <= secured.Length && secured[..] == m + old(secured[|m|..])
              case Err(e) => r == Err(e) && secured[..] == old(secured[..])
    {
      if param.seqNum == MAX_SEQUENCE_NUMBER {
        return Err(SequenceNumberOverflow);
      }
      var aad := EncodeHeader(param.seqNum, |app| + 2 + TAG_SIZE);
      var plain := FramePlain(app);
      var nonce := NonceOf(param);
      var s := aead.seal(param.key, nonce, aad, plain);
      if s.Err? {
        return Err(s.status);
      }
      CopyFromSlice(secured, aad + s.value.cipher + s.value.tag);
      r := Ok(|aad + s.value.cipher + s.value.tag|);
    }

    /** The length-prefixed plaintext, built in a sender-sized buffer. */
    method FramePlain(app: bytes) returns (plain: bytes)
      requires |app| + 2 <= senderBufferSize
      ensures plain == Plain(app)
    {
      var plainBuf := new byte[senderBufferSize](_ => 0);
      var writer := new Writer(plainBuf, 0);
      var _ := writer.ExtendFromSlice(LE(|app|, 2));
      var _ := writer.ExtendFromSlice(app);
      plain := writer.Written();
    }

    method CopyFromSlice(dst: array<byte>, src: bytes)
      requires |src| <= dst.Length
      modifies dst
      ensures dst[..] == src + old(dst[|src|..])
    {
      var writer := new Writer(dst, 0);
      var _ := writer.ExtendFromSlice(src);
    }

    /** The associated data, written one counter octet at a time. */
    method EncodeHeader(seqNum: u64, length: nat) returns (aad: bytes)
      requires Valid()
      ensures aad == Header(sessionId, sequenceNumberCount, seqNum, length)
    {
      var buf := new byte[14](_ => 0);
      var writer := new Writer(buf, 0);
      var _ := writer.ExtendFromSlice(LE(sessionId, 4));
      for i := 0 to sequenceNumberCount
        invariant writer.Valid() && fresh(writer) && fresh(buf) && writer.buf == buf && writer.base == 0
        invariant writer.Written() == LE(sessionId, 4) + LE(seqNum, i)
      {
        LEAppend(seqNum, i);
        var _ := writer.ExtendFromSlice([Shr8(seqNum, i) % 256]);
      }
      var _ := writer.ExtendFromSlice(LE(length, 2));
      aad := writer.Written();
    }

    method NonceOf(param: SecretParam) returns (nonce: bytes)
      ensures nonce == Nonce(param.salt, param.seqNum)
    {
      var n := param.seqNum;
      var salt: bytes := param.salt;
      salt := salt[0 := Xor(salt[0], n % 256)];
      salt := salt[1 := Xor(salt[1], Shr8(n, 1) % 256)];
      salt := salt[2 := Xor(salt[2], Shr8(n, 2) % 256)];
      salt := salt[3 := Xor(salt[3], Shr8(n, 3) % 256)];
      salt := salt[4 := Xor(salt[4], Shr8(n, 4) % 256)];
      salt := salt[5 := Xor(salt[5], Shr8(n, 5) % 256)];
      salt := salt[6 := Xor(salt[6], Shr8(n, 6) % 256)];
      salt := salt[7 := Xor(salt[7], Shr8(n, 7) % 256)];
      nonce := salt;
      forall i | 0 <= i < IV_SIZE ensures nonce[i] == Nonce(param.salt, n)[i] {
        assert i < 8 ==> LE(n, 8)[i] == Shr8(n, i) % 256;
      }
    }

    method DecodeMsg(secured: bytes, app: array<byte>, param: SecretParam) returns (r: Result<nat>)
      requires Valid() && |secured| <= receiverBufferSize
      requires var m := OpenMsg(aead, sessionId, sequenceNumberCount, param, secured); m.Ok? ==> |m.value| <= app.Length
      modifies app
      ensures match OpenMsg(aead, sessionId, sequenceNumberCount, param, secured)
              case Ok(m) => r == Ok(|m|) && |m| <= app.Length && app[..] == m + old(app[|m|..])
              case Err(e) => r == Err(e) && app[..] == old(app[..])
    {
      if param.seqNum == MAX_SEQUENCE_NUMBER {
        return Err(SequenceNumberOverflow);
      }
      var parts := DecodeHeader(secured, param.seqNum);
      if parts.None? {
        return Err(DecodeAeadFail);
      }
      var w := parts.value;
      var nonce := NonceOf(param);
      var o := aead.open(param.key, nonce, w.aad, w.cipher, w.tag);
      if o.Err? {
        return Err(o.status);
      }
      var plain := o.value;
      if |plain| < 2 || |plain| < FromLE(plain[..2]) + 2 {
        return Err(DecodeAeadFail);
      }
      var n := FromLE(plain[..2]);
      CopyFromSlice(app, plain[2..n + 2]);
      r := Ok(n);
    }

    /** Field by field; any short read or mismatch gives None. */
    method DecodeHeader(secured: bytes, seqNum: u64) returns (w: Option<Parts>)
      requires Valid()
      ensures w == Split(LE(sessionId, 4), LE(seqNum, sequenceNumberCount), secured)
    {
      var reader := new Reader(secured);
      Pow256Values();
      var idMatches := MatchField(reader, sessionId, 4);
      if !idMatches {
        return None;
      }
      var counterMatches := MatchCounter(reader, seqNum);
      if !counterMatches {
        return None;
      }
      var field := reader.Take(2);
      if field.None? {
        return None;
      }
      var length, aadSize := FromLE(field.value), reader.offs;
      if |secured| < length + aadSize || length < TAG_SIZE {
        return None;
      }
      var cut := aadSize + length - TAG_SIZE;
      w := Some(Parts(secured[..aadSize], secured[aadSize..cut], secured[cut..aadSize + length]));
    }

    static method MatchField(reader: Reader, v: nat, n: nat) returns (ok: bool)
      requires reader.Valid() && v < Pow256(n)
      modifies reader
      ensures reader.Valid()
      ensures ok <==> old(reader.offs) + n <= |reader.buf|
                      && reader.buf[old(reader.offs)..old(reader.offs) + n] == LE(v, n)
      ensures ok ==> reader.offs == old(reader.offs) + n
    {
      var at := reader.offs;
      var got := reader.ReadLE(n);
      if got.None? {
        return false;
      }
      if got.value != v {
        FieldsDiffer(got.value, v, n);
      }
      ok := got.value == v;
    }

    /** One octet at a time, stopping at the first mismatch. */
    method MatchCounter(reader: Reader, seqNum: u64) returns (ok: bool)
      requires reader.Valid()
      modifies reader
      ensures reader.Valid()
      ensures ok <==> old(reader.offs) + sequenceNumberCount <= |reader.buf|
                      && reader.buf[old(reader.offs)..old(reader.offs) + sequenceNumberCount] == LE(seqNum, sequenceNumberCount)
      ensures ok ==> reader.offs == old(reader.offs) + sequenceNumberCount
    {
      var at := reader.offs;
      for i := 0 to sequenceNumberCount
        invariant reader.Valid() && reader.offs == at + i
        invariant reader.buf[at..at + i] == LE(seqNum, i)
      {
        var s := reader.Take(1);
        if s.None? {
          return false;
        }
        assert s.value[0] == reader.buf[at + i];
        if s.value[0] != Shr8(seqNum, i) % 256 {
          return false;
        }
        LEAppend(seqNum, i);
      }
      ok := true;
    }
  }
}
