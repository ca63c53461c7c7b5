# A verified model of spdm-rs

This project models the parts of spdm-rs, an implementation of the DMTF Security
Protocol and Data Model (SPDM), where a mistake would be silent: secured sessions and
their key updates, transcripts, certificate chains, the session table, and the framing
and reassembly of messages. Operations that the source performs by updating objects and
buffers are Dafny classes and methods; each is proved to compute a function, and the
results below are about those functions over every input, every run or every reachable
state. `dafny verify dfyconfig.toml` checks the whole project.

- `Bytes`, `Codec`: octets, little-endian integers, the reader and the writer.
- `SecuredMessage`, `Session`: the AEAD record format and the session object.
- `NonceRuns`, `DerivedKeys`, `Channel`, `PendingChannel`, `KeyUpdate`: nonces and keys over
  whole runs, delivery over an adversarial channel before and during a key update, and the
  KEY_UPDATE exchange.
- `Transcript`, `AuthTranscript`, `TranscriptObject`: TH, M1/M2 and L1/L2, in the form
  that keeps raw messages and in the form that feeds a running hash.
- `SessionTable`: half-id allocation, lookup, setup and teardown.
- `Der`, `ObjectIdentifiers`, `ChainTiling`, `CertChain`, `CertRules`, `ExtensionLists`,
  `LeafRules`, `CertWalkers`: certificate chain checks and what they mean.
- `EcdsaDer`, `KeySchedule`: signature encoding and HKDF info strings.
- `Chunk`, `ChunkObject`: large messages in chunks.
- `Transport`, `TransportObject`: MCTP and PCI DOE framing and the end-to-end path.
- `Measurement`, `MeasurementReader`: measurement blocks and records.

Cryptographic primitives are parameters. An `Aead` is a pair of functions that may fail;
theorems say which of these they need: `Correct` (what was sealed opens), `Sized` (lengths),
`Seals` (sealing does not fail) and `Separates` (another key fails with a given status).
Key derivation (`Kdf`) and hashing (`Hash`) are handled alike. A running hash context is
the octet string it has been fed, so equal contexts finalize to equal digests.

Some statements hold only under a condition the source does not check, and are given with
the exact condition:

- A message longer than the 16-bit length field can say does not survive the record layer
  (`OpenSeal`, `EndToEnd`).
- A rollback of a key update keeps nonces unique exactly if the direction has not been used
  since its backup was taken (`NoNonceReuse`, `UnsafeRollbackRepeats`). A rollback leaves the
  backup valid, so not encoding between update and rollback is not enough. For a direction
  whose key was installed anew since, uses under the new key do not count.
- Across updates, uses of one key slot never share key and nonce if the derivation gives
  distinct keys along its chain and every application key is installed from its data secret
  (`NoReuseAcrossUpdates`). Installing a data secret without a key and then updating can
  repeat a key (`SecretAgainRepeats`).
- While an update is pending, a response under the old key is found only if the header
  carries no distinguishing counter octets and the AEAD reports failure as the generic error
  (`OldKeyResponse`, `PendingInterleavingDecodesIff`); the mbedtls backend reports another
  status, and MCTP carries two counter octets.
- Rollback after a failed update of both directions falls back to an older responder backup
  if one is marked valid (`RollbackRestores`).
- Raw TH data asked for before any F message already contains the requester's identity, and
  in a PSK session a vendor-defined transcript goes into the running hash only
  (`IncrementalRefinesRaw`). Clearing K clears F in the raw build, and in the other it keeps
  the note that the requester's identity has been fed (`ClearingKAgreesIff`).
- Appending to B after C, or GET_DIGESTS after C, makes M1/M2 differ (`StepAgrees`).
- Vendor-defined transcripts can overflow the TH buffer (`VdmOverflows`).
- The algorithm's OID is compared without regard to the length of its SEQUENCE. Of the outer
  algorithm field it lies inside exactly if the field announces enough content
  (`OuterOidInsideIff`); otherwise its last octets are those of the signature, and such a leaf
  is accepted (`LeafWitness`). In a TBS what follows keeps it inside (`TbsAlgorithmInside`).
- Of a leaf's key usage the last octet is tested, while digitalSignature is in the first
  value octet (section 4.2.1.3 of RFC 5280). The test demands that bit if there is one value
  octet, and with more exactly if the first and the last agree on it (`LeafUsageTests`,
  `LeafKeyUsage`); keyAgreement with decipherOnly passes (`AgreementPasses`).
- Of the OIDs in an SPDM extension only the first is looked at, and one of another length
  ends the search with an error (`FindInListIff`, `SecondEntryMissed`).
- The second chain walker needs two-octet lengths (`WalkersAgree`).
- The announced size bounds chunks after the first only if the first fits it
  (`SendKeepsRangeIff`), and an idle responder takes the message size of a chunk it has read
  for granted (`SendPanicsIff`).

## Model

| member | source | states |
|---|---|---|
| Codec.Reader.Take | codec/src/codec.rs:33-41 | n octets are consumed and returned, or the reader stays put; success iff they are there |
| Codec.Reader.ReadLE | codec/src/codec.rs:224-334 | the value read is the one whose little-endian octets were consumed |
| Codec.Writer.ExtendFromSlice | codec/src/codec.rs:84-94 | the octets overwrite exactly their place in the buffer if they fit, else nothing changes |
| Codec.Writer.PushAll | codec/src/codec.rs:96-103 | octets pushed one at a time: as many as fit are in the buffer, success iff all do |
| Bytes.DecodeEncode | codec/src/codec.rs:219-334 | decoding an n-octet little-endian encoding gives back every value below 256^n |
| Bytes.EncodeDecode | codec/src/codec.rs:219-334 | encoding what was decoded gives back the octets |
| SecuredMessage.NonceUndo | spdmlib/src/common/session.rs:1385-1394 | the counter can be read back from a nonce and its salt, so XOR with the counter is injective |
| SecuredMessage.NonceBits | spdmlib/src/common/session.rs:1385-1394 | bit by bit the first eight octets of a nonce are the exclusive or of the salt and the counter, lowest octet first, and the last four are those of the salt |
| SecuredMessage.SealedRecordIs | spdmlib/src/common/session.rs:1335-1413 | every octet of a record: session id, counter octets and length, which are also the associated data, and the ciphertext and tag of the length-prefixed message under the key and nonce of the direction |
| SecuredMessage.OpenedRecordIs | spdmlib/src/common/session.rs:1415-1493 | exactly when a received buffer is decoded, octet by octet, with what result, and with which status otherwise |
| SecuredMessage.OpenSeal | spdmlib/src/common/session.rs:1335-1493 | decoding undoes encoding, alignment padding included, iff the framed length fits 16 bits |
| SecuredMessage.OpenWire | spdmlib/src/common/session.rs:1415-1493 | what a receiver with other secrets makes of a record: header mismatch iff counter octets differ, else whatever the AEAD says |
| SecuredMessage.OpenedSize | spdmlib/src/common/session.rs:1415-1493 | no accepted message is longer than the length field can announce |
| SessionModel.DecodeOnce | spdmlib/src/common/session.rs:1251-1333 | without a backup in play a decode moves the counter by one whatever the outcome, unless the counter is exhausted, which resets the session |
| SessionModel.EncodesUnder | spdmlib/src/common/session.rs:1183-1249 | a live session encodes under the application or handshake key of the direction, by its phase, and moves only that counter, by one |
| SessionModel.UpdateDerives | spdmlib/src/common/session.rs:956-1069 | an update succeeds iff its derivations do; a chosen direction then has the updated data secret, the key and salt that this new secret gives, counter 0 and its old state as valid backup; nothing else changes |
| SessionModel.ActivationIs | spdmlib/src/common/session.rs:1071-1108 | a commit drops the backups of the chosen directions and nothing else, a rollback puts the valid ones back and leaves them valid |
| SessionModel.TeardownForgets | spdmlib/src/common/session.rs:550-587 | after a teardown every key, secret, salt and counter, handshake and application, is zero or empty; only the two backup flags are left |
| SessionObject.SpdmSession.constructor | spdmlib/src/common/session.rs:503-524 | a new session is in its default state with no backup valid |
| SessionObject.SpdmSession.Teardown | spdmlib/src/common/session.rs:550-587 | everything but the backup-valid flags is cleared |
| SessionObject.SpdmSession.Setup | spdmlib/src/common/session.rs:575-583 | a free session is reset and takes the id |
| SessionObject.SpdmSession.CreateDataSecretUpdate | spdmlib/src/common/session.rs:956-1069 | new state and status of the update, direction by direction, each backed up before it is replaced, derivation failures included; `UpdateDerives` says what that state is |
| SessionObject.SpdmSession.ActivateDataSecretUpdate | spdmlib/src/common/session.rs:1071-1108 | commit clears the backups of the chosen directions, rollback restores those that are marked valid |
| SessionObject.SpdmSession.EncodeSpdmSecuredMessage | spdmlib/src/common/session.rs:1183-1249 | buffer, counter and phase after encoding; exhaustion resets the session |
| SessionObject.SpdmSession.DecodeSpdmSecuredMessage | spdmlib/src/common/session.rs:1251-1333 | buffer, counters and phase after decoding, with the retry under the backup key |
| SessionObject.SpdmSession.EncodeMsg | spdmlib/src/common/session.rs:1335-1413 | the buffer holds the sealed record and is otherwise unchanged |
| SessionObject.SpdmSession.DecodeMsg | spdmlib/src/common/session.rs:1415-1493 | the buffer holds the application message iff header, AEAD and inner length agree, with the status of the first that does not |
| SessionObject.SpdmSession.EncodeHeader | spdmlib/src/common/session.rs:1357-1372 | session id, low counter octets written one at a time, and length |
| SessionObject.SpdmSession.DecodeHeader | spdmlib/src/common/session.rs:1430-1459 | the split of the buffer into associated data, ciphertext and tag, or none |
| SessionObject.SpdmSession.NonceOf | spdmlib/src/common/session.rs:1385-1394 | the eight octet updates give the salt XORed with the counter |
| NonceRuns.StepMoves | spdmlib/src/common/session.rs:550-1333 | no event but an unsafe rollback takes a key slot back to where it has been used: it goes forward, is updated with the old state backed up, gets a key from outside, or returns to an unused backup |
| NonceRuns.NoNonceReuse | spdmlib/src/common/session.rs:550-1394 | in every run of encodes, decodes, key installations, updates, commits, rollbacks, phase changes, teardowns and setups in which each rolled-back direction has not been used since its backup was taken, two encodes of one slot and epoch share the key and differ in the nonce |
| DerivedKeys.StepDerived | spdmlib/src/common/session.rs:550-1333 | every event keeps each application key and each valid backup on the chain of updates from the data secret its base began with |
| DerivedKeys.NoReuseAcrossUpdates | spdmlib/src/common/session.rs:550-1394 | in every run with safe rollbacks whose application keys come from their data secrets, two encodes of one slot and base never share key and nonce, whatever their steps, if the derivation gives distinct keys along its chain |
| DerivedKeys.GenerationIsKeyed | spdmlib/src/common/session.rs:833-954 | generating the data secrets installs keys that come from them, and leaves both directions ready for an update |
| DerivedKeys.SecretAgainRepeats | spdmlib/src/common/session.rs:956-1069 | an old data secret installed again without a key makes the next update repeat key, salt and counter under another step |
| NonceRuns.ExhaustionTearsDown | spdmlib/src/common/session.rs:1183-1360 | at 2^64-1 a direction neither encodes nor decodes, and the session is reset |
| NonceRuns.UnsafeRollbackRepeats | spdmlib/src/common/session.rs:956-1249 | the converse: if an endpoint has used its direction since the backup was taken, under a key of the same origin, some continuation of a rollback, with at most one update and otherwise encodes, repeats that use's key, salt and counter |
| NonceRuns.RollbackRepeatsNonce | spdmlib/src/common/session.rs:956-1108 | first shape, either direction: update, encode, roll back, update comes back to the new key's counter |
| NonceRuns.SecondRollbackRepeatsNonce | spdmlib/src/common/session.rs:1078-1091 | second shape, either direction: as a rollback leaves the backup valid, roll back, encode, roll back comes back to the old key's counter |
| Channel.OpenedWasSent | spdmlib/src/common/session.rs:1415-1493 | with an unforgeable AEAD, what opens at counter n is the n-th message sealed |
| Channel.DeliverKeeps | spdmlib/src/common/session.rs:1251-1333 | an arbitrary delivery keeps the order of what was accepted |
| Channel.DeliveredInOrderAtMostOnce | spdmlib/src/common/session.rs:1183-1493 | over a channel that drops, duplicates, reorders and injects, accepted messages are sent messages at strictly increasing indices |
| PendingChannel.AcceptedInOrder | spdmlib/src/common/session.rs:1415-1493 | what one of the two keys accepts extends the order of what was sent under it |
| PendingChannel.DeliverStep | spdmlib/src/common/session.rs:1293-1333 | an arbitrary delivery, decided by either key, keeps both orders |
| PendingChannel.BothKeysDeliverInOrder | spdmlib/src/common/session.rs:956-1493 | while the receiver's update of the responses' key is pending and up to its commit, over the same channel and with the sender's update at any point, what is accepted under the old key and under the new key is each in order and at most once |
| KeyUpdate.RollbackRestores | spdmlib/src/common/session.rs:956-1108 | update then rollback restores both directions, also when a derivation fails midway, unless a stale responder backup is in the way; unchosen directions and everything else untouched |
| KeyUpdate.OldKeyResponse | spdmlib/src/common/session.rs:1293-1319 | an old-key response is decoded iff the counter octets coincide and the failure is the generic one; only then the backup counter moves and not the new one |
| KeyUpdate.NewKeyResponse | spdmlib/src/common/session.rs:1251-1333 | a new-key response is decoded and moves only the new counter |
| KeyUpdate.PendingInterleavingDecodesIff | spdmlib/src/common/session.rs:1293-1319 | an interleaving of old-key and new-key responses that keeps each key's order is decoded completely iff at every old-key response the counter octets of both keys coincide |
| KeyUpdate.PendingInterleavingDecodes | spdmlib/src/common/session.rs:1293-1319 | so without counter octets on the wire every such interleaving is decoded completely |
| UpdateExchange.TransferDelivers | spdmlib/src/common/session.rs:1183-1333 | between ends that agree, one message goes through and both counters move alike |
| UpdateExchange.AnnounceKeepsSync | spdmlib/src/requester/key_update_req.rs:35-156 | the first half of an update of one or of all keys succeeds and leaves both ends on the next secrets, the requester without a backup and the responder with its old request key |
| UpdateExchange.VerifyKeepsSync | spdmlib/src/responder/key_update_rsp.rs:74-93 | the second half verifies the new keys and leaves the responder without a backup |
| UpdateExchange.LosslessRunStaysSynced | spdmlib/src/requester/key_update_req.rs:14-178 | every run of messages both ways and key updates of either kind delivers every message and ends in agreement, with no backup left at either end |
| TranscriptModel.TranscriptDataIs | spdmlib/src/common/mod.rs:779-1007 | TH data is A, identity, K, identity, F, and the build succeeds iff both identities exist and the whole fits |
| TranscriptModel.RequesterBinds | spdmlib/src/common/mod.rs:779-896 | at the requester the octets before K are the digest of the chain in the peer slot, or of the peer key for slot 0xFF, and those before F of the own chain, or own key for slot 0xF; with PSK, vendor transcripts and every error status |
| TranscriptModel.ResponderBinds | spdmlib/src/common/mod.rs:898-1007 | at the responder the octets before K are the digest of the own chain or key and those before F of the peer's, likewise |
| TranscriptModel.RolesAgree | spdmlib/src/common/mod.rs:779-1007 | requester and responder with mirrored slots, keys and chains compute the same octets or both fail |
| TranscriptModel.NoOverflow | spdmlib/src/common/mod.rs:1637-1664 | without vendor-defined transcripts the TH buffer holds whatever its component buffers can hold |
| TranscriptModel.VdmOverflows | spdmlib/src/common/mod.rs:1637-1664 | with them full component buffers overflow it |
| TranscriptModel.FirstKFeeds | spdmlib/src/common/mod.rs:567-624 | one K append in all cases: what a new context is fed first, and the error for an unknown hash |
| TranscriptModel.FirstFFeeds | spdmlib/src/common/mod.rs:657-763 | one F append in all cases, by the fields of the endpoint: whose chain or key is fed and which status its absence gives |
| TranscriptModel.KFeeds | spdmlib/src/common/mod.rs:567-624 | K appends feed A, the recorded identity and the messages in order |
| TranscriptModel.FFeeds | spdmlib/src/common/mod.rs:657-763 | F appends feed the requester's identity once, then the messages in order |
| TranscriptModel.IncrementalRefinesRaw | spdmlib/src/common/mod.rs:567-1095 | for every run of K then F appends, in either role, the running hash has been fed exactly the raw TH data, iff an F message exists or there is no identity before it, and a PSK session has no vendor-defined transcript or an empty one |
| TranscriptModel.ClearingKAgreesIff | spdmlib/src/common/mod.rs:625-763 | clearing K keeps K in the raw form and drops the context in the other; after the next K message the two agree iff K was empty, and after an F message behind it iff besides the identity had not been fed before or is empty |
| AuthTranscript.StepAgrees | spdmlib/src/common/mod.rs:373-565 | one append or reset keeps L1/L2 in agreement always and M1/M2 iff B comes before C |
| AuthTranscript.Refusals | spdmlib/src/common/mod.rs:373-534 | exactly which appends each form refuses, and with which status |
| AuthTranscript.AppendBAgrees | spdmlib/src/common/mod.rs:373-402 | a late B goes unnoticed iff it commutes with C |
| AuthTranscript.OthersUnchanged | spdmlib/src/common/mod.rs:457-565 | a step on one session leaves the others' contexts alone |
| AuthTranscript.RunAgrees | spdmlib/src/common/mod.rs:373-565 | for every run with B before C the running contexts hold A, B, C, and per session A, M from version 1.2 and M before |
| AuthTranscript.ContextsHold | spdmlib/src/common/mod.rs:457-565 | after every run a session's context exists iff a measurement message came since its last reset, and holds A and these messages from version 1.2 on, and exactly these messages before |
| AuthTranscript.RawRunHolds | spdmlib/src/common/mod.rs:1150-1179 | after every run B and C hold what came in since they were last cleared: by a finished challenge, B by GET_DIGESTS, both by measurement and session requests before authentication |
| AuthTranscript.RawRunMeasured | spdmlib/src/common/mod.rs:457-565 | and M what came in since the last request of the session other than GET_MEASUREMENTS |
| TranscriptObject.ManagedBuffer.AppendMessage | spdmlib/src/common/mod.rs:1677-1688 | appends all of a message or nothing |
| TranscriptObject.ManagedBuffer.ResetMessage | spdmlib/src/common/mod.rs:1685-1687 | empties the buffer |
| TranscriptObject.RawTranscript.AppendMessageB | spdmlib/src/common/mod.rs:373-402 | the raw step of B |
| TranscriptObject.RawTranscript.AppendMessageC | spdmlib/src/common/mod.rs:415-444 | the raw step of C |
| TranscriptObject.RawTranscript.AppendMessageM | spdmlib/src/common/mod.rs:457-534 | the raw step of M for a session or none |
| TranscriptObject.RawTranscript.ResetBufferViaRequestCode | spdmlib/src/common/mod.rs:1150-1179 | the raw step of a request's resets |
| TranscriptObject.RawTranscript.CalcReqTranscriptData | spdmlib/src/common/mod.rs:779-896 | the requester's TH data, error cases included |
| TranscriptObject.RawTranscript.CalcRspTranscriptData | spdmlib/src/common/mod.rs:898-1007 | the responder's TH data, error cases included |
| TranscriptObject.HashedTranscript.AppendMessageB | spdmlib/src/common/mod.rs:373-402 | the incremental step of B, creating the context with A |
| TranscriptObject.HashedTranscript.AppendMessageC | spdmlib/src/common/mod.rs:415-444 | the incremental step of C |
| TranscriptObject.HashedTranscript.AppendMessageM | spdmlib/src/common/mod.rs:457-534 | the incremental step of M for a session or none |
| TranscriptObject.HashedTranscript.ResetBufferViaRequestCode | spdmlib/src/common/mod.rs:1150-1179 | the incremental step of a request's resets |
| TranscriptObject.HashedTranscript.AppendMessageK | spdmlib/src/common/mod.rs:567-624 | the incremental step of K, creating the context with A and the identity |
| TranscriptObject.HashedTranscript.AppendMessageF | spdmlib/src/common/mod.rs:657-763 | the incremental step of F, feeding the identity the first time |
| SessionTable.AllocationMatchesSlot | spdmlib/src/common/mod.rs:297-308 | in a table in order the id allocator and the search for a free slot stop at the same slot |
| SessionTable.LookupFindsLive | spdmlib/src/common/mod.rs:267-281 | live ids are distinct and lookup finds their one slot |
| SessionTable.SetupKeepsIff | spdmlib/src/common/session.rs:575-583 | setting up the free slot keeps the table in order iff the half id was allocated for it |
| SessionTable.ReachableTable | spdmlib/src/common/mod.rs:262-308 | in every reachable table slot i has own half-id 0xFFFD - i, allocation succeeds iff a slot is free, the slot set up is free, and the new session is found under its id |
| SessionTable.HalvesBelong | spdmlib/src/requester/key_exchange_req.rs:314-315 | the low half of an id is the requester's and the high half the responder's, whichever end puts it together |
| SessionTable.EndsAgree | spdmlib/src/responder/key_exchange_rsp.rs:290-392 | a requester and a responder that open with each other's half ids hold the same id, and each finds its free slot under it |
| SessionTable.Table.GetSessionViaId | spdmlib/src/common/mod.rs:273-281 | the first slot that holds the id |
| SessionTable.Table.GetNextHalfSessionId | spdmlib/src/common/mod.rs:297-308 | the half id of the first slot whose own half is 0 |
| SessionTable.Table.OpenSession | spdmlib/src/responder/key_exchange_rsp.rs:290-392 | allocation and setup together: success iff a slot was free, never on an occupied one, the order is kept, and the id has the own and the peer half in their places and is found |
| SessionTable.Table.TeardownSlot | spdmlib/src/common/session.rs:585-587 | frees one slot and keeps the order |
| SessionTable.Table.ResetAll | spdmlib/src/common/mod.rs:236-265 | frees every slot |
| Der.CheckLengthIsDer | spdmlib/src/crypto/x509v3.rs:271-317 | a length is accepted iff it is the DER encoding of a value that is all there |
| Der.DerLengthMeans | spdmlib/src/crypto/x509v3.rs:271-317 | these lengths are the short form below 128 and otherwise the count and the fewest octets, highest first |
| Der.TlvIsElement | spdmlib/src/crypto/x509v3.rs:769-795 | what is skipped as an element is a tag, the DER length of a body, and the body |
| ChainTiling.ChainSound | spdmlib/src/crypto/x509v3.rs:62-83 | an accepted walk tiles the chain |
| ChainTiling.ChainComplete | spdmlib/src/crypto/x509v3.rs:62-83 | a tiled chain is accepted, with those cuts and no others |
| CertificateShape.CertSound | spdmlib/src/crypto/x509v3.rs:85-110 | an accepted certificate is a SEQUENCE of exactly three checked elements |
| CertificateShape.CertComplete | spdmlib/src/crypto/x509v3.rs:85-110 | and every such SEQUENCE is accepted |
| CertificateShape.CertificateIsElement | spdmlib/src/crypto/x509v3.rs:85-110 | its octets are the DER element around TBS, algorithm and signature |
| CertChain.ChainAcceptedIff | spdmlib/src/crypto/x509v3.rs:62-226 | a chain is accepted iff certificates tile it, with unique cuts |
| CertChain.LeafIsLast | spdmlib/src/crypto/x509v3.rs:85-110 | the leaf rules bind the last certificate and no other |
| CertRules.FieldIff | spdmlib/src/crypto/x509v3.rs:203-222 | each field check accepts exactly that field: a version, an element, a SEQUENCE, or an algorithm that starts with the expected OID |
| CertRules.SpdmOidsIff | spdmlib/src/crypto/x509v3.rs:479-549 | accepted iff the content is one SEQUENCE of searchable extensions; the answer is no iff one of them is an extended key usage with an authentication OID outside a leaf |
| CertRules.TbsAcceptedIff | spdmlib/src/crypto/x509v3.rs:112-201 | a TBS that something follows is accepted iff it is a SEQUENCE of exactly the seven fields and one extensions element that keeps the rules |
| CertRules.TbsFieldsAre | spdmlib/src/crypto/x509v3.rs:112-201 | the seven fields are version 3, a serial number element, an algorithm, and issuer, validity, subject and public key as SEQUENCEs, in this order |
| CertRules.UntaggedTakesAll | spdmlib/src/crypto/x509v3.rs:370-385 | without the tag of the extensions element all that is left is taken for its content, so such a TBS is refused if anything follows it |
| CertRules.BodyRulesIff | spdmlib/src/crypto/x509v3.rs:85-226 | a certificate's body is accepted iff it is such a TBS, an algorithm and a signature under the rules for a leaf or not |
| CertRules.CertificateRules | spdmlib/src/crypto/x509v3.rs:62-226 | in an accepted chain the last certificate has the expected OID from the content of both algorithm fields on, inside them or not, and a key usage it has ends in an octet with the highest bit set; no other one has an extended key usage with an authentication OID |
| CertRules.OnlyLeafOid | spdmlib/src/crypto/x509v3.rs:85-226 | outside a leaf the expected OID plays no part |
| CertRules.TbsAlgorithmInside | spdmlib/src/crypto/x509v3.rs:112-222 | in a TBS that OID lies inside its SEQUENCE, unless it has the octet 0x30 or 48 octets |
| CertRules.OidMayStraddle | spdmlib/src/crypto/x509v3.rs:203-222 | the check of an algorithm field takes an OID of which only the tag lies in the field |
| CertRules.OuterOidInsideIff | spdmlib/src/crypto/x509v3.rs:85-222 | in every accepted leaf the OID lies inside the outer algorithm field iff the length the field announces is at least that of the OID element |
| LeafRules.LeafUsageTests | spdmlib/src/crypto/x509v3.rs:160-177 | the leaf rule on a key usage tests the highest bit of its last octet: digitalSignature if there is one value octet, decipherOnly if there are two; it demands digitalSignature iff the first and the last value octet agree on that bit |
| LeafRules.LeafKeyUsage | spdmlib/src/crypto/x509v3.rs:112-201 | so for the key usage an accepted leaf lists: digitalSignature for sure with one value octet, with more iff the first and the last agree |
| LeafRules.LastCertificateKeyUsage | spdmlib/src/crypto/x509v3.rs:62-201 | the same of the last certificate of every accepted chain |
| LeafRules.AgreementPasses | spdmlib/src/crypto/x509v3.rs:450-466 | the key usage keyAgreement and decipherOnly, octets 07 08 80, lacks digitalSignature and passes the leaf rule |
| LeafRules.LeafWitness | spdmlib/src/crypto/x509v3.rs:62-226 | for every OID of suitable length a chain of one leaf with that key usage, and with an outer algorithm field that ends behind the tag of the OID, is accepted |
| LeafRules.LiteralLeaf | spdmlib/src/crypto/x509v3.rs:62-226 | the smallest of them, given by its 53 octets, is accepted |
| ObjectIdentifiers.ExtensionArcs | spdmlib/src/crypto/x509v3.rs:50-52 | the extension OIDs are 2.5.29.15, 2.5.29.17 and 2.5.29.37 |
| ObjectIdentifiers.SpdmArcs | spdmlib/src/crypto/x509v3.rs:38-49 | the SPDM OIDs are 1.3.6.1.4.1.412.274.1 to 6 |
| CertChain.FindOidSound | spdmlib/src/crypto/x509v3.rs:553-597 | an OID that is found is there as an element |
| CertChain.FindInExtensionsSound | spdmlib/src/crypto/x509v3.rs:602-739 | an OID found among the extensions is there as an element, behind the SPDM extension's OID |
| CertChain.KeyUsageSound | spdmlib/src/crypto/x509v3.rs:387-477 | a key usage that is found is the last octet of a BIT STRING behind a key usage OID |
| ExtensionLists.FindOidIff | spdmlib/src/crypto/x509v3.rs:553-597 | in an extension that lists OIDs, with or without a critical flag, the search finds one iff it is listed or is the extension's id |
| ExtensionLists.NoAuthListed | spdmlib/src/crypto/x509v3.rs:479-549 | outside a leaf no extended key usage extension lists an authentication OID |
| ExtensionLists.KeyUsageIff | spdmlib/src/crypto/x509v3.rs:387-477 | on a list of extensions the first key usage extension decides: the last octet of a BIT STRING, its length octet 0 if it is empty, not found if its value is another element or none is listed |
| ExtensionLists.FindInListIff | spdmlib/src/crypto/x509v3.rs:602-739 | on a list of extensions, each SPDM one with a non-empty list of OIDs, a target is found iff it is the first OID of an SPDM extension reached before one whose first OID has another length; it is an error iff such a one is reached first |
| ExtensionLists.SecondEntryMissed | spdmlib/src/crypto/x509v3.rs:680-735 | an OID listed second is not found: no, or an error if the first one has another length |
| CertWalkers.ObjectIdentifiersAreSame | spdmlib/src/crypto/x509v3.rs:828-840 | true iff the two are equal |
| CertWalkers.GetKeyUsageValue | spdmlib/src/crypto/x509v3.rs:387-477 | terminates on every input and computes the key usage search |
| CertWalkers.FindTargetObjectIdentifierInSingleExtension | spdmlib/src/crypto/x509v3.rs:553-597 | terminates on every input and computes the OID search |
| CertWalkers.FindTargetObjectIdentifierInExtensions | spdmlib/src/crypto/x509v3.rs:602-739 | terminates on every input and computes the search over extensions |
| CertWalkers.CheckExtensionsSpdmOid | spdmlib/src/crypto/x509v3.rs:479-549 | false iff an authentication OID is found outside a leaf, errors of every search included |
| CertWalkers.CheckTbsCertificate | spdmlib/src/crypto/x509v3.rs:112-201 | computes the TBS check |
| CertWalkers.CheckCertFormat | spdmlib/src/crypto/x509v3.rs:85-110 | computes the certificate check, with the leaf flag set iff nothing follows |
| CertWalkers.CheckCertChainFormat | spdmlib/src/crypto/x509v3.rs:62-83 | terminates on every input; Ok(n) iff n certificates tile the chain |
| CertWalkers.GetCertFromCertChain | spdmlib_crypto_mbedtls/src/cert_operation_impl.rs:16-43 | terminates on every input and computes the second walk |
| CertWalkers.WalkersAgree | spdmlib_crypto_mbedtls/src/cert_operation_impl.rs:16-43 | on an accepted chain of n, index i (or -1 for the last) is found iff it exists and lengths up to it are in two octets, and then it is segment i |
| EcdsaDer.IntegerBodyIsMinimal | spdmlib_crypto_mbedtls/src/asym_verify_impl.rs:131-163 | the content of each INTEGER is minimal, non-negative and has the value of its half |
| EcdsaDer.MinimalUnique | spdmlib_crypto_mbedtls/src/asym_verify_impl.rs:131-163 | minimal contents of a positive value are unique |
| EcdsaDer.SignatureIsTheDer | spdmlib_crypto_mbedtls/src/asym_verify_impl.rs:123-192 | the result is the one DER SEQUENCE of two INTEGERs with the values of the first and of the second half |
| EcdsaDer.FirstNonZero | spdmlib_crypto_mbedtls/src/asym_verify_impl.rs:132-150 | the number of leading zero octets |
| EcdsaDer.EccSignatureBinToDer | spdmlib_crypto_mbedtls/src/asym_verify_impl.rs:123-192 | writes that DER if it fits, in at most 104 octets; an all-zero half gives an empty result |
| KeySchedule.PrefixFree | spdmlib/src/common/key_schedule.rs:14-23 | whatever follows it, a label can be read back |
| KeySchedule.InfoInjective | spdmlib/src/common/key_schedule.rs:455-486 | no two derivations share an info string: length, version, label and context can be told from it |
| KeySchedule.InfoOctets | spdmlib/src/common/key_schedule.rs:455-486 | an info string by its octets: length lowest octet first, version, label, context |
| KeySchedule.VersionTexts | spdmlib/src/common/key_schedule.rs:466-476 | the version text is "spdm", the two digits with a dot between, and a space |
| KeySchedule.HandshakeLabels | spdmlib/src/common/key_schedule.rs:15-16 | the labels of the handshake secrets by their octets |
| KeySchedule.DataLabels | spdmlib/src/common/key_schedule.rs:17-18 | those of the data secrets |
| KeySchedule.KeyLabels | spdmlib/src/common/key_schedule.rs:14-21 | those of keys, initial vectors, finished keys and derived salts |
| KeySchedule.LateLabels | spdmlib/src/common/key_schedule.rs:22-23 | those of the exported master secret and of an update |
| KeySchedule.InfoFits | spdmlib/src/common/key_schedule.rs:12-26 | every label with a context of at most a hash fits the buffer |
| KeySchedule.BinConcat | spdmlib/src/common/key_schedule.rs:455-486 | gives the info string iff it fits the caller's buffer |
| ChunkTransfer.ParseWire | spdmlib/src/message/chunk_send.rs:25-122 | parsing a frame gives its fields and data back, for either width of the chunk number |
| ChunkTransfer.FrameOctets | spdmlib/src/message/chunk_send.rs:25-71 | every octet of a frame, for either width of the chunk number |
| ChunkTransfer.ParseIs | spdmlib/src/message/chunk_send.rs:73-100 | what any octets are parsed as, octet by octet |
| ChunkTransfer.SendReads | spdmlib/src/message/chunk_send.rs:73-122 | exactly when a CHUNK_SEND is read into a context in range, and the context after success and refusal |
| ChunkTransfer.ResponseReads | spdmlib/src/message/chunk_get.rs:116-158 | the same of a CHUNK_RESPONSE and any context |
| ChunkTransfer.FirstSend | spdmlib/src/responder/context.rs:900-933 | exactly when an idle responder takes a first CHUNK_SEND, what it then holds, and that its count is in range iff the chunk is no longer than the message |
| ChunkTransfer.NextSend | spdmlib/src/responder/context.rs:934-984 | exactly when a CHUNK_SEND is taken in a transfer, wrong handles, numbers and sizes included, and what the responder then holds |
| ChunkTransfer.SendRefusedWhileResponding | spdmlib/src/responder/context.rs:897-984 | a responder that is sending a large response refuses every CHUNK_SEND |
| ChunkTransfer.NextResponse | spdmlib/src/requester/context.rs:491-590 | exactly when a CHUNK_RESPONSE is taken, wrong handles, numbers and sizes included, and what the requester then holds |
| ChunkTransfer.FirstResponseLimits | spdmlib/src/requester/context.rs:491-590 | the limits of a first CHUNK_RESPONSE in numbers |
| ChunkTransfer.SendReassembles | spdmlib/src/message/chunk_send.rs:25-122 | a message in any split is taken whole iff the split respects the responder's limits, and then rebuilt exactly |
| ChunkTransfer.ResponseReassembles | spdmlib/src/message/chunk_get.rs:73-158 | a message in any split is taken whole iff the split respects the requester's limits, and then rebuilt exactly |
| ChunkTransfer.SplitPieces | spdmlib/src/requester/context.rs:627-655 | a sender's cut loses nothing, only its last piece may be short, and only it completes the message |
| ChunkTransfer.SplitFitsCounter | spdmlib/src/requester/context.rs:617-625 | a message needs no more chunks than there are numbers iff it is within the size limit |
| ChunkTransfer.LargeRequestArrives | spdmlib/src/requester/context.rs:617-690 | every large request within the sender's limit arrives whole at a responder whose frames are no smaller |
| ChunkTransfer.LargeResponseArrives | spdmlib/src/responder/context.rs:1182-1249 | every large response within the sender's limit arrives whole at the requester |
| ChunkTransfer.ReadsStayWithin | spdmlib/src/message/chunk_get.rs:116-158 | whatever is read, a chunk after the first writes nothing past the announced size; in a CHUNK_SEND iff the count was within it before |
| ChunkTransfer.ResponseKeepsRange | spdmlib/src/requester/context.rs:491-590 | a requester's count never exceeds the announced size |
| ChunkTransfer.SendKeepsRangeIff | spdmlib/src/responder/context.rs:900-984 | a responder's count stays within the announced size iff a first chunk is no longer than it |
| ChunkTransfer.FirstChunkLongerThanMessage | spdmlib/src/responder/context.rs:900-933 | a first chunk of 43 octets for a message of 42 is taken |
| ChunkTransfer.SendPanicsIff | spdmlib/src/responder/context.rs:897-901 | a responder in range panics iff it is idle and has read a chunk without a message size, and which frames those are |
| ChunkTransfer.SendPanicsOutOfRange | spdmlib/src/message/chunk_send.rs:102-112 | out of range it panics on every later chunk under overflow checks, and without them iff the data leaves the buffer |
| ChunkTransfer.EmptyLaterChunkPanics | spdmlib/src/responder/context.rs:897-901 | an idle responder panics on chunk 1 of no octets and refuses chunk 1 of one octet |
| ChunkObject.ChunkContext.constructor | spdmlib/src/common/mod.rs:2899-2909 | an idle, empty context |
| ChunkObject.ChunkContext.EncodeChunk | spdmlib/src/message/chunk_send.rs:25-71 | appends the frame with the next octets of the message and counts them as transferred, or as much of the fields as fits |
| ChunkObject.ChunkContext.ReadSendRequest | spdmlib/src/message/chunk_send.rs:73-122 | result and whole context after reading a CHUNK_SEND, failures and panics included |
| ChunkObject.ChunkContext.ReadChunkResponse | spdmlib/src/message/chunk_get.rs:116-158 | result and whole context after reading a CHUNK_RESPONSE, failures included |
| ChunkObject.ChunkContext.NextChunk | spdmlib/src/responder/context.rs:1205-1222 | the fields of the first piece of what is left |
| ChunkObject.ChunkContext.NextFrame | spdmlib/src/responder/context.rs:1205-1235 | the frame of the first piece of what is left |
| ChunkObject.ChunkContext.SendLargeRequest | spdmlib/src/requester/context.rs:607-690 | the frames of the whole split message, unless it needs more chunks than there are numbers |
| Transport.ReadDoeHeaderBack | pcidoe_transport/src/header.rs:54-96 | reading a DOE header gives the padded size back for every size up to the largest, which is written as 0 |
| Transport.FrameOctets | pcidoe_transport/src/header.rs:54-133 | when a frame fits the buffer, and every octet of it over MCTP and PCI DOE |
| Transport.DecapFrameIs | pcidoe_transport/src/header.rs:66-165 | exactly which octets a receiver takes as a frame over MCTP and PCI DOE, and what it makes of them |
| Transport.AppOctets | mctp_transport/src/header.rs:123-180 | the type octet of application messages, that no other is taken, and when they fit |
| Transport.FrameRoundTrip | pcidoe_transport/src/header.rs:103-165 | a frame gives its payload back, followed by at most three octets of padding, none over MCTP |
| Transport.AppRoundTrip | mctp_transport/src/header.rs:123-180 | application framing and its removal give the message and its kind back |
| Transport.OnlySecuredReach | spdmlib/src/common/mod.rs:1267-1316 | a frame that is not marked as secured, or is none, is refused and leaves the session as it is; any other goes to the session |
| Transport.SentSecured | spdmlib/src/common/mod.rs:1199-1240 | what is sent in a session is marked as secured |
| Transport.CounterOctets | spdmlib/src/common/session.rs:1357-1372 | a record is 26 octets longer than its message over MCTP and 24 over PCI DOE |
| Transport.SessionRoundTrip | spdmlib/src/common/session.rs:1183-1333 | a sealed message, padded or not, opens at the peer iff its framed length fits 16 bits |
| Transport.EndToEnd | spdmlib/src/common/mod.rs:1199-1316 | a message that leaves the transport overhead free passes every buffer check and reaches the peer unchanged over either transport, iff its framed length fits 16 bits; both counters move on together |
| TransportObject.EncapMctp | mctp_transport/src/header.rs:63-89 | the buffer holds the frame and is otherwise unchanged, or it is too small and holds the header if that fits |
| TransportObject.EncapDoe | pcidoe_transport/src/header.rs:103-133 | the buffer holds header and payload, the padding is what was there, or it is too small and holds as much of the header as fits |
| TransportObject.DecapMctp | mctp_transport/src/header.rs:91-121 | payload and kind of a received frame in the caller's buffer, or failure and an unchanged buffer |
| TransportObject.DecapDoe | pcidoe_transport/src/header.rs:135-165 | payload, padding included, and kind of a received frame in the caller's buffer, or failure and an unchanged buffer |
| TransportObject.EncapAppMessage | mctp_transport/src/header.rs:123-151 | the buffer holds the application frame and is otherwise unchanged, or it is too small and holds the header if that fits |
| TransportObject.DecapAppMessage | mctp_transport/src/header.rs:153-180 | the buffer holds the message and is otherwise unchanged, or failure and an unchanged buffer |
| TransportObject.EncodeSecuredMessage | spdmlib/src/common/mod.rs:1199-1240 | session and transport buffer after sending a message |
| TransportObject.DecodeSecuredMessage | spdmlib/src/common/mod.rs:1267-1316 | session and message buffer after receiving a frame |
| Measurement.ReadBlockFinds | spdmlib/src/common/spdm_codec.rs:293-420 | reading the octets of any block gives the block iff it is acceptable |
| Measurement.BlockReadIff | spdmlib/src/common/spdm_codec.rs:293-420 | every octet of a block, and exactly which blocks are read: by specification, size, digest size and the types that must be raw or a digest |
| Measurement.FoundWasThere | spdmlib/src/common/spdm_codec.rs:293-420 | whatever is read was there, octet for octet |
| Measurement.ReadsJoined | spdmlib/src/common/spdm_codec.rs:83-105 | well-formed blocks one after another are read back |
| Measurement.RejectsIllFormed | spdmlib/src/common/spdm_codec.rs:83-105 | any other blocks one after another are rejected |
| Measurement.RecordAcceptedIff | spdmlib/src/common/spdm_codec.rs:83-161 | a record is accepted as these blocks iff it is the octets of that many acceptable blocks with strictly increasing non-zero indexes and nothing more |
| Measurement.RecordLayout | spdmlib/src/common/spdm_codec.rs:108-131 | number of blocks, length in three octets and data |
| Measurement.RecordRoundTrip | spdmlib/src/common/spdm_codec.rs:108-161 | encoding any list of blocks and reading it gives the list back iff it is well formed and within the limit |
| MeasurementReader.ReadMeasurement | spdmlib/src/common/spdm_codec.rs:293-369 | the measurement at the reader's offset, or none |
| MeasurementReader.ReadMeasurementBlock | spdmlib/src/common/spdm_codec.rs:396-420 | the block at the reader's offset, and where the reader stops |
| MeasurementReader.VerifyMeasurementRecord | spdmlib/src/common/spdm_codec.rs:83-105 | true iff the data is n blocks in order and nothing more |
| MeasurementReader.ReadMeasurementRecord | spdmlib/src/common/spdm_codec.rs:133-161 | number and data of the record at the reader's offset, if it verifies |
| MeasurementReader.EncodeBlock | spdmlib/src/common/spdm_codec.rs:372-395 | appends the octets of the block, or as many as fit, a size field whole or not at all; success iff all fit |
| MeasurementReader.EncodeMeasurement | spdmlib/src/common/spdm_codec.rs:268-292 | the same of the measurement inside |

## Left out

- Cryptographic primitives, random numbers and key derivation: parameters, as said above. How a handshake derives its keys (`generate_handshake_secret`, `generate_data_secret`) is not modelled, only that keys and secrets are installed.
- Message handlers of requester and responder, except the steps of key update, of opening a session and of chunk transfer that the results need. Dispatch of a reassembled request and acknowledgement frames are not modelled.
- Clearing of K and F in the runs of `IncrementalRefinesRaw`: `reset_message_k` clears the F messages in the raw build and drops the whole context in the other, so the two builds disagree after it; `ClearingKAgreesIff` says when.
- Direct setters of counters and secrets, export and import of contexts, and the 1.2 signing prefix: they would add only easy members.
- Non-zero PCI DOE connection ids: the source only sends 0.
- Certificate checks of root and leaf outside the chain walk (`is_root_certificate`, `check_leaf_certificate`), and the OID chosen for an algorithm, which is a parameter.
- TDISP, IDE_KM, vendor-defined messages, asynchronous execution, locks and device I/O.
- DerivedKeys.NoReuseAcrossUpdates: its condition on installations is sufficient and cannot be dropped (`SecretAgainRepeats`); exactly which installations outside it repeat a key depends on the derivation and is not characterised.
- PendingChannel.BothKeysDeliverInOrder: runs end at the commit of the update; rolling it back, which puts one key in both places, is not among the events.
- ExtensionLists.FindInListIff: an SPDM extension without any OID, which SPDM does not allow, and a critical flag of other than one octet are not covered.
- NonceRuns.UnsafeRollbackRepeats: for an endpoint that encodes in one direction and decodes in the other, as both roles do; a session that also decodes its own direction can move a backup's counter past a use.
- TranscriptObject.RawTranscript.AppendMessageM: per-session buffers are entries of a map, not arrays inside session objects.
- ChunkObject.ChunkContext.SendLargeRequest: every chunk is taken to be acknowledged; acknowledgements that report an early error or a large response end the source's loop sooner.
- ChunkTransfer.SendReassembles: chunk counts beyond the width of the chunk number are not covered, as the counter then wraps on the wire.
- Transport.EndToEnd: the source copies a PCI DOE message into the caller's buffer without comparing sizes, so the buffer is required to be large enough, and it panics on data objects beyond 2^18 words, which are excluded.
- CertWalkers.CheckTbsCertificate: bounds that the source checks again after reading a length are not repeated, since the length check already gives them.
