# BalanceChain HSN core, in Dafny

This project models the core of the BalanceChain HSN browser messenger. A device owns an
identity (HIK): an ECDSA signing pair, an ECDH pair and their fingerprint `hikHash`. Every chat message is a signed state transition (STA) linked by
`prev_state_hash` to the head of the local chain. Receiving a message means validating the
STA and appending it. Validation checks four things in order: the signature, continuity with
the chain head, a strictly later timestamp, and an unseen nonce. A valid STA is written to
three IndexedDB stores in one transaction: the chain, the sync log and the message projection.

Sending queues the STA in the outbox before any network attempt. The send path then tries
the direct WebRTC channel and, when that fails, the relay (transit gateway). The outbox
entry goes only when a transport reports success. Polling the relay appends each fetched
envelope and deletes from the relay exactly the envelopes that were appended.

Layout, one module per source file:

- `crypto.dfy` (`Crypto`): the primitives the core calls but does not define. These are
  canonical serialisation, `JSON.stringify`, SHA-256, ECDSA sign and verify, and JWK export
  and import. All of them are function-typed fields of one `Primitives` value, so every
  operation takes them as a parameter. Three named assumptions stand for what the
  cryptography provides: `CanonicalByMeaning`, `Sha256Sized` and `SignatureScheme`.
  `canonicalize` itself (`src/core/canonicalize.ts`) is not part of this model; its assumed
  contract is that two values get the same canonical string exactly when they have the same
  `Meaning`, a value in which an object is the map from its member names to their values.
- `hash.dfy` (`Hash`): `hashString`, with the hex encoding modelled exactly and the digest abstract.
- `records.dfy` (`Records`): STA, HIK and message rows, and the JSON record that is signed.
- `storage.dfy` (`Storage`):
  - the seven-store layout;
  - the upgrade step of `initDB`;
  - a `Database` class whose fields are the stores.
- `state.dfy` (`State`):
  - `createSTA`, `validateSTA`, `appendSTA` and `getChainHeadHash`;
  - the chain invariant `WellFormed` and the lemmas built on it;
  - the replay scenario of the security test.
- `identity.dfy` (`Identity`): `initHIK`.
- `fallback.dfy` (`Fallback`): `mustTransitBase`, `sendToTransit` and `pollTransit`.
- `app.dfy` (`App`): `envSignalNodes`, `updatePending`, `deleteFromOutbox` and `sendSTA`,
  the last three as methods of a `ChatApp` class that holds the component's state.

The clock (`Date.now()`), `crypto.randomUUID()` and freshly generated key pairs are
parameters. So is every network outcome:
- the HRD query result;
- whether the data channel opens;
- the `ok` of each response;
- the poll response body.

Whether an IndexedDB transaction commits is a boolean parameter too.

Where the system's documented design and the code differ, the model follows the code:

- **The fingerprint.** It is the hash of `JSON.stringify({ s, d })` over the exported JWKs,
  not of a canonical serialisation (`Identity.Fingerprint`).
- **The timestamp.** It is `Math.floor(Date.now() / 1000)`, in whole seconds.
- **Chain-head scoping.** `getChainHeadHash` reads the whole local chain. The counterparty
  fingerprint only salts the genesis hash of an empty chain (`State.HeadSalt`).
- **When a transport is tried.** Nothing is tried without a signalling client. The relay is
  tried only when an HRD came back and the direct channel failed.
- **A duplicate outbox nonce.** The outbox `add` fails, the awaited `oncomplete` never fires,
  and `sendSTA` never resumes (`EnqueueStalled`). The error is not caught and logged.
- **The relay gateway.** A configured base loses one trailing slash in `mustTransitBase` and
  a possible second one when it is used as the gateway
  (`Fallback.DefaultGatewayStrippedTwice`).

## Model

| member | source | states |
|---|---|---|
| Hash.ToString16 | src/core/hash.ts:4 | `toString(16)` of a byte: lowercase hex digits with no leading zero, one below 16 and two from 16 on, whose values read back as the byte |
| Hash.PadStart2 | src/core/hash.ts:4 | `padStart(2, '0')`: the input kept as the suffix, zeros in front up to length 2, a longer input unchanged |
| Hash.ByteToHex | src/core/hash.ts:4 | one byte becomes exactly two hex digits whose values are its high and low nibble |
| Hash.ByteToHexPadded | src/core/hash.ts:4 | the two digits are exactly `b.toString(16).padStart(2, '0')` |
| Hash.Hex | src/core/hash.ts:4 | the encoding has two characters per byte |
| Hash.HexAt | src/core/hash.ts:4 | byte i of the digest is written at characters 2i and 2i+1, in byte order |
| Hash.HexLowercase | src/core/hash.ts:4 | every character of the encoding is a lowercase hex digit |
| Hash.UnhexHex | src/core/hash.ts:4 | decoding the hex string recovers the digest bytes (round trip) |
| Hash.HexInjective | src/core/hash.ts:4 | distinct byte strings give distinct hex strings |
| Hash.HashString | src/core/hash.ts:1-5 | the hash is twice as long as the digest and decodes back to it |
| Hash.HashStringLength | src/core/hash.ts:3-4 | with a 32-byte SHA-256 digest every hash string has 64 characters |
| Hash.HashStringEqual | src/core/hash.ts:1-5 | two inputs hash to the same string exactly when their digests agree |
| Records.UnsignedJsonEqual | src/core/state.ts:58-59 | two STAs have the same signed record exactly when they agree on every field except the signature |
| Records.UnsignedJsonMeaning | src/core/state.ts:58-59 | the signed record `rest` means its seven fields under their own names, the payload by its meaning |
| Records.UnsignedMeaningEqual | src/core/state.ts:58-59 | two signed records mean the same exactly when the STAs agree on every field except signature and payload and their payloads mean the same |
| Crypto.MemberOrderIrrelevant | src/core/state.ts:1 | exchanging two adjacent, differently named members at any position of an object of any size does not change what it means, hence not its canonical form; any reordering of distinct names is a chain of such exchanges |
| Storage.StoreNamesDistinct | src/core/storage.ts:1-9 | the seven store names are pairwise distinct |
| Storage.StoreLayout | src/core/storage.ts:1-9 | seven stores; key path `nonce` exactly for outbox and sync log; key generator exactly for chain, messages, proofs and inbox |
| Storage.AddMissing | src/core/storage.ts:16-18 | after the upgrade loop the schema holds the old names plus the layout's names, and existing stores keep their options |
| Storage.AddMissingOptions | src/core/storage.ts:16-18 | with distinct names, each store that was missing gets exactly the options of its layout entry |
| Storage.ClearStores | src/core/storage.ts:17 | each of the seven stores is empty when its name is in the set and kept as it was when it is not |
| Storage.Database.constructor | src/core/storage.ts:13 | a database opened for the first time has no stores and no rows |
| Storage.Database.CreateObjectStore | src/core/storage.ts:17 | adds the name with its options and leaves that store empty, all others unchanged |
| Storage.Database.CreateMissingStores | src/core/storage.ts:16-18 | the loop's schema is `AddMissing` of the old one; exactly the newly created stores are emptied |
| Storage.Database.UpgradeNeeded | src/core/storage.ts:14-19 | every missing store of the layout is created with its options; existing stores keep their options and rows |
| Storage.Database.OutboxAdd | src/App.tsx:72-74 | the add succeeds exactly when no entry sits under the STA's nonce, and then files it under that nonce; the key-path invariant is kept |
| Storage.Database.OutboxDelete | src/App.tsx:60-64 | exactly the entry under the nonce goes; deleting an absent nonce changes nothing |
| State.ChainHeadHash | src/core/state.ts:72-82 | the head decodes to the digest of `genesis:` + salt on an empty chain, else to the digest of the last entry's canonical form; 64 characters with SHA-256 |
| State.LastTimestamp | src/core/state.ts:84-92 | 0 on an empty chain, else the last entry's timestamp; on an increasing chain it is non-negative and no entry's timestamp exceeds it |
| State.NonceExistsInChain | src/core/state.ts:94-101 | under the chain invariant a sync-log record sits under a nonce exactly when some chain entry carries it |
| State.SignatureValidExactly | src/core/state.ts:57-60 | under the signature assumption a signature verifies exactly when the private key made it over the canonical unsigned fields |
| State.ValidateSTA | src/core/state.ts:57-70 | rejects on a bad signature, a wrong `prev_state_hash`, a timestamp not after the last one, or a seen nonce; accepts when all four checks pass |
| State.CreateSTA | src/core/state.ts:17-27 | the STA is from the identity's `hikHash`, linked to the head salted with `to`, stamped in seconds, carries the nonce, and is signed over its unsigned fields |
| State.CreatedInSeconds | src/core/state.ts:19 | the timestamp t satisfies t·1000 ≤ now < (t+1)·1000 |
| State.InterpretSTA | src/core/state.ts:51-55 | a `chat.append` STA projects exactly one row carrying its payload, from, to, timestamp and nonce; other types project none |
| State.Appended | src/core/state.ts:32-36 | a committed append adds the STA to the chain, its `{nonce, timestamp}` to the sync log and its projection to the messages, and keeps every other sync-log record |
| State.AppendSTA | src/core/state.ts:29-47 | returns true exactly when validation passes and the transaction commits; then all three stores are written, otherwise none is |
| State.EmptyWellFormed | src/core/state.ts:72-82 | the empty stores satisfy the chain invariant |
| State.AppendKeepsWellFormed | src/core/state.ts:29-70 | appending a validated STA keeps the invariant: linked, increasing, distinct nonces, exact sync log, projected messages |
| State.AppendKeepsReplayRecord | src/core/state.ts:34-35 | after an append the sync log is still exactly the chain's nonces with their timestamps, and nonces stay distinct |
| State.AppendKeepsProjection | src/core/state.ts:51-55 | the message table stays the projection of the chain |
| State.AppendKeepsLinked | src/core/state.ts:62-63 | an STA that passed the continuity check keeps every entry linked to the head before it |
| State.AppendKeepsIncreasing | src/core/state.ts:65-66 | an STA that passed the ordering check keeps timestamps strictly increasing |
| State.ChainEntriesRejected | src/core/state.ts:57-70 | no STA already in a well-formed chain passes validation again, under any key |
| State.ReplayRejected | src/core/state.ts:68 | once an STA is appended, the identical record fails validation |
| State.StaleTimestampRejected | src/core/state.ts:65-66 | an STA stamped no later than the last appended one is rejected whatever else holds |
| State.HeadAfterAppend | src/core/state.ts:79-81 | after an append the head is the hash of the appended STA's canonical form, whatever the salt |
| State.HeadSalt | src/core/state.ts:72-82 | on a non-empty chain the salt is irrelevant; on an empty chain the head is the hash of `genesis:` + salt |
| State.TamperDetected | src/core/state.ts:58-60 | changing what the signed record of a validly signed STA means while keeping its signature, or changing only its signature, makes validation fail |
| State.SameMeaningVerifies | src/core/state.ts:58-60 | a record that means the same as a validly signed one (payload members reordered, say) keeps a signature that verifies |
| State.FieldChangeDetected | src/core/state.ts:58-60 | changing any field other than the payload while keeping the signature makes validation fail |
| State.CreatedAccepted | src/core/state.ts:17-27 | a freshly created STA passes validation on the chain it was built on when its second is later and its nonce unseen |
| State.ReplayScenario | src/tests/security.spec.ts:8-19 | on an empty database the first append succeeds and projects one message with the text; the replay fails |
| Identity.Fingerprint | src/core/identity.ts:26-29 | the `hikHash` decodes to the digest of `JSON.stringify({ s, d })` over the exported public keys, is lowercase hex, and has 64 characters with SHA-256 |
| Identity.InitHIK | src/core/identity.ts:12-46 | returns the stored identity when key 1 reads back; otherwise the new identity with its fingerprint, written at key 1; a failed put fails the call and writes nothing |
| Identity.InitHIKTwice | src/core/identity.ts:16-21 | two calls in sequence return the same identity, the one stored at key 1 |
| Fallback.StripTrailingSlash | src/transport/fallback.ts:7 | removes one trailing slash if and only if there is one |
| Fallback.StripOnlyOne | src/transport/fallback.ts:7 | a URL ending in two slashes keeps one |
| Fallback.MustTransitBase | src/transport/fallback.ts:4-8 | fails exactly when the base is unset or empty; otherwise the base with at most one trailing slash removed |
| Fallback.TransitGateway | src/transport/fallback.ts:31 | the HRD's non-empty `transit_gateway`, else the base, with one trailing slash removed |
| Fallback.TransitTtl | src/transport/fallback.ts:32 | the HRD's `ttl_seconds` whenever present (0 included), else 300 |
| Fallback.SendToTransit | src/transport/fallback.ts:29-40 | fails exactly when no base is configured; otherwise a PUT to the chosen gateway for `sta.to` with the chosen TTL and body `{sta, senderSignPublicJwk}` |
| Fallback.DefaultGatewayStrippedTwice | src/transport/fallback.ts:30-31 | without an HRD gateway the configured base passes through slash stripping twice |
| Fallback.Processed | src/transport/fallback.ts:17-26 | the loop stops at the first envelope that throws, and runs to the end when none does |
| Fallback.PollTransit | src/transport/fallback.ts:11-27 | fails without a base and issues nothing; a throwing poll fetch fails after issuing only the poll; a poll answered not ok issues only the poll and completes; otherwise the stores become the in-order appends of the envelopes before the first one that throws, one delete follows per appended envelope, and the call fails exactly when an envelope threw |
| Fallback.PollChainGrowth | src/transport/fallback.ts:17-26 | a poll grows the chain by exactly the appended envelopes' STAs, in order |
| Fallback.PollKeepsWellFormed | src/transport/fallback.ts:17-26 | a poll keeps the chain invariant |
| Fallback.DeletesExactlyAppended | src/transport/fallback.ts:22-25 | a relay delete is issued for an id if and only if an envelope with that id was appended |
| Fallback.DeleteCount | src/transport/fallback.ts:22-25 | the poll issues one delete per appended envelope and nothing else |
| App.TrimStart | src/App.tsx:12 | a suffix of the input that is empty or starts with a non-whitespace character |
| App.TrimStartDropsWhitespace | src/App.tsx:12 | everything removed in front is whitespace |
| App.TrimEnd | src/App.tsx:12 | a prefix of the input that is empty or ends with a non-whitespace character |
| App.TrimEndDropsWhitespace | src/App.tsx:12 | everything removed at the end is whitespace |
| App.Trim | src/App.tsx:12 | the result is a slice of the input that neither starts nor ends with whitespace |
| App.TrimRemovesWhitespace | src/App.tsx:12 | everything trimmed off on either side is ECMAScript whitespace |
| App.TrimKeeps | src/App.tsx:14 | a string that neither starts nor ends with whitespace is its own trim |
| App.Split | src/App.tsx:14 | at least one field |
| App.SplitCommaFree | src/App.tsx:14 | no field contains a comma |
| App.SplitAppend | src/App.tsx:14 | splitting `a,b` gives the fields of `a` followed by those of `b` |
| App.SplitSuffix | src/App.tsx:14 | a comma-free suffix only extends the last field |
| App.JoinSplit | src/App.tsx:14 | joining the fields with commas gives back the input |
| App.SplitJoin | src/App.tsx:14 | joining comma-free fields and splitting again gives the fields back |
| App.TrimEach | src/App.tsx:14 | field i of the result is the trim of field i |
| App.TrimEachAppend | src/App.tsx:14 | trimming every field distributes over concatenation |
| App.NonEmpty | src/App.tsx:14 | no empty string is left; every other string keeps its number of occurrences, so exactly the non-empty strings remain |
| App.NonEmptyAppend | src/App.tsx:14 | filtering distributes over concatenation, so the kept strings stay in their order |
| App.EnvSignalNodes | src/App.tsx:11-15 | no nodes when the setting is missing or blank; every node is non-empty, comma-free and trimmed; the trim of every non-blank field of the trimmed setting is a node |
| App.TrimPadStart | src/App.tsx:12 | whitespace in front of a string does not change its trim |
| App.TrimPadEnd | src/App.tsx:12 | whitespace after a string does not change its trim |
| App.FieldsOfTrim | src/App.tsx:12-14 | trimming the whole setting before splitting leaves the trimmed fields as they were |
| App.EnvSignalNodesFields | src/App.tsx:11-15 | for any setting, padded or not, the nodes are its fields trimmed with the empty ones dropped, in order |
| App.EnvSignalNodesConcat | src/App.tsx:11-15 | the nodes of `a,b` are the nodes of `a` followed by those of `b` |
| App.EnvSignalNodesOfJoin | src/App.tsx:11-15 | a list of well-formed nodes joined with commas parses back to the same list |
| App.DirectSend | src/transport/direct.ts:4-27 | delivers exactly when the HRD advertises `webrtc` and the channel opens |
| App.ChatApp.constructor | src/App.tsx:18-22 | no database, no identity, no signalling, pending count 0 |
| App.ChatApp.UpdatePending | src/App.tsx:51-58 | the pending count becomes the number of outbox entries |
| App.ChatApp.DeleteFromOutbox | src/App.tsx:60-64 | only the entry under the nonce is removed; an absent nonce changes nothing |
| App.ChatApp.SendSTA | src/App.tsx:66-97 | no effect before the database and identity exist; otherwise the STA is queued before any network step (the network step requires the entry in the outbox), the events follow query, direct, relay in order, and the entry leaves the outbox exactly when a transport delivered; only the outbox changes |
| App.ChatApp.SendWith | src/App.tsx:69-93 | a duplicate nonce stalls the send with the outbox unchanged; otherwise queue, then attempt only with the entry in the outbox, and dequeue on success, the pending count matching the outbox |
| App.ChatApp.TryDeliver | src/App.tsx:77-88 | callable only once the STA is in the outbox; success exactly when the direct channel delivered, or the relay was tried and answered ok; the attempts are made in order |

## Left out

- The cryptography itself: ECDSA, ECDH, SHA-256, JWK export and import, and the canonical
  serialiser are abstract function values. The assumptions about them are named predicates,
  required where used.
- Signature randomness: WebCrypto ECDSA signatures are randomised. `SignatureScheme` treats
  the signature of a message as one value: exactly one signature verifies per message, and
  distinct messages get distinct signatures. `State.TamperDetected` relies on this for the
  case where only the signature changes.
- Base64 decoding in `verify`: a malformed signature makes `atob` throw, which rejects the
  validation promise. `State.ValidateSTA` and `State.AppendSTA` treat it as a failed
  verification; the poll loop models the throw itself (see `Fallback.PollTransit` below).
- `State.AppendSTA`: IndexedDB transaction scheduling is left out, and so is the gap between
  the reads of `validateSTA` and the append transaction. Whether the transaction commits is a
  parameter, and an uncommitted transaction leaves all three stores as they were. A sync-log
  `add` that fails on a duplicate key is covered by that parameter.
- `Identity.InitHIK`: two concurrent calls are not modelled (the source does not serialise
  them). Neither is the transaction auto-committing across the key-generation awaits. A key
  generation or export that throws is not modelled.
- `Fallback.PollTransit`: an envelope whose `importKey` or `appendSTA` throws is a parameter
  (`throwsAt`); `appendSTA` throws when `atob` rejects a malformed signature or a read of the
  stores errors, and that envelope then changes nothing. A throwing poll `fetch` is modelled
  (`pollOk` is `None`). A throwing delete `fetch` and a
  response body that is not a list are not modelled. A failed delete response is not
  distinguished from a successful one, as in the source.
- `App.ChatApp.SendSTA`: a throwing `exportKey` or `fetch` in the relay attempt is modelled
  as the relay reporting no success (`uploadOk` is `None`). A rejection of `queryHRD`, or of
  the direct transport (the `RTCPeerConnection` and signalling calls inside its promise), is
  not modelled.
- Records.STA: a relay envelope's `sta` is a typed record of exactly eight fields. An
  envelope carrying extra fields, which the `...rest` spread in `validateSTA` would include
  in the canonical signed record, cannot be represented.
- The signalling client (`signal.ts`), the WebRTC session, timers, the service worker, the
  React components and effects, online/offline tracking and `transportReady` are not part of
  this model. So is the UI (`ui/`).
- `Storage.initDB` beyond the upgrade step: opening and version numbers are not modelled.
- The proofs and inbox stores exist in the layout and are never written by the core. The
  model carries them so that the upgrade step can be stated, and nothing writes them.
- Message rows spread the payload's fields next to `_from`, `_to`, `_ts` and `_nonce`. The
  model keeps the payload as one field of the row.
- Numbers are unbounded integers: JavaScript doubles, and timestamps beyond 2^53, are not modelled.
