/**
 * The state-transition chain engine: building a signed STA on top of the current chain
 * head, validating an incoming STA (signature, continuity, ordering, replay), and
 * appending it to the chain, the sync log and the message projection in one transaction.
 */
module State {
  import opened Wrappers
  import opened Crypto
  import opened Hash
  import opened Records
  import opened Storage

  const CHAT_APPEND := "chat.append"

  /**
   * `getChainHeadHash`: the hash of the genesis string salted with `genesisSalt` while the
   * chain is empty, otherwise the hash of the canonical form of the last stored STA. The
   * whole shared chain is read; the salt matters only for the empty chain.
   */
  function ChainHeadHash(p: Primitives, chain: seq<STA>, genesisSalt: string): (h: string)
    ensures |chain| == 0 ==> Unhex(h) == Some(p.digest("genesis:" + genesisSalt))
    ensures |chain| > 0 ==> Unhex(h) == Some(p.digest(p.canonicalize(StaJson(chain[|chain| - 1]))))
    ensures Sha256Sized(p) ==> |h| == 64
  {
    if |chain| == 0 then HashString(p, "genesis:" + genesisSalt)
    else HashString(p, p.canonicalize(StaJson(chain[|chain| - 1])))
  }

  /**
   * `getLastTimestamp`: the timestamp of the last chain entry, 0 for an empty chain; on an
   * increasing chain that is the largest timestamp.
   */
  function LastTimestamp(chain: seq<STA>): (t: int)
    ensures |chain| == 0 ==> t == 0
    ensures |chain| > 0 ==> t == chain[|chain| - 1].timestamp
    ensures Increasing(chain) ==> t >= 0 && forall i :: 0 <= i < |chain| ==> chain[i].timestamp <= t
  {
    if |chain| == 0 then 0 else chain[|chain| - 1].timestamp
  }

  /** `nonceExists`: a sync-log record sits under the nonce. */
  predicate NonceExists(syncLog: map<string, int>, nonce: string)
  {
    nonce in syncLog
  }

  /** The signature verifies over the canonical form of every field but `signature`. */
  predicate SignatureValid(p: Primitives, sta: STA, senderSignPublicKey: CryptoKey)
  {
    p.verify(senderSignPublicKey, sta.signature, p.canonicalize(UnsignedJson(sta)))
  }

  /**
   * `validateSTA`: four checks in order, the first failure deciding. It only reads the
   * chain and the sync log.
   */
  function ValidateSTA(p: Primitives, l: Ledger, sta: STA, senderSignPublicKey: CryptoKey): (ok: bool)
    ensures !SignatureValid(p, sta, senderSignPublicKey) ==> !ok
    ensures sta.prevStateHash != ChainHeadHash(p, l.chain, sta.to) ==> !ok
    ensures sta.timestamp <= LastTimestamp(l.chain) ==> !ok
    ensures NonceExists(l.syncLog, sta.nonce) ==> !ok
    ensures (&& SignatureValid(p, sta, senderSignPublicKey)
             && sta.prevStateHash == ChainHeadHash(p, l.chain, sta.to)
             && sta.timestamp > LastTimestamp(l.chain)
             && !NonceExists(l.syncLog, sta.nonce)) ==> ok
  {
    if !SignatureValid(p, sta, senderSignPublicKey) then false
    else if sta.prevStateHash != ChainHeadHash(p, l.chain, sta.to) then false
    else if sta.timestamp <= LastTimestamp(l.chain) then false
    else if NonceExists(l.syncLog, sta.nonce) then false
    else true
  }

  /**
   * `createSTA`: an STA from the local identity to `to`, linked to the current head (salted
   * with `to`), stamped with the current second, carrying a fresh nonce, and signed over its
   * unsigned fields. `now` stands for `Date.now()` (milliseconds), `nonce` for `crypto.randomUUID()`.
   */
  function CreateSTA(p: Primitives, chain: seq<STA>, hik: Hik, kind: string, to: string, payload: Json, now: nat, nonce: string): (sta: STA)
    ensures sta.kind == kind && sta.from == hik.hikHash && sta.to == to && sta.payload == payload
    ensures sta.prevStateHash == ChainHeadHash(p, chain, to)
    ensures sta.timestamp == now / 1000
    ensures sta.nonce == nonce
    ensures sta.signature == p.sign(hik.signPrivateKey, p.canonicalize(UnsignedJson(sta)))
  {
    var unsigned := STA(kind, hik.hikHash, to, payload, ChainHeadHash(p, chain, to), now / 1000, nonce, "");
    unsigned.(signature := p.sign(hik.signPrivateKey, p.canonicalize(UnsignedJson(unsigned))))
  }

  /** The timestamp is the clock reading in whole seconds, rounded down. */
  lemma CreatedInSeconds(p: Primitives, chain: seq<STA>, hik: Hik, kind: string, to: string, payload: Json, now: nat, nonce: string)
    ensures var t := CreateSTA(p, chain, hik, kind, to, payload, now, nonce).timestamp;
      t >= 0 && t * 1000 <= now < (t + 1) * 1000
  {
  }

  /** `interpretSTA`: a `chat.append` STA projects one message row; any other type projects none. */
  function InterpretSTA(sta: STA): (rows: seq<Message>)
    ensures |rows| == (if sta.kind == CHAT_APPEND then 1 else 0)
    ensures forall m :: m in rows ==> m == Message(sta.payload, sta.from, sta.to, sta.timestamp, sta.nonce)
  {
    if sta.kind == CHAT_APPEND then [Message(sta.payload, sta.from, sta.to, sta.timestamp, sta.nonce)] else []
  }

  /** The three stores after a committed append of `sta`. */
  function Appended(l: Ledger, sta: STA): (r: Ledger)
    ensures r.chain == l.chain + [sta]
    ensures r.syncLog.Keys == l.syncLog.Keys + {sta.nonce} && r.syncLog[sta.nonce] == sta.timestamp
    ensures forall n :: n in l.syncLog && n != sta.nonce ==> r.syncLog[n] == l.syncLog[n]
    ensures r.messages == l.messages + InterpretSTA(sta)
  {
    Ledger(l.chain + [sta], l.syncLog[sta.nonce := sta.timestamp], l.messages + InterpretSTA(sta))
  }

  /**
   * `appendSTA`: validate, then write chain, sync log and message projection in one
   * transaction. `committed` is whether that transaction completes; when it errors or
   * aborts, none of the three writes is kept.
   */
  method AppendSTA(db: Database, p: Primitives, sta: STA, senderSignPublicKey: CryptoKey, committed: bool) returns (ok: bool)
    modifies db`chain, db`syncLog, db`messages
    ensures ok <==> ValidateSTA(p, old(db.LedgerView()), sta, senderSignPublicKey) && committed
    ensures db.LedgerView() == if ok then Appended(old(db.LedgerView()), sta) else old(db.LedgerView())
  {
    if !ValidateSTA(p, db.LedgerView(), sta, senderSignPublicKey) {
      return false;
    }
    var chain := db.chain + [sta];
    var syncLog := db.syncLog[sta.nonce := sta.timestamp];
    var messages := db.messages + InterpretSTA(sta);
    if committed {
      db.chain, db.syncLog, db.messages := chain, syncLog, messages;
      ok := true;
    } else {
      ok := false;
    }
  }

  // ---------------------------------------------------------------------------------
  // The chain invariant and what it buys

  /** The message rows the chain projects, in chain order. */
  function Projection(chain: seq<STA>): seq<Message>
  {
    if chain == [] then [] else Projection(chain[..|chain| - 1]) + InterpretSTA(chain[|chain| - 1])
  }

  function Nonces(chain: seq<STA>): set<string>
  {
    set i | 0 <= i < |chain| :: chain[i].nonce
  }

  /** Each entry links to the head computed just before it: genesis salted with its own `to` for the first, the previous entry after that. */
  ghost predicate Linked(p: Primitives, chain: seq<STA>)
  {
    && (|chain| > 0 ==> chain[0].prevStateHash == HashString(p, "genesis:" + chain[0].to))
    && (forall i :: 0 < i < |chain| ==> chain[i].prevStateHash == HashString(p, p.canonicalize(StaJson(chain[i - 1]))))
  }

  /** Timestamps are positive and strictly increasing along the chain. */
  ghost predicate Increasing(chain: seq<STA>)
  {
    && (|chain| > 0 ==> chain[0].timestamp > 0)
    && (forall i, j :: 0 <= i < j < |chain| ==> chain[i].timestamp < chain[j].timestamp)
  }

  /**
   * The invariant every append keeps: the chain is linked and increasing, its nonces are
   * distinct, the sync log holds exactly its `{nonce, timestamp}` pairs, and the messages
   * table is its projection.
   */
  ghost predicate WellFormed(p: Primitives, l: Ledger)
  {
    && Linked(p, l.chain)
    && Increasing(l.chain)
    && (forall i, j :: 0 <= i < j < |l.chain| ==> l.chain[i].nonce != l.chain[j].nonce)
    && l.syncLog.Keys == Nonces(l.chain)
    && (forall i :: 0 <= i < |l.chain| ==> l.syncLog[l.chain[i].nonce] == l.chain[i].timestamp)
    && l.messages == Projection(l.chain)
  }

  /** The empty stores created by `initDB` satisfy the invariant. */
  lemma EmptyWellFormed(p: Primitives)
    ensures WellFormed(p, Ledger([], map[], []))
  {
    assert Nonces([]) == {};
  }

  /** Appending an STA that passed validation keeps the invariant. */
  lemma AppendKeepsWellFormed(p: Primitives, l: Ledger, sta: STA, key: CryptoKey)
    requires WellFormed(p, l)
    requires ValidateSTA(p, l, sta, key)
    ensures WellFormed(p, Appended(l, sta))
  {
    AppendKeepsLinked(p, l.chain, sta);
    AppendKeepsIncreasing(l.chain, sta);
    AppendKeepsReplayRecord(l.chain, l.syncLog, sta);
    AppendKeepsProjection(l.chain, sta);
  }

  /** The sync log stays the exact record of the chain's nonces and timestamps. */
  lemma AppendKeepsReplayRecord(chain: seq<STA>, syncLog: map<string, int>, sta: STA)
    requires forall i, j :: 0 <= i < j < |chain| ==> chain[i].nonce != chain[j].nonce
    requires syncLog.Keys == Nonces(chain)
    requires forall i :: 0 <= i < |chain| ==> syncLog[chain[i].nonce] == chain[i].timestamp
    requires sta.nonce !in syncLog
    ensures var c, log := chain + [sta], syncLog[sta.nonce := sta.timestamp];
      && (forall i, j :: 0 <= i < j < |c| ==> c[i].nonce != c[j].nonce)
      && log.Keys == Nonces(c)
      && (forall i :: 0 <= i < |c| ==> log[c[i].nonce] == c[i].timestamp)
  {
    var c, log := chain + [sta], syncLog[sta.nonce := sta.timestamp];
    var n := |chain|;
    AppendNonces(chain, sta);
    forall i | 0 <= i < n ensures chain[i].nonce != sta.nonce {
      assert chain[i].nonce in Nonces(chain);
    }
    forall i, j | 0 <= i < j < |c| ensures c[i].nonce != c[j].nonce {
      if j < n { assert c[i] == chain[i] && c[j] == chain[j]; }
    }
    forall i | 0 <= i < |c| ensures log[c[i].nonce] == c[i].timestamp {
      if i < n { assert c[i] == chain[i]; }
    }
  }

  lemma AppendKeepsProjection(chain: seq<STA>, sta: STA)
    ensures Projection(chain + [sta]) == Projection(chain) + InterpretSTA(sta)
  {
    assert (chain + [sta])[..|chain|] == chain;
  }

  lemma AppendKeepsLinked(p: Primitives, chain: seq<STA>, sta: STA)
    requires Linked(p, chain)
    requires sta.prevStateHash == ChainHeadHash(p, chain, sta.to)
    ensures Linked(p, chain + [sta])
  {
  }

  lemma AppendKeepsIncreasing(chain: seq<STA>, sta: STA)
    requires Increasing(chain)
    requires sta.timestamp > LastTimestamp(chain)
    ensures Increasing(chain + [sta])
  {
  }

  lemma AppendNonces(chain: seq<STA>, sta: STA)
    ensures Nonces(chain + [sta]) == Nonces(chain) + {sta.nonce}
  {
    var c := chain + [sta];
    forall x | x in Nonces(c) ensures x in Nonces(chain) + {sta.nonce} {
      var i :| 0 <= i < |c| && c[i].nonce == x;
      if i < |chain| { assert chain[i].nonce == x; }
    }
    forall x | x in Nonces(chain) ensures x in Nonces(c) {
      var i :| 0 <= i < |chain| && chain[i].nonce == x;
      assert c[i].nonce == x;
    }
    assert c[|chain|].nonce == sta.nonce;
  }

  /** Under the invariant, `nonceExists` answers whether some chain entry carries the nonce. */
  lemma NonceExistsInChain(p: Primitives, l: Ledger, nonce: string)
    requires WellFormed(p, l)
    ensures NonceExists(l.syncLog, nonce) <==> exists i :: 0 <= i < |l.chain| && l.chain[i].nonce == nonce
  {
  }

  /**
   * Under the signature assumption, a signature verifies exactly when the private key made
   * it over the canonical form of the STA's other fields.
   */
  lemma SignatureValidExactly(p: Primitives, keys: KeyPair, sta: STA)
    requires SignatureScheme(p, keys)
    ensures SignatureValid(p, sta, keys.publicKey) <==> sta.signature == p.sign(keys.privateKey, p.canonicalize(UnsignedJson(sta)))
  {
  }

  /** Replay rejection: no STA already in a well-formed chain passes validation again, under any key. */
  lemma ChainEntriesRejected(p: Primitives, l: Ledger, key: CryptoKey)
    requires WellFormed(p, l)
    ensures forall i :: 0 <= i < |l.chain| ==> !ValidateSTA(p, l, l.chain[i], key)
  {
  }

  /** Replay rejection for one append: once `sta` is in, the same record fails validation. */
  lemma ReplayRejected(p: Primitives, l: Ledger, sta: STA, key: CryptoKey, key': CryptoKey)
    requires ValidateSTA(p, l, sta, key)
    ensures !ValidateSTA(p, Appended(l, sta), sta, key')
  {
  }

  /** An STA stamped no later than the last appended one is rejected whatever else holds. */
  lemma StaleTimestampRejected(p: Primitives, l: Ledger, last: STA, sta: STA, key: CryptoKey)
    requires sta.timestamp <= last.timestamp
    ensures !ValidateSTA(p, Appended(l, last), sta, key)
  {
  }

  /** After an append the head is the hash of the appended STA, whatever the salt. */
  lemma HeadAfterAppend(p: Primitives, chain: seq<STA>, sta: STA, salt: string)
    ensures ChainHeadHash(p, chain + [sta], salt) == HashString(p, p.canonicalize(StaJson(sta)))
  {
  }

  /** On a non-empty chain the salt does not matter; on the empty chain it is the only input. */
  lemma HeadSalt(p: Primitives, chain: seq<STA>, s1: string, s2: string)
    ensures |chain| > 0 ==> ChainHeadHash(p, chain, s1) == ChainHeadHash(p, chain, s2)
    ensures |chain| == 0 ==> ChainHeadHash(p, chain, s1) == HashString(p, "genesis:" + s1)
  {
  }

  /**
   * Tamper detection: take an STA validly signed with `keys`. Change what its signed record
   * means while keeping the signature (any field, or the payload beyond the order of its
   * members), or change only the signature. Validation under the public key then fails.
   */
  lemma TamperDetected(p: Primitives, keys: KeyPair, l: Ledger, sta: STA, forged: STA)
    requires SignatureScheme(p, keys) && CanonicalByMeaning(p)
    requires sta.signature == p.sign(keys.privateKey, p.canonicalize(UnsignedJson(sta)))
    requires || (forged.signature == sta.signature && Meaning(UnsignedJson(forged)) != Meaning(UnsignedJson(sta)))
             || (forged.signature != sta.signature && Meaning(UnsignedJson(forged)) == Meaning(UnsignedJson(sta)))
    ensures !ValidateSTA(p, l, forged, keys.publicKey)
  {
    var m, m' := p.canonicalize(UnsignedJson(sta)), p.canonicalize(UnsignedJson(forged));
    if forged.signature == sta.signature {
      assert m' != m;
      assert p.sign(keys.privateKey, m') != p.sign(keys.privateKey, m);
    } else {
      assert m' == m;
    }
  }

  /**
   * The other side: an STA whose signed record means the same as a validly signed one,
   * its payload members reordered say, carries a signature that still verifies.
   */
  lemma SameMeaningVerifies(p: Primitives, keys: KeyPair, sta: STA, other: STA)
    requires SignatureScheme(p, keys) && CanonicalByMeaning(p)
    requires sta.signature == p.sign(keys.privateKey, p.canonicalize(UnsignedJson(sta)))
    requires other.signature == sta.signature && Meaning(UnsignedJson(other)) == Meaning(UnsignedJson(sta))
    ensures SignatureValid(p, other, keys.publicKey)
  {
    assert p.canonicalize(UnsignedJson(other)) == p.canonicalize(UnsignedJson(sta));
  }

  /** Changing a field other than the payload, and keeping the signature, is always detected. */
  lemma FieldChangeDetected(p: Primitives, keys: KeyPair, l: Ledger, sta: STA, forged: STA)
    requires SignatureScheme(p, keys) && CanonicalByMeaning(p)
    requires sta.signature == p.sign(keys.privateKey, p.canonicalize(UnsignedJson(sta)))
    requires forged.signature == sta.signature && forged.payload == sta.payload && forged != sta
    ensures !ValidateSTA(p, l, forged, keys.publicKey)
  {
    UnsignedMeaningEqual(forged, sta);
    TamperDetected(p, keys, l, sta, forged);
  }

  /**
   * A freshly created STA passes validation against the chain it was built on, provided
   * its second is later than the last entry's and its nonce is unseen.
   */
  lemma CreatedAccepted(p: Primitives, l: Ledger, hik: Hik, kind: string, to: string, payload: Json, now: nat, nonce: string)
    requires SignatureScheme(p, KeyPair(hik.signPublicKey, hik.signPrivateKey))
    requires now / 1000 > LastTimestamp(l.chain)
    requires nonce !in l.syncLog
    ensures ValidateSTA(p, l, CreateSTA(p, l.chain, hik, kind, to, payload, now, nonce), hik.signPublicKey)
  {
  }

  /**
   * The replay scenario: an STA created by `hik` for itself on an empty database is
   * appended, projects one message, and the identical record is then refused.
   */
  method ReplayScenario(db: Database, p: Primitives, hik: Hik, text: string, now: nat, nonce: string)
    returns (first: bool, replay: bool)
    requires SignatureScheme(p, KeyPair(hik.signPublicKey, hik.signPrivateKey))
    requires db.chain == [] && db.syncLog == map[] && db.messages == []
    requires now >= 1000
    modifies db`chain, db`syncLog, db`messages
    ensures first && !replay
    ensures |db.chain| == 1 && |db.messages| == 1 && db.messages[0].payload == JObj([("text", JStr(text))])
  {
    var sta := CreateSTA(p, db.chain, hik, CHAT_APPEND, hik.hikHash, JObj([("text", JStr(text))]), now, nonce);
    CreatedAccepted(p, db.LedgerView(), hik, CHAT_APPEND, hik.hikHash, JObj([("text", JStr(text))]), now, nonce);
    first := AppendSTA(db, p, sta, hik.signPublicKey, true);
    replay := AppendSTA(db, p, sta, hik.signPublicKey, true);
  }
}
