/**
 * `initHIK`: the device identity is read from the identity store at key 1; when none is
 * found a signing pair (ECDSA P-256) and a key-agreement pair (ECDH P-256) are taken,
 * fingerprinted, written at key 1 and returned.
 */
module Identity {
  import opened Wrappers
  import opened Crypto
  import opened Hash
  import opened Records
  import opened Storage

  /** The fixed key of the identity record. */
  const IDENTITY_KEY := 1

  /** The `hikHash`: the hash of `JSON.stringify({ s, d })` over the two exported public keys. */
  function Fingerprint(p: Primitives, signPublicKey: CryptoKey, dhPublicKey: CryptoKey): (fp: string)
    ensures Unhex(fp) == Some(p.digest(p.stringify(JObj([("s", p.exportJwk(signPublicKey)), ("d", p.exportJwk(dhPublicKey))]))))
    ensures forall k :: 0 <= k < |fp| ==> IsHexDigit(fp[k])
    ensures Sha256Sized(p) ==> |fp| == 64
  {
    var data := p.stringify(JObj([("s", p.exportJwk(signPublicKey)), ("d", p.exportJwk(dhPublicKey))]));
    HexLowercase(p.digest(data));
    HashString(p, data)
  }

  /**
   * `initHIK`. `readFails` stands for an error on the read of key 1, which the source treats
   * as "no identity"; `sign` and `dh` are the freshly generated pairs; `writeFails` stands
   * for an error on the `put`, which makes the call fail.
   */
  method InitHIK(db: Database, p: Primitives, readFails: bool, sign: KeyPair, dh: KeyPair, writeFails: bool)
    returns (r: Result<Hik>)
    modifies db`identity
    ensures !readFails && IDENTITY_KEY in old(db.identity) ==>
      r == Success(old(db.identity)[IDENTITY_KEY]) && db.identity == old(db.identity)
    ensures (readFails || IDENTITY_KEY !in old(db.identity)) && writeFails ==>
      r.Failure? && db.identity == old(db.identity)
    ensures (readFails || IDENTITY_KEY !in old(db.identity)) && !writeFails ==>
      && r == Success(Hik(Fingerprint(p, sign.publicKey, dh.publicKey), sign.publicKey, sign.privateKey, dh.publicKey, dh.privateKey))
      && db.identity == old(db.identity)[IDENTITY_KEY := r.value]
  {
    var existing: Option<Hik> := None;
    if !readFails && IDENTITY_KEY in db.identity {
      existing := Some(db.identity[IDENTITY_KEY]);
    }
    if existing.Some? {
      return Success(existing.value);
    }

    var hikHash := Fingerprint(p, sign.publicKey, dh.publicKey);
    var record := Hik(hikHash, sign.publicKey, sign.privateKey, dh.publicKey, dh.privateKey);

    if writeFails {
      return Failure("put of the identity record failed");
    }
    db.identity := db.identity[IDENTITY_KEY := record];
    r := Success(record);
  }

  /**
   * Two calls in sequence return the same identity, provided the first succeeds and the
   * second reads without error: the second finds the record the first wrote or found.
   */
  method InitHIKTwice(db: Database, p: Primitives, readFails: bool, sign: KeyPair, dh: KeyPair, sign': KeyPair, dh': KeyPair)
    returns (first: Result<Hik>, second: Result<Hik>)
    modifies db`identity
    ensures first.Success? && second.Success? && first.value == second.value
    ensures IDENTITY_KEY in db.identity && db.identity[IDENTITY_KEY] == first.value
  {
    first := InitHIK(db, p, readFails, sign, dh, false);
    second := InitHIK(db, p, false, sign', dh', false);
  }
}
