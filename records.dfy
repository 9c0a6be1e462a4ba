/**
 * The records the core stores and exchanges: the state transition (STA), the local
 * identity (HIK) and the message projection of a `chat.append` transition.
 */
module Records {
  import opened Crypto

  /** A signed state transition; `kind` is the record's `type` field. */
  datatype STA = STA(
    kind: string,
    from: string,
    to: string,
    payload: Json,
    prevStateHash: string,
    timestamp: int,
    nonce: string,
    signature: string)

  /** The local identity: its fingerprint and the two key pairs (signing, key agreement). */
  datatype Hik = Hik(
    hikHash: string,
    signPublicKey: CryptoKey,
    signPrivateKey: CryptoKey,
    dhPublicKey: CryptoKey,
    dhPrivateKey: CryptoKey)

  /** A row of the messages table: the payload of a `chat.append` STA and its `_from`, `_to`, `_ts`, `_nonce`. */
  datatype Message = Message(payload: Json, from: string, to: string, ts: int, nonce: string)

  /** The record that is signed: every field of the STA except `signature`. */
  function UnsignedJson(sta: STA): Json
  {
    JObj([
      ("type", JStr(sta.kind)),
      ("from", JStr(sta.from)),
      ("to", JStr(sta.to)),
      ("payload", sta.payload),
      ("prev_state_hash", JStr(sta.prevStateHash)),
      ("timestamp", JNum(sta.timestamp)),
      ("nonce", JStr(sta.nonce))])
  }

  /** The STA as it is stored in the chain table, signature included. */
  function StaJson(sta: STA): Json
  {
    JObj(UnsignedJson(sta).members + [("signature", JStr(sta.signature))])
  }

  /** Two STAs have the same signed record exactly when they agree on every field but `signature`. */
  lemma UnsignedJsonEqual(a: STA, b: STA)
    ensures UnsignedJson(a) == UnsignedJson(b) <==> a.(signature := b.signature) == b
  {
    if UnsignedJson(a) == UnsignedJson(b) {
      var ma, mb := UnsignedJson(a).members, UnsignedJson(b).members;
      assert ma[0] == mb[0] && ma[1] == mb[1] && ma[2] == mb[2] && ma[3] == mb[3];
      assert ma[4] == mb[4] && ma[5] == mb[5] && ma[6] == mb[6];
    }
  }

  /** The meaning of the signed record: each of its seven fields under its own name, the payload by its meaning. */
  function UnsignedMeaning(sta: STA): map<string, Value>
  {
    map[
      "type" := VStr(sta.kind),
      "from" := VStr(sta.from),
      "to" := VStr(sta.to),
      "payload" := Meaning(sta.payload),
      "prev_state_hash" := VStr(sta.prevStateHash),
      "timestamp" := VNum(sta.timestamp),
      "nonce" := VStr(sta.nonce)]
  }

  /** The signed record means exactly its fields by name. */
  lemma UnsignedJsonMeaning(sta: STA)
    ensures Meaning(UnsignedJson(sta)) == VObj(UnsignedMeaning(sta))
  {
    var o := UnsignedJson(sta);
    var m1 := map["type" := VStr(sta.kind)];
    assert MembersMeaning(o, 1) == m1;
    var m2 := m1["from" := VStr(sta.from)];
    assert MembersMeaning(o, 2) == m2;
    var m3 := m2["to" := VStr(sta.to)];
    assert MembersMeaning(o, 3) == m3;
    var m4 := m3["payload" := Meaning(sta.payload)];
    assert MembersMeaning(o, 4) == m4;
    var m5 := m4["prev_state_hash" := VStr(sta.prevStateHash)];
    assert MembersMeaning(o, 5) == m5;
    var m6 := m5["timestamp" := VNum(sta.timestamp)];
    assert MembersMeaning(o, 6) == m6;
    assert MembersMeaning(o, 7) == m6["nonce" := VStr(sta.nonce)];
  }

  /**
   * Two STAs have signed records with the same meaning exactly when they agree on every
   * field but `signature` and `payload`, and their payloads mean the same.
   */
  lemma UnsignedMeaningEqual(a: STA, b: STA)
    ensures Meaning(UnsignedJson(a)) == Meaning(UnsignedJson(b)) <==>
      a.(payload := b.payload, signature := b.signature) == b && Meaning(a.payload) == Meaning(b.payload)
  {
    UnsignedJsonMeaning(a);
    UnsignedJsonMeaning(b);
    var ma, mb := UnsignedMeaning(a), UnsignedMeaning(b);
    if ma == mb {
      assert ma["type"] == mb["type"] && ma["from"] == mb["from"] && ma["to"] == mb["to"];
      assert ma["payload"] == mb["payload"] && ma["prev_state_hash"] == mb["prev_state_hash"];
      assert ma["timestamp"] == mb["timestamp"] && ma["nonce"] == mb["nonce"];
    }
  }
}
