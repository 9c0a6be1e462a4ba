/**
 * The values and primitives the core hands to WebCrypto, to `JSON.stringify` and to the
 * canonical serialiser. None of them is computed here: they are the fields of a
 * `Primitives` bundle that every operation receives, and what the core relies on them
 * for is stated as explicit assumption predicates.
 */
module Crypto {

  /** One octet of a digest. */
  newtype byte = x: int | 0 <= x < 256

  /** A WebCrypto `CryptoKey`; the core never looks inside one. */
  datatype CryptoKey = CryptoKey(handle: nat)

  /** The result of `crypto.subtle.generateKey`. */
  datatype KeyPair = KeyPair(publicKey: CryptoKey, privateKey: CryptoKey)

  /** A JSON value: the payload of a transition, an exported JWK, a record to serialise. */
  datatype Json =
    | JNull
    | JBool(b: bool)
    | JNum(n: int)
    | JStr(s: string)
    | JArr(items: seq<Json>)
    | JObj(members: seq<(string, Json)>)

  /**
   * The black boxes:
   * - `canonicalize`: the canonical serialiser imported by state.ts (its source is not part of this model);
   * - `stringify`: `JSON.stringify`, used for the identity fingerprint;
   * - `digest`: SHA-256 of the UTF-8 encoding of a string;
   * - `sign` / `verify`: ECDSA P-256 over SHA-256, signatures carried as base64 strings;
   * - `exportJwk` / `importJwk`: JWK export of a public key and its import.
   */
  datatype Primitives = Primitives(
    canonicalize: Json -> string,
    stringify: Json -> string,
    digest: string -> seq<byte>,
    sign: (CryptoKey, string) -> string,
    verify: (CryptoKey, string, string) -> bool,
    exportJwk: CryptoKey -> Json,
    importJwk: Json -> CryptoKey)

  /** What a JSON value means as a record: an object is the map from its member names to their values. */
  datatype Value =
    | VNull
    | VBool(b: bool)
    | VNum(n: int)
    | VStr(s: string)
    | VArr(items: seq<Value>)
    | VObj(members: map<string, Value>)

  /** The meaning of a value: member order is dropped, and a later member overrides an earlier one of the same name. */
  function Meaning(j: Json): Value
    decreases j, if j.JObj? then |j.members| + 1 else 0
  {
    match j
    case JNull => VNull
    case JBool(b) => VBool(b)
    case JNum(n) => VNum(n)
    case JStr(s) => VStr(s)
    case JArr(items) => VArr(seq(|items|, i requires 0 <= i < |items| => Meaning(items[i])))
    case JObj(members) => VObj(MembersMeaning(j, |members|))
  }

  /** The meaning of the first `n` members of the object `obj`. */
  function MembersMeaning(obj: Json, n: nat): map<string, Value>
    requires obj.JObj? && n <= |obj.members|
    decreases obj, n
  {
    if n == 0 then map[]
    else
      var (name, value) := obj.members[n - 1];
      assert obj.members[n - 1] in obj.members;
      MembersMeaning(obj, n - 1)[name := Meaning(value)]
  }

  /**
   * Assumption: the canonical form is order-stable and exact. Two values serialise to the
   * same canonical string exactly when they mean the same record.
   */
  ghost predicate CanonicalByMeaning(p: Primitives)
  {
    forall a, b :: p.canonicalize(a) == p.canonicalize(b) <==> Meaning(a) == Meaning(b)
  }

  /** The member list `ms` with its members `i` and `i + 1` exchanged. */
  function Swap(ms: seq<(string, Json)>, i: nat): (r: seq<(string, Json)>)
    requires i + 1 < |ms|
    ensures |r| == |ms| && r[i] == ms[i + 1] && r[i + 1] == ms[i]
    ensures forall k :: 0 <= k < |ms| && k != i && k != i + 1 ==> r[k] == ms[k]
  {
    ms[..i] + [ms[i + 1], ms[i]] + ms[i + 2..]
  }

  /**
   * The first `n` members mean the same before and after the swap, as long as `n` does not
   * split the swapped pair.
   */
  lemma {:induction false} PrefixMeaning(ms: seq<(string, Json)>, i: nat, n: nat)
    requires i + 1 < |ms| && ms[i].0 != ms[i + 1].0
    requires n <= |ms| && (n <= i || n >= i + 2)
    ensures MembersMeaning(JObj(ms), n) == MembersMeaning(JObj(Swap(ms, i)), n)
    decreases n
  {
    var o, o' := JObj(ms), JObj(Swap(ms, i));
    if n == 0 {
    } else if n <= i || n > i + 2 {
      PrefixMeaning(ms, i, n - 1);
      assert o'.members[n - 1] == ms[n - 1];
    } else {
      PrefixMeaning(ms, i, i);
      var (a, x) := ms[i];
      var (b, y) := ms[i + 1];
      assert MembersMeaning(o, i + 2) == MembersMeaning(o, i)[a := Meaning(x)][b := Meaning(y)];
      assert MembersMeaning(o', i + 2) == MembersMeaning(o', i)[b := Meaning(y)][a := Meaning(x)];
    }
  }

  /**
   * Exchanging two adjacent, differently named members, anywhere in an object of any size,
   * does not change what it means. Any reordering of distinct names is a chain of such swaps.
   */
  lemma MemberOrderIrrelevant(ms: seq<(string, Json)>, i: nat)
    requires i + 1 < |ms| && ms[i].0 != ms[i + 1].0
    ensures Meaning(JObj(ms)) == Meaning(JObj(Swap(ms, i)))
  {
    PrefixMeaning(ms, i, |ms|);
  }

  /** Assumption: the digest is SHA-256, 32 bytes long. */
  ghost predicate Sha256Sized(p: Primitives)
  {
    forall s :: |p.digest(s)| == 32
  }

  /**
   * Assumption about a key pair: a signature verifies under the public key exactly when it
   * is the one the private key makes over that message, and distinct messages get distinct
   * signatures. This stands for the unforgeability of ECDSA.
   */
  ghost predicate SignatureScheme(p: Primitives, keys: KeyPair)
  {
    && (forall s, m :: p.verify(keys.publicKey, s, m) <==> s == p.sign(keys.privateKey, m))
    && (forall m, m' :: p.sign(keys.privateKey, m) == p.sign(keys.privateKey, m') ==> m == m')
  }
}
