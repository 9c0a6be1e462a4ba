/**
 * The IndexedDB database `BalanceChainHSN`: its seven object stores, their keying,
 * and the upgrade step of `initDB` that creates the stores that are missing.
 */
module Storage {
  import opened Wrappers
  import opened Crypto
  import opened Records

  /** `IDBObjectStoreParameters`: an in-line key path, or out-of-line keys with or without a key generator. */
  datatype StoreOptions = StoreOptions(keyPath: Option<string>, autoIncrement: bool)

  datatype StoreSpec = StoreSpec(name: string, options: StoreOptions)

  const IDENTITY := "hsn_identity"
  const STATE_CHAIN := "hsn_state_chain"
  const MESSAGES := "hsn_messages"
  const PROOFS := "hsn_proofs"
  const OUTBOX := "hsn_outbox"
  const INBOX := "hsn_inbox"
  const SYNC_LOG := "hsn_sync_log"

  /** `HSN_STORES`: the table layout, in creation order. */
  const HSN_STORES: seq<StoreSpec> := [
    StoreSpec(IDENTITY, StoreOptions(None, false)),
    StoreSpec(STATE_CHAIN, StoreOptions(None, true)),
    StoreSpec(MESSAGES, StoreOptions(None, true)),
    StoreSpec(PROOFS, StoreOptions(None, true)),
    StoreSpec(OUTBOX, StoreOptions(Some("nonce"), false)),
    StoreSpec(INBOX, StoreOptions(None, true)),
    StoreSpec(SYNC_LOG, StoreOptions(Some("nonce"), false))
  ]

  /** The names of a list of store specifications. */
  function NamesOf(specs: seq<StoreSpec>): (names: set<string>)
    ensures forall i :: 0 <= i < |specs| ==> specs[i].name in names
    ensures forall n :: n in names ==> exists i :: 0 <= i < |specs| && specs[i].name == n
  {
    if specs == [] then {} else NamesOf(specs[..|specs| - 1]) + {specs[|specs| - 1].name}
  }

  /** One more specification adds its name, and its options when the name is new. */
  lemma NamesStep(stores: map<string, StoreOptions>, specs: seq<StoreSpec>, i: nat)
    requires i < |specs|
    ensures NamesOf(specs[..i + 1]) == NamesOf(specs[..i]) + {specs[i].name}
    ensures var prior := AddMissing(stores, specs[..i]);
      AddMissing(stores, specs[..i + 1])
        == if specs[i].name in prior then prior else prior[specs[i].name := specs[i].options]
  {
    assert specs[..i + 1][..i] == specs[..i];
  }

  /**
   * The schema after the upgrade loop has run over `specs`: each name not yet present gets
   * its options, in order; names already present keep theirs.
   */
  function AddMissing(stores: map<string, StoreOptions>, specs: seq<StoreSpec>): (r: map<string, StoreOptions>)
    ensures r.Keys == stores.Keys + NamesOf(specs)
    ensures forall n :: n in stores ==> r[n] == stores[n]
  {
    if specs == [] then stores
    else
      var prior := AddMissing(stores, specs[..|specs| - 1]);
      var last := specs[|specs| - 1];
      if last.name in prior then prior else prior[last.name := last.options]
  }

  /** With distinct names, every store that was missing gets exactly its own options. */
  lemma {:induction false} AddMissingOptions(stores: map<string, StoreOptions>, specs: seq<StoreSpec>)
    requires forall i, j :: 0 <= i < j < |specs| ==> specs[i].name != specs[j].name
    ensures forall i :: 0 <= i < |specs| && specs[i].name !in stores ==>
      AddMissing(stores, specs)[specs[i].name] == specs[i].options
  {
    if specs != [] {
      var init := specs[..|specs| - 1];
      var last := specs[|specs| - 1];
      assert forall i :: 0 <= i < |init| ==> init[i] == specs[i];
      AddMissingOptions(stores, init);
      var prior := AddMissing(stores, init);
      assert forall j :: 0 <= j < |init| ==> init[j].name != last.name;
      forall i | 0 <= i < |specs| && specs[i].name !in stores
        ensures AddMissing(stores, specs)[specs[i].name] == specs[i].options
      {
        if i < |specs| - 1 {
          assert prior[init[i].name] == init[i].options;
          assert specs[i].name != last.name;
        } else {
          assert last.name !in prior;
        }
      }
    }
  }

  /** The seven stores have distinct names. */
  lemma StoreNamesDistinct()
    ensures forall i, j :: 0 <= i < j < |HSN_STORES| ==> HSN_STORES[i].name != HSN_STORES[j].name
  {
  }

  /** The layout: seven distinct stores; outbox and sync log keyed by `nonce`; chain, messages, proofs and inbox append with a key generator. */
  lemma StoreLayout()
    ensures |HSN_STORES| == 7
    ensures forall i :: 0 <= i < |HSN_STORES| ==>
      (HSN_STORES[i].options.keyPath == Some("nonce") <==> HSN_STORES[i].name in {OUTBOX, SYNC_LOG})
    ensures forall i :: 0 <= i < |HSN_STORES| ==>
      (HSN_STORES[i].options.autoIncrement <==> HSN_STORES[i].name in {STATE_CHAIN, MESSAGES, PROOFS, INBOX})
  {
  }

  /** The contents of all seven stores at one moment. */
  datatype Contents = Contents(
    identity: map<int, Hik>,
    chain: seq<STA>,
    messages: seq<Message>,
    proofs: seq<Json>,
    outbox: map<string, STA>,
    inbox: seq<Json>,
    syncLog: map<string, int>)

  /** `c` with every store named in `names` emptied and every other store as it was. */
  function ClearStores(c: Contents, names: set<string>): (r: Contents)
    ensures IDENTITY in names ==> r.identity == map[]
    ensures STATE_CHAIN in names ==> r.chain == []
    ensures MESSAGES in names ==> r.messages == []
    ensures PROOFS in names ==> r.proofs == []
    ensures OUTBOX in names ==> r.outbox == map[]
    ensures INBOX in names ==> r.inbox == []
    ensures SYNC_LOG in names ==> r.syncLog == map[]
    ensures IDENTITY !in names ==> r.identity == c.identity
    ensures STATE_CHAIN !in names ==> r.chain == c.chain
    ensures MESSAGES !in names ==> r.messages == c.messages
    ensures PROOFS !in names ==> r.proofs == c.proofs
    ensures OUTBOX !in names ==> r.outbox == c.outbox
    ensures INBOX !in names ==> r.inbox == c.inbox
    ensures SYNC_LOG !in names ==> r.syncLog == c.syncLog
  {
    Contents(
      if IDENTITY in names then map[] else c.identity,
      if STATE_CHAIN in names then [] else c.chain,
      if MESSAGES in names then [] else c.messages,
      if PROOFS in names then [] else c.proofs,
      if OUTBOX in names then map[] else c.outbox,
      if INBOX in names then [] else c.inbox,
      if SYNC_LOG in names then map[] else c.syncLog)
  }

  /** Emptying stores one set after another is emptying their union. */
  lemma ClearStoresTwice(c: Contents, s: set<string>, t: set<string>)
    ensures ClearStores(ClearStores(c, s), t) == ClearStores(c, s + t)
  {
  }

  /**
   * One more step of the upgrade loop: a name already present leaves the emptied set as it
   * was, and creating a missing store empties it on top of the stores emptied so far.
   */
  lemma ClearedStep(c: Contents, specs: seq<StoreSpec>, i: nat, existing: set<string>)
    requires i < |specs|
    ensures var n := specs[i].name;
      var before, after := NamesOf(specs[..i]) - existing, NamesOf(specs[..i + 1]) - existing;
      && (n in existing || n in NamesOf(specs[..i]) ==> after == before)
      && (n !in existing ==> ClearStores(ClearStores(c, before), {n}) == ClearStores(c, after))
  {
    var n := specs[i].name;
    assert specs[..i + 1][..i] == specs[..i];
    var before := NamesOf(specs[..i]) - existing;
    if n !in existing {
      ClearStoresTwice(c, before, {n});
      assert before + {n} == NamesOf(specs[..i + 1]) - existing;
    }
  }

  /** The three stores `appendSTA` writes in one transaction. */
  datatype Ledger = Ledger(chain: seq<STA>, syncLog: map<string, int>, messages: seq<Message>)

  class Database {
    /** The schema: the name and options of each object store that exists. */
    var objectStores: map<string, StoreOptions>

    /** `hsn_identity`: out-of-line keys; the identity lives at key 1. */
    var identity: map<int, Hik>
    /** `hsn_state_chain`, `hsn_messages`, `hsn_proofs`, `hsn_inbox`: key generator, read back in insertion order. */
    var chain: seq<STA>
    var messages: seq<Message>
    var proofs: seq<Json>
    var inbox: seq<Json>
    /** `hsn_outbox`: key path `nonce`, one STA per nonce. */
    var outbox: map<string, STA>
    /** `hsn_sync_log`: key path `nonce`, the `{nonce, timestamp}` records as a map. */
    var syncLog: map<string, int>

    /** The key path of the outbox: each entry sits under its own nonce. */
    ghost predicate Valid()
      reads this
    {
      forall n :: n in outbox ==> outbox[n].nonce == n
    }

    function Snapshot(): Contents
      reads this
    {
      Contents(identity, chain, messages, proofs, outbox, inbox, syncLog)
    }

    function LedgerView(): Ledger
      reads this
    {
      Ledger(chain, syncLog, messages)
    }

    /** A database opened for the first time: no stores yet. */
    constructor ()
      ensures Valid()
      ensures objectStores == map[]
      ensures Snapshot() == Contents(map[], [], [], [], map[], [], map[])
    {
      objectStores := map[];
      identity, chain, messages, proofs := map[], [], [], [];
      outbox, inbox, syncLog := map[], [], map[];
    }

    /** `createObjectStore(name, options)`: a new, empty store; IndexedDB refuses an existing name. */
    method CreateObjectStore(name: string, options: StoreOptions)
      requires Valid()
      requires name !in objectStores
      modifies this
      ensures Valid()
      ensures objectStores == old(objectStores)[name := options]
      ensures Snapshot() == ClearStores(old(Snapshot()), {name})
    {
      objectStores := objectStores[name := options];
      if name == IDENTITY { identity := map[]; }
      else if name == STATE_CHAIN { chain := []; }
      else if name == MESSAGES { messages := []; }
      else if name == PROOFS { proofs := []; }
      else if name == OUTBOX { outbox := map[]; }
      else if name == INBOX { inbox := []; }
      else if name == SYNC_LOG { syncLog := map[]; }
    }

    /**
     * The `onupgradeneeded` step of `initDB`: every store of the layout that does not exist
     * is created with its options; a store that exists keeps its options and its rows.
     */
    method UpgradeNeeded()
      requires Valid()
      modifies this
      ensures Valid()
      ensures objectStores.Keys == old(objectStores).Keys + NamesOf(HSN_STORES)
      ensures forall n :: n in old(objectStores) ==> objectStores[n] == old(objectStores)[n]
      ensures forall i :: 0 <= i < |HSN_STORES| && HSN_STORES[i].name !in old(objectStores) ==>
        objectStores[HSN_STORES[i].name] == HSN_STORES[i].options
      ensures Snapshot() == ClearStores(old(Snapshot()), NamesOf(HSN_STORES) - old(objectStores).Keys)
    {
      CreateMissingStores(HSN_STORES);
      StoreNamesDistinct();
      AddMissingOptions(old(objectStores), HSN_STORES);
    }

    /** The loop of the upgrade step, over any layout. */
    method CreateMissingStores(specs: seq<StoreSpec>)
      requires Valid()
      modifies this
      ensures Valid()
      ensures objectStores == AddMissing(old(objectStores), specs)
      ensures Snapshot() == ClearStores(old(Snapshot()), NamesOf(specs) - old(objectStores).Keys)
    {
      for i := 0 to |specs|
        invariant Valid()
        invariant objectStores == AddMissing(old(objectStores), specs[..i])
        invariant Snapshot() == ClearStores(old(Snapshot()), NamesOf(specs[..i]) - old(objectStores).Keys)
      {
        var store := specs[i];
        NamesStep(old(objectStores), specs, i);
        ClearedStep(old(Snapshot()), specs, i, old(objectStores).Keys);
        if store.name !in objectStores {
          CreateObjectStore(store.name, store.options);
        }
      }
      assert specs[..|specs|] == specs;
    }

    /** `add` on the outbox: refused when an entry already sits under the nonce. */
    method OutboxAdd(sta: STA) returns (added: bool)
      requires Valid()
      modifies this`outbox
      ensures Valid()
      ensures added <==> sta.nonce !in old(outbox)
      ensures outbox == if added then old(outbox)[sta.nonce := sta] else old(outbox)
    {
      added := sta.nonce !in outbox;
      if added {
        outbox := outbox[sta.nonce := sta];
      }
    }

    /** `delete` on the outbox: removes the entry under `nonce`; an absent nonce is a no-op. */
    method OutboxDelete(nonce: string)
      requires Valid()
      modifies this`outbox
      ensures Valid()
      ensures outbox == old(outbox) - {nonce}
      ensures nonce !in old(outbox) ==> outbox == old(outbox)
      ensures forall n :: n in old(outbox) && n != nonce ==> n in outbox && outbox[n] == old(outbox)[n]
    {
      outbox := outbox - {nonce};
    }
  }
}
