/** The world state object, with its mutable caches. */
module WorldStateClass {
  import opened Bytes
  import opened Ordered
  import opened WorldStateModel
  import TrieStore

  class WorldState {
    const h: Hash
    var accounts: map<Address, Account>
    var storage: map<(Address, Word), Word>
    var storageRoots: map<Address, Digest>
    var dirty: set<Address>
    var cachedRoot: Option<Digest>
    var rootDirty: bool

    ghost function View(): State
      reads this
    {
      State(accounts, storage, storageRoots, dirty, cachedRoot, rootDirty)
    }

    constructor (h: Hash)
      ensures this.h == h && View() == INITIAL
    {
      this.h := h;
      accounts, storage, storageRoots, dirty := map[], map[], map[], {};
      cachedRoot, rootDirty := None, true;
    }

    method MarkAccountDirty(a: Address)
      modifies this
      ensures View() == MarkDirty(old(View()), a)
    {
      dirty := dirty + {a};
      rootDirty := true;
    }

    method SetAccount(a: Address, account: Account)
      modifies this
      ensures View() == WorldStateModel.SetAccount(old(View()), a, account)
    {
      accounts := accounts[a := account];
      MarkAccountDirty(a);
    }

    method SetStorage(a: Address, key: Word, value: Word)
      modifies this
      ensures View() == WorldStateModel.SetStorage(old(View()), a, key, value)
    {
      if value == 0 {
        storage := storage - {(a, key)};
      } else {
        storage := storage[(a, key) := value];
      }
      MarkAccountDirty(a);
    }

    method GetStorage(a: Address, key: Word) returns (value: Word)
      ensures value == WorldStateModel.GetStorage(View(), a, key)
    {
      if (a, key) in storage {
        return storage[(a, key)];
      }
      return 0;
    }

    method SetCode(a: Address, code: Bytes)
      modifies this
      ensures View() == WorldStateModel.SetCode(h, old(View()), a, code)
    {
      var account := if a in accounts then accounts[a] else NEW_ACCOUNT;
      account := account.(code := code);
      if code == [] {
        account := account.(codeHash := ZERO_DIGEST);
      } else {
        account := account.(codeHash := h(code));
      }
      accounts := accounts[a := account];
      MarkAccountDirty(a);
    }

    method SetBalance(a: Address, balance: Word)
      modifies this
      ensures View() == WorldStateModel.SetBalance(old(View()), a, balance)
    {
      var account := if a in accounts then accounts[a] else NEW_ACCOUNT;
      accounts := accounts[a := account.(balance := balance)];
      rootDirty := true;
    }

    method SetNonce(a: Address, nonce: uint64)
      modifies this
      ensures View() == WorldStateModel.SetNonce(old(View()), a, nonce)
    {
      var account := if a in accounts then accounts[a] else NEW_ACCOUNT;
      accounts := accounts[a := account.(nonce := nonce)];
      rootDirty := true;
    }

    method DeleteAccount(a: Address)
      modifies this
      ensures View() == WorldStateModel.DeleteAccount(old(View()), a)
    {
      accounts := accounts - {a};
      storage := map p | p in storage && p.0 != a :: storage[p];
      storageRoots := storageRoots - {a};
      dirty := dirty - {a};
      rootDirty := true;
    }

    method CalculateStorageRoot(a: Address) returns (root: Digest)
      modifies this`storageRoots, this`dirty
      ensures root == StorageRootOf(h, old(View()), a)
      ensures View() == CacheStorageRoot(h, old(View()), a)
    {
      if a in storageRoots && a !in dirty {
        root := storageRoots[a];
        assert storageRoots == storageRoots[a := root] && dirty == dirty - {a};
        return;
      }
      root := BuildStorageRoot(a);
      storageRoots := storageRoots[a := root];
      dirty := dirty - {a};
    }

    method BuildStorageRoot(a: Address) returns (root: Digest)
      ensures root == FreshStorageRoot(h, storage, a)
    {
      var keys := StorageKeys(storage, a);
      var trie := BuildStorageTrie(a, keys);
      root := RootOf(h, trie, StorageEntries(storage, a, keys), 32);
    }

    method BuildStorageTrie(a: Address, keys: seq<nat>) returns (trie: TrieStore.MerklePatriciaTrie)
      requires AllStored(storage, a, keys)
      ensures fresh(trie) && fresh(trie.root.repr) && Holds(trie, StorageEntries(storage, a, keys), 32)
    {
      trie := NewTrie(32);
      ghost var entries: seq<Entry> := [];
      for i := 0 to |keys|
        invariant Holds(trie, entries, 32) && fresh(trie) && fresh(trie.root.repr)
        invariant AllStored(storage, a, keys[..i]) && entries == StorageEntries(storage, a, keys[..i])
      {
        var entry := StorageEntry(keys[i], storage[(a, keys[i])]);
        PutEntry(trie, entry, entries, 32);
        NextStorageEntry(storage, a, keys, i);
        entries := entries + [entry];
      }
      assert keys[..|keys|] == keys;
    }

    method CalculateStateRoot() returns (root: Digest)
      modifies this`storageRoots, this`dirty, this`cachedRoot, this`rootDirty
      ensures root == StateRootOf(h, old(View()))
      ensures View() == QueryRoot(h, old(View()))
    {
      if !rootDirty && cachedRoot.Some? {
        return cachedRoot.value;
      }
      root := BuildStateRoot(View());
      cachedRoot := Some(root);
      rootDirty := false;
    }

    /** Fill the storage roots and build the account trie. */
    method BuildStateRoot(ghost s: State) returns (root: Digest)
      requires View() == s
      modifies this`storageRoots, this`dirty
      ensures root == AccountRoot(h, s.accounts, StorageRootsOf(h, s))
      ensures View() == CacheAll(h, s, Ascending(s.accounts.Keys))
    {
      var keys := Ascending(accounts.Keys);
      var trie := BuildAccountTrie(s, keys);
      root := RootOf(h, trie, AccountEntries(s.accounts, StorageRootsOf(h, s), keys), 20);
    }

    method BuildAccountTrie(ghost s: State, keys: seq<nat>) returns (trie: TrieStore.MerklePatriciaTrie)
      requires View() == s && (forall k | k in keys :: k in s.accounts)
      requires Increasing(keys)
      modifies this`storageRoots, this`dirty
      ensures fresh(trie) && fresh(trie.root.repr)
      ensures Holds(trie, AccountEntries(s.accounts, StorageRootsOf(h, s), keys), 20)
      ensures View() == CacheAll(h, s, keys)
    {
      ghost var inv := AccountsSoFar(h, s, keys);
      ghost var entries: seq<Entry>;
      trie, entries := PutAccounts(inv, keys);
    }

    /** `inv` is what holds after so many accounts; each account cached and added takes it further. */
    method PutAccounts(ghost inv: (nat, State, seq<Entry>) -> bool, keys: seq<nat>)
      returns (trie: TrieStore.MerklePatriciaTrie, ghost entries: seq<Entry>)
      requires inv(0, View(), [])
      requires forall i: nat, state, entries | i < |keys| && inv(i, state, entries) ::
                 keys[i] in state.accounts
                 && inv(i + 1, CacheStorageRoot(h, state, keys[i]), WithAccount(h, state, keys[i], entries))
      modifies this`storageRoots, this`dirty
      ensures fresh(trie) && fresh(trie.root.repr) && Holds(trie, entries, 20)
      ensures inv(|keys|, View(), entries)
    {
      trie := NewTrie(20);
      entries := [];
      for i := 0 to |keys|
        invariant fresh(trie) && fresh(trie.root.repr) && Holds(trie, entries, 20) && inv(i, View(), entries)
      {
        entries := PutAccount(trie, keys[i], entries);
      }
    }

    method PutAccount(trie: TrieStore.MerklePatriciaTrie, a: Address, ghost entries: seq<Entry>)
      returns (ghost entries': seq<Entry>)
      requires a in accounts && Holds(trie, entries, 20)
      modifies this`storageRoots, this`dirty, trie, trie.root.repr
      ensures View() == CacheStorageRoot(h, old(View()), a)
      ensures entries' == WithAccount(h, old(View()), a, entries)
      ensures Holds(trie, entries', 20) && fresh(trie.root.repr - old(trie.root.repr))
    {
      var storageRoot := CalculateStorageRoot(a);
      var entry := AccountEntry(a, accounts[a], storageRoot);
      PutEntry(trie, entry, entries, 20);
      entries' := entries + [entry];
    }

    method CreateSnapshot() returns (snapshot: State)
      ensures snapshot == View()
    {
      snapshot := State(accounts, storage, storageRoots, dirty, cachedRoot, rootDirty);
    }

    method RestoreSnapshot(snapshot: State)
      modifies this
      ensures View() == snapshot
    {
      accounts := snapshot.accounts;
      storage := snapshot.storage;
      storageRoots := snapshot.storageRoots;
      dirty := snapshot.dirty;
      cachedRoot := snapshot.cachedRoot;
      rootDirty := snapshot.rootDirty;
    }
  }

  /** The trie is the one the entries give. */
  ghost predicate Holds(trie: TrieStore.MerklePatriciaTrie, entries: seq<Entry>, width: nat)
    reads trie, trie.root, trie.root.repr
  {
    trie.Valid() && Storable(entries, width) && trie.Model() == PutAll(entries, width)
  }

  method NewTrie(ghost width: nat) returns (trie: TrieStore.MerklePatriciaTrie)
    ensures fresh(trie) && fresh(trie.root.repr) && Holds(trie, [], width)
  {
    trie := new TrieStore.MerklePatriciaTrie();
  }

  method PutEntry(trie: TrieStore.MerklePatriciaTrie, e: Entry, ghost entries: seq<Entry>, ghost width: nat)
    requires Holds(trie, entries, width) && |e.key| == width && e.value != []
    modifies trie, trie.root.repr
    ensures Holds(trie, entries + [e], width) && fresh(trie.root.repr - old(trie.root.repr))
  {
    AppendEntry(entries, e, width);
    trie.Put(e.key, e.value);
  }

  method RootOf(h: Hash, trie: TrieStore.MerklePatriciaTrie, ghost entries: seq<Entry>, ghost width: nat)
    returns (root: Digest)
    requires Holds(trie, entries, width)
    ensures root == TrieBinding.HashNode(h, PutAll(entries, width))
  {
    root := trie.GetRootHash(h);
  }

  lemma NextStorageEntry(storage: map<(Address, Word), Word>, a: Address, keys: seq<nat>, i: nat)
    requires i < |keys| && AllStored(storage, a, keys)
    ensures AllStored(storage, a, keys[..i]) && AllStored(storage, a, keys[..i + 1])
    ensures StorageEntries(storage, a, keys[..i + 1])
            == StorageEntries(storage, a, keys[..i]) + [StorageEntry(keys[i], storage[(a, keys[i])])]
  {
    assert keys[..i + 1][..i] == keys[..i];
  }

  ghost predicate Increasing(keys: seq<nat>) {
    forall i, j | 0 <= i < j < |keys| :: keys[i] < keys[j]
  }

  /** After the first `i` accounts. */
  ghost predicate Progress(h: Hash, s: State, keys: seq<nat>, i: nat, state: State, entries: seq<Entry>) {
    && i <= |keys| && (forall k | k in keys :: k in s.accounts)
    && state == CacheAll(h, s, keys[..i])
    && entries == AccountEntries(s.accounts, StorageRootsOf(h, s), keys[..i])
  }

  function WithAccount(h: Hash, state: State, a: Address, entries: seq<Entry>): seq<Entry>
    requires a in state.accounts
  {
    entries + [AccountEntry(a, state.accounts[a], StorageRootOf(h, state, a))]
  }

  ghost function AccountsSoFar(h: Hash, s: State, keys: seq<nat>): (inv: (nat, State, seq<Entry>) -> bool)
    requires Increasing(keys) && forall k | k in keys :: k in s.accounts
    ensures inv(0, s, [])
    ensures forall i: nat, state, entries | i < |keys| && inv(i, state, entries) ::
              keys[i] in state.accounts
              && inv(i + 1, CacheStorageRoot(h, state, keys[i]), WithAccount(h, state, keys[i], entries))
    ensures forall state, entries | inv(|keys|, state, entries) ::
              state == CacheAll(h, s, keys) && entries == AccountEntries(s.accounts, StorageRootsOf(h, s), keys)
  {
    NoAccountYet(h, s, keys);
    EachAccount(h, s, keys);
    assert keys[..|keys|] == keys;
    (i: nat, state: State, entries: seq<Entry>) => Progress(h, s, keys, i, state, entries)
  }

  lemma EachAccount(h: Hash, s: State, keys: seq<nat>)
    requires Increasing(keys)
    ensures forall i: nat, state, entries | i < |keys| && Progress(h, s, keys, i, state, entries) ::
              keys[i] in state.accounts
              && Progress(h, s, keys, i + 1, CacheStorageRoot(h, state, keys[i]), WithAccount(h, state, keys[i], entries))
  {
    forall i: nat, state, entries | i < |keys| && Progress(h, s, keys, i, state, entries)
      ensures keys[i] in state.accounts
      ensures Progress(h, s, keys, i + 1, CacheStorageRoot(h, state, keys[i]), WithAccount(h, state, keys[i], entries))
    {
      NextAccount(h, s, keys, i, state, entries);
    }
  }

  lemma NoAccountYet(h: Hash, s: State, keys: seq<nat>)
    requires forall k | k in keys :: k in s.accounts
    ensures Progress(h, s, keys, 0, s, [])
  {
  }

  lemma NextAccount(h: Hash, s: State, keys: seq<nat>, i: nat, state: State, entries: seq<Entry>)
    requires i < |keys| && Progress(h, s, keys, i, state, entries)
    requires Increasing(keys)
    ensures keys[i] in state.accounts
    ensures Progress(h, s, keys, i + 1, CacheStorageRoot(h, state, keys[i]), WithAccount(h, state, keys[i], entries))
  {
    assert keys[..i + 1][..i] == keys[..i] && keys[..i + 1][i] == keys[i];
    OthersCached(h, s, keys[..i], keys[i]);
  }

  lemma AppendEntry(entries: seq<Entry>, e: Entry, width: nat)
    requires Storable(entries, width) && |e.key| == width && e.value != []
    ensures Storable(entries + [e], width)
    ensures PutAll(entries + [e], width)
            == Trie.Insert(PutAll(entries, width), Trie.ToNibbles(e.key), e.value)
  {
    assert (entries + [e])[..|entries|] == entries;
  }

  /** Filling the cache for some accounts does not change what is served for another. */
  lemma {:induction false} OthersCached(h: Hash, s: State, keys: seq<nat>, a: Address)
    requires forall k | k in keys :: k in s.accounts
    requires a !in keys
    ensures StorageRootOf(h, CacheAll(h, s, keys), a) == StorageRootOf(h, s, a)
    decreases |keys|
  {
    if keys != [] {
      var last := keys[|keys| - 1];
      assert last in keys;
      OthersCached(h, s, keys[..|keys| - 1], a);
    }
  }
}
