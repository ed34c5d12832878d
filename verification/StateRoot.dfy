/** What a state root commits to: accounts and their storage. */
module StateRoot {
  import opened Bytes
  import opened Ordered
  import opened Trie
  import opened TrieMap
  import opened WorldStateModel
  import TrieBinding
  import TrieStore

  // ---------------------------------------------------------------- what a rebuilt trie holds

  /** What was last put under a key. */
  function LastPut(entries: seq<Entry>, key: Bytes): Outcome {
    if entries == [] then Missing
    else
      var e := entries[|entries| - 1];
      if e.key == key then Found(e.value) else LastPut(entries[..|entries| - 1], key)
  }

  lemma {:induction false} PutAllHolds(entries: seq<Entry>, width: nat, key: Bytes)
    requires Storable(entries, width) && |key| == width
    ensures Lookup(PutAll(entries, width), ToNibbles(key)) == LastPut(entries, key)
    decreases |entries|
  {
    if entries != [] {
      var init, e := entries[..|entries| - 1], entries[|entries| - 1];
      PutAllHolds(init, width, key);
      InsertThenLookup(PutAll(init, width), ToNibbles(e.key), e.value, ToNibbles(key));
      if ToNibbles(key) == ToNibbles(e.key) {
        TrieStore.ToNibblesInjective(key, e.key);
      }
    }
  }

  lemma {:induction false} WellFormedBounded(n: NodePtr, h: nat)
    requires WellFormed(n, h) && h < 256
    ensures TrieBinding.Bounded(n)
    decreases n
  {
    if n.Node? {
      forall c | c in n.children ensures TrieBinding.Bounded(c) {
        var i :| 0 <= i < |n.children| && n.children[i] == c;
        if n.kind == Extension {
          WellFormedBounded(c, h - |n.path|);
        } else if n.kind == Branch && h > 0 && i < 16 {
          WellFormedBounded(c, h - 1);
        }
      }
    }
  }

  /** Two rebuilt tries with one root hold the same under every key. */
  lemma EqualTries(h: Hash, a: seq<Entry>, b: seq<Entry>, width: nat, key: Bytes)
    requires Storable(a, width) && Storable(b, width) && |key| == width < 128
    requires TrieBinding.HashNode(h, PutAll(a, width)) == TrieBinding.HashNode(h, PutAll(b, width))
    requires TrieBinding.CollisionFree(h, TrieBinding.Encodings(h, PutAll(a, width)),
                                       TrieBinding.Encodings(h, PutAll(b, width)))
    ensures LastPut(a, key) == LastPut(b, key)
  {
    WellFormedBounded(PutAll(a, width), 2 * width);
    WellFormedBounded(PutAll(b, width), 2 * width);
    TrieBinding.EqualRootsEqualLookups(h, PutAll(a, width), PutAll(b, width), ToNibbles(key));
    PutAllHolds(a, width, key);
    PutAllHolds(b, width, key);
  }

  // ---------------------------------------------------------------- what the entries say

  /** The entries for some numbers, whose keys are spelled in one way. */
  ghost predicate Spells(spell: nat -> Bytes, keys: seq<nat>, entries: seq<Entry>) {
    |entries| == |keys| && forall i | 0 <= i < |keys| :: entries[i].key == spell(keys[i])
  }

  ghost predicate Apart(spell: nat -> Bytes, keys: seq<nat>, k: nat) {
    forall x | x in keys :: spell(x) == spell(k) ==> x == k
  }

  /** Under the key of a number is what its only entry says. */
  lemma {:induction false} LastPutOf(spell: nat -> Bytes, keys: seq<nat>, entries: seq<Entry>, k: nat)
    requires Spells(spell, keys, entries) && Apart(spell, keys, k)
    requires forall i, j | 0 <= i < j < |keys| :: keys[i] < keys[j]
    ensures k !in keys ==> LastPut(entries, spell(k)) == Missing
    ensures forall i | 0 <= i < |keys| && keys[i] == k :: LastPut(entries, spell(k)) == Found(entries[i].value)
    decreases |keys|
  {
    if keys != [] {
      var last := |keys| - 1;
      assert forall x | x in keys[..last] :: x in keys;
      LastPutOf(spell, keys[..last], entries[..last], k);
      assert keys[last] in keys;
    }
  }

  lemma {:induction false} StorageEntryAt(storage: map<(Address, Word), Word>, a: Address, keys: seq<nat>, i: nat)
    requires AllStored(storage, a, keys) && i < |keys|
    ensures |StorageEntries(storage, a, keys)| == |keys|
    ensures StorageEntries(storage, a, keys)[i] == StorageEntry(keys[i], storage[(a, keys[i])])
    decreases |keys|
  {
    var last := |keys| - 1;
    if i < last {
      StorageEntryAt(storage, a, keys[..last], i);
      assert keys[..last][i] == keys[i];
    } else if last > 0 {
      StorageEntryAt(storage, a, keys[..last], 0);
    }
  }

  lemma {:induction false} AccountEntryAt(accounts: map<Address, Account>, roots: map<Address, Digest>, keys: seq<nat>,
                                          i: nat)
    requires (forall k | k in keys :: k in accounts && k in roots) && i < |keys|
    ensures |AccountEntries(accounts, roots, keys)| == |keys| && keys[i] in keys
    ensures AccountEntries(accounts, roots, keys)[i] == AccountEntry(keys[i], accounts[keys[i]], roots[keys[i]])
    decreases |keys|
  {
    var last := |keys| - 1;
    if i < last {
      AccountEntryAt(accounts, roots, keys[..last], i);
      assert keys[..last][i] == keys[i];
    } else if last > 0 {
      AccountEntryAt(accounts, roots, keys[..last], 0);
    }
  }

  // ---------------------------------------------------------------- equal roots, equal contents

  /** Addresses of `len` bytes and words of `wide`. */
  ghost predicate InRange(s: State, len: nat, wide: nat) {
    && (forall a | a in s.accounts :: a < Pow256(len) && s.accounts[a].balance < Pow256(wide))
    && (forall a, k | (a, k) in s.storage :: k < Pow256(wide) && s.storage[(a, k)] < Pow256(wide))
  }

  ghost predicate SameStorage(s: State, t: State, a: Address) {
    && (forall k: Word :: (a, k) in s.storage <==> (a, k) in t.storage)
    && (forall k: Word | (a, k) in s.storage && (a, k) in t.storage :: s.storage[(a, k)] == t.storage[(a, k)])
  }

  /** All but the code itself, which the root holds the hash of. */
  predicate SameAccount(x: Account, y: Account) {
    x.nonce == y.nonce && x.balance == y.balance && x.codeHash == y.codeHash
  }

  /** The same accounts, each with the same contents and storage. */
  ghost predicate Agree(s: State, t: State) {
    && s.accounts.Keys == t.accounts.Keys
    && forall a | a in s.accounts && a in t.accounts ::
         SameAccount(s.accounts[a], t.accounts[a]) && SameStorage(s, t, a)
  }

  function StorageOf(s: State, a: Address): (r: seq<Entry>)
    ensures Storable(r, 32)
  {
    StorageEntries(s.storage, a, StorageKeys(s.storage, a))
  }

  function AccountsOf(h: Hash, s: State): (r: seq<Entry>)
    ensures Storable(r, 20)
  {
    AccountEntries(s.accounts, FreshStorageRoots(h, s.accounts, s.storage), Ascending(s.accounts.Keys))
  }

  /** Everything hashed on the way to a state root. */
  ghost function Hashed(h: Hash, s: State): set<Bytes> {
    TrieBinding.Encodings(h, PutAll(AccountsOf(h, s), 20))
    + set a, x | a in s.accounts && x in TrieBinding.Encodings(h, PutAll(StorageOf(s, a), 32)) :: x
  }

  /** One account's storage, as the last put under the key of a word. */
  lemma {:induction false} StorageSays(s: State, a: Address, k: Word, spell: nat -> Bytes)
    requires (forall x :: spell(x) == StorageEntry(x, 0).key) && Apart(spell, StorageKeys(s.storage, a), k)
    ensures LastPut(StorageOf(s, a), spell(k))
            == if (a, k) in s.storage then Found(StorageEntry(k, s.storage[(a, k)]).value) else Missing
  {
    StorageKeyOf(s.storage, a, k);
    StorageListSays(s.storage, a, StorageKeys(s.storage, a), k, spell);
  }

  lemma {:induction false} StorageListSays(storage: map<(Address, Word), Word>, a: Address, keys: seq<nat>, k: nat,
                                           spell: nat -> Bytes)
    requires AllStored(storage, a, keys) && Apart(spell, keys, k)
    requires forall x :: spell(x) == StorageEntry(x, 0).key
    requires forall i, j | 0 <= i < j < |keys| :: keys[i] < keys[j]
    ensures LastPut(StorageEntries(storage, a, keys), spell(k))
            == if k in keys then Found(StorageEntry(k, storage[(a, k)]).value) else Missing
  {
    var entries := StorageEntries(storage, a, keys);
    StorageSpelled(storage, a, keys, spell);
    LastPutOf(spell, keys, entries, k);
    if k in keys {
      var i :| 0 <= i < |keys| && keys[i] == k;
      StorageEntryAt(storage, a, keys, i);
    }
  }

  lemma {:induction false} StorageSpelled(storage: map<(Address, Word), Word>, a: Address, keys: seq<nat>,
                                          spell: nat -> Bytes)
    requires AllStored(storage, a, keys) && forall x :: spell(x) == StorageEntry(x, 0).key
    ensures Spells(spell, keys, StorageEntries(storage, a, keys))
  {
    if keys != [] {
      StorageEntryAt(storage, a, keys, 0);
    }
    forall i | 0 <= i < |keys| ensures StorageEntries(storage, a, keys)[i].key == spell(keys[i]) {
      StorageEntryAt(storage, a, keys, i);
    }
  }

  lemma StorageKeyOf(storage: map<(Address, Word), Word>, a: Address, k: Word)
    ensures k in StorageKeys(storage, a) <==> (a, k) in storage
  {
    var keys := set p | p in storage.Keys && p.0 == a :: p.1;
    if (a, k) in storage {
      assert (a, k).1 in keys;
    }
    assert k in StorageKeys(storage, a) <==> k in keys;
  }

  /** One account, as the last put under the key of its address. */
  lemma {:induction false} AccountSays(h: Hash, s: State, a: Address, spell: nat -> Bytes)
    requires (forall x :: spell(x) == AccountEntry(x, NEW_ACCOUNT, ZERO_DIGEST).key)
    requires Apart(spell, Ascending(s.accounts.Keys), a)
    ensures LastPut(AccountsOf(h, s), spell(a))
            == if a in s.accounts then Found(AccountEntry(a, s.accounts[a], FreshStorageRoot(h, s.storage, a)).value)
               else Missing
  {
    AccountListSays(s.accounts, FreshStorageRoots(h, s.accounts, s.storage), Ascending(s.accounts.Keys), a, spell);
  }

  lemma {:induction false} AccountListSays(accounts: map<Address, Account>, roots: map<Address, Digest>,
                                           keys: seq<nat>, a: nat, spell: nat -> Bytes)
    requires (forall k | k in keys :: k in accounts && k in roots) && Apart(spell, keys, a)
    requires forall x :: spell(x) == AccountEntry(x, NEW_ACCOUNT, ZERO_DIGEST).key
    requires forall i, j | 0 <= i < j < |keys| :: keys[i] < keys[j]
    ensures LastPut(AccountEntries(accounts, roots, keys), spell(a))
            == if a in keys then Found(AccountEntry(a, accounts[a], roots[a]).value) else Missing
  {
    var entries := AccountEntries(accounts, roots, keys);
    AccountsSpelled(accounts, roots, keys, spell);
    LastPutOf(spell, keys, entries, a);
    if a in keys {
      var i :| 0 <= i < |keys| && keys[i] == a;
      AccountEntryAt(accounts, roots, keys, i);
    }
  }

  lemma {:induction false} AccountsSpelled(accounts: map<Address, Account>, roots: map<Address, Digest>,
                                           keys: seq<nat>, spell: nat -> Bytes)
    requires forall k | k in keys :: k in accounts && k in roots
    requires forall x :: spell(x) == AccountEntry(x, NEW_ACCOUNT, ZERO_DIGEST).key
    ensures Spells(spell, keys, AccountEntries(accounts, roots, keys))
  {
    if keys != [] {
      AccountEntryAt(accounts, roots, keys, 0);
    }
    forall i | 0 <= i < |keys| ensures AccountEntries(accounts, roots, keys)[i].key == spell(keys[i]) {
      AccountEntryAt(accounts, roots, keys, i);
    }
  }

  function AddressKey(a: nat): Bytes {
    AccountEntry(a, NEW_ACCOUNT, ZERO_DIGEST).key
  }

  function WordKey(k: nat): Bytes {
    StorageEntry(k, 0).key
  }

  lemma KeysApart(spell: nat -> Bytes, keys: seq<nat>, k: nat, len: nat)
    requires forall x :: spell(x) == BigEndian(x, len)
    requires k < Pow256(len) && forall x | x in keys :: x < Pow256(len)
    ensures Apart(spell, keys, k)
  {
    forall x | x in keys && spell(x) == spell(k) ensures x == k {
      BigEndianInjective(x, k, len);
    }
  }

  lemma AddressesApart(s: State, a: Address, len: nat)
    requires len == 20 && a < Pow256(len) && forall x | x in s.accounts :: x < Pow256(len)
    ensures Apart(AddressKey, Ascending(s.accounts.Keys), a)
  {
    KeysApart(AddressKey, Ascending(s.accounts.Keys), a, len);
  }

  lemma WordsApart(s: State, a: Address, k: Word, len: nat)
    requires len == 32 && k < Pow256(len) && forall x | (a, x) in s.storage :: x < Pow256(len)
    ensures Apart(WordKey, StorageKeys(s.storage, a), k)
  {
    KeysApart(WordKey, StorageKeys(s.storage, a), k, len);
  }

  lemma AccountDetermined(a: Address, x: Account, y: Account, r: Digest, q: Digest, eight: nat, len: nat)
    requires AccountEntry(a, x, r).value == AccountEntry(a, y, q).value && eight == 8 && len == 32
    requires x.balance < Pow256(len) && y.balance < Pow256(len)
    ensures SameAccount(x, y) && r == q
  {
    var n, m := LittleEndian(x.nonce, eight), LittleEndian(y.nonce, eight);
    var b, d := BigEndian(x.balance, len), BigEndian(y.balance, len);
    SplitConcat(n + b + x.codeHash, r, m + d + y.codeHash, q);
    SplitConcat(n + b, x.codeHash, m + d, y.codeHash);
    SplitConcat(n, b, m, d);
    BigEndianInjective(x.balance, y.balance, len);
    EightBytesFit(eight);
    LittleEndianReadBack(x.nonce, eight, Pow256(eight));
    LittleEndianReadBack(y.nonce, eight, Pow256(eight));
  }

  lemma EightBytesFit(n: nat)
    requires n == 8
    ensures Pow256(n) == TWO_64
  {
    assert Pow256(8) == TWO_64;
  }

  lemma WordDetermined(k: Word, x: Word, y: Word, len: nat)
    requires StorageEntry(k, x).value == StorageEntry(k, y).value && len == 32 && x < Pow256(len) && y < Pow256(len)
    ensures x == y
  {
    BigEndianInjective(x, y, len);
  }

  ghost predicate StorageInRange(s: State, a: Address, wide: nat) {
    forall k | (a, k) in s.storage :: k < Pow256(wide) && s.storage[(a, k)] < Pow256(wide)
  }

  /** Under one storage root is one storage. */
  lemma StorageRootBinds(h: Hash, s: State, t: State, a: Address, len: nat)
    requires StorageInRange(s, a, len) && StorageInRange(t, a, len) && len == 32
    requires FreshStorageRoot(h, s.storage, a) == FreshStorageRoot(h, t.storage, a)
    requires TrieBinding.CollisionFree(h, TrieBinding.Encodings(h, PutAll(StorageOf(s, a), 32)),
                                       TrieBinding.Encodings(h, PutAll(StorageOf(t, a), 32)))
    ensures SameStorage(s, t, a)
  {
    forall k: Word | (a, k) in s.storage || (a, k) in t.storage
      ensures (a, k) in s.storage && (a, k) in t.storage && s.storage[(a, k)] == t.storage[(a, k)]
    {
      WordsApart(s, a, k, len);
      WordsApart(t, a, k, len);
      EqualTries(h, StorageOf(s, a), StorageOf(t, a), 32, WordKey(k));
      WordBound(s, t, a, k, len);
    }
  }

  lemma WordBound(s: State, t: State, a: Address, k: Word, len: nat)
    requires len == 32 && LastPut(StorageOf(s, a), WordKey(k)) == LastPut(StorageOf(t, a), WordKey(k))
    requires Apart(WordKey, StorageKeys(s.storage, a), k) && Apart(WordKey, StorageKeys(t.storage, a), k)
    requires (a, k) in s.storage ==> s.storage[(a, k)] < Pow256(len)
    requires (a, k) in t.storage ==> t.storage[(a, k)] < Pow256(len)
    ensures (a, k) in s.storage <==> (a, k) in t.storage
    ensures (a, k) in s.storage ==> s.storage[(a, k)] == t.storage[(a, k)]
  {
    StorageSays(s, a, k, WordKey);
    StorageSays(t, a, k, WordKey);
    if (a, k) in s.storage {
      WordDetermined(k, s.storage[(a, k)], t.storage[(a, k)], len);
    }
  }

  lemma AccountBound(h: Hash, s: State, t: State, a: Address, len: nat)
    requires LastPut(AccountsOf(h, s), AddressKey(a)) == LastPut(AccountsOf(h, t), AddressKey(a)) && len == 32
    requires Apart(AddressKey, Ascending(s.accounts.Keys), a) && Apart(AddressKey, Ascending(t.accounts.Keys), a)
    requires a in s.accounts ==> s.accounts[a].balance < Pow256(len)
    requires a in t.accounts ==> t.accounts[a].balance < Pow256(len)
    ensures a in s.accounts <==> a in t.accounts
    ensures a in s.accounts ==>
              && SameAccount(s.accounts[a], t.accounts[a])
              && FreshStorageRoot(h, s.storage, a) == FreshStorageRoot(h, t.storage, a)
  {
    AccountSays(h, s, a, AddressKey);
    AccountSays(h, t, a, AddressKey);
    if a in s.accounts {
      AccountDetermined(a, s.accounts[a], t.accounts[a], FreshStorageRoot(h, s.storage, a),
                        FreshStorageRoot(h, t.storage, a), 8, len);
    }
  }

  /** The address is spelled like no other of the state, and what is under it fits its words. */
  ghost predicate KnownAt(s: State, a: Address, wide: nat) {
    && Apart(AddressKey, Ascending(s.accounts.Keys), a)
    && (a in s.accounts ==> s.accounts[a].balance < Pow256(wide))
    && StorageInRange(s, a, wide)
  }

  lemma InRangeAt(s: State, a: Address, len: nat, wide: nat)
    requires InRange(s, len, wide) && len == 20 && a < Pow256(len)
    ensures KnownAt(s, a, wide)
  {
    AddressesApart(s, a, len);
  }

  lemma BothInRangeAt(s: State, t: State, a: Address, len: nat, wide: nat)
    requires InRange(s, len, wide) && InRange(t, len, wide) && len == 20 && (a in s.accounts || a in t.accounts)
    ensures KnownAt(s, a, wide) && KnownAt(t, a, wide)
  {
    InRangeAt(s, a, len, wide);
    InRangeAt(t, a, len, wide);
  }

  /** Under one account root are the same accounts with the same storage roots. */
  lemma AccountRootBinds(h: Hash, s: State, t: State, a: Address, wide: nat)
    requires KnownAt(s, a, wide) && KnownAt(t, a, wide) && wide == 32
    requires a in s.accounts || a in t.accounts
    requires FreshStateRoot(h, s.accounts, s.storage) == FreshStateRoot(h, t.accounts, t.storage)
    requires TrieBinding.CollisionFree(h, TrieBinding.Encodings(h, PutAll(AccountsOf(h, s), 20)),
                                       TrieBinding.Encodings(h, PutAll(AccountsOf(h, t), 20)))
    ensures a in s.accounts && a in t.accounts && SameAccount(s.accounts[a], t.accounts[a])
    ensures FreshStorageRoot(h, s.storage, a) == FreshStorageRoot(h, t.storage, a)
  {
    EqualTries(h, AccountsOf(h, s), AccountsOf(h, t), 20, AddressKey(a));
    AccountBound(h, s, t, a, wide);
  }

  lemma PartsFree(h: Hash, xs: set<Bytes>, ys: set<Bytes>, xs': set<Bytes>, ys': set<Bytes>)
    requires TrieBinding.CollisionFree(h, xs, ys) && xs' <= xs && ys' <= ys
    ensures TrieBinding.CollisionFree(h, xs', ys')
  {
  }

  lemma StorageHashed(h: Hash, s: State, a: Address)
    requires a in s.accounts
    ensures TrieBinding.Encodings(h, PutAll(StorageOf(s, a), 32)) <= Hashed(h, s)
  {
  }

  lemma AccountAndStorageBound(h: Hash, s: State, t: State, a: Address, wide: nat)
    requires KnownAt(s, a, wide) && KnownAt(t, a, wide) && wide == 32
    requires a in s.accounts || a in t.accounts
    requires FreshStateRoot(h, s.accounts, s.storage) == FreshStateRoot(h, t.accounts, t.storage)
    requires TrieBinding.CollisionFree(h, Hashed(h, s), Hashed(h, t))
    ensures a in s.accounts && a in t.accounts && SameAccount(s.accounts[a], t.accounts[a]) && SameStorage(s, t, a)
  {
    AccountsFree(h, s, t);
    AccountRootBinds(h, s, t, a, wide);
    StorageFree(h, s, t, a);
    StorageRootBinds(h, s, t, a, wide);
  }

  lemma AccountsFree(h: Hash, s: State, t: State)
    requires TrieBinding.CollisionFree(h, Hashed(h, s), Hashed(h, t))
    ensures TrieBinding.CollisionFree(h, TrieBinding.Encodings(h, PutAll(AccountsOf(h, s), 20)),
                                      TrieBinding.Encodings(h, PutAll(AccountsOf(h, t), 20)))
  {
    PartsFree(h, Hashed(h, s), Hashed(h, t), TrieBinding.Encodings(h, PutAll(AccountsOf(h, s), 20)),
              TrieBinding.Encodings(h, PutAll(AccountsOf(h, t), 20)));
  }

  lemma StorageFree(h: Hash, s: State, t: State, a: Address)
    requires TrieBinding.CollisionFree(h, Hashed(h, s), Hashed(h, t)) && a in s.accounts && a in t.accounts
    ensures TrieBinding.CollisionFree(h, TrieBinding.Encodings(h, PutAll(StorageOf(s, a), 32)),
                                      TrieBinding.Encodings(h, PutAll(StorageOf(t, a), 32)))
  {
    StorageHashed(h, s, a);
    StorageHashed(h, t, a);
    PartsFree(h, Hashed(h, s), Hashed(h, t), TrieBinding.Encodings(h, PutAll(StorageOf(s, a), 32)),
              TrieBinding.Encodings(h, PutAll(StorageOf(t, a), 32)));
  }

  lemma AllAgree(s: State, t: State)
    requires forall a | a in s.accounts || a in t.accounts ::
               a in s.accounts && a in t.accounts && SameAccount(s.accounts[a], t.accounts[a]) && SameStorage(s, t, a)
    ensures Agree(s, t)
  {
    assert s.accounts.Keys == t.accounts.Keys;
  }

  lemma SameAt(h: Hash, s: State, t: State, a: Address, len: nat, wide: nat)
    requires InRange(s, len, wide) && InRange(t, len, wide) && len == 20 && wide == 32
    requires FreshStateRoot(h, s.accounts, s.storage) == FreshStateRoot(h, t.accounts, t.storage)
    requires TrieBinding.CollisionFree(h, Hashed(h, s), Hashed(h, t)) && (a in s.accounts || a in t.accounts)
    ensures a in s.accounts && a in t.accounts && SameAccount(s.accounts[a], t.accounts[a]) && SameStorage(s, t, a)
  {
    BothInRangeAt(s, t, a, len, wide);
    AccountAndStorageBound(h, s, t, a, wide);
  }

  lemma RebuiltRootBinds(h: Hash, s: State, t: State, len: nat, wide: nat)
    requires InRange(s, len, wide) && InRange(t, len, wide) && len == 20 && wide == 32
    requires FreshStateRoot(h, s.accounts, s.storage) == FreshStateRoot(h, t.accounts, t.storage)
    requires TrieBinding.CollisionFree(h, Hashed(h, s), Hashed(h, t))
    ensures Agree(s, t)
  {
    forall a | a in s.accounts || a in t.accounts
      ensures a in s.accounts && a in t.accounts && SameAccount(s.accounts[a], t.accounts[a]) && SameStorage(s, t, a)
    {
      SameAt(h, s, t, a, len, wide);
    }
    AllAgree(s, t);
  }

  // ---------------------------------------------------------------- equal contents, equal roots

  lemma {:induction false} SameAccountEntries(x: map<Address, Account>, y: map<Address, Account>,
                                              roots: map<Address, Digest>, keys: seq<nat>)
    requires forall k | k in keys :: k in x && k in y && k in roots && SameAccount(x[k], y[k])
    ensures AccountEntries(x, roots, keys) == AccountEntries(y, roots, keys)
    decreases |keys|
  {
    if keys != [] {
      var last := |keys| - 1;
      assert keys[last] in keys;
      SameAccountEntries(x, y, roots, keys[..last]);
    }
  }

  lemma SameRoots(h: Hash, s: State, t: State)
    requires Agree(s, t)
    ensures FreshStorageRoots(h, s.accounts, s.storage) == FreshStorageRoots(h, t.accounts, t.storage)
  {
    forall a | a in s.accounts ensures FreshStorageRoot(h, s.storage, a) == FreshStorageRoot(h, t.storage, a) {
      OtherStorageUntouched(h, s.storage, t.storage, a);
    }
  }

  lemma ContentsGiveRoot(h: Hash, s: State, t: State)
    requires Agree(s, t)
    ensures FreshStateRoot(h, s.accounts, s.storage) == FreshStateRoot(h, t.accounts, t.storage)
  {
    SameRoots(h, s, t);
    AccountsGiveRoot(h, s.accounts, t.accounts, FreshStorageRoots(h, s.accounts, s.storage));
  }

  lemma AccountsGiveRoot(h: Hash, x: map<Address, Account>, y: map<Address, Account>, roots: map<Address, Digest>)
    requires x.Keys == y.Keys == roots.Keys && forall a | a in x && a in y :: SameAccount(x[a], y[a])
    ensures AccountRoot(h, x, roots) == AccountRoot(h, y, roots)
  {
    SameAccountEntries(x, y, roots, Ascending(x.Keys));
  }

  // ---------------------------------------------------------------- over runs

  predicate OpInRange(op: Op, len: nat, wide: nat) {
    match op
    case DoSetAccount(a, account) => a < Pow256(len) && account.balance < Pow256(wide)
    case DoSetStorage(a, key, value) => key < Pow256(wide) && value < Pow256(wide)
    case DoSetCode(a, _) => a < Pow256(len)
    case DoSetBalance(a, balance) => a < Pow256(len) && balance < Pow256(wide)
    case DoSetNonce(a, _) => a < Pow256(len)
    case _ => true
  }

  ghost predicate WorldInRange(w: World, len: nat, wide: nat) {
    InRange(w.state, len, wide) && forall s | s in w.saved :: InRange(s, len, wide)
  }

  lemma StepInRange(h: Hash, w: World, op: Op, len: nat, wide: nat)
    requires WorldInRange(w, len, wide) && OpInRange(op, len, wide)
    ensures WorldInRange(Step(h, w, op), len, wide)
  {
  }

  lemma {:induction false} RunInRange(h: Hash, w: World, ops: seq<Op>, len: nat, wide: nat)
    requires WorldInRange(w, len, wide) && forall op | op in ops :: OpInRange(op, len, wide)
    ensures WorldInRange(Run(h, w, ops), len, wide)
    decreases |ops|
  {
    if ops != [] {
      var last := |ops| - 1;
      assert ops[last] in ops;
      RunInRange(h, w, ops[..last], len, wide);
      StepInRange(h, Run(h, w, ops[..last]), ops[last], len, wide);
    }
  }

  /** Two states reached in any way with addresses of 160 bits and words of 256: if they hold the same accounts with
      the same storage they report one root; and if they report one root they hold the same, or two different
      strings hashed for them share a digest, or one hashes to the all-zero digest. Storage under an address
      without an account is in no root. */
  lemma StateRootBinds(h: Hash, ops: seq<Op>, others: seq<Op>, len: nat, wide: nat)
    requires len == 20 && wide == 32
    requires forall op | op in ops + others :: OpInRange(op, len, wide)
    ensures var s, t := Run(h, World(INITIAL, []), ops).state, Run(h, World(INITIAL, []), others).state;
            && (Agree(s, t) ==> StateRootOf(h, s) == StateRootOf(h, t))
            && (StateRootOf(h, s) == StateRootOf(h, t) ==>
                  || Agree(s, t)
                  || (exists x, y :: x in Hashed(h, s) && y in Hashed(h, t) && x != y && h(x) == h(y))
                  || (exists x :: x in Hashed(h, s) + Hashed(h, t) && h(x) == ZERO_DIGEST))
  {
    var s := Reached(h, ops, len, wide);
    var t := Reached(h, others, len, wide);
    RootBindsState(h, s, t, StateRootOf(h, s), StateRootOf(h, t), len, wide);
    FreeOrNot(h, Hashed(h, s), Hashed(h, t));
  }

  lemma FreeOrNot(h: Hash, xs: set<Bytes>, ys: set<Bytes>)
    ensures || TrieBinding.CollisionFree(h, xs, ys)
            || (exists x, y :: x in xs && y in ys && x != y && h(x) == h(y))
            || (exists x :: x in xs + ys && h(x) == ZERO_DIGEST)
  {
  }

  lemma {:induction false} Reached(h: Hash, ops: seq<Op>, len: nat, wide: nat) returns (s: State)
    requires forall op | op in ops :: OpInRange(op, len, wide)
    ensures s == Run(h, World(INITIAL, []), ops).state && InRange(s, len, wide)
    ensures StateRootOf(h, s) == FreshStateRoot(h, s.accounts, s.storage)
  {
    s := Run(h, World(INITIAL, []), ops).state;
    ReachableRootIsFresh(h, ops);
    RunInRange(h, World(INITIAL, []), ops, len, wide);
  }

  lemma RootBindsState(h: Hash, s: State, t: State, x: Digest, y: Digest, len: nat, wide: nat)
    requires InRange(s, len, wide) && InRange(t, len, wide) && len == 20 && wide == 32
    requires x == FreshStateRoot(h, s.accounts, s.storage) && y == FreshStateRoot(h, t.accounts, t.storage)
    ensures Agree(s, t) ==> x == y
    ensures x == y && TrieBinding.CollisionFree(h, Hashed(h, s), Hashed(h, t)) ==> Agree(s, t)
  {
    if Agree(s, t) {
      ContentsGiveRoot(h, s, t);
    }
    if x == y && TrieBinding.CollisionFree(h, Hashed(h, s), Hashed(h, t)) {
      RebuiltRootBinds(h, s, t, len, wide);
    }
  }
}
