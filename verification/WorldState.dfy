/** World state: what the cached roots stand for. */
module WorldStateModel {
  import opened Bytes
  import opened Ordered
  import opened Trie
  import opened TrieMap
  import TrieBinding

  /** Addresses and words as the numbers their bytes spell, so that the maps iterate in numeric
      order. Nothing below needs their bounds of 160 and 256 bits. */
  type Address = nat
  type Word = nat

  datatype Account = Account(nonce: uint64, balance: Word, codeHash: Digest, storageRoot: Digest, code: Bytes)

  const NEW_ACCOUNT: Account := Account(0, 0, ZERO_DIGEST, ZERO_DIGEST, [])

  /** All fields of the world state; a snapshot is a copy of them. */
  datatype State = State(
    accounts: map<Address, Account>,
    storage: map<(Address, Word), Word>,
    storageRoots: map<Address, Digest>,
    dirty: set<Address>,
    cachedRoot: Option<Digest>,
    rootDirty: bool)

  const INITIAL: State := State(map[], map[], map[], {}, None, true)

  // ---------------------------------------------------------------- rebuilding from scratch

  datatype Entry = Entry(key: Bytes, value: Bytes)

  predicate Storable(entries: seq<Entry>, width: nat) {
    forall e | e in entries :: |e.key| == width && e.value != []
  }

  /** The trie after putting the entries in order into an empty one. */
  function PutAll(entries: seq<Entry>, width: nat): (n: NodePtr)
    requires Storable(entries, width)
    ensures n.Node? && WellFormed(n, 2 * width) && Shaped(n)
  {
    if entries == [] then EMPTY_NODE
    else
      var last := |entries| - 1;
      var n := PutAll(entries[..last], width);
      InsertWellFormed(n, ToNibbles(entries[last].key), entries[last].value);
      var r := Insert(n, ToNibbles(entries[last].key), entries[last].value);
      WellFormedIsShaped(r, 2 * width);
      r
  }

  function StorageKeys(storage: map<(Address, Word), Word>, a: Address): (keys: seq<nat>)
    ensures AllStored(storage, a, keys)
  {
    Ascending(set p | p in storage.Keys && p.0 == a :: p.1)
  }

  predicate AllStored(storage: map<(Address, Word), Word>, a: Address, keys: seq<nat>) {
    forall k | k in keys :: (a, k) in storage
  }

  function StorageEntry(key: nat, value: nat): (e: Entry)
    ensures |e.key| == 32 && e.value != []
  {
    Entry(BigEndian(key, 32), BigEndian(value, 32))
  }

  /** The storage of one account as trie entries, in the order of the map. */
  function StorageEntries(storage: map<(Address, Word), Word>, a: Address, keys: seq<nat>): (r: seq<Entry>)
    requires AllStored(storage, a, keys)
    ensures Storable(r, 32)
    decreases |keys|
  {
    if keys == [] then []
    else
      StorageEntries(storage, a, keys[..|keys| - 1])
      + [StorageEntry(keys[|keys| - 1], storage[(a, keys[|keys| - 1])])]
  }

  function FreshStorageRoot(h: Hash, storage: map<(Address, Word), Word>, a: Address): Digest {
    TrieBinding.HashNode(h, PutAll(StorageEntries(storage, a, StorageKeys(storage, a)), 32))
  }

  function AccountEntry(a: nat, account: Account, storageRoot: Digest): (e: Entry)
    ensures |e.key| == 20 && e.value != []
  {
    Entry(BigEndian(a, 20),
          LittleEndian(account.nonce, 8) + BigEndian(account.balance, 32) + account.codeHash + storageRoot)
  }

  function AccountEntries(accounts: map<Address, Account>, roots: map<Address, Digest>, keys: seq<nat>)
    : (r: seq<Entry>)
    requires forall k | k in keys :: k in accounts && k in roots
    ensures Storable(r, 20)
    decreases |keys|
  {
    if keys == [] then []
    else
      AccountEntries(accounts, roots, keys[..|keys| - 1])
      + [AccountEntry(keys[|keys| - 1], accounts[keys[|keys| - 1]], roots[keys[|keys| - 1]])]
  }

  /** The root of the account trie, given the storage root of every account. */
  function AccountRoot(h: Hash, accounts: map<Address, Account>, roots: map<Address, Digest>): Digest
    requires accounts.Keys <= roots.Keys
  {
    TrieBinding.HashNode(h, PutAll(AccountEntries(accounts, roots, Ascending(accounts.Keys)), 20))
  }

  function FreshStorageRoots(h: Hash, accounts: map<Address, Account>, storage: map<(Address, Word), Word>)
    : (r: map<Address, Digest>)
    ensures r.Keys == accounts.Keys
  {
    map a: Address | a in accounts :: FreshStorageRoot(h, storage, a)
  }

  /** The state root a rebuild of every storage trie and of the account trie gives. */
  function FreshStateRoot(h: Hash, accounts: map<Address, Account>, storage: map<(Address, Word), Word>): Digest {
    AccountRoot(h, accounts, FreshStorageRoots(h, accounts, storage))
  }

  // ---------------------------------------------------------------- the operations

  function MarkDirty(s: State, a: Address): State {
    s.(dirty := s.dirty + {a}, rootDirty := true)
  }

  function AccountOrNew(s: State, a: Address): Account {
    if a in s.accounts then s.accounts[a] else NEW_ACCOUNT
  }

  function SetAccount(s: State, a: Address, account: Account): State {
    MarkDirty(s.(accounts := s.accounts[a := account]), a)
  }

  function SetStorage(s: State, a: Address, key: Word, value: Word): State {
    MarkDirty(s.(storage := if value == 0 then s.storage - {(a, key)} else s.storage[(a, key) := value]), a)
  }

  function GetStorage(s: State, a: Address, key: Word): Word {
    if (a, key) in s.storage then s.storage[(a, key)] else 0
  }

  function SetCode(h: Hash, s: State, a: Address, code: Bytes): State {
    SetAccount(s, a, AccountOrNew(s, a).(code := code, codeHash := if code == [] then ZERO_DIGEST else h(code)))
  }

  function SetBalance(s: State, a: Address, balance: Word): State {
    s.(accounts := s.accounts[a := AccountOrNew(s, a).(balance := balance)], rootDirty := true)
  }

  function SetNonce(s: State, a: Address, nonce: uint64): State {
    s.(accounts := s.accounts[a := AccountOrNew(s, a).(nonce := nonce)], rootDirty := true)
  }

  function StorageWithout(storage: map<(Address, Word), Word>, a: Address): map<(Address, Word), Word> {
    map p | p in storage && p.0 != a :: storage[p]
  }

  function DeleteAccount(s: State, a: Address): State {
    s.(accounts := s.accounts - {a},
       storage := StorageWithout(s.storage, a),
       storageRoots := s.storageRoots - {a},
       dirty := s.dirty - {a},
       rootDirty := true)
  }

  /** The root CalculateStorageRoot returns: the cached one unless it is missing or dirty. */
  function StorageRootOf(h: Hash, s: State, a: Address): Digest {
    if a in s.storageRoots && a !in s.dirty then s.storageRoots[a] else FreshStorageRoot(h, s.storage, a)
  }

  function StorageRootsOf(h: Hash, s: State): (r: map<Address, Digest>)
    ensures r.Keys == s.accounts.Keys
  {
    map a: Address | a in s.accounts :: StorageRootOf(h, s, a)
  }

  function CacheStorageRoot(h: Hash, s: State, a: Address): State {
    s.(storageRoots := s.storageRoots[a := StorageRootOf(h, s, a)], dirty := s.dirty - {a})
  }

  /** Storage roots are computed for the accounts in order, each filling the cache. */
  function CacheAll(h: Hash, s: State, keys: seq<nat>): (r: State)
    requires forall k | k in keys :: k in s.accounts
    ensures r.accounts == s.accounts && r.storage == s.storage
    ensures r.cachedRoot == s.cachedRoot && r.rootDirty == s.rootDirty
    decreases |keys|
  {
    if keys == [] then s
    else
      var last := |keys| - 1;
      assert keys[last] in keys;
      CacheStorageRoot(h, CacheAll(h, s, keys[..last]), keys[last])
  }

  /** The root CalculateStateRoot returns. */
  function StateRootOf(h: Hash, s: State): Digest {
    if !s.rootDirty && s.cachedRoot.Some? then s.cachedRoot.value
    else AccountRoot(h, s.accounts, StorageRootsOf(h, s))
  }

  /** The state after CalculateStateRoot. */
  function QueryRoot(h: Hash, s: State): State {
    if !s.rootDirty && s.cachedRoot.Some? then s
    else CacheAll(h, s, Ascending(s.accounts.Keys)).(cachedRoot := Some(StateRootOf(h, s)), rootDirty := false)
  }

  // ---------------------------------------------------------------- coherence of the caches

  /** Every cache entry that would be served is what a rebuild would give. */
  ghost predicate Coherent(h: Hash, s: State) {
    && RootsCoherent(h, s.storage, s.storageRoots, s.dirty)
    && (!s.rootDirty && s.cachedRoot.Some? ==> s.cachedRoot.value == FreshStateRoot(h, s.accounts, s.storage))
  }

  lemma StorageRootsAreFresh(h: Hash, s: State)
    requires Coherent(h, s)
    ensures StorageRootsOf(h, s) == FreshStorageRoots(h, s.accounts, s.storage)
  {
    forall a | a in s.accounts
      ensures StorageRootOf(h, s, a) == FreshStorageRoot(h, s.storage, a)
    {
    }
  }

  lemma StateRootIsFresh(h: Hash, s: State)
    requires Coherent(h, s)
    ensures StateRootOf(h, s) == FreshStateRoot(h, s.accounts, s.storage)
  {
    StorageRootsAreFresh(h, s);
  }

  /** Storage of other accounts does not enter an account's storage root. */
  lemma OtherStorageUntouched(h: Hash, s: map<(Address, Word), Word>, t: map<(Address, Word), Word>, a: Address)
    requires forall key: Word :: (a, key) in s <==> (a, key) in t
    requires forall key: Word | (a, key) in s :: s[(a, key)] == t[(a, key)]
    ensures FreshStorageRoot(h, s, a) == FreshStorageRoot(h, t, a)
  {
    var x, y := set p | p in s.Keys && p.0 == a :: p.1, set p | p in t.Keys && p.0 == a :: p.1;
    forall k ensures k in x <==> k in y {
      if k in x { assert (a, k) in s; }
      if k in y { assert (a, k) in t; }
    }
    assert x == y;
    SameEntries(s, t, a, StorageKeys(s, a));
  }

  lemma {:induction false} SameEntries(s: map<(Address, Word), Word>, t: map<(Address, Word), Word>,
                                       a: Address, keys: seq<nat>)
    requires AllStored(s, a, keys) && AllStored(t, a, keys)
    requires forall k | k in keys :: s[(a, k)] == t[(a, k)]
    ensures StorageEntries(s, a, keys) == StorageEntries(t, a, keys)
    decreases |keys|
  {
    if keys != [] {
      SameEntries(s, t, a, keys[..|keys| - 1]);
    }
  }

  /** The storage roots that would be served are right. */
  ghost predicate RootsCoherent(h: Hash, storage: map<(Address, Word), Word>,
                                roots: map<Address, Digest>, dirty: set<Address>) {
    forall a | a in roots && a !in dirty :: roots[a] == FreshStorageRoot(h, storage, a)
  }

  /** A change of storage that the dirty set covers. */
  lemma StorageChangeCoherent(h: Hash, s: map<(Address, Word), Word>, t: map<(Address, Word), Word>,
                              roots: map<Address, Digest>, dirty: set<Address>, dirty': set<Address>)
    requires RootsCoherent(h, s, roots, dirty) && dirty <= dirty'
    requires forall b: Address, key: Word | b !in dirty' :: (b, key) in s <==> (b, key) in t
    requires forall b: Address, key: Word | b !in dirty' && (b, key) in s :: s[(b, key)] == t[(b, key)]
    ensures RootsCoherent(h, t, roots, dirty')
  {
    forall b | b in roots && b !in dirty'
      ensures roots[b] == FreshStorageRoot(h, t, b)
    {
      OtherStorageUntouched(h, s, t, b);
    }
  }

  lemma SetStorageCoherent(h: Hash, s: State, a: Address, key: Word, value: Word)
    requires Coherent(h, s)
    ensures Coherent(h, SetStorage(s, a, key, value))
  {
    StorageChangeCoherent(h, s.storage, SetStorage(s, a, key, value).storage, s.storageRoots, s.dirty, s.dirty + {a});
  }

  lemma DeleteAccountCoherent(h: Hash, s: State, a: Address)
    requires Coherent(h, s)
    ensures Coherent(h, DeleteAccount(s, a))
  {
    StorageChangeCoherent(h, s.storage, StorageWithout(s.storage, a), s.storageRoots, s.dirty, s.dirty + {a});
  }

  lemma CacheOneCoherent(h: Hash, s: State, a: Address)
    requires Coherent(h, s)
    ensures Coherent(h, CacheStorageRoot(h, s, a))
  {
  }

  lemma {:induction false} CacheAllCoherent(h: Hash, s: State, keys: seq<nat>)
    requires Coherent(h, s) && forall k | k in keys :: k in s.accounts
    ensures Coherent(h, CacheAll(h, s, keys))
    decreases |keys|
  {
    if keys != [] {
      var last := keys[|keys| - 1];
      assert last in keys;
      CacheAllCoherent(h, s, keys[..|keys| - 1]);
      CacheOneCoherent(h, CacheAll(h, s, keys[..|keys| - 1]), last);
    }
  }

  lemma QueryRootCoherent(h: Hash, s: State)
    requires Coherent(h, s)
    ensures Coherent(h, QueryRoot(h, s))
  {
    StateRootIsFresh(h, s);
    CacheAllCoherent(h, s, Ascending(s.accounts.Keys));
  }

  // ---------------------------------------------------------------- runs

  datatype Op =
    | DoSetAccount(a: Address, account: Account)
    | DoSetStorage(a: Address, key: Word, value: Word)
    | DoSetCode(a: Address, code: Bytes)
    | DoSetBalance(a: Address, balance: Word)
    | DoSetNonce(a: Address, nonce: uint64)
    | DoDeleteAccount(a: Address)
    | DoQueryRoot
    | DoSnapshot
    | DoRestore(index: nat)

  /** A world and the snapshots taken of it so far. */
  datatype World = World(state: State, saved: seq<State>)

  function Step(h: Hash, w: World, op: Op): World {
    match op
    case DoSetAccount(a, account) => w.(state := SetAccount(w.state, a, account))
    case DoSetStorage(a, key, value) => w.(state := SetStorage(w.state, a, key, value))
    case DoSetCode(a, code) => w.(state := SetCode(h, w.state, a, code))
    case DoSetBalance(a, balance) => w.(state := SetBalance(w.state, a, balance))
    case DoSetNonce(a, nonce) => w.(state := SetNonce(w.state, a, nonce))
    case DoDeleteAccount(a) => w.(state := DeleteAccount(w.state, a))
    case DoQueryRoot => w.(state := QueryRoot(h, w.state))
    case DoSnapshot => w.(saved := w.saved + [w.state])
    case DoRestore(index) => if index < |w.saved| then w.(state := w.saved[index]) else w
  }

  function Run(h: Hash, w: World, ops: seq<Op>): World {
    if ops == [] then w else Step(h, Run(h, w, ops[..|ops| - 1]), ops[|ops| - 1])
  }

  ghost predicate CoherentWorld(h: Hash, w: World) {
    Coherent(h, w.state) && forall s | s in w.saved :: Coherent(h, s)
  }

  /** A change of accounts alone, with the root marked stale. */
  lemma AccountChangeCoherent(h: Hash, s: State, t: State)
    requires Coherent(h, s) && t.storage == s.storage && t.storageRoots == s.storageRoots && s.dirty <= t.dirty
    requires t.rootDirty
    ensures Coherent(h, t)
  {
  }

  lemma StepCoherent(h: Hash, w: World, op: Op)
    requires CoherentWorld(h, w)
    ensures CoherentWorld(h, Step(h, w, op))
  {
    match op
    case DoSetStorage(a, key, value) => SetStorageCoherent(h, w.state, a, key, value);
    case DoDeleteAccount(a) => DeleteAccountCoherent(h, w.state, a);
    case DoQueryRoot => QueryRootCoherent(h, w.state);
    case DoSnapshot => SnapshotCoherent(h, w, Step(h, w, op));
    case DoRestore(index) => RestoreCoherent(h, w, index, Step(h, w, op));
    case _ => AccountStepCoherent(h, w, op);
  }

  lemma SnapshotCoherent(h: Hash, w: World, t: World)
    requires CoherentWorld(h, w) && t == w.(saved := w.saved + [w.state])
    ensures CoherentWorld(h, t)
  {
    AllOfOneMore(s => Coherent(h, s), w.saved, w.state);
  }

  lemma RestoreCoherent(h: Hash, w: World, index: nat, t: World)
    requires CoherentWorld(h, w) && t == if index < |w.saved| then w.(state := w.saved[index]) else w
    ensures CoherentWorld(h, t)
  {
    if index < |w.saved| {
      OneOfAll(s => Coherent(h, s), w.saved, index);
    }
  }

  lemma OneOfAll(good: State -> bool, saved: seq<State>, index: nat)
    requires index < |saved| && forall t | t in saved :: good(t)
    ensures good(saved[index])
  {
  }

  lemma AllOfOneMore(good: State -> bool, saved: seq<State>, s: State)
    requires good(s) && forall t | t in saved :: good(t)
    ensures forall t | t in saved + [s] :: good(t)
  {
  }

  lemma AccountStepCoherent(h: Hash, w: World, op: Op)
    requires CoherentWorld(h, w) && (op.DoSetAccount? || op.DoSetCode? || op.DoSetBalance? || op.DoSetNonce?)
    ensures CoherentWorld(h, Step(h, w, op))
  {
    var t := Step(h, w, op);
    AccountStepKeeps(h, w, op, t);
    AccountChangeCoherent(h, w.state, t.state);
  }

  lemma AccountStepKeeps(h: Hash, w: World, op: Op, t: World)
    requires t == Step(h, w, op) && (op.DoSetAccount? || op.DoSetCode? || op.DoSetBalance? || op.DoSetNonce?)
    ensures t.saved == w.saved && t.state.rootDirty && w.state.dirty <= t.state.dirty
    ensures t.state.storage == w.state.storage && t.state.storageRoots == w.state.storageRoots
  {
  }

  /** However a world is driven, the root it reports is the root of a rebuild. */
  lemma {:induction false} ReachableRootIsFresh(h: Hash, ops: seq<Op>)
    ensures var s := Run(h, World(INITIAL, []), ops).state;
            StateRootOf(h, s) == FreshStateRoot(h, s.accounts, s.storage)
  {
    RunCoherent(h, World(INITIAL, []), ops);
    StateRootIsFresh(h, Run(h, World(INITIAL, []), ops).state);
  }

  lemma {:induction false} RunCoherent(h: Hash, w: World, ops: seq<Op>)
    requires CoherentWorld(h, w)
    ensures CoherentWorld(h, Run(h, w, ops))
    decreases |ops|
  {
    if ops != [] {
      RunCoherent(h, w, ops[..|ops| - 1]);
      StepCoherent(h, Run(h, w, ops[..|ops| - 1]), ops[|ops| - 1]);
    }
  }
}
