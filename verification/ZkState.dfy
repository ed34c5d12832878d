/** The state of the ZK rollup: nullifiers, balances and their root. */
module ZkState {
  import opened Bytes
  import opened Ordered
  import opened Merkle

  /** A nullifier is a 32-byte string, here the number its bytes spell; the map of balances, whose keys
      are those strings, is ordered by it. */
  type Nullifier = n: nat | n < Pow256(32)

  datatype Tx = Tx(nullifier: Nullifier, commitment: Digest)

  datatype State = State(root: Digest, balances: map<Nullifier, Digest>, used: set<Nullifier>)

  const INITIAL: State := State(ZERO_DIGEST, map[], {})

  /** The key an account is held under. */
  function Key(account: nat): Bytes {
    BigEndian(account, 32)
  }

  function HashAccount(h: Hash, account: nat): Digest {
    h(Key(account))
  }

  function Leaves(h: Hash, accounts: seq<nat>): (r: seq<Digest>)
    ensures |r| == |accounts|
    decreases |accounts|
  {
    if accounts == [] then []
    else Leaves(h, accounts[..|accounts| - 1]) + [HashAccount(h, accounts[|accounts| - 1])]
  }

  lemma {:induction false} LeafAt(h: Hash, accounts: seq<nat>, i: nat)
    requires i < |accounts|
    ensures Leaves(h, accounts)[i] == HashAccount(h, accounts[i])
    decreases |accounts|
  {
    if i < |accounts| - 1 {
      LeafAt(h, accounts[..|accounts| - 1], i);
    }
  }

  function Held(s: State): seq<nat> {
    Ascending(s.balances.Keys)
  }

  /** A transaction whose nullifier has been used changes nothing. */
  function Applied(h: Hash, s: State, tx: Tx): State {
    if tx.nullifier in s.used then s
    else
      var balances := s.balances[tx.nullifier := tx.commitment];
      State(Root(h, Leaves(h, Ascending(balances.Keys))), balances, s.used + {tx.nullifier})
  }

  function Position(accounts: seq<nat>, account: nat): (i: nat)
    requires account in accounts
    ensures i < |accounts| && accounts[i] == account
    decreases |accounts|
  {
    if accounts[0] == account then 0 else 1 + Position(accounts[1..], account)
  }

  function MerkleProofOf(h: Hash, s: State, account: nat): seq<Sibling> {
    if account in s.balances then
      Proof(h, Leaves(h, Held(s)), Position(Held(s), account))
    else []
  }

  /** The proof for a byte string: that of the account it is the key of, or none. */
  ghost predicate IsProofOf(h: Hash, s: State, account: Bytes, proof: seq<Sibling>) {
    && (forall n: Nullifier | n in s.balances && Key(n) == account :: proof == MerkleProofOf(h, s, n))
    && ((forall n: Nullifier | n in s.balances :: Key(n) != account) ==> proof == [])
  }

  lemma NoKeyIsEmpty(s: State)
    ensures forall n: Nullifier | n in s.balances :: Key(n) != []
  {
    forall n: Nullifier | n in s.balances ensures Key(n) != [] {
      assert |Key(n)| == 32;
    }
  }

  lemma NotHeld(s: State, accounts: seq<nat>, account: Bytes)
    requires accounts == Held(s) && forall i | 0 <= i < |accounts| :: Key(accounts[i]) != account
    ensures forall n: Nullifier | n in s.balances :: Key(n) != account
  {
    forall n: Nullifier | n in s.balances ensures Key(n) != account {
      assert n in accounts;
    }
  }

  lemma FoundHeld(h: Hash, s: State, accounts: seq<nat>, account: Bytes, index: nat)
    requires accounts == Held(s) && index < |accounts| && Key(accounts[index]) == account
    ensures IsProofOf(h, s, account, Proof(h, Leaves(h, accounts), index))
  {
    assert accounts[index] in s.balances;
    var proof := Proof(h, Leaves(h, accounts), index);
    forall n: Nullifier | n in s.balances && Key(n) == account ensures proof == MerkleProofOf(h, s, n) {
      KeyInjective(n, accounts[index]);
      OnePosition(accounts, n, index);
      assert MerkleProofOf(h, s, n) == proof;
    }
  }

  function Run(h: Hash, txs: seq<Tx>): State
    decreases |txs|
  {
    if txs == [] then INITIAL else Applied(h, Run(h, txs[..|txs| - 1]), txs[|txs| - 1])
  }

  /** The commitment of the first transaction that spends a nullifier. */
  function FirstSpend(txs: seq<Tx>, nullifier: nat): Option<Digest>
    decreases |txs|
  {
    if txs == [] then None
    else if txs[0].nullifier == nullifier then Some(txs[0].commitment)
    else FirstSpend(txs[1..], nullifier)
  }

  lemma {:induction false} FirstSpendAppend(txs: seq<Tx>, tx: Tx, nullifier: nat)
    ensures FirstSpend(txs + [tx], nullifier)
            == if FirstSpend(txs, nullifier).Some? then FirstSpend(txs, nullifier)
               else if tx.nullifier == nullifier then Some(tx.commitment) else None
    decreases |txs|
  {
    if txs != [] {
      assert (txs + [tx])[1..] == txs[1..] + [tx];
      FirstSpendAppend(txs[1..], tx, nullifier);
    }
  }

  ghost predicate Consistent(h: Hash, s: State) {
    s.used == s.balances.Keys && s.root == Root(h, Leaves(h, Held(s)))
  }

  lemma {:induction false} ReachableConsistent(h: Hash, txs: seq<Tx>)
    ensures Consistent(h, Run(h, txs))
    decreases |txs|
  {
    if txs != [] {
      ReachableConsistent(h, txs[..|txs| - 1]);
    }
  }

  /** A nullifier is spent at most once in a run: what is held under it is the commitment of the
      first transaction that spends it, and nothing else is held. */
  lemma {:induction false} OnlyFirstSpendCounts(h: Hash, txs: seq<Tx>, nullifier: nat)
    ensures var s := Run(h, txs);
            FirstSpend(txs, nullifier) == if nullifier in s.balances then Some(s.balances[nullifier]) else None
    decreases |txs|
  {
    if txs != [] {
      var before, tx := txs[..|txs| - 1], txs[|txs| - 1];
      assert txs == before + [tx];
      FirstSpendAppend(before, tx, nullifier);
      OnlyFirstSpendCounts(h, before, nullifier);
      ReachableConsistent(h, before);
    }
  }

  /** In every reachable state the proof of any held account verifies against the state root. */
  lemma HeldAccountsVerify(h: Hash, txs: seq<Tx>, account: nat)
    requires account in Run(h, txs).balances
    ensures Fold(h, HashAccount(h, account), MerkleProofOf(h, Run(h, txs), account)) == Run(h, txs).root
  {
    var s := Run(h, txs);
    ReachableConsistent(h, txs);
    LeafAt(h, Held(s), Position(Held(s), account));
    HonestProofReachesRoot(h, Leaves(h, Held(s)), Position(Held(s), account));
  }

  // ---------------------------------------------------------------- what else verifies

  ghost function Keys(s: State): set<Bytes> {
    set n | n in s.balances :: Key(n)
  }

  /** Everything hashed for the state root, and everything hashed for a proof. */
  ghost function StateStrings(h: Hash, s: State): set<Bytes> {
    Keys(s) + TreeStrings(h, Leaves(h, Held(s)))
  }

  ghost function ProofStrings(h: Hash, account: Bytes, proof: seq<Sibling>): set<Bytes> {
    {account} + PathStrings(h, h(account), proof)
  }

  /** The verification never looks at the length of a proof. Whatever byte string verifies, with a proof of
      any length, is the key of a held account or a string hashed inside the tree, unless two different
      strings with one digest have been found among those hashed, or one with the all-zero digest where no
      account is held. */
  lemma OnlyHeldAccountsVerify(h: Hash, txs: seq<Tx>, account: Bytes, proof: seq<Sibling>)
    requires Fold(h, h(account), proof) == Run(h, txs).root
    ensures var s := Run(h, txs);
            || account in Keys(s)
            || account in TreeStrings(h, Leaves(h, Held(s)))
            || Collide(h, ProofStrings(h, account, proof), StateStrings(h, s))
            || (s.balances == map[] && exists x :: x in ProofStrings(h, account, proof) && h(x) == ZERO_DIGEST)
  {
    var s := Run(h, txs);
    ReachableConsistent(h, txs);
    if s.balances == map[] {
      EmptyRoot(h, s);
      var x := LastHashed(h, account, proof);
    } else {
      SomeLeaf(h, s);
      var leaves := Leaves(h, Held(s));
      if |proof| > Height(|leaves|) {
        LongProof(h, s, account, proof, leaves);
      } else {
        ShortProof(h, s, account, proof, leaves);
      }
    }
  }

  lemma EmptyRoot(h: Hash, s: State)
    requires s.balances == map[]
    ensures Root(h, Leaves(h, Held(s))) == ZERO_DIGEST
  {
    assert s.balances.Keys == {};
  }

  lemma SomeLeaf(h: Hash, s: State)
    requires s.balances != map[]
    ensures Leaves(h, Held(s)) != []
  {
    var k :| k in s.balances;
    assert k in Held(s);
  }

  lemma LastHashed(h: Hash, account: Bytes, proof: seq<Sibling>) returns (x: Bytes)
    ensures x in ProofStrings(h, account, proof) && h(x) == Fold(h, h(account), proof)
  {
    if proof == [] {
      x := account;
    } else {
      x := FoldedString(h, h(account), proof, |proof|);
      assert proof[..|proof|] == proof;
    }
  }

  /** A leaf is the digest of a key. */
  lemma LeafKey(h: Hash, s: State, leaf: Digest) returns (key: Bytes)
    requires leaf in Leaves(h, Held(s))
    ensures key in Keys(s) && |key| == 32 && h(key) == leaf
  {
    var i :| 0 <= i < |Held(s)| && Leaves(h, Held(s))[i] == leaf;
    LeafAt(h, Held(s), i);
    assert Held(s)[i] in s.balances;
    key := Key(Held(s)[i]);
  }

  lemma SameOrCollide(h: Hash, x: Bytes, y: Bytes, xs: set<Bytes>, ys: set<Bytes>)
    requires x in xs && y in ys && h(x) == h(y)
    ensures x == y || Collide(h, xs, ys)
  {
  }

  lemma {:induction false} LongProof(h: Hash, s: State, account: Bytes, proof: seq<Sibling>, leaves: seq<Digest>)
    requires leaves == Leaves(h, Held(s)) && leaves != [] && |proof| > Height(|leaves|)
    requires Fold(h, h(account), proof) == Root(h, leaves)
    ensures Explained(h, s, account, proof)
  {
    LongProofPassesLeaf(h, leaves, h(account), proof);
    if x :| x in PathStrings(h, h(account), proof) && |x| == 64 && h(x) in leaves {
      var key := LeafKey(h, s, h(x));
      SameOrCollide(h, x, key, ProofStrings(h, account, proof), StateStrings(h, s));
    } else {
      FromCollision(h, s, account, proof);
    }
  }

  lemma ShortProof(h: Hash, s: State, account: Bytes, proof: seq<Sibling>, leaves: seq<Digest>)
    requires leaves == Leaves(h, Held(s)) && leaves != [] && |proof| <= Height(|leaves|)
    requires Fold(h, h(account), proof) == Root(h, leaves)
    ensures Explained(h, s, account, proof)
  {
    ShortProofStarts(h, leaves, h(account), proof);
    if h(account) in leaves {
      var key := LeafKey(h, s, h(account));
      SameOrCollide(h, account, key, ProofStrings(h, account, proof), StateStrings(h, s));
    } else if x :| x in TreeStrings(h, leaves) && h(x) == h(account) {
      SameOrCollide(h, account, x, ProofStrings(h, account, proof), StateStrings(h, s));
    } else {
      FromCollision(h, s, account, proof);
    }
  }

  /** The string is among those hashed for the state, or a collision is exhibited. */
  ghost predicate Explained(h: Hash, s: State, account: Bytes, proof: seq<Sibling>) {
    account in StateStrings(h, s) || Collide(h, ProofStrings(h, account, proof), StateStrings(h, s))
  }

  lemma FromCollision(h: Hash, s: State, account: Bytes, proof: seq<Sibling>)
    requires Collide(h, PathStrings(h, h(account), proof), TreeStrings(h, Leaves(h, Held(s))))
    ensures Collide(h, ProofStrings(h, account, proof), StateStrings(h, s))
  {
    CollideMore(h, PathStrings(h, h(account), proof), TreeStrings(h, Leaves(h, Held(s))),
                ProofStrings(h, account, proof), StateStrings(h, s));
  }

  /** Conversely every key of a held account verifies, and so does every string hashed inside the tree,
      though no account is held under it: keys have 32 bytes, those strings 64. */
  lemma InnerStringsVerify(h: Hash, txs: seq<Tx>, account: Bytes)
    requires account in TreeStrings(h, Leaves(h, Held(Run(h, txs))))
    ensures account !in Keys(Run(h, txs))
    ensures exists proof :: Fold(h, h(account), proof) == Run(h, txs).root
  {
    ReachableConsistent(h, txs);
    var leaves := Leaves(h, Held(Run(h, txs)));
    var proof := TreeStringHasProof(h, leaves, account);
    assert Fold(h, h(account), proof) == Run(h, txs).root;
    TreeStringsAreLong(h, leaves, account);
  }

  lemma {:induction false} TreeStringsAreLong(h: Hash, layer: seq<Digest>, x: Bytes)
    requires x in TreeStrings(h, layer)
    ensures |x| == 64
    decreases |layer|
  {
    if x in TreeStrings(h, NextLayer(h, layer)) {
      TreeStringsAreLong(h, NextLayer(h, layer), x);
    }
  }

  function FirstPair(leaves: seq<Digest>): Bytes
    requires |leaves| >= 2
  {
    var left: Bytes := leaves[0];
    left + leaves[1]
  }

  /** With two accounts held, the two first leaves side by side verify with one proof step less. */
  lemma TwoLeavesVerify(h: Hash, txs: seq<Tx>)
    requires |Held(Run(h, txs))| >= 2
    ensures var s := Run(h, txs);
            var leaves := Leaves(h, Held(s));
            && FirstPair(leaves) !in Keys(s)
            && Fold(h, h(FirstPair(leaves)), Proof(h, NextLayer(h, leaves), 0)) == s.root
  {
    ReachableConsistent(h, txs);
    var leaves := Leaves(h, Held(Run(h, txs)));
    assert |FirstPair(leaves)| == 64;
    PairHasProof(h, leaves, FirstPair(leaves), 0);
  }

  /** Different accounts are held under different keys. */
  lemma KeyInjective(a: Nullifier, b: Nullifier)
    requires Key(a) == Key(b)
    ensures a == b
  {
    BigEndianInjective(a, b, 32);
  }

  // ---------------------------------------------------------------- the object

  class ZKRollupState {
    const h: Hash
    var stateRoot: Digest
    var balances: map<Nullifier, Digest>
    var usedNullifiers: set<Nullifier>

    ghost function View(): State
      reads this
    {
      State(stateRoot, balances, usedNullifiers)
    }

    constructor (h: Hash)
      ensures this.h == h && View() == INITIAL
    {
      this.h := h;
      stateRoot, balances, usedNullifiers := ZERO_DIGEST, map[], {};
    }

    method ApplyTransaction(tx: Tx) returns (ok: bool)
      modifies this
      ensures ok == (tx.nullifier !in old(usedNullifiers))
      ensures View() == Applied(h, old(View()), tx)
    {
      if tx.nullifier in usedNullifiers {
        return false;
      }
      usedNullifiers := usedNullifiers + {tx.nullifier};
      balances := balances[tx.nullifier := tx.commitment];
      var accounts := Ascending(balances.Keys);
      var leaves := HashAccounts(accounts);
      stateRoot := ComputeMerkleRoot(h, leaves);
      return true;
    }

    method HashAccounts(accounts: seq<nat>) returns (leaves: seq<Digest>)
      ensures leaves == Leaves(h, accounts)
    {
      leaves := [];
      for i := 0 to |accounts|
        invariant leaves == Leaves(h, accounts[..i])
      {
        assert accounts[..i + 1][..i] == accounts[..i];
        leaves := leaves + [HashAccount(h, accounts[i])];
      }
      assert accounts[..|accounts|] == accounts;
    }

    method GetMerkleProof(account: Bytes) returns (proof: seq<Sibling>)
      ensures IsProofOf(h, View(), account, proof)
    {
      if account == [] {
        NoKeyIsEmpty(View());
        return [];
      }
      var accounts := Ascending(balances.Keys);
      var leaves := HashAccounts(accounts);
      var found, index := FindAccount(accounts, account);
      if !found {
        NotHeld(View(), accounts, account);
        return [];
      }
      proof := BuildMerkleProof(h, leaves, index);
      FoundHeld(h, View(), accounts, account, index);
    }

    method FindAccount(accounts: seq<nat>, account: Bytes) returns (found: bool, index: nat)
      ensures found <==> exists i :: 0 <= i < |accounts| && Key(accounts[i]) == account
      ensures found ==> index < |accounts| && Key(accounts[index]) == account
    {
      index, found := 0, false;
      for current := 0 to |accounts|
        invariant found <==> exists i :: 0 <= i < current && Key(accounts[i]) == account
        invariant found ==> index < |accounts| && Key(accounts[index]) == account
      {
        if Key(accounts[current]) == account {
          index, found := current, true;
        }
      }
    }

    method VerifyMerkleProof(account: Bytes, proof: seq<Sibling>, root: Digest) returns (ok: bool)
      ensures ok <==> account != [] && Fold(h, h(account), proof) == root
    {
      if account == [] {
        return false;
      }
      var current := FoldProof(h, h(account), proof);
      return current == root;
    }
  }

  lemma OnePosition(accounts: seq<nat>, account: nat, i: nat)
    requires i < |accounts| && accounts[i] == account
    requires forall i, j | 0 <= i < j < |accounts| :: accounts[i] < accounts[j]
    ensures Position(accounts, account) == i
  {
    var p := Position(accounts, account);
    assert accounts[p] == accounts[i];
  }
}
