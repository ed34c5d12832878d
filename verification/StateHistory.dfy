/** What reads of the world state return, told from the operations alone. */
module StateHistory {
  import opened Bytes
  import opened Ordered
  import opened WorldStateModel

  // ---------------------------------------------------------------- what a run leaves in force

  /** Where in a run the snapshots were taken. */
  function SnapshotPoints(ops: seq<Op>): (points: seq<nat>)
    ensures forall i | 0 <= i < |points| :: points[i] < |ops|
  {
    if ops == [] then []
    else
      var last := |ops| - 1;
      SnapshotPoints(ops[..last]) + if ops[last].DoSnapshot? then [last] else []
  }

  /** The operations in force after a run: restoring a snapshot undoes whatever came after it. */
  function InForce(ops: seq<Op>): seq<Op>
    decreases |ops|
  {
    if ops == [] then []
    else
      var last := |ops| - 1;
      var points := SnapshotPoints(ops[..last]);
      if !ops[last].DoRestore? then InForce(ops[..last]) + [ops[last]]
      else if ops[last].index < |points| then InForce(ops[..points[ops[last].index]])
      else InForce(ops[..last])
  }

  lemma WithoutRestores(ops: seq<Op>)
    requires forall op | op in ops :: !op.DoRestore?
    ensures InForce(ops) == ops
  {
    if ops != [] {
      var last := |ops| - 1;
      assert ops[last] in ops;
      WithoutRestores(ops[..last]);
    }
  }

  // ---------------------------------------------------------------- what was last set

  /** The word last stored under the key since the last deletion of the account; none is zero. */
  function LastWord(ops: seq<Op>, a: Address, key: Word): Word {
    if ops == [] then 0
    else
      var op, before := ops[|ops| - 1], ops[..|ops| - 1];
      if op.DoSetStorage? && op.a == a && op.key == key then op.value
      else if op.DoDeleteAccount? && op.a == a then 0
      else LastWord(before, a, key)
  }

  /** Whether anything of the account was set since its last deletion. */
  predicate Known(ops: seq<Op>, a: Address) {
    ops != []
    && var op, before := ops[|ops| - 1], ops[..|ops| - 1];
       if (op.DoSetAccount? || op.DoSetCode? || op.DoSetBalance? || op.DoSetNonce?) && op.a == a then true
       else if op.DoDeleteAccount? && op.a == a then false
       else Known(before, a)
  }

  function LastBalance(ops: seq<Op>, a: Address): Word {
    if ops == [] then 0
    else
      var op, before := ops[|ops| - 1], ops[..|ops| - 1];
      if op.DoSetAccount? && op.a == a then op.account.balance
      else if op.DoSetBalance? && op.a == a then op.balance
      else if op.DoDeleteAccount? && op.a == a then 0
      else LastBalance(before, a)
  }

  function LastNonce(ops: seq<Op>, a: Address): nat {
    if ops == [] then 0
    else
      var op, before := ops[|ops| - 1], ops[..|ops| - 1];
      if op.DoSetAccount? && op.a == a then op.account.nonce
      else if op.DoSetNonce? && op.a == a then op.nonce
      else if op.DoDeleteAccount? && op.a == a then 0
      else LastNonce(before, a)
  }

  function LastCode(ops: seq<Op>, a: Address): Bytes {
    if ops == [] then []
    else
      var op, before := ops[|ops| - 1], ops[..|ops| - 1];
      if op.DoSetAccount? && op.a == a then op.account.code
      else if op.DoSetCode? && op.a == a then op.code
      else if op.DoDeleteAccount? && op.a == a then []
      else LastCode(before, a)
  }

  /** The hash that stands for the code: zero for none. */
  function LastCodeHash(h: Hash, ops: seq<Op>, a: Address): Digest {
    if ops == [] then ZERO_DIGEST
    else
      var op, before := ops[|ops| - 1], ops[..|ops| - 1];
      if op.DoSetAccount? && op.a == a then op.account.codeHash
      else if op.DoSetCode? && op.a == a then if op.code == [] then ZERO_DIGEST else h(op.code)
      else if op.DoDeleteAccount? && op.a == a then ZERO_DIGEST
      else LastCodeHash(h, before, a)
  }

  // ---------------------------------------------------------------- the state against its history

  /** Exactly the words that are not zero are stored. */
  ghost predicate StorageIs(s: State, past: seq<Op>) {
    forall a: Address, key: Word ::
      if (a, key) in s.storage then s.storage[(a, key)] == LastWord(past, a, key) != 0 else LastWord(past, a, key) == 0
  }

  ghost predicate AccountIs(h: Hash, account: Account, past: seq<Op>, a: Address) {
    && account.balance == LastBalance(past, a) && account.nonce == LastNonce(past, a)
    && account.code == LastCode(past, a) && account.codeHash == LastCodeHash(h, past, a)
  }

  ghost predicate AccountsAre(h: Hash, s: State, past: seq<Op>) {
    forall a: Address :: AccountAt(h, s, past, a)
  }

  ghost predicate AccountAt(h: Hash, s: State, past: seq<Op>, a: Address) {
    && (a in s.accounts <==> Known(past, a))
    && AccountIs(h, if a in s.accounts then s.accounts[a] else NEW_ACCOUNT, past, a)
  }

  lemma OneMoreOp(h: Hash, past: seq<Op>, op: Op)
    ensures past + [op] != [] && (past + [op])[..|past + [op]| - 1] == past && (past + [op])[|past + [op]| - 1] == op
  {
  }

  lemma StepStorageIs(h: Hash, w: World, op: Op, past: seq<Op>)
    requires StorageIs(w.state, past) && !op.DoRestore?
    ensures StorageIs(Step(h, w, op).state, past + [op])
  {
    OneMoreOp(h, past, op);
    forall a: Address, key: Word
      ensures var s := Step(h, w, op).state;
              if (a, key) in s.storage then s.storage[(a, key)] == LastWord(past + [op], a, key) != 0
              else LastWord(past + [op], a, key) == 0
    {
    }
  }

  lemma StepAccountsAre(h: Hash, w: World, op: Op, past: seq<Op>)
    requires AccountsAre(h, w.state, past) && !op.DoRestore?
    ensures AccountsAre(h, Step(h, w, op).state, past + [op])
  {
    forall a: Address ensures AccountAt(h, Step(h, w, op).state, past + [op], a) {
      assert AccountAt(h, w.state, past, a);
      StepAccountAt(h, w, op, past, a);
    }
  }

  lemma StepAccountAt(h: Hash, w: World, op: Op, past: seq<Op>, a: Address)
    requires AccountAt(h, w.state, past, a) && !op.DoRestore?
    ensures AccountAt(h, Step(h, w, op).state, past + [op], a)
  {
    OneMoreOp(h, past, op);
  }

  ghost predicate TakenAt(h: Hash, saved: seq<State>, points: seq<nat>, ops: seq<Op>)
    requires forall i | 0 <= i < |points| :: points[i] < |ops|
  {
    && |saved| == |points|
    && forall i | 0 <= i < |points| :: saved[i] == Run(h, World(INITIAL, []), ops[..points[i]]).state
  }

  /** A snapshot is the state at the point it was taken. */
  lemma {:induction false} SavedAtPoints(h: Hash, ops: seq<Op>)
    ensures TakenAt(h, Run(h, World(INITIAL, []), ops).saved, SnapshotPoints(ops), ops)
    decreases |ops|
  {
    if ops != [] {
      var last := |ops| - 1;
      var w := Run(h, World(INITIAL, []), ops[..last]);
      SavedAtPoints(h, ops[..last]);
      SavedStep(h, w, ops[last]);
      TakenStep(h, ops, last, w, SnapshotPoints(ops[..last]));
    }
  }

  lemma SavedStep(h: Hash, w: World, op: Op)
    ensures Step(h, w, op).saved == w.saved + if op.DoSnapshot? then [w.state] else []
  {
  }

  lemma {:induction false} TakenStep(h: Hash, ops: seq<Op>, last: nat, w: World, points: seq<nat>)
    requires last == |ops| - 1 && w == Run(h, World(INITIAL, []), ops[..last]) && points == SnapshotPoints(ops[..last])
    requires TakenAt(h, w.saved, points, ops[..last])
    ensures TakenAt(h, w.saved + (if ops[last].DoSnapshot? then [w.state] else []), SnapshotPoints(ops), ops)
  {
    forall i | 0 <= i < |points| ensures ops[..last][..points[i]] == ops[..points[i]] {
    }
  }

  lemma {:induction false} RestoredAt(h: Hash, ops: seq<Op>, index: nat, point: nat)
    requires ops != [] && ops[|ops| - 1] == DoRestore(index)
    requires index < |SnapshotPoints(ops[..|ops| - 1])| && point == SnapshotPoints(ops[..|ops| - 1])[index]
    ensures Run(h, World(INITIAL, []), ops).state == Run(h, World(INITIAL, []), ops[..point]).state
  {
    SavedAtPoints(h, ops[..|ops| - 1]);
    assert ops[..|ops| - 1][..point] == ops[..point];
  }

  lemma {:induction false} RunIsHistory(h: Hash, ops: seq<Op>)
    ensures var s := Run(h, World(INITIAL, []), ops).state;
            StorageIs(s, InForce(ops)) && AccountsAre(h, s, InForce(ops))
    decreases |ops|
  {
    if ops != [] {
      var last := |ops| - 1;
      var w := Run(h, World(INITIAL, []), ops[..last]);
      RunIsHistory(h, ops[..last]);
      if ops[last].DoRestore? {
        var points := SnapshotPoints(ops[..last]);
        if ops[last].index < |points| {
          RunIsHistory(h, ops[..points[ops[last].index]]);
          RestoredAt(h, ops, ops[last].index, points[ops[last].index]);
        } else {
          SavedAtPoints(h, ops[..last]);
        }
      } else {
        StepStorageIs(h, w, ops[last], InForce(ops[..last]));
        StepAccountsAre(h, w, ops[last], InForce(ops[..last]));
      }
    }
  }

  /** However a world is driven: the word read under a key is the last one stored there since the last deletion of
      the account, or zero; an account exists if anything of it was set since, and its balance, nonce, code and
      code hash are the last ones set, or those of a new account. What a restore has undone counts for nothing. */
  lemma ReadsAreHistory(h: Hash, ops: seq<Op>, a: Address, key: Word)
    ensures var s, past := Run(h, World(INITIAL, []), ops).state, InForce(ops);
            && GetStorage(s, a, key) == LastWord(past, a, key)
            && (a in s.accounts <==> Known(past, a))
            && (a in s.accounts ==>
                  && s.accounts[a].balance == LastBalance(past, a) && s.accounts[a].nonce == LastNonce(past, a)
                  && s.accounts[a].code == LastCode(past, a) && s.accounts[a].codeHash == LastCodeHash(h, past, a))
            && (a !in s.accounts ==>
                  LastBalance(past, a) == 0 && LastNonce(past, a) == 0 && LastCode(past, a) == [])
    ensures (forall op | op in ops :: !op.DoRestore?) ==> InForce(ops) == ops
  {
    if forall op | op in ops :: !op.DoRestore? {
      WithoutRestores(ops);
    }
    RunIsHistory(h, ops);
    assert AccountAt(h, Run(h, World(INITIAL, []), ops).state, InForce(ops), a);
  }

  /** An account under which no word is left, as after a deletion, has the storage root of an empty trie, whatever
      was cached for it. */
  lemma NoWordsNoRoot(h: Hash, ops: seq<Op>, a: Address)
    requires forall key: Word :: LastWord(InForce(ops), a, key) == 0
    ensures StorageRootOf(h, Run(h, World(INITIAL, []), ops).state, a) == ZERO_DIGEST
  {
    var s := Run(h, World(INITIAL, []), ops).state;
    RunIsHistory(h, ops);
    RunCoherent(h, World(INITIAL, []), ops);
    assert StorageKeys(s.storage, a) == [];
  }

  /** Right after a deletion nothing is left of an account, and everything of the others. */
  lemma DeletedExactly(h: Hash, ops: seq<Op>, a: Address, b: Address, key: Word)
    ensures var s, t := Run(h, World(INITIAL, []), ops).state, Run(h, World(INITIAL, []), ops + [DoDeleteAccount(a)]).state;
            && a !in t.accounts && GetStorage(t, a, key) == 0 && StorageRootOf(h, t, a) == ZERO_DIGEST
            && (b != a ==>
                  && GetStorage(t, b, key) == GetStorage(s, b, key)
                  && (b in t.accounts <==> b in s.accounts)
                  && (b in s.accounts ==> t.accounts[b] == s.accounts[b]))
  {
    var deleted := ops + [DoDeleteAccount(a)];
    assert deleted[..|ops|] == ops;
    OneMoreOp(h, InForce(ops), DoDeleteAccount(a));
    ReadsAreHistory(h, deleted, a, key);
    ReadsAreHistory(h, deleted, b, key);
    ReadsAreHistory(h, ops, b, key);
    NoWordsNoRoot(h, deleted, a);
  }
}
