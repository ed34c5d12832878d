/** The optimistic rollup as a state machine: submit, challenge, roll back, finalize. */
module RollupModel {
  import opened Bytes

  datatype Batch = Batch(
    id: nat, before: Digest, after: Digest, txs: seq<Digest>, timestamp: nat, signature: Bytes)

  datatype Info = Info(batch: Batch, submitted: nat, finalized: bool, challenged: bool)

  datatype Tx = Tx(digest: Digest, sender: Bytes, receiver: Bytes, signature: Bytes)

  datatype FraudProof = FraudProof(
    id: nat, index: nat, claimed: Digest, correct: Digest,
    stateBefore: Bytes, stateAfter: Bytes, evidence: Bytes)

  datatype Rollup = Rollup(
    current: nat, root: Digest, height: nat, period: nat, batches: map<nat, Info>, pending: seq<Tx>)

  const INITIAL: Rollup := Rollup(0, ZERO_DIGEST, 0, 100, map[], [])

  // ---------------------------------------------------------------- re-execution

  /** The state root after executing the transactions in order. */
  function Execute(h: Hash, root: Digest, txs: seq<Digest>): Digest {
    if txs == [] then root else h(Execute(h, root, txs[..|txs| - 1]) + txs[|txs| - 1])
  }

  predicate VerifyBatch(h: Hash, b: Batch) {
    b.txs != [] && b.signature != [] && Execute(h, b.before, b.txs) == b.after
  }

  predicate VerifyFraudProof(h: Hash, r: Rollup, p: FraudProof) {
    && p.id in r.batches
    && var b := r.batches[p.id].batch;
    && p.index < |b.txs|
    && p.claimed != p.correct
    && p.evidence != [] && p.stateBefore != [] && p.stateAfter != []
    && var computed := Execute(h, b.before, b.txs[..p.index + 1]);
    && computed != p.claimed && computed == p.correct
  }

  /** `None` where the source returns nothing; for a batch without transactions it reads past the
      transaction list, which is `Undefined` here. */
  datatype Generated = NoProof | Proof(proof: FraudProof) | Undefined

  function GenerateFraudProof(h: Hash, r: Rollup, id: nat): Generated {
    if id !in r.batches then NoProof
    else
      var b := r.batches[id].batch;
      if VerifyBatch(h, b) then NoProof
      else if b.txs == [] then Undefined
      else
        var last := |b.txs| - 1;
        var correct := Execute(h, b.before, b.txs);
        Proof(FraudProof(id, last % 0x1_0000_0000, b.after, correct,
                         Execute(h, b.before, b.txs[..last]), correct, b.txs[last]))
  }

  // ---------------------------------------------------------------- operations

  function SubmitBatch(r: Rollup, b: Batch): (Rollup, bool) {
    if b.id != (r.current + 1) % TWO_64 || (r.current > 0 && b.before != r.root) then (r, false)
    else
      (r.(batches := r.batches[b.id := Info(b, r.height, false, false)], current := b.id, root := b.after), true)
  }

  function SubmitFraudProof(h: Hash, r: Rollup, p: FraudProof): (Rollup, bool) {
    if p.id !in r.batches || r.batches[p.id].finalized || !VerifyFraudProof(h, r, p) then (r, false)
    else
      var info := r.batches[p.id];
      var marked := r.(batches := r.batches[p.id := info.(challenged := true)]);
      if info.batch.id == r.current then
        (marked.(root := info.batch.before, current := (r.current - 1) % TWO_64), true)
      else (marked, true)
  }

  function FinalizeBatch(r: Rollup, id: nat): (Rollup, bool) {
    if id !in r.batches then (r, false)
    else
      var info := r.batches[id];
      if r.height < (info.submitted + r.period) % TWO_64 || info.challenged then (r, false)
      else (r.(batches := r.batches[id := info.(finalized := true)]), true)
  }

  function AddTransaction(r: Rollup, tx: Tx): (Rollup, bool) {
    if tx.sender == [] || tx.receiver == [] || tx.signature == [] then (r, false)
    else (r.(pending := r.pending + [tx]), true)
  }

  function Hashes(txs: seq<Tx>): (r: seq<Digest>)
    ensures |r| == |txs|
  {
    if txs == [] then [] else Hashes(txs[..|txs| - 1]) + [txs[|txs| - 1].digest]
  }

  function CreateBatch(r: Rollup): (Rollup, Batch) {
    (r.(pending := []),
     Batch((r.current + 1) % TWO_64, r.root, ZERO_DIGEST, Hashes(r.pending), r.height, []))
  }

  // ---------------------------------------------------------------- runs

  datatype Op =
    | Submit(batch: Batch)
    | Challenge(proof: FraudProof)
    | Finalize(id: nat)
    | Add(tx: Tx)
    | Create
    | Advance(blocks: nat)
    | SetPeriod(period: uint64)

  function Apply(h: Hash, r: Rollup, op: Op): Rollup {
    match op
    case Submit(b) => SubmitBatch(r, b).0
    case Challenge(p) => SubmitFraudProof(h, r, p).0
    case Finalize(id) => FinalizeBatch(r, id).0
    case Add(tx) => AddTransaction(r, tx).0
    case Create => CreateBatch(r).0
    case Advance(blocks) => r.(height := r.height + blocks)
    case SetPeriod(period) => r.(period := period)
  }

  function Run(h: Hash, r: Rollup, ops: seq<Op>): Rollup {
    if ops == [] then r else Apply(h, Run(h, r, ops[..|ops| - 1]), ops[|ops| - 1])
  }

  // ---------------------------------------------------------------- the invariant

  /** Batches 1 to `current` are the live chain. */
  ghost predicate Chained(r: Rollup) {
    && (forall k | 1 <= k <= r.current :: k in r.batches)
    && (forall k | 1 < k <= r.current :: r.batches[k].batch.before == r.batches[k - 1].batch.after)
    && (r.current > 0 ==> r.root == r.batches[r.current].batch.after)
  }

  /** Every stored batch is in its place; past the live chain there are only challenged ones. */
  ghost predicate Settled(r: Rollup) {
    && (forall k | k in r.batches :: k >= 1 && r.batches[k].batch.id == k)
    && (forall k | k in r.batches && k > r.current :: r.batches[k].challenged)
    && (forall k | k in r.batches :: !(r.batches[k].finalized && r.batches[k].challenged))
  }

  ghost predicate Sound(r: Rollup) {
    Chained(r) && Settled(r)
  }

  /** What a finalized batch keeps: its entry, and its place in the live chain. */
  ghost predicate FinalKept(r: Rollup, s: Rollup) {
    forall k | k in r.batches && r.batches[k].finalized ::
      k <= s.current && k in s.batches && s.batches[k] == r.batches[k]
  }

  lemma ApplySound(h: Hash, r: Rollup, op: Op)
    requires Sound(r) && r.current < MAX_U64
    ensures Sound(Apply(h, r, op)) && FinalKept(r, Apply(h, r, op)) && Apply(h, r, op).current <= r.current + 1
  {
    match op
    case Submit(b) => SubmitSound(r, b);
    case Challenge(p) => ChallengeSound(h, r, p);
    case _ =>
  }

  lemma SubmitSound(r: Rollup, b: Batch)
    requires Sound(r) && r.current < MAX_U64
    ensures var s := SubmitBatch(r, b).0; Sound(s) && FinalKept(r, s) && s.current <= r.current + 1
  {
    SubmitChained(r, b);
    SubmitSettled(r, b);
  }

  lemma SubmitChained(r: Rollup, b: Batch)
    requires Chained(r) && r.current < MAX_U64
    ensures Chained(SubmitBatch(r, b).0)
  {
  }

  lemma SubmitSettled(r: Rollup, b: Batch)
    requires Settled(r) && r.current < MAX_U64
    ensures Settled(SubmitBatch(r, b).0) && FinalKept(r, SubmitBatch(r, b).0)
  {
  }

  lemma ChallengeSound(h: Hash, r: Rollup, p: FraudProof)
    requires Sound(r) && r.current < MAX_U64
    ensures var s := SubmitFraudProof(h, r, p).0; Sound(s) && FinalKept(r, s) && s.current <= r.current
  {
    if SubmitFraudProof(h, r, p).1 {
      if p.id == r.current {
        assert (r.current - 1) % TWO_64 == r.current - 1;
      }
      ChallengeChained(h, r, p);
      ChallengeSettled(h, r, p);
    }
  }

  lemma ChallengeChained(h: Hash, r: Rollup, p: FraudProof)
    requires Sound(r) && r.current < MAX_U64 && SubmitFraudProof(h, r, p).1
    ensures Chained(SubmitFraudProof(h, r, p).0)
  {
    MarkedChained(r, SubmitFraudProof(h, r, p).0);
  }

  /** Marking entries keeps the chain, and so does stepping back from its end. */
  lemma MarkedChained(r: Rollup, s: Rollup)
    requires Chained(r) && s.batches.Keys == r.batches.Keys
    requires forall k | k in r.batches :: s.batches[k].batch == r.batches[k].batch
    requires || (s.current == r.current && s.root == r.root)
             || (r.current > 0 && s.current == r.current - 1 && s.root == r.batches[r.current].batch.before)
    ensures Chained(s)
  {
  }

  lemma ChallengeSettled(h: Hash, r: Rollup, p: FraudProof)
    requires Settled(r) && r.current < MAX_U64 && SubmitFraudProof(h, r, p).1
    ensures var s := SubmitFraudProof(h, r, p).0; Settled(s) && FinalKept(r, s)
  {
  }

  lemma {:induction false} RunFromSound(h: Hash, r: Rollup, ops: seq<Op>)
    requires Sound(r) && r.current + |ops| < MAX_U64
    ensures var s := Run(h, r, ops);
            Sound(s) && s.current <= r.current + |ops| && FinalKept(r, s)
    decreases |ops|
  {
    if ops != [] {
      RunFromSound(h, r, ops[..|ops| - 1]);
      FinalKeptOnce(h, r, Run(h, r, ops[..|ops| - 1]), ops[|ops| - 1]);
    }
  }

  /** In every run of fewer than 2^64 - 1 steps the live batches chain, the root is the last one's,
      what lies beyond them has been challenged, and no batch is both challenged and final. */
  lemma RunSound(h: Hash, ops: seq<Op>)
    requires |ops| < MAX_U64
    ensures Sound(Run(h, INITIAL, ops)) && Run(h, INITIAL, ops).current <= |ops|
  {
    RunFromSound(h, INITIAL, ops);
  }

  /** A batch once final is never overwritten, challenged or rolled back, whatever follows. */
  lemma FinalForever(h: Hash, ops: seq<Op>, more: seq<Op>)
    requires |ops| + |more| < MAX_U64
    ensures var r := Run(h, INITIAL, ops); FinalKept(r, Run(h, r, more))
  {
    RunSound(h, ops);
    RunFromSound(h, Run(h, INITIAL, ops), more);
  }

  lemma FinalKeptOnce(h: Hash, r: Rollup, s: Rollup, op: Op)
    requires FinalKept(r, s) && Sound(s) && s.current < MAX_U64
    ensures FinalKept(r, Apply(h, s, op)) && Sound(Apply(h, s, op)) && Apply(h, s, op).current <= s.current + 1
  {
    ApplySound(h, s, op);
  }

  // ---------------------------------------------------------------- fraud proofs

  /** A proof is generated for every stored batch with transactions that does not verify, and the
      rollup accepts it exactly when re-execution ends elsewhere than the batch says. */
  lemma GeneratedProof(h: Hash, r: Rollup, id: nat)
    requires id in r.batches && 0 < |r.batches[id].batch.txs| <= 0x1_0000_0000
    ensures var b := r.batches[id].batch;
            var g := GenerateFraudProof(h, r, id);
            && (g.Proof? <==> !VerifyBatch(h, b))
            && (g.Proof? ==> (VerifyFraudProof(h, r, g.proof) <==> Execute(h, b.before, b.txs) != b.after))
  {
    var b := r.batches[id].batch;
    assert b.txs[..|b.txs| - 1 + 1] == b.txs;
  }

  /** An accepted proof about the last transaction that quotes the batch's own final root shows that
      the batch does not verify, and such a proof exists for every batch that misstates its root. */
  lemma ProofAgainstFinalRoot(h: Hash, r: Rollup, id: nat)
    requires id in r.batches && 0 < |r.batches[id].batch.txs| <= 0x1_0000_0000
    ensures var b := r.batches[id].batch;
            (exists p: FraudProof :: p.id == id && p.index == |b.txs| - 1 && p.claimed == b.after && VerifyFraudProof(h, r, p))
            <==> Execute(h, b.before, b.txs) != b.after
  {
    var b := r.batches[id].batch;
    assert b.txs[..|b.txs| - 1 + 1] == b.txs;
    if Execute(h, b.before, b.txs) != b.after {
      GeneratedProof(h, r, id);
      var p := GenerateFraudProof(h, r, id).proof;
      assert p.id == id && p.index == |b.txs| - 1 && p.claimed == b.after && VerifyFraudProof(h, r, p);
    }
  }

  /** The claimed root comes from the proof, not from the batch: whoever quotes another root than
      re-execution gives gets a proof accepted, so that every batch with transactions that is not final
      can be challenged, a correct one included, and no other batch can. */
  lemma ChallengeableExactly(h: Hash, r: Rollup, id: nat)
    requires id in r.batches
    ensures (exists p: FraudProof :: p.id == id && SubmitFraudProof(h, r, p).1)
            <==> r.batches[id].batch.txs != [] && !r.batches[id].finalized
    ensures r.batches[id].batch.txs != [] && !r.batches[id].finalized ==>
              exists p: FraudProof :: p.id == id && p.index == 0 && SubmitFraudProof(h, r, p).1
  {
    var b := r.batches[id].batch;
    if b.txs != [] && !r.batches[id].finalized {
      var first := Execute(h, b.before, b.txs[..0 + 1]);
      var p := FraudProof(id, 0, Another(first), first, [0], [0], [0]);
      assert p.id == id && p.index == 0 && SubmitFraudProof(h, r, p).1;
    }
  }

  /** A digest other than the given one. */
  function Another(d: Digest): (other: Digest)
    ensures other != d
  {
    assert d[0 := if d[0] == 0 then 1 else 0][0] != d[0];
    d[0 := if d[0] == 0 then 1 else 0]
  }

  /** About the last transaction any root but the right one will do. */
  lemma MisquotedProofAccepted(h: Hash, r: Rollup, id: nat, wrong: Digest)
    requires id in r.batches && r.batches[id].batch.txs != [] && !r.batches[id].finalized
    requires var b := r.batches[id].batch; wrong != Execute(h, b.before, b.txs)
    ensures exists p: FraudProof :: p.id == id && p.claimed == wrong && SubmitFraudProof(h, r, p).1
  {
    var b := r.batches[id].batch;
    assert b.txs[..|b.txs| - 1 + 1] == b.txs;
    var p := FraudProof(id, |b.txs| - 1, wrong, Execute(h, b.before, b.txs), [0], [0], [0]);
    assert p.id == id && p.claimed == wrong && SubmitFraudProof(h, r, p).1;
  }

  /** Even the batch's own final root will do: quoted for an earlier transaction it convicts a correct
      batch whenever the root after that transaction differs from the final one. */
  lemma FinalRootQuotedEarly(h: Hash, r: Rollup, id: nat, index: nat)
    requires id in r.batches && !r.batches[id].finalized
    requires var b := r.batches[id].batch;
             index < |b.txs| - 1 && b.after == Execute(h, b.before, b.txs)
    ensures var b := r.batches[id].batch;
            (exists p: FraudProof :: p.id == id && p.index == index && p.claimed == b.after && SubmitFraudProof(h, r, p).1)
            <==> Execute(h, b.before, b.txs[..index + 1]) != b.after
  {
    var b := r.batches[id].batch;
    if Execute(h, b.before, b.txs[..index + 1]) != b.after {
      var p := FraudProof(id, index, b.after, Execute(h, b.before, b.txs[..index + 1]), [0], [0], [0]);
      assert p.id == id && p.index == index && p.claimed == b.after && SubmitFraudProof(h, r, p).1;
    }
  }

  // ---------------------------------------------------------------- an honest operator

  /** A batch built from the pending transactions, its root completed by execution and signed, is
      accepted and verifies, and no proof is ever generated against it. */
  lemma HonestBatch(h: Hash, r: Rollup, signature: Bytes)
    requires r.current < MAX_U64 && r.pending != [] && signature != []
    ensures var (s, draft) := CreateBatch(r);
            var b := draft.(after := Execute(h, draft.before, draft.txs), signature := signature);
            var (t, ok) := SubmitBatch(s, b);
            ok && VerifyBatch(h, b) && t.root == Execute(h, r.root, Hashes(r.pending))
            && GenerateFraudProof(h, t, b.id) == NoProof
  {
  }
}
