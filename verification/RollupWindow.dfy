/** The challenge window: when a batch becomes final, told from the operations of a run and their heights. */
module RollupWindow {
  import opened Bytes
  import opened RollupModel

  /** The height after the operations. */
  function HeightOf(ops: seq<Op>): nat {
    if ops == [] then 0
    else HeightOf(ops[..|ops| - 1]) + if ops[|ops| - 1].Advance? then ops[|ops| - 1].blocks else 0
  }

  /** The challenge period after the operations. */
  function PeriodOf(ops: seq<Op>): nat {
    if ops == [] then 100
    else if ops[|ops| - 1].SetPeriod? then ops[|ops| - 1].period
    else PeriodOf(ops[..|ops| - 1])
  }

  /** The proof names a transaction of the batch and a root other than the one re-execution gives. */
  predicate Convicts(h: Hash, b: Batch, p: FraudProof) {
    && p.index < |b.txs| && p.evidence != [] && p.stateBefore != [] && p.stateAfter != []
    && p.correct == Execute(h, b.before, b.txs[..p.index + 1]) && p.claimed != p.correct
  }

  /** Operation `i` submits a batch and is accepted: its number becomes the current one. */
  predicate SubmittedAt(h: Hash, ops: seq<Op>, i: nat, b: Batch) {
    i < |ops| && ops[i] == Submit(b)
    && Run(h, INITIAL, ops[..i]).current + 1 == b.id == Run(h, INITIAL, ops[..i + 1]).current
  }

  /** No proof between the two operations convicts the batch. */
  predicate Unconvicted(h: Hash, ops: seq<Op>, i: nat, j: nat, b: Batch)
    requires j <= |ops|
  {
    forall m | i < m < j :: ops[m].Challenge? && ops[m].proof.id == b.id ==> !Convicts(h, b, ops[m].proof)
  }

  /** Operation `j` asks for the batch to be final, its window over: the height is at least that of its submission
      and the period then set, in 64 bits. */
  predicate WindowOver(ops: seq<Op>, i: nat, j: nat, id: nat)
    requires i < |ops|
  {
    i < j < |ops| && ops[j] == Finalize(id) && HeightOf(ops[..j]) >= (HeightOf(ops[..i]) + PeriodOf(ops[..j])) % TWO_64
  }

  predicate FinalAt(h: Hash, ops: seq<Op>, i: nat, j: nat, b: Batch) {
    SubmittedAt(h, ops, i, b) && WindowOver(ops, i, j, b.id) && Unconvicted(h, ops, i, j, b)
  }

  /** The stored batch is the one submitted at `i`, waiting for its window to end. */
  ghost predicate Waiting(h: Hash, r: Rollup, ops: seq<Op>, i: nat, b: Batch) {
    SubmittedAt(h, ops, i, b) && b.id in r.batches && r.batches[b.id] == Info(b, HeightOf(ops[..i]), false, false)
  }

  // ---------------------------------------------------------------- heights and periods

  lemma {:induction false} ClockIs(h: Hash, ops: seq<Op>)
    ensures Run(h, INITIAL, ops).height == HeightOf(ops) && Run(h, INITIAL, ops).period == PeriodOf(ops)
    decreases |ops|
  {
    if ops != [] {
      ClockIs(h, ops[..|ops| - 1]);
      ClockStep(h, Run(h, INITIAL, ops[..|ops| - 1]), ops[|ops| - 1]);
    }
  }

  lemma {:induction false} ClockStep(h: Hash, r: Rollup, op: Op)
    ensures Apply(h, r, op).height == r.height + (if op.Advance? then op.blocks else 0)
    ensures Apply(h, r, op).period == if op.SetPeriod? then op.period else r.period
  {
  }

  // ---------------------------------------------------------------- one step of a waiting batch

  /** What an accepted submission stores. */
  lemma {:induction false} Submitted(h: Hash, ops: seq<Op>, i: nat, b: Batch)
    requires SubmittedAt(h, ops, i, b) && |ops| < MAX_U64
    ensures Waiting(h, Run(h, INITIAL, ops[..i + 1]), ops, i, b)
  {
    assert ops[..i + 1][..i] == ops[..i] && ops[..i + 1][i] == ops[i];
    ClockIs(h, ops[..i]);
    SubmitStores(Run(h, INITIAL, ops[..i]), b);
  }

  lemma {:induction false} SubmitStores(r: Rollup, b: Batch)
    requires SubmitBatch(r, b).0.current == r.current + 1
    ensures b.id in SubmitBatch(r, b).0.batches && SubmitBatch(r, b).0.batches[b.id] == Info(b, r.height, false, false)
  {
  }

  /** A batch that waits goes on waiting, is convicted, or has its window over. */
  lemma {:induction false} WaitingStep(h: Hash, r: Rollup, op: Op, id: nat)
    requires Sound(r) && r.current < MAX_U64 && id in r.batches && !r.batches[id].finalized && !r.batches[id].challenged
    ensures var s, info := Apply(h, r, op), r.batches[id];
            && id in s.batches
            && s.batches[id] ==
                 if op.Challenge? && op.proof.id == id && Convicts(h, info.batch, op.proof) then info.(challenged := true)
                 else if op == Finalize(id) && r.height >= (info.submitted + r.period) % TWO_64 then
                   info.(finalized := true)
                 else info
  {
    match op
    case Submit(b) => assert b.id != id || b.id > r.current || SubmitBatch(r, b).0 == r;
    case Challenge(p) =>
      if p.id == id {
        ConvictedExactly(h, r, p);
      }
    case _ =>
  }

  lemma {:induction false} ConvictedExactly(h: Hash, r: Rollup, p: FraudProof)
    requires p.id in r.batches
    ensures VerifyFraudProof(h, r, p) <==> Convicts(h, r.batches[p.id].batch, p)
  {
  }

  // ---------------------------------------------------------------- back to the submission

  /** Where a batch that waits comes from. */
  lemma {:induction false} WaitedBefore(h: Hash, r: Rollup, op: Op, id: nat)
    requires Sound(r) && r.current < MAX_U64 && id in Apply(h, r, op).batches
    requires !Apply(h, r, op).batches[id].finalized && !Apply(h, r, op).batches[id].challenged
    ensures || (op.Submit? && op.batch.id == id == r.current + 1 == Apply(h, r, op).current)
            || (id in r.batches && !r.batches[id].finalized && !r.batches[id].challenged)
  {
  }

  lemma {:induction false} SameStart(h: Hash, ops: seq<Op>, init: seq<Op>, i: nat, b: Batch)
    requires init <= ops && i < |init|
    ensures SubmittedAt(h, ops, i, b) <==> SubmittedAt(h, init, i, b)
    ensures init[..i] == ops[..i]
  {
    assert init[..i] == ops[..i] && init[..i + 1] == ops[..i + 1];
  }

  lemma {:induction false} Origin(h: Hash, ops: seq<Op>, id: nat) returns (i: nat, b: Batch)
    requires |ops| < MAX_U64 && id in Run(h, INITIAL, ops).batches
    requires var info := Run(h, INITIAL, ops).batches[id]; !info.finalized && !info.challenged
    ensures b.id == id && Waiting(h, Run(h, INITIAL, ops), ops, i, b) && Unconvicted(h, ops, i, |ops|, b)
    decreases |ops|
  {
    var last := |ops| - 1;
    var r, op := Run(h, INITIAL, ops[..last]), ops[last];
    RunSound(h, ops[..last]);
    WaitedBefore(h, r, op, id);
    if op.Submit? && op.batch.id == id == r.current + 1 == Apply(h, r, op).current {
      i, b := last, op.batch;
      assert ops[..last + 1] == ops;
      Submitted(h, ops, i, b);
    } else {
      i, b := Origin(h, ops[..last], id);
      WaitsOn(h, ops, last, i, b, r);
    }
  }

  lemma {:induction false} WaitsOn(h: Hash, ops: seq<Op>, last: nat, i: nat, b: Batch, r: Rollup)
    requires |ops| < MAX_U64 && last == |ops| - 1 && r == Run(h, INITIAL, ops[..last]) && Sound(r) && r.current < MAX_U64
    requires Waiting(h, r, ops[..last], i, b) && Unconvicted(h, ops[..last], i, last, b)
    requires b.id in Apply(h, r, ops[last]).batches
    requires var info := Apply(h, r, ops[last]).batches[b.id]; !info.finalized && !info.challenged
    ensures Waiting(h, Apply(h, r, ops[last]), ops, i, b) && Unconvicted(h, ops, i, |ops|, b)
  {
    SameStart(h, ops, ops[..last], i, b);
    WaitingStep(h, r, ops[last], b.id);
    UnconvictedMore(h, ops, i, last, b);
  }

  lemma {:induction false} UnconvictedMore(h: Hash, ops: seq<Op>, i: nat, n: nat, b: Batch)
    requires n < |ops| && Unconvicted(h, ops[..n], i, n, b)
    requires ops[n].Challenge? && ops[n].proof.id == b.id ==> !Convicts(h, b, ops[n].proof)
    ensures Unconvicted(h, ops, i, n + 1, b)
  {
    forall m | i < m < n + 1 && ops[m].Challenge? && ops[m].proof.id == b.id
      ensures !Convicts(h, b, ops[m].proof)
    {
      if m < n {
        assert ops[..n][m] == ops[m];
      }
    }
  }

  lemma {:induction false} NewlyFinal(h: Hash, r: Rollup, op: Op, id: nat)
    requires id in Apply(h, r, op).batches && Apply(h, r, op).batches[id].finalized
    requires !(id in r.batches && r.batches[id].finalized)
    ensures op == Finalize(id) && id in r.batches && !r.batches[id].challenged
    ensures r.height >= (r.batches[id].submitted + r.period) % TWO_64
  {
  }

  lemma {:induction false} FinalOrigin(h: Hash, ops: seq<Op>, id: nat) returns (i: nat, j: nat, b: Batch)
    requires |ops| < MAX_U64 && id in Run(h, INITIAL, ops).batches && Run(h, INITIAL, ops).batches[id].finalized
    ensures b.id == id && FinalAt(h, ops, i, j, b)
    decreases |ops|
  {
    var last := |ops| - 1;
    var r := Run(h, INITIAL, ops[..last]);
    if id in r.batches && r.batches[id].finalized {
      i, j, b := FinalOrigin(h, ops[..last], id);
      FinalBefore(h, ops, ops[..last], i, j, b);
    } else {
      NewlyFinal(h, r, ops[last], id);
      j := last;
      i, b := Origin(h, ops[..last], id);
      FinalNow(h, ops, last, i, b, r);
    }
  }

  lemma {:induction false} FinalBefore(h: Hash, ops: seq<Op>, init: seq<Op>, i: nat, j: nat, b: Batch)
    requires init <= ops && FinalAt(h, init, i, j, b)
    ensures FinalAt(h, ops, i, j, b)
  {
    SameStart(h, ops, init, i, b);
    assert init[..j] == ops[..j];
  }

  lemma {:induction false} FinalNow(h: Hash, ops: seq<Op>, last: nat, i: nat, b: Batch, r: Rollup)
    requires last == |ops| - 1 && r == Run(h, INITIAL, ops[..last]) && Waiting(h, r, ops[..last], i, b)
    requires Unconvicted(h, ops[..last], i, last, b)
    requires ops[last] == Finalize(b.id) && r.height >= (r.batches[b.id].submitted + r.period) % TWO_64
    ensures FinalAt(h, ops, i, last, b)
  {
    SameStart(h, ops, ops[..last], i, b);
    ClockIs(h, ops[..last]);
  }

  // ---------------------------------------------------------------- on from the submission

  /** As long as nothing convicts it, the batch is stored as it was submitted, final or not. */
  lemma {:induction false} StaysStored(h: Hash, ops: seq<Op>, i: nat, n: nat, b: Batch)
    requires |ops| < MAX_U64 && SubmittedAt(h, ops, i, b) && i < n <= |ops| && Unconvicted(h, ops, i, n, b)
    ensures var r := Run(h, INITIAL, ops[..n]);
            b.id in r.batches && r.batches[b.id] == Info(b, HeightOf(ops[..i]), r.batches[b.id].finalized, false)
    decreases n
  {
    if n == i + 1 {
      Submitted(h, ops, i, b);
    } else {
      StaysStored(h, ops, i, n - 1, b);
      StoredStep(h, ops, n - 1, b, Run(h, INITIAL, ops[..n - 1]), Run(h, INITIAL, ops[..n]));
    }
  }

  lemma {:induction false} StoredStep(h: Hash, ops: seq<Op>, m: nat, b: Batch, r: Rollup, s: Rollup)
    requires m < |ops| < MAX_U64 && r == Run(h, INITIAL, ops[..m]) && s == Run(h, INITIAL, ops[..m + 1])
    requires b.id in r.batches && r.batches[b.id].batch == b && !r.batches[b.id].challenged
    requires ops[m].Challenge? && ops[m].proof.id == b.id ==> !Convicts(h, b, ops[m].proof)
    ensures var info := r.batches[b.id];
            && b.id in s.batches && s.batches[b.id] == info.(finalized := s.batches[b.id].finalized)
            && (s.batches[b.id].finalized
                <==> info.finalized
                     || (ops[m] == Finalize(b.id) && r.height >= (info.submitted + r.period) % TWO_64))
  {
    PrefixNext(h, ops, m);
    RunSound(h, ops[..m]);
    StoredNext(h, r, ops[m], b);
  }

  lemma {:induction false} PrefixNext(h: Hash, ops: seq<Op>, m: nat)
    requires m < |ops|
    ensures Run(h, INITIAL, ops[..m + 1]) == Apply(h, Run(h, INITIAL, ops[..m]), ops[m])
  {
    assert ops[..m + 1][..m] == ops[..m] && ops[..m + 1][m] == ops[m];
  }

  lemma {:induction false} StoredNext(h: Hash, r: Rollup, op: Op, b: Batch)
    requires Sound(r) && r.current < MAX_U64 && b.id in r.batches
    requires r.batches[b.id].batch == b && !r.batches[b.id].challenged
    requires op.Challenge? && op.proof.id == b.id ==> !Convicts(h, b, op.proof)
    ensures var s, info := Apply(h, r, op), r.batches[b.id];
            && b.id in s.batches && s.batches[b.id] == info.(finalized := s.batches[b.id].finalized)
            && (s.batches[b.id].finalized
                <==> info.finalized || (op == Finalize(b.id) && r.height >= (info.submitted + r.period) % TWO_64))
  {
    if r.batches[b.id].finalized {
      ApplySound(h, r, op);
    } else {
      WaitingStep(h, r, op, b.id);
    }
  }

  lemma {:induction false} FinalFromThere(h: Hash, ops: seq<Op>, n: nat, id: nat)
    requires n <= |ops| < MAX_U64
    requires id in Run(h, INITIAL, ops[..n]).batches && Run(h, INITIAL, ops[..n]).batches[id].finalized
    ensures id in Run(h, INITIAL, ops).batches && Run(h, INITIAL, ops).batches[id].finalized
    decreases |ops|
  {
    if n == |ops| {
      assert ops[..n] == ops;
    } else {
      var last := |ops| - 1;
      assert ops[..last][..n] == ops[..n];
      FinalFromThere(h, ops[..last], n, id);
      FinalThenToo(h, ops, last, id);
    }
  }

  lemma {:induction false} FinalThenToo(h: Hash, ops: seq<Op>, last: nat, id: nat)
    requires last == |ops| - 1 && |ops| < MAX_U64
    requires id in Run(h, INITIAL, ops[..last]).batches && Run(h, INITIAL, ops[..last]).batches[id].finalized
    ensures id in Run(h, INITIAL, ops).batches && Run(h, INITIAL, ops).batches[id].finalized
  {
    RunSound(h, ops[..last]);
    ApplySound(h, Run(h, INITIAL, ops[..last]), ops[last]);
  }

  lemma {:induction false} FinalThen(h: Hash, ops: seq<Op>, i: nat, j: nat, b: Batch)
    requires |ops| < MAX_U64 && FinalAt(h, ops, i, j, b)
    ensures b.id in Run(h, INITIAL, ops).batches && Run(h, INITIAL, ops).batches[b.id].finalized
  {
    FinalThere(h, ops, i, j, b);
    FinalFromThere(h, ops, j + 1, b.id);
  }

  lemma {:induction false} FinalThere(h: Hash, ops: seq<Op>, i: nat, j: nat, b: Batch)
    requires |ops| < MAX_U64 && FinalAt(h, ops, i, j, b)
    ensures b.id in Run(h, INITIAL, ops[..j + 1]).batches && Run(h, INITIAL, ops[..j + 1]).batches[b.id].finalized
  {
    StaysStored(h, ops, i, j, b);
    ClockIs(h, ops[..j]);
    StoredStep(h, ops, j, b, Run(h, INITIAL, ops[..j]), Run(h, INITIAL, ops[..j + 1]));
  }

  /** In every run of fewer than 2^64 - 1 operations a batch is final if and only if it was submitted, an operation
      asked for it to be final at a height not below that of the submission and the period then set, and no proof
      in between convicts it. */
  lemma {:induction false} FinalExactly(h: Hash, ops: seq<Op>, id: nat)
    requires |ops| < MAX_U64
    ensures var r := Run(h, INITIAL, ops);
            id in r.batches && r.batches[id].finalized
            <==> exists i: nat, j: nat, b: Batch :: FinalAt(h, ops, i, j, b) && b.id == id
  {
    var r := Run(h, INITIAL, ops);
    if id in r.batches && r.batches[id].finalized {
      var i, j, b := FinalOrigin(h, ops, id);
    }
    if i: nat, j: nat, b: Batch :| FinalAt(h, ops, i, j, b) && b.id == id {
      FinalThen(h, ops, i, j, b);
    }
  }

  /** Within its window every proof that convicts a batch is accepted: while no operation has found the window over
      and no proof has convicted it yet, the next that does marks it, and takes it back if it is the current one. */
  lemma {:induction false} WindowOpen(h: Hash, ops: seq<Op>, i: nat, b: Batch, p: FraudProof)
    requires |ops| < MAX_U64 && SubmittedAt(h, ops, i, b) && Unconvicted(h, ops, i, |ops|, b)
    requires forall j: nat | j < |ops| :: !WindowOver(ops, i, j, b.id)
    requires p.id == b.id && Convicts(h, b, p)
    ensures var r, s := Run(h, INITIAL, ops), Run(h, INITIAL, ops + [Challenge(p)]);
            && b.id in s.batches && s.batches[b.id].challenged && !s.batches[b.id].finalized
            && (r.current == b.id ==> s.current == b.id - 1 && s.root == b.before)
            && (r.current != b.id ==> s.current == r.current && s.root == r.root)
  {
    var r := StillWaiting(h, ops, i, b);
    RunSound(h, ops);
    NextIs(h, ops, Challenge(p));
    ConvictedNow(h, r, p, b);
  }

  lemma {:induction false} NextIs(h: Hash, ops: seq<Op>, op: Op)
    ensures Run(h, INITIAL, ops + [op]) == Apply(h, Run(h, INITIAL, ops), op)
  {
    assert (ops + [op])[..|ops|] == ops;
  }

  lemma {:induction false} ConvictedNow(h: Hash, r: Rollup, p: FraudProof, b: Batch)
    requires Sound(r) && r.current < MAX_U64 && p.id == b.id && Convicts(h, b, p)
    requires b.id in r.batches && r.batches[b.id].batch == b && !r.batches[b.id].finalized
    ensures var s := Apply(h, r, Challenge(p));
            && b.id in s.batches && s.batches[b.id].challenged && !s.batches[b.id].finalized
            && (r.current == b.id ==> s.current == b.id - 1 && s.root == b.before)
            && (r.current != b.id ==> s.current == r.current && s.root == r.root)
  {
    ConvictedExactly(h, r, p);
    assert r.current == b.id ==> (r.current - 1) % TWO_64 == r.current - 1;
  }

  lemma {:induction false} StillWaiting(h: Hash, ops: seq<Op>, i: nat, b: Batch) returns (r: Rollup)
    requires |ops| < MAX_U64 && SubmittedAt(h, ops, i, b) && Unconvicted(h, ops, i, |ops|, b)
    requires forall j: nat | j < |ops| :: !WindowOver(ops, i, j, b.id)
    ensures r == Run(h, INITIAL, ops) && b.id in r.batches && r.batches[b.id].batch == b && !r.batches[b.id].finalized
  {
    r := Run(h, INITIAL, ops);
    StaysStored(h, ops, i, |ops|, b);
    assert ops[..|ops|] == ops;
    if r.batches[b.id].finalized {
      var j := FinalSince(h, ops, i, |ops|, b);
    }
  }

  /** A batch that nothing convicts is final only by an operation that has found its window over. */
  lemma {:induction false} FinalSince(h: Hash, ops: seq<Op>, i: nat, n: nat, b: Batch) returns (j: nat)
    requires |ops| < MAX_U64 && SubmittedAt(h, ops, i, b) && i < n <= |ops| && Unconvicted(h, ops, i, n, b)
    requires b.id in Run(h, INITIAL, ops[..n]).batches && Run(h, INITIAL, ops[..n]).batches[b.id].finalized
    ensures j < n && WindowOver(ops, i, j, b.id)
    decreases n
  {
    var r := StaysBefore(h, ops, i, n, b);
    j := n - 1;
    if r.batches[b.id].finalized {
      j := FinalSince(h, ops, i, j, b);
    } else {
      OverThere(h, ops, i, j, b, r);
    }
  }

  lemma {:induction false} OverThere(h: Hash, ops: seq<Op>, i: nat, j: nat, b: Batch, r: Rollup)
    requires i < j < |ops| < MAX_U64 && r == Run(h, INITIAL, ops[..j])
    requires b.id in r.batches && r.batches[b.id] == Info(b, HeightOf(ops[..i]), false, false)
    requires ops[j].Challenge? && ops[j].proof.id == b.id ==> !Convicts(h, b, ops[j].proof)
    requires b.id in Run(h, INITIAL, ops[..j + 1]).batches && Run(h, INITIAL, ops[..j + 1]).batches[b.id].finalized
    ensures WindowOver(ops, i, j, b.id)
  {
    ClockIs(h, ops[..j]);
    StoredStep(h, ops, j, b, r, Run(h, INITIAL, ops[..j + 1]));
  }

  lemma {:induction false} StaysBefore(h: Hash, ops: seq<Op>, i: nat, n: nat, b: Batch) returns (r: Rollup)
    requires |ops| < MAX_U64 && SubmittedAt(h, ops, i, b) && i < n <= |ops| && Unconvicted(h, ops, i, n, b)
    requires b.id in Run(h, INITIAL, ops[..n]).batches && Run(h, INITIAL, ops[..n]).batches[b.id].finalized
    ensures n > i + 1 && r == Run(h, INITIAL, ops[..n - 1]) && b.id in r.batches
    ensures r.batches[b.id] == Info(b, HeightOf(ops[..i]), r.batches[b.id].finalized, false)
  {
    Submitted(h, ops, i, b);
    r := Run(h, INITIAL, ops[..n - 1]);
    if n > i + 1 {
      StaysStored(h, ops, i, n - 1, b);
    }
  }
}
