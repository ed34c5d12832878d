/** The rollup as a stack of live batches: what is accepted, told without its table and its counters. */
module RollupChain {
  import opened Bytes
  import opened RollupModel
  import opened RollupWindow

  /** The live batches, the transactions that wait for one, and the root the first batch replaced. */
  datatype Ledger = Ledger(live: seq<Info>, base: Digest, waiting: seq<Tx>)

  const EMPTY: Ledger := Ledger([], ZERO_DIGEST, [])

  function LastRoot(l: Ledger): Digest {
    if l.live == [] then l.base else l.live[|l.live| - 1].batch.after
  }

  /** A batch goes on top if it has the next number and starts from the root of the one below; the first may start
      from any. */
  function Push(l: Ledger, b: Batch, height: nat): Ledger {
    if b.id == |l.live| + 1 && (l.live == [] || b.before == LastRoot(l))
    then l.(live := l.live + [Info(b, height, false, false)])
    else l
  }

  /** A proof against a live batch that is not final takes it off if it is on top and marks it if it is not. */
  function Convict(h: Hash, l: Ledger, p: FraudProof): Ledger {
    if !(1 <= p.id <= |l.live|) || l.live[p.id - 1].finalized || !Convicts(h, l.live[p.id - 1].batch, p) then l
    else if p.id < |l.live| then l.(live := l.live[p.id - 1 := l.live[p.id - 1].(challenged := true)])
    else
      l.(live := l.live[..p.id - 1], base := if p.id == 1 then l.live[0].batch.before else l.base)
  }

  /** A live batch becomes final when its window is over and nobody has convicted it. */
  function Confirm(l: Ledger, id: nat, height: nat, period: nat): Ledger {
    if 1 <= id <= |l.live| && !l.live[id - 1].challenged && (l.live[id - 1].submitted + period) % TWO_64 <= height
    then l.(live := l.live[id - 1 := l.live[id - 1].(finalized := true)])
    else l
  }

  /** A transaction waits if it has a sender, a receiver and a signature. */
  function Enter(l: Ledger, tx: Tx): Ledger {
    if tx.sender != [] && tx.receiver != [] && tx.signature != [] then l.(waiting := l.waiting + [tx]) else l
  }

  function Told(h: Hash, ops: seq<Op>): Ledger {
    if ops == [] then EMPTY
    else
      var before := ops[..|ops| - 1];
      var l := Told(h, before);
      match ops[|ops| - 1]
      case Submit(b) => Push(l, b, HeightOf(before))
      case Challenge(p) => Convict(h, l, p)
      case Finalize(id) => Confirm(l, id, HeightOf(before), PeriodOf(before))
      case Add(tx) => Enter(l, tx)
      case Create => l.(waiting := [])
      case Advance(_) => l
      case SetPeriod(_) => l
  }

  /** The table holds the live batches under their numbers, and the root is that of the last. */
  ghost predicate Holds(r: Rollup, l: Ledger) {
    && r.current == |l.live| && r.root == LastRoot(l) && r.pending == l.waiting
    && forall id | 1 <= id <= |l.live| :: id in r.batches && r.batches[id] == l.live[id - 1]
  }

  lemma {:induction false} PushStep(r: Rollup, l: Ledger, b: Batch)
    requires Holds(r, l) && r.current < MAX_U64
    ensures Holds(SubmitBatch(r, b).0, Push(l, b, r.height))
  {
    assert r.current + 1 == (r.current + 1) % TWO_64;
  }

  /** A stored batch past the live ones is under its own number, so that a proof against it moves nothing live. */
  lemma {:induction false} ConvictStep(h: Hash, r: Rollup, l: Ledger, p: FraudProof)
    requires Holds(r, l) && Sound(r) && r.current < MAX_U64
    ensures Holds(SubmitFraudProof(h, r, p).0, Convict(h, l, p))
  {
    if p.id in r.batches {
      ConvictedExactly(h, r, p);
    }
    if 1 <= p.id <= |l.live| {
      assert p.id in r.batches;
      if SubmitFraudProof(h, r, p).1 {
        LiveConvicted(h, r, l, p);
      }
    }
  }

  lemma {:induction false} LiveConvicted(h: Hash, r: Rollup, l: Ledger, p: FraudProof)
    requires Holds(r, l) && Sound(r) && r.current < MAX_U64 && 1 <= p.id <= |l.live|
    requires p.id in r.batches && r.batches[p.id] == l.live[p.id - 1]
    requires SubmitFraudProof(h, r, p).1 && Convicts(h, r.batches[p.id].batch, p)
    ensures Holds(SubmitFraudProof(h, r, p).0, Convict(h, l, p))
  {
    var s := SubmitFraudProof(h, r, p).0;
    var m := Convict(h, l, p);
    forall k | 1 <= k <= |m.live| ensures k in s.batches && s.batches[k] == m.live[k - 1] {
      assert k in r.batches && r.batches[k] == l.live[k - 1];
    }
    if p.id == r.current {
      assert (r.current - 1) % TWO_64 == r.current - 1;
      RolledBackTo(r, l, p.id);
    }
  }

  /** The batch taken off started from the root of the one below it. */
  lemma {:induction false} RolledBackTo(r: Rollup, l: Ledger, id: nat)
    requires Holds(r, l) && Sound(r) && 1 <= id == |l.live|
    ensures id > 1 ==> l.live[id - 1].batch.before == l.live[id - 2].batch.after
  {
    if id > 1 {
      assert id - 1 in r.batches && r.batches[id].batch.before == r.batches[id - 1].batch.after;
    }
  }

  lemma {:induction false} ConfirmStep(r: Rollup, l: Ledger, id: nat)
    requires Holds(r, l) && Sound(r)
    ensures Holds(FinalizeBatch(r, id).0, Confirm(l, id, r.height, r.period))
  {
    var s := FinalizeBatch(r, id).0;
    var m := Confirm(l, id, r.height, r.period);
    if 1 <= id <= |l.live| {
      assert id in r.batches;
    }
    forall k | 1 <= k <= |m.live| ensures k in s.batches && s.batches[k] == m.live[k - 1] {
      assert k in r.batches && r.batches[k] == l.live[k - 1];
    }
    LastConfirmed(l, id, r.height, r.period);
  }

  lemma LastConfirmed(l: Ledger, id: nat, height: nat, period: nat)
    ensures LastRoot(Confirm(l, id, height, period)) == LastRoot(l)
  {
  }

  /** In every run of fewer than 2^64 - 1 operations the rollup holds exactly the stack its operations tell. */
  lemma {:induction false} RunIsStack(h: Hash, ops: seq<Op>)
    requires |ops| < MAX_U64
    ensures Holds(Run(h, INITIAL, ops), Told(h, ops))
    decreases |ops|
  {
    if ops != [] {
      var before := ops[..|ops| - 1];
      RunIsStack(h, before);
      RunSound(h, before);
      ClockIs(h, before);
      StackStep(h, Run(h, INITIAL, before), before, ops[|ops| - 1], ops);
    }
  }

  lemma {:induction false} StackStep(h: Hash, r: Rollup, before: seq<Op>, op: Op, ops: seq<Op>)
    requires Holds(r, Told(h, before)) && Sound(r) && r.current < MAX_U64
    requires r.height == HeightOf(before) && r.period == PeriodOf(before)
    requires ops != [] && before == ops[..|ops| - 1] && op == ops[|ops| - 1]
    ensures Holds(Apply(h, r, op), Told(h, ops))
  {
    var l := Told(h, before);
    match op
    case Submit(b) => PushStep(r, l, b);
    case Challenge(p) => ConvictStep(h, r, l, p);
    case Finalize(id) => ConfirmStep(r, l, id);
    case _ =>
  }
}
