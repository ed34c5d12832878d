/** Budget periods against the audit log: what was spent in a period is what the log says, and no
    limit is exceeded. */
module TreasuryBudgets {
  import opened Bytes
  import opened TreasuryModel
  import opened TreasuryRuns

  /** A treasury and, for every period, how long the log was when the period was created. */
  datatype History = History(t: Treasury, since: seq<nat>)

  function Next(h: History, op: Op): History {
    var t := Apply(h.t, op);
    History(t, if |t.periods| > |h.t.periods| then h.since + [|h.t.log|] else h.since)
  }

  function Story(t: Treasury, ops: seq<Op>): History {
    if ops == [] then History(t, []) else Next(Story(t, ops[..|ops| - 1]), ops[|ops| - 1])
  }

  /** The period's own count is the sum of the log's spends since it was created, at heights it is the
      first to cover, and within the period's limit if there is one. */
  ghost predicate WithinLimit(h: History, i: nat, track: Track)
    requires i < |h.t.periods| && i < |h.since| && h.since[i] <= |h.t.log|
  {
    var p := h.t.periods[i];
    && Spent(p, track) == SpentIn(h.t.log[h.since[i]..], h.t.periods, i, track)
    && (Limit(p, track) > 0 ==> Spent(p, track) <= Limit(p, track))
    && Spent(p, track) <= PaidOut(h.t.log)
  }

  ghost predicate Dated(h: History) {
    |h.since| == |h.t.periods| && forall i | 0 <= i < |h.since| :: h.since[i] <= |h.t.log|
  }

  ghost predicate BudgetsKept(h: History) {
    Dated(h) && forall i: nat, track | i < |h.t.periods| :: WithinLimit(h, i, track)
  }

  // ---------------------------------------------------------------- sums over a longer log, more periods

  lemma SpentStep(log: seq<Record>, r: Record, periods: seq<Period>, i: nat, track: Track)
    ensures SpentIn(log + [r], periods, i, track)
         == SpentIn(log, periods, i, track) + if CountsIn(r, periods, i, track) then r.amount else 0
  {
    assert (log + [r])[..|log|] == log;
  }

  lemma {:induction false} ActiveExtends(periods: seq<Period>, p: Period, height: nat)
    ensures FirstActive(periods + [p], height)
         == if FirstActive(periods, height) < |periods| then FirstActive(periods, height)
            else if p.start <= height <= p.end then |periods| else |periods| + 1
  {
    if periods != [] {
      ActiveExtends(periods[1..], p, height);
      assert (periods + [p])[1..] == periods[1..] + [p];
    }
  }

  lemma {:induction false} SpentExtends(log: seq<Record>, periods: seq<Period>, p: Period, i: nat, track: Track)
    requires i < |periods|
    ensures SpentIn(log, periods + [p], i, track) == SpentIn(log, periods, i, track)
    decreases |log|
  {
    if log != [] {
      SpentExtends(log[..|log| - 1], periods, p, i, track);
      ActiveExtends(periods, p, log[|log| - 1].height);
    }
  }

  ghost predicate SameBounds(p: seq<Period>, q: seq<Period>) {
    |p| == |q| && forall i | 0 <= i < |p| :: p[i].start == q[i].start && p[i].end == q[i].end
  }

  lemma {:induction false} ActiveByBounds(p: seq<Period>, q: seq<Period>, height: nat)
    requires SameBounds(p, q)
    ensures FirstActive(p, height) == FirstActive(q, height)
  {
    if p != [] {
      assert SameBounds(p[1..], q[1..]);
      ActiveByBounds(p[1..], q[1..], height);
    }
  }

  lemma {:induction false} SpentByBounds(log: seq<Record>, p: seq<Period>, q: seq<Period>, i: nat, track: Track)
    requires SameBounds(p, q)
    ensures SpentIn(log, p, i, track) == SpentIn(log, q, i, track)
    decreases |log|
  {
    if log != [] {
      SpentByBounds(log[..|log| - 1], p, q, i, track);
      ActiveByBounds(p, q, log[|log| - 1].height);
    }
  }

  // ---------------------------------------------------------------- one operation

  lemma SpendCharges(t: Treasury, amount: nat, proposal: nat, track: Track, height: nat, i: nat)
    requires Spend(t, amount, proposal, track, height).1 && i < |t.periods|
    requires Spent(t.periods[i], track) + amount <= MAX_U64
    ensures var q := Spend(t, amount, proposal, track, height).0.periods;
            && SameBounds(t.periods, q) && q[i].limits == t.periods[i].limits
            && (forall other :: Spent(q[i], other) == Spent(t.periods[i], other)
                  + if other == track && FirstActive(t.periods, height) == i then amount else 0)
            && (FirstActive(t.periods, height) == i && Limit(q[i], track) > 0 ==> Spent(q[i], track) <= Limit(q[i], track))
  {
  }

  lemma SpendWithin(h: History, amount: uint64, proposal: nat, track: Track, height: nat, i: nat, other: Track)
    requires Dated(h) && i < |h.t.periods| && WithinLimit(h, i, track) && WithinLimit(h, i, other)
    requires Spend(h.t, amount, proposal, track, height).1 && PaidOut(h.t.log) + amount <= MAX_U64
    ensures var h' := Next(h, DoSpend(amount, proposal, track, height));
            Dated(h') && |h'.t.periods| == |h.t.periods| && WithinLimit(h', i, other)
  {
    var t' := Spend(h.t, amount, proposal, track, height).0;
    var r := Record(false, amount, track, proposal, 0, height);
    SpendCharges(h.t, amount, proposal, track, height, i);
    LogStep(h.t.log, r);
    var log: seq<Record> := h.t.log[h.since[i]..];
    assert t'.log[h.since[i]..] == log + [r];
    SpentGrows(log, r, h.t.periods, t'.periods, i, other);
  }

  lemma SpentGrows(log: seq<Record>, r: Record, p: seq<Period>, q: seq<Period>, i: nat, track: Track)
    requires SameBounds(p, q)
    ensures SpentIn(log + [r], q, i, track) == SpentIn(log, p, i, track) + if CountsIn(r, p, i, track) then r.amount else 0
  {
    SpentStep(log, r, p, i, track);
    SpentByBounds(log + [r], p, q, i, track);
  }

  /** A line that is no proposal spend counts in no period. */
  lemma OtherLineWithin(h: History, h': History, i: nat, track: Track)
    requires Dated(h) && i < |h.t.periods| && WithinLimit(h, i, track)
    requires h'.since == h.since && h'.t.periods == h.t.periods
    requires h.t.log <= h'.t.log && |h'.t.log| <= |h.t.log| + 1
    requires forall k | |h.t.log| <= k < |h'.t.log| ::
               h'.t.log[k].isDeposit || h'.t.log[k].grant != 0 || h'.t.log[k].track == Emergency
    ensures Dated(h') && WithinLimit(h', i, track)
  {
    if h'.t.log != h.t.log {
      var r := h'.t.log[|h.t.log|];
      assert h'.t.log == h.t.log + [r];
      LogStep(h.t.log, r);
      assert h'.t.log[h.since[i]..] == h.t.log[h.since[i]..] + [r];
      SpentStep(h.t.log[h.since[i]..], r, h.t.periods, i, track);
    }
  }

  lemma NewPeriodWithin(h: History, h': History, p: Period, i: nat, track: Track)
    requires BudgetsKept(h) && h'.t.log == h.t.log && h'.t.periods == h.t.periods + [p] && p.spent == map[]
    requires h'.since == h.since + [|h.t.log|] && i <= |h.t.periods|
    ensures Dated(h') && WithinLimit(h', i, track)
  {
    if i < |h.t.periods| {
      assert WithinLimit(h, i, track);
      SpentExtends(h.t.log[h.since[i]..], h.t.periods, p, i, track);
    } else {
      assert h.t.log[|h.t.log|..] == [];
    }
  }

  lemma SpendKept(h: History, amount: uint64, proposal: nat, track: Track, height: nat)
    requires BudgetsKept(h) && PaidOut(h.t.log) + amount <= MAX_U64
    ensures BudgetsKept(Next(h, DoSpend(amount, proposal, track, height)))
  {
    var h' := Next(h, DoSpend(amount, proposal, track, height));
    if Spend(h.t, amount, proposal, track, height).1 {
      assert Dated(h');
      forall i: nat, other | i < |h'.t.periods| ensures WithinLimit(h', i, other) {
        assert WithinLimit(h, i, track) && WithinLimit(h, i, other);
        SpendWithin(h, amount, proposal, track, height, i, other);
      }
    }
  }

  lemma PeriodKept(h: History, start: nat, end: nat, limits: map<Track, nat>, proposal: nat)
    requires BudgetsKept(h)
    ensures BudgetsKept(Next(h, DoCreatePeriod(start, end, limits, proposal)))
  {
    var h' := Next(h, DoCreatePeriod(start, end, limits, proposal));
    if CreateBudgetPeriod(h.t, start, end, limits, proposal).1 {
      assert Dated(h');
      forall i: nat, track | i < |h'.t.periods| ensures WithinLimit(h', i, track) {
        NewPeriodWithin(h, h', Period(start, end, limits, map[]), i, track);
      }
    }
  }

  lemma OthersKept(h: History, op: Op)
    requires BudgetsKept(h) && GrantsAddUp(h.t) && !op.DoSpend? && !op.DoCreatePeriod?
    ensures BudgetsKept(Next(h, op))
  {
    var h' := Next(h, op);
    NoSpend(h.t, op);
    forall i: nat, track | i < |h'.t.periods| ensures Dated(h') && WithinLimit(h', i, track) {
      assert WithinLimit(h, i, track);
      OtherLineWithin(h, h', i, track);
    }
  }

  lemma NoSpend(t: Treasury, op: Op)
    requires GrantsAddUp(t) && !op.DoSpend? && !op.DoCreatePeriod?
    ensures var t' := Apply(t, op);
            && t'.periods == t.periods && t.log <= t'.log && |t'.log| <= |t.log| + 1
            && forall k | |t.log| <= k < |t'.log| ::
                 t'.log[k].isDeposit || t'.log[k].grant != 0 || t'.log[k].track == Emergency
  {
    match op
    case DoRelease(id, index, proposal, height) => assert id in t.grants ==> GrantAddsUp(t, id);
    case _ =>
  }

  /** In every run whose deposits fit 64 bits, every period's count is what the log records, and stays
      within the period's limit. */
  lemma {:induction false} RunKeepsBudgets(required: nat, reserveBps: nat, ops: seq<Op>)
    requires Deposited(ops) <= MAX_U64 && forall i | 0 <= i < |ops| :: Fits(ops[i])
    ensures var h := Story(New(required, reserveBps), ops);
            h.t == Run(New(required, reserveBps), ops) && BudgetsKept(h)
    decreases |ops|
  {
    if ops != [] {
      var init, op := ops[..|ops| - 1], ops[|ops| - 1];
      RunKeepsBudgets(required, reserveBps, init);
      RunAddsUp(required, reserveBps, init);
      var h := Story(New(required, reserveBps), init);
      match op
      case DoSpend(amount, proposal, track, height) =>
        if Spend(h.t, amount, proposal, track, height).1 {
          TrackAtMostAll(h.t.balances, track);
          SpendKept(h, amount, proposal, track, height);
        }
      case DoCreatePeriod(start, end, limits, proposal) => PeriodKept(h, start, end, limits, proposal);
      case _ => OthersKept(h, op);
    }
  }
}
