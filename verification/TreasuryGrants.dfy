/** Which grants and budget periods a treasury run has led to, told from its operations. */
module TreasuryGrants {
  import opened Bytes
  import opened TreasuryModel
  import opened TreasuryHistory

  // ---------------------------------------------------------------- what the operations ask for

  /** The last operation awards a grant: somebody is to have some money, under a proposal, and the grants track holds
      it. */
  predicate Awards(start: Treasury, ops: seq<Op>) {
    ops != []
    && var op := ops[|ops| - 1];
       && op.DoCreateGrant? && op.proposal > 0 && op.recipient != []
       && 0 < SumOf(op.amounts) % TWO_64 <= Balance(Run(start, ops[..|ops| - 1]), Grants)
  }

  /** How many grants have been awarded; they are numbered from one. */
  function Awarded(start: Treasury, ops: seq<Op>): nat {
    if ops == [] then 0 else Awarded(start, ops[..|ops| - 1]) + if Awards(start, ops) then 1 else 0
  }

  predicate IsAward(start: Treasury, ops: seq<Op>, id: nat) {
    Awards(start, ops) && Awarded(start, ops) == id
  }

  function Amounts(start: Treasury, ops: seq<Op>, id: nat): seq<nat> {
    if ops == [] then []
    else if IsAward(start, ops, id) then ops[|ops| - 1].amounts
    else Amounts(start, ops[..|ops| - 1], id)
  }

  function Recipient(start: Treasury, ops: seq<Op>, id: nat): Bytes {
    if ops == [] then []
    else if IsAward(start, ops, id) then ops[|ops| - 1].recipient
    else Recipient(start, ops[..|ops| - 1], id)
  }

  /** Some proposal has revoked the grant since it was awarded. */
  predicate RevokedBy(start: Treasury, ops: seq<Op>, id: nat) {
    ops != []
    && var op, before := ops[|ops| - 1], ops[..|ops| - 1];
       || (op.DoRevoke? && op.id == id && op.proposal > 0 && 1 <= id <= Awarded(start, before))
       || RevokedBy(start, before, id)
  }

  /** Some proposal has released the milestone after the grant was awarded and before it was revoked. */
  predicate ReleasedBy(start: Treasury, ops: seq<Op>, id: nat, index: nat) {
    ops != []
    && var op, before := ops[|ops| - 1], ops[..|ops| - 1];
       || (op.DoRelease? && op.id == id && op.index == index && op.proposal > 0 && 1 <= id <= Awarded(start, before)
           && !RevokedBy(start, before, id))
       || ReleasedBy(start, before, id, index)
  }

  ghost predicate GrantIs(g: Grant, start: Treasury, ops: seq<Op>, id: nat) {
    && g.recipient == Recipient(start, ops, id) && (g.revoked <==> RevokedBy(start, ops, id))
    && |g.milestones| == |Amounts(start, ops, id)|
    && forall k | 0 <= k < |g.milestones| :: MilestoneIs(g.milestones[k], start, ops, id, k)
  }

  ghost predicate MilestoneIs(m: Milestone, start: Treasury, ops: seq<Op>, id: nat, k: nat) {
    && k < |Amounts(start, ops, id)| && m.amount == Amounts(start, ops, id)[k]
    && (m.released <==> ReleasedBy(start, ops, id, k))
  }

  ghost predicate GrantsAre(t: Treasury, start: Treasury, ops: seq<Op>) {
    && t.nextGrant == Awarded(start, ops) + 1
    && (forall id :: id in t.grants <==> 1 <= id <= Awarded(start, ops))
    && forall id | id in t.grants :: GrantIs(t.grants[id], start, ops, id)
  }

  // ---------------------------------------------------------------- one operation

  lemma {:induction false} NotAwarded(start: Treasury, ops: seq<Op>, id: nat)
    requires id > Awarded(start, ops)
    ensures !RevokedBy(start, ops, id) && forall k :: !ReleasedBy(start, ops, id, k)
  {
    if ops != [] {
      NotAwarded(start, ops[..|ops| - 1], id);
    }
  }

  lemma {:induction false} AmountsAsMilestones(amounts: seq<nat>)
    ensures |Milestones(amounts)| == |amounts|
    ensures forall k | 0 <= k < |amounts| :: Milestones(amounts)[k] == Milestone(amounts[k], false)
  {
    if amounts != [] {
      AmountsAsMilestones(amounts[..|amounts| - 1]);
    }
  }

  lemma {:induction false} AwardStep(t: Treasury, start: Treasury, ops: seq<Op>, op: Op)
    requires GrantsAre(t, start, ops) && t == Run(start, ops) && op.DoCreateGrant?
    ensures GrantsAre(Apply(t, op), start, ops + [op])
  {
    OneMoreOp(ops, op);
    var t' := Apply(t, op);
    AwardCounted(t, start, ops, op);
    forall id | id in t'.grants ensures GrantIs(t'.grants[id], start, ops + [op], id) {
      if id in t.grants {
        assert GrantIs(t.grants[id], start, ops, id);
        SameGrant(t.grants[id], start, ops, op, id);
      } else {
        NewGrantIs(t, start, ops, op);
      }
    }
  }

  lemma {:induction false} AwardCounted(t: Treasury, start: Treasury, ops: seq<Op>, op: Op)
    requires GrantsAre(t, start, ops) && t == Run(start, ops) && op.DoCreateGrant?
    ensures var (t', n) := (Apply(t, op), t.nextGrant);
            && t'.nextGrant == Awarded(start, ops + [op]) + 1
            && (if Awards(start, ops + [op]) then
                  && t'.grants.Keys == t.grants.Keys + {n}
                  && (forall id | id in t.grants :: t'.grants[id] == t.grants[id])
                  && t'.grants[n].recipient == op.recipient && !t'.grants[n].revoked
                  && t'.grants[n].milestones == Milestones(op.amounts)
                else t'.grants == t.grants)
  {
    OneMoreOp(ops, op);
  }

  lemma {:induction false} NewGrantIs(t: Treasury, start: Treasury, ops: seq<Op>, op: Op)
    requires GrantsAre(t, start, ops) && t == Run(start, ops) && op.DoCreateGrant? && Awards(start, ops + [op])
    requires t.nextGrant in Apply(t, op).grants
    ensures GrantIs(Apply(t, op).grants[t.nextGrant], start, ops + [op], t.nextGrant)
  {
    OneMoreOp(ops, op);
    AwardCounted(t, start, ops, op);
    NotAwarded(start, ops, t.nextGrant);
    AmountsAsMilestones(op.amounts);
    var (g, n) := (Apply(t, op).grants[t.nextGrant], t.nextGrant);
    forall k | 0 <= k < |g.milestones| ensures MilestoneIs(g.milestones[k], start, ops + [op], n, k) {
      assert ReleasedBy(start, ops + [op], n, k) == ReleasedBy(start, ops, n, k);
    }
  }

  /** An operation that is no release or revocation of the grant leaves it as it is told. */
  lemma {:induction false} SameGrant(g: Grant, start: Treasury, ops: seq<Op>, op: Op, id: nat)
    requires GrantIs(g, start, ops, id) && 1 <= id <= Awarded(start, ops)
    requires !(op.DoRelease? && op.id == id) && !(op.DoRevoke? && op.id == id)
    ensures GrantIs(g, start, ops + [op], id)
  {
    OneMoreOp(ops, op);
    forall k | 0 <= k < |g.milestones| ensures MilestoneIs(g.milestones[k], start, ops + [op], id, k) {
      assert MilestoneIs(g.milestones[k], start, ops, id, k);
    }
  }

  lemma {:induction false} ReleaseStep(t: Treasury, start: Treasury, ops: seq<Op>, op: Op)
    requires GrantsAre(t, start, ops) && op.DoRelease? && op.id in t.grants
    ensures op.id in Apply(t, op).grants && GrantIs(Apply(t, op).grants[op.id], start, ops + [op], op.id)
  {
    OneMoreOp(ops, op);
    var g := t.grants[op.id];
    var g' := Apply(t, op).grants[op.id];
    assert GrantIs(g, start, ops, op.id);
    forall k | 0 <= k < |g.milestones| ensures MilestoneIs(g'.milestones[k], start, ops + [op], op.id, k) {
      assert MilestoneIs(g.milestones[k], start, ops, op.id, k);
    }
  }

  lemma {:induction false} RevokeStep(t: Treasury, start: Treasury, ops: seq<Op>, op: Op)
    requires GrantsAre(t, start, ops) && op.DoRevoke? && op.id in t.grants
    ensures op.id in Apply(t, op).grants && GrantIs(Apply(t, op).grants[op.id], start, ops + [op], op.id)
  {
    OneMoreOp(ops, op);
    var g := t.grants[op.id];
    assert GrantIs(g, start, ops, op.id);
    forall k | 0 <= k < |g.milestones| ensures MilestoneIs(g.milestones[k], start, ops + [op], op.id, k) {
      assert MilestoneIs(g.milestones[k], start, ops, op.id, k);
    }
  }

  lemma {:induction false} OnlyItsGrant(t: Treasury, op: Op, id: nat)
    requires id in t.grants && !op.DoCreateGrant?
    ensures Apply(t, op).grants.Keys == t.grants.Keys && Apply(t, op).nextGrant == t.nextGrant
    ensures !(op.DoRelease? && op.id == id) && !(op.DoRevoke? && op.id == id)
            ==> Apply(t, op).grants[id] == t.grants[id]
  {
  }

  lemma {:induction false} NoNewGrant(t: Treasury, start: Treasury, ops: seq<Op>, op: Op)
    requires GrantsAre(t, start, ops) && !op.DoCreateGrant?
    ensures var t' := Apply(t, op);
            t'.grants.Keys == t.grants.Keys && t'.nextGrant == t.nextGrant == Awarded(start, ops + [op]) + 1
  {
    OneMoreOp(ops, op);
  }

  lemma {:induction false} GrantsStep(t: Treasury, start: Treasury, ops: seq<Op>, op: Op)
    requires GrantsAre(t, start, ops) && t == Run(start, ops)
    ensures GrantsAre(Apply(t, op), start, ops + [op])
  {
    if op.DoCreateGrant? {
      AwardStep(t, start, ops, op);
    } else {
      var t' := Apply(t, op);
      NoNewGrant(t, start, ops, op);
      forall id | id in t'.grants ensures GrantIs(t'.grants[id], start, ops + [op], id) {
        OneGrantStep(t, start, ops, op, id);
      }
    }
  }

  lemma {:induction false} OneGrantStep(t: Treasury, start: Treasury, ops: seq<Op>, op: Op, id: nat)
    requires GrantsAre(t, start, ops) && !op.DoCreateGrant? && id in t.grants
    ensures id in Apply(t, op).grants && GrantIs(Apply(t, op).grants[id], start, ops + [op], id)
  {
    if op.DoRelease? && op.id == id {
      ReleaseStep(t, start, ops, op);
    } else if op.DoRevoke? && op.id == id {
      RevokeStep(t, start, ops, op);
    } else {
      OnlyItsGrant(t, op, id);
      assert GrantIs(t.grants[id], start, ops, id);
      SameGrant(t.grants[id], start, ops, op, id);
    }
  }

  /** In every run the grants are those awarded, each to its recipient and with its amounts; a milestone is released if
      and only if some proposal released it before the grant was revoked, and a grant is revoked if and only if some
      proposal revoked it. */
  lemma {:induction false} GrantsFromHistory(required: nat, reserveBps: nat, ops: seq<Op>)
    ensures GrantsAre(Run(New(required, reserveBps), ops), New(required, reserveBps), ops)
    decreases |ops|
  {
    if ops != [] {
      var start := New(required, reserveBps);
      var init, op := ops[..|ops| - 1], ops[|ops| - 1];
      GrantsFromHistory(required, reserveBps, init);
      GrantsStep(Run(start, init), start, init, op);
      assert ops == init + [op];
    }
  }

  // ---------------------------------------------------------------- budget periods

  datatype Plan = Plan(start: nat, end: nat, limits: map<Track, nat>)

  /** The budget periods that proposals have set up and that end after they start, in order. */
  function Planned(ops: seq<Op>): seq<Plan> {
    if ops == [] then []
    else
      var op := ops[|ops| - 1];
      Planned(ops[..|ops| - 1])
      + if op.DoCreatePeriod? && op.proposal > 0 && op.start < op.end then [Plan(op.start, op.end, op.limits)] else []
  }

  ghost predicate PeriodsAre(periods: seq<Period>, plans: seq<Plan>) {
    && |periods| == |plans|
    && forall i | 0 <= i < |plans| :: Plan(periods[i].start, periods[i].end, periods[i].limits) == plans[i]
  }

  lemma {:induction false} PeriodsStep(t: Treasury, ops: seq<Op>, op: Op)
    requires PeriodsAre(t.periods, Planned(ops))
    ensures PeriodsAre(Apply(t, op).periods, Planned(ops + [op]))
  {
    OneMoreOp(ops, op);
  }

  lemma {:induction false} PeriodsFromHistory(required: nat, reserveBps: nat, ops: seq<Op>)
    ensures PeriodsAre(Run(New(required, reserveBps), ops).periods, Planned(ops))
    decreases |ops|
  {
    if ops != [] {
      var init, op := ops[..|ops| - 1], ops[|ops| - 1];
      PeriodsFromHistory(required, reserveBps, init);
      PeriodsStep(Run(New(required, reserveBps), init), init, op);
      assert ops == init + [op];
    }
  }
}
