/** What every treasury run keeps: no money is made or lost, grants and budgets add up to the log. */
module TreasuryRuns {
  import opened Bytes
  import opened Sums
  import opened TreasuryModel

  // ---------------------------------------------------------------- sums over the audit log

  function Incoming(log: seq<Record>): nat {
    if log == [] then 0
    else
      var r := log[|log| - 1];
      Incoming(log[..|log| - 1]) + if r.isDeposit && r.grant == 0 then r.amount else 0
  }

  function PaidOut(log: seq<Record>): nat {
    if log == [] then 0
    else
      var r := log[|log| - 1];
      PaidOut(log[..|log| - 1]) + if r.isDeposit then 0 else r.amount
  }

  function PaidUnder(log: seq<Record>, grant: nat): nat {
    if log == [] then 0
    else
      var r := log[|log| - 1];
      PaidUnder(log[..|log| - 1], grant) + if !r.isDeposit && r.grant == grant then r.amount else 0
  }

  function PaidFrom(log: seq<Record>, track: Track): nat {
    if log == [] then 0
    else
      var r := log[|log| - 1];
      PaidFrom(log[..|log| - 1], track) + if !r.isDeposit && r.track == track then r.amount else 0
  }

  /** What proposals have spent on a track at heights that period `i` is the first to cover. */
  function SpentIn(log: seq<Record>, periods: seq<Period>, i: nat, track: Track): nat {
    if log == [] then 0
    else
      var r := log[|log| - 1];
      SpentIn(log[..|log| - 1], periods, i, track)
      + if CountsIn(r, periods, i, track) then r.amount else 0
  }

  predicate CountsIn(r: Record, periods: seq<Period>, i: nat, track: Track) {
    !r.isDeposit && r.grant == 0 && r.track == track && track != Emergency && FirstActive(periods, r.height) == i
  }

  lemma LogStep(log: seq<Record>, r: Record)
    ensures Incoming(log + [r]) == Incoming(log) + if r.isDeposit && r.grant == 0 then r.amount else 0
    ensures PaidOut(log + [r]) == PaidOut(log) + if r.isDeposit then 0 else r.amount
  {
    assert (log + [r])[..|log|] == log;
  }

  lemma PaidStep(log: seq<Record>, r: Record, grant: nat, track: Track)
    ensures PaidUnder(log + [r], grant) == PaidUnder(log, grant) + if !r.isDeposit && r.grant == grant then r.amount else 0
    ensures PaidFrom(log + [r], track) == PaidFrom(log, track) + if !r.isDeposit && r.track == track then r.amount else 0
  {
    assert (log + [r])[..|log|] == log;
  }

  // ---------------------------------------------------------------- conservation

  /** What a grant still holds back. */
  function Held(g: Grant): nat {
    if g.revoked then 0 else Unreleased(g.milestones)
  }

  function Holdings(grants: map<nat, Grant>): map<nat, nat> {
    map id | id in grants :: Held(grants[id])
  }

  /** Every unit deposited is in a track, held by a grant, or paid out. */
  ghost predicate Conserved(t: Treasury) {
    Incoming(t.log) == AllTracks(t.balances) + Total(Holdings(t.grants)) + PaidOut(t.log)
  }

  lemma MovedExactly(b: map<Track, nat>, track: Track, amount: int)
    requires 0 <= BalanceIn(b, track) + amount <= MAX_U64
    ensures AllTracks(Moved(b, track, amount)) == AllTracks(b) + amount
  {
  }

  lemma TrackAtMostAll(b: map<Track, nat>, track: Track)
    ensures BalanceIn(b, track) <= AllTracks(b)
  {
  }

  lemma HoldingsUpdate(grants: map<nat, Grant>, id: nat, g: Grant)
    ensures Total(Holdings(grants[id := g])) + (if id in grants then Held(grants[id]) else 0)
         == Total(Holdings(grants)) + Held(g)
  {
    TotalUpdate(Holdings(grants), id, Held(g));
    assert Holdings(grants[id := g]) == Holdings(grants)[id := Held(g)];
  }

  lemma DepositConserves(t: Treasury, amount: nat, track: Track, height: nat)
    requires Conserved(t) && Incoming(t.log) + amount <= MAX_U64
    ensures Conserved(Deposit(t, amount, track, height).0)
  {
    TrackAtMostAll(t.balances, track);
    MovedExactly(t.balances, track, amount);
    LogStep(t.log, Record(true, amount, track, 0, 0, height));
  }

  lemma SpendConserves(t: Treasury, amount: nat, proposal: nat, track: Track, height: nat)
    requires Conserved(t) && Incoming(t.log) <= MAX_U64
    ensures Conserved(Spend(t, amount, proposal, track, height).0)
  {
    if Spend(t, amount, proposal, track, height).1 {
      TrackAtMostAll(t.balances, track);
      MovedExactly(t.balances, track, -(amount as int));
      LogStep(t.log, Record(false, amount, track, proposal, 0, height));
    }
  }

  lemma ExecuteConserves(t: Treasury, id: nat, height: nat)
    requires Conserved(t) && Incoming(t.log) <= MAX_U64
    ensures Conserved(Execute(t, id, height).0)
  {
    if Execute(t, id, height).1 {
      TrackAtMostAll(t.balances, Emergency);
      MovedExactly(t.balances, Emergency, -(t.spends[id].amount as int));
      LogStep(t.log, Record(false, t.spends[id].amount, Emergency, 0, 0, height));
    }
  }

  lemma {:induction false} NothingReleased(amounts: seq<nat>)
    ensures Unreleased(Milestones(amounts)) == SumOf(amounts) && Released(Milestones(amounts)) == 0
  {
    if amounts != [] {
      var last := |amounts| - 1;
      NothingReleased(amounts[..last]);
      assert Milestones(amounts)[..last] == Milestones(amounts[..last]);
      assert Milestones(amounts)[last] == Milestone(amounts[last], false);
    }
  }

  lemma CreateGrantConserves(t: Treasury, proposal: nat, recipient: Bytes, amounts: seq<nat>)
    requires Conserved(t) && Incoming(t.log) <= MAX_U64 && SumOf(amounts) <= MAX_U64
    requires t.nextGrant > 0 && t.nextGrant !in t.grants
    ensures Conserved(CreateGrant(t, proposal, recipient, amounts).0)
  {
    var total := SumOf(amounts);
    if CreateGrant(t, proposal, recipient, amounts).1 != 0 {
      TrackAtMostAll(t.balances, Grants);
      MovedExactly(t.balances, Grants, -(total as int));
      NothingReleased(amounts);
      HoldingsUpdate(t.grants, t.nextGrant, Grant(recipient, total, 0, false, Milestones(amounts)));
    }
  }

  lemma {:induction false} ReleaseOne(ms: seq<Milestone>, index: nat)
    requires index < |ms| && !ms[index].released
    ensures var ms' := ms[index := ms[index].(released := true)];
            && Unreleased(ms') + ms[index].amount == Unreleased(ms)
            && Released(ms') == Released(ms) + ms[index].amount
    decreases |ms|
  {
    var ms' := ms[index := ms[index].(released := true)];
    var last := |ms| - 1;
    if index == last {
      assert ms'[..last] == ms[..last];
    } else {
      ReleaseOne(ms[..last], index);
      assert ms'[..last] == ms[..last][index := ms[index].(released := true)];
    }
  }

  lemma ReleaseConserves(t: Treasury, id: nat, index: nat, proposal: nat, height: nat)
    requires Conserved(t)
    ensures Conserved(ReleaseMilestone(t, id, index, proposal, height).0)
  {
    var t' := ReleaseMilestone(t, id, index, proposal, height).0;
    if ReleaseMilestone(t, id, index, proposal, height).1 {
      ReleaseOne(t.grants[id].milestones, index);
      HoldingsUpdate(t.grants, id, t'.grants[id]);
      LogStep(t.log, Record(false, t.grants[id].milestones[index].amount, Grants, proposal, id, height));
    }
  }

  lemma RevokeConserves(t: Treasury, id: nat, proposal: nat, height: nat)
    requires Conserved(t) && Incoming(t.log) <= MAX_U64 && (id in t.grants ==> id != 0)
    ensures Conserved(RevokeGrant(t, id, proposal, height).0)
  {
    if RevokeGrant(t, id, proposal, height).1 {
      var g := t.grants[id];
      TotalAtLeast(Holdings(t.grants), id);
      TrackAtMostAll(t.balances, Grants);
      MovedExactly(t.balances, Grants, Unreleased(g.milestones));
      HoldingsUpdate(t.grants, id, g.(revoked := true));
      LogStep(t.log, Record(true, Unreleased(g.milestones), Grants, proposal, id, height));
    }
  }

  // ---------------------------------------------------------------- grants against the log

  ghost predicate GrantAddsUp(t: Treasury, id: nat)
    requires id in t.grants
  {
    var g := t.grants[id];
    && 1 <= id < t.nextGrant
    && g.total == Released(g.milestones) + Unreleased(g.milestones) <= MAX_U64
    && g.released == Released(g.milestones) == PaidUnder(t.log, id)
  }

  ghost predicate GrantsAddUp(t: Treasury) {
    && (forall id | id in t.grants :: GrantAddsUp(t, id))
    && (forall i | 0 <= i < |t.log| :: t.log[i].grant < t.nextGrant)
    && t.nextGrant >= 1
  }

  lemma {:induction false} NothingPaidUnder(log: seq<Record>, id: nat)
    requires forall i | 0 <= i < |log| :: log[i].grant < id
    ensures PaidUnder(log, id) == 0
  {
    if log != [] {
      NothingPaidUnder(log[..|log| - 1], id);
    }
  }

  /** A log line that is no grant payout leaves every grant's account as it was. */
  lemma NoPayout(t: Treasury, t': Treasury)
    requires GrantsAddUp(t) && t'.grants == t.grants && t'.nextGrant == t.nextGrant
    requires t.log <= t'.log && |t'.log| <= |t.log| + 1
    requires forall i | |t.log| <= i < |t'.log| ::
               t'.log[i].grant < t.nextGrant && (t'.log[i].isDeposit || t'.log[i].grant == 0)
    ensures GrantsAddUp(t')
  {
    if t'.log != t.log {
      assert t'.log == t.log + [t'.log[|t.log|]];
      AnotherLine(t, t', t'.log[|t.log|]);
    } else {
      assert forall id | id in t.grants :: GrantAddsUp(t, id) ==> GrantAddsUp(t', id);
    }
  }

  lemma AnotherLine(t: Treasury, t': Treasury, r: Record)
    requires GrantsAddUp(t) && t'.grants == t.grants && t'.nextGrant == t.nextGrant
    requires t'.log == t.log + [r] && r.grant < t.nextGrant && (r.isDeposit || r.grant == 0)
    ensures GrantsAddUp(t')
  {
    forall id | id in t.grants ensures GrantAddsUp(t', id) {
      assert GrantAddsUp(t, id);
      PaidStep(t.log, r, id, Grants);
    }
  }

  lemma CreateGrantAddsUp(t: Treasury, proposal: nat, recipient: Bytes, amounts: seq<nat>)
    requires GrantsAddUp(t) && SumOf(amounts) <= MAX_U64
    ensures GrantsAddUp(CreateGrant(t, proposal, recipient, amounts).0)
  {
    var t' := CreateGrant(t, proposal, recipient, amounts).0;
    NothingReleased(amounts);
    NothingPaidUnder(t.log, t.nextGrant);
    forall id | id in t'.grants ensures GrantAddsUp(t', id) {
      assert id in t.grants ==> GrantAddsUp(t, id);
    }
  }

  lemma ReleaseAddsUp(t: Treasury, id: nat, index: nat, proposal: nat, height: nat)
    requires GrantsAddUp(t)
    ensures GrantsAddUp(ReleaseMilestone(t, id, index, proposal, height).0)
  {
    var t' := ReleaseMilestone(t, id, index, proposal, height).0;
    if ReleaseMilestone(t, id, index, proposal, height).1 {
      assert GrantAddsUp(t, id);
      ReleaseOne(t.grants[id].milestones, index);
      var r := Record(false, t.grants[id].milestones[index].amount, Grants, proposal, id, height);
      forall k | k in t'.grants ensures GrantAddsUp(t', k) {
        assert GrantAddsUp(t, k);
        PaidStep(t.log, r, k, Grants);
      }
    }
  }

  lemma RevokeAddsUp(t: Treasury, id: nat, proposal: nat, height: nat)
    requires GrantsAddUp(t)
    ensures GrantsAddUp(RevokeGrant(t, id, proposal, height).0)
  {
    var t' := RevokeGrant(t, id, proposal, height).0;
    if RevokeGrant(t, id, proposal, height).1 {
      assert GrantAddsUp(t, id);
      forall k | k in t'.grants ensures GrantAddsUp(t', k) {
        assert GrantAddsUp(t, k);
        PaidStep(t.log, t'.log[|t.log|], k, Grants);
      }
    }
  }

  // ---------------------------------------------------------------- emergency spends against the log

  function Executed(spends: map<nat, MultiSigSpend>): map<nat, nat> {
    map id | id in spends :: if spends[id].executed then spends[id].amount else 0
  }

  /** The emergency payouts in the log are the executed spends, each once. */
  ghost predicate EmergencyAddsUp(t: Treasury) {
    && PaidFrom(t.log, Emergency) == Total(Executed(t.spends))
    && forall id | id in t.spends :: id < t.nextSpend
  }

  lemma ExecutedUpdate(spends: map<nat, MultiSigSpend>, id: nat, s: MultiSigSpend)
    ensures Total(Executed(spends[id := s]))
            + (if id in spends && spends[id].executed then spends[id].amount else 0)
         == Total(Executed(spends)) + if s.executed then s.amount else 0
  {
    TotalUpdate(Executed(spends), id, if s.executed then s.amount else 0);
    assert Executed(spends[id := s]) == Executed(spends)[id := if s.executed then s.amount else 0];
  }

  lemma ProposeKeepsEmergency(t: Treasury, amount: nat, recipient: Bytes, initiator: Bytes)
    requires EmergencyAddsUp(t)
    ensures EmergencyAddsUp(Propose(t, amount, recipient, initiator).0)
  {
    ExecutedUpdate(t.spends, t.nextSpend, MultiSigSpend(amount, recipient, false, {initiator}));
  }

  lemma SignKeepsEmergency(t: Treasury, id: nat, guardian: Bytes)
    requires EmergencyAddsUp(t)
    ensures EmergencyAddsUp(Sign(t, id, guardian).0)
  {
    if id in t.spends {
      ExecutedUpdate(t.spends, id, t.spends[id].(signers := t.spends[id].signers + {guardian}));
    }
  }

  lemma ExecuteKeepsEmergency(t: Treasury, id: nat, height: nat)
    requires EmergencyAddsUp(t)
    ensures EmergencyAddsUp(Execute(t, id, height).0)
  {
    if Execute(t, id, height).1 {
      ExecutedUpdate(t.spends, id, t.spends[id].(executed := true));
      PaidStep(t.log, Record(false, t.spends[id].amount, Emergency, 0, 0, height), 0, Emergency);
    }
  }

  /** A line that is no emergency payout. */
  lemma OtherLineEmergency(t: Treasury, t': Treasury)
    requires EmergencyAddsUp(t) && t'.spends == t.spends && t'.nextSpend == t.nextSpend
    requires t.log <= t'.log && |t'.log| <= |t.log| + 1
    requires forall i | |t.log| <= i < |t'.log| :: t'.log[i].isDeposit || t'.log[i].track != Emergency
    ensures EmergencyAddsUp(t')
  {
    if t'.log != t.log {
      assert t'.log == t.log + [t'.log[|t.log|]];
      PaidStep(t.log, t'.log[|t.log|], 0, Emergency);
    }
  }

  lemma EmergencyKept(t: Treasury, op: Op)
    requires EmergencyAddsUp(t)
    ensures EmergencyAddsUp(Apply(t, op))
  {
    match op
    case DoPropose(amount, recipient, initiator) => ProposeKeepsEmergency(t, amount, recipient, initiator);
    case DoSign(id, guardian) => SignKeepsEmergency(t, id, guardian);
    case DoExecute(id, height) => ExecuteKeepsEmergency(t, id, height);
    case _ =>
      NoSpendOp(t, op);
      OtherLineEmergency(t, Apply(t, op));
  }

  /** The same of operations other than those on multi-signature spends. */
  lemma NoSpendOp(t: Treasury, op: Op)
    requires !op.DoPropose? && !op.DoSign? && !op.DoExecute?
    ensures var t' := Apply(t, op);
            && t'.spends == t.spends && t'.nextSpend == t.nextSpend
            && t.log <= t'.log && |t'.log| <= |t.log| + 1
            && (|t'.log| > |t.log| ==> t'.log[|t.log|].isDeposit || t'.log[|t.log|].track != Emergency)
  {
  }

  // ---------------------------------------------------------------- all of it, over runs

  ghost predicate AddsUp(t: Treasury) {
    Conserved(t) && GrantsAddUp(t) && EmergencyAddsUp(t)
  }

  lemma ApplyConserves(t: Treasury, op: Op)
    requires Conserved(t) && GrantsAddUp(t) && Fits(op)
    requires Incoming(t.log) + (if op.DoDeposit? then op.amount else 0) <= MAX_U64
    ensures Conserved(Apply(t, op))
  {
    match op
    case DoDeposit(amount, track, height) => DepositConserves(t, amount, track, height);
    case DoSpend(amount, proposal, track, height) => SpendConserves(t, amount, proposal, track, height);
    case DoExecute(id, height) => ExecuteConserves(t, id, height);
    case DoCreateGrant(proposal, recipient, amounts) =>
      assert t.nextGrant in t.grants ==> GrantAddsUp(t, t.nextGrant);
      CreateGrantConserves(t, proposal, recipient, amounts);
    case DoRelease(id, index, proposal, height) => ReleaseConserves(t, id, index, proposal, height);
    case DoRevoke(id, proposal, height) =>
      assert id in t.grants ==> GrantAddsUp(t, id);
      RevokeConserves(t, id, proposal, height);
    case _ => NoMoneyMoves(t, op);
  }

  lemma NoMoneyMoves(t: Treasury, op: Op)
    requires op.DoPropose? || op.DoSign? || op.DoCreatePeriod? || op.DoAddGuardian? || op.DoRemoveGuardian?
             || op.DoConfigure?
    ensures var t' := Apply(t, op); t'.balances == t.balances && t'.grants == t.grants && t'.log == t.log
  {
  }

  lemma ApplyGrants(t: Treasury, op: Op)
    requires GrantsAddUp(t) && Fits(op)
    ensures GrantsAddUp(Apply(t, op))
  {
    match op
    case DoCreateGrant(proposal, recipient, amounts) => CreateGrantAddsUp(t, proposal, recipient, amounts);
    case DoRelease(id, index, proposal, height) => ReleaseAddsUp(t, id, index, proposal, height);
    case DoRevoke(id, proposal, height) => RevokeAddsUp(t, id, proposal, height);
    case _ =>
      NoGrantOp(t, op);
      NoPayout(t, Apply(t, op));
  }

  /** Operations other than those on grants leave the grants alone and log no line under one. */
  lemma NoGrantOp(t: Treasury, op: Op)
    requires !op.DoCreateGrant? && !op.DoRelease? && !op.DoRevoke?
    ensures var t' := Apply(t, op);
            && t'.grants == t.grants && t'.nextGrant == t.nextGrant
            && t.log <= t'.log && |t'.log| <= |t.log| + 1
            && (|t'.log| > |t.log| ==> t'.log[|t.log|].grant == 0)
  {
  }

  lemma ApplyIncoming(t: Treasury, op: Op)
    requires GrantsAddUp(t)
    ensures Incoming(Apply(t, op).log) == Incoming(t.log) + if op.DoDeposit? then op.amount else 0
  {
    var t' := Apply(t, op);
    if |t'.log| > |t.log| {
      LogStep(t.log, t'.log[|t.log|]);
    }
    match op
    case DoRevoke(id, proposal, height) => assert id in t.grants ==> GrantAddsUp(t, id);
    case _ =>
  }

  /** In every run whose deposits fit 64 bits: deposits equal track balances plus what grants still hold
      plus what was paid out; each grant has paid exactly its released milestones; and the emergency
      track has paid exactly the executed spends. */
  lemma {:induction false} RunAddsUp(required: nat, reserveBps: nat, ops: seq<Op>)
    requires Deposited(ops) <= MAX_U64 && forall i | 0 <= i < |ops| :: Fits(ops[i])
    ensures var t := Run(New(required, reserveBps), ops);
            AddsUp(t) && Incoming(t.log) == Deposited(ops)
    decreases |ops|
  {
    if ops == [] {
      assert Holdings(map[]) == map[] && Executed(map[]) == map[];
    } else {
      var init, op := ops[..|ops| - 1], ops[|ops| - 1];
      RunAddsUp(required, reserveBps, init);
      var t := Run(New(required, reserveBps), init);
      ApplyConserves(t, op);
      ApplyGrants(t, op);
      EmergencyKept(t, op);
      ApplyIncoming(t, op);
    }
  }

  /** A grant sets aside what its milestones will pay exactly when their sum fits 64 bits. */
  lemma GrantCoversMilestones(t: Treasury, proposal: nat, recipient: Bytes, amounts: seq<nat>)
    requires CreateGrant(t, proposal, recipient, amounts).1 != 0
    ensures var g := CreateGrant(t, proposal, recipient, amounts).0.grants[t.nextGrant];
            g.total == Unreleased(g.milestones) <==> SumOf(amounts) <= MAX_U64
  {
    NothingReleased(amounts);
  }
}
