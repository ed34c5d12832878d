/** What a treasury run has led to, told from its operations alone: who stands behind an executed spend, and what is
    in each track. */
module TreasuryHistory {
  import opened Bytes
  import opened Sums
  import opened TreasuryModel
  import TreasuryRuns
  import TreasurySigners

  // ---------------------------------------------------------------- who proposed and signed what

  /** Who is a guardian after the operations. */
  function Guardians(ops: seq<Op>): set<Bytes> {
    if ops == [] then {}
    else
      var op, before := ops[|ops| - 1], Guardians(ops[..|ops| - 1]);
      if op.DoAddGuardian? && op.guardian != [] then before + {op.guardian}
      else if op.DoRemoveGuardian? then before - {op.guardian}
      else before
  }

  /** How many signatures are asked for after the operations. */
  function Required(start: nat, ops: seq<Op>): nat {
    if ops == [] then start
    else if ops[|ops| - 1].DoConfigure? then ops[|ops| - 1].required
    else Required(start, ops[..|ops| - 1])
  }

  /** The last operation is a guardian's proposal of some money for somebody. */
  predicate Proposes(ops: seq<Op>) {
    ops != []
    && var op := ops[|ops| - 1];
       op.DoPropose? && op.amount > 0 && op.recipient != [] && op.initiator in Guardians(ops[..|ops| - 1])
  }

  /** How many spends have been proposed; they are numbered from one. */
  function Proposed(ops: seq<Op>): nat {
    if ops == [] then 0 else Proposed(ops[..|ops| - 1]) + if Proposes(ops) then 1 else 0
  }

  /** What the spend of that number asks for. */
  function Asked(ops: seq<Op>, id: nat): nat {
    if ops == [] then 0
    else if Proposes(ops) && Proposed(ops) == id then ops[|ops| - 1].amount
    else Asked(ops[..|ops| - 1], id)
  }

  /** Those who proposed or signed it, each a guardian when they did. */
  function Behind(ops: seq<Op>, id: nat): set<Bytes> {
    if ops == [] then {}
    else
      var op, init := ops[|ops| - 1], ops[..|ops| - 1];
      if Proposes(ops) && Proposed(ops) == id then {op.initiator}
      else if op.DoSign? && op.id == id && 1 <= id <= Proposed(init) && op.guardian in Guardians(init)
      then Behind(init, id) + {op.guardian}
      else Behind(init, id)
  }

  /** Operation `j` executes the spend: it was proposed, enough guardians stand behind it, and the emergency track
      holds what it asks for. */
  predicate Pays(required: nat, reserveBps: nat, ops: seq<Op>, j: nat, id: nat)
    requires j < |ops|
  {
    && ops[j].DoExecute? && ops[j].id == id && 1 <= id <= Proposed(ops[..j])
    && |Behind(ops[..j], id)| >= Required(required, ops[..j])
    && Balance(Run(New(required, reserveBps), ops[..j]), Emergency) >= Asked(ops[..j], id)
  }

  // ---------------------------------------------------------------- the treasury against its history

  ghost predicate SpendIs(s: MultiSigSpend, ops: seq<Op>, id: nat) {
    s.amount == Asked(ops, id) && if s.executed then s.signers <= Behind(ops, id) else s.signers == Behind(ops, id)
  }

  ghost predicate CouncilIs(t: Treasury, required: nat, ops: seq<Op>) {
    && TreasurySigners.Distinct(t.guardians) && (forall g :: g in t.guardians <==> g in Guardians(ops))
    && t.required == Required(required, ops) && t.nextSpend == Proposed(ops) + 1
    && (forall id :: id in t.spends <==> 1 <= id <= Proposed(ops))
    && forall id | id in t.spends :: SpendIs(t.spends[id], ops, id)
  }

  lemma OneMoreOp(ops: seq<Op>, op: Op)
    ensures ops + [op] != [] && (ops + [op])[..|ops + [op]| - 1] == ops && (ops + [op])[|ops + [op]| - 1] == op
  {
  }

  lemma {:induction false} GuardiansStep(t: Treasury, required: nat, ops: seq<Op>, op: Op)
    requires CouncilIs(t, required, ops)
    ensures TreasurySigners.Distinct(Apply(t, op).guardians)
    ensures forall g :: g in Apply(t, op).guardians <==> g in Guardians(ops + [op])
  {
    OneMoreOp(ops, op);
    TreasurySigners.WithoutExactly(t.guardians, if op.DoRemoveGuardian? then op.guardian else []);
  }

  lemma {:induction false} CountersStep(t: Treasury, required: nat, ops: seq<Op>, op: Op)
    requires CouncilIs(t, required, ops)
    ensures Apply(t, op).required == Required(required, ops + [op])
    ensures Apply(t, op).nextSpend == Proposed(ops + [op]) + 1
    ensures forall id :: id in Apply(t, op).spends <==> 1 <= id <= Proposed(ops + [op])
  {
    OneMoreOp(ops, op);
  }

  lemma {:induction false} SpendStep(t: Treasury, required: nat, ops: seq<Op>, op: Op, id: nat)
    requires CouncilIs(t, required, ops) && id in Apply(t, op).spends
    ensures SpendIs(Apply(t, op).spends[id], ops + [op], id)
  {
    OneMoreOp(ops, op);
    if id in t.spends {
      assert SpendIs(t.spends[id], ops, id);
    }
    if !op.DoPropose? && !op.DoSign? && !op.DoExecute? {
      TreasuryRuns.NoSpendOp(t, op);
    } else {
      SpendOpStep(t, required, ops, op, id);
    }
  }

  lemma {:induction false} SpendOpStep(t: Treasury, required: nat, ops: seq<Op>, op: Op, id: nat)
    requires CouncilIs(t, required, ops) && id in Apply(t, op).spends && (id in t.spends ==> SpendIs(t.spends[id], ops, id))
    requires op.DoPropose? || op.DoSign? || op.DoExecute?
    ensures SpendIs(Apply(t, op).spends[id], ops + [op], id)
  {
    OneMoreOp(ops, op);
  }

  lemma {:induction false} CouncilStep(t: Treasury, required: nat, ops: seq<Op>, op: Op)
    requires CouncilIs(t, required, ops)
    ensures CouncilIs(Apply(t, op), required, ops + [op])
  {
    GuardiansStep(t, required, ops, op);
    CountersStep(t, required, ops, op);
    forall id | id in Apply(t, op).spends ensures SpendIs(Apply(t, op).spends[id], ops + [op], id) {
      SpendStep(t, required, ops, op, id);
    }
  }

  lemma {:induction false} RunCouncil(required: nat, reserveBps: nat, ops: seq<Op>)
    ensures CouncilIs(Run(New(required, reserveBps), ops), required, ops)
    decreases |ops|
  {
    if ops != [] {
      var init, op := ops[..|ops| - 1], ops[|ops| - 1];
      RunCouncil(required, reserveBps, init);
      CouncilStep(Run(New(required, reserveBps), init), required, init, op);
      assert ops == init + [op];
    }
  }

  // ---------------------------------------------------------------- executed spends

  lemma {:induction false} ExecutesAt(required: nat, reserveBps: nat, ops: seq<Op>, id: nat)
    requires ops != [] && Pays(required, reserveBps, ops, |ops| - 1, id)
    ensures var t := Run(New(required, reserveBps), ops); id in t.spends && t.spends[id].executed
  {
    var t := Run(New(required, reserveBps), ops[..|ops| - 1]);
    RunCouncil(required, reserveBps, ops[..|ops| - 1]);
    assert SpendIs(t.spends[id], ops[..|ops| - 1], id);
  }

  lemma {:induction false} PaysWhenExecuting(required: nat, reserveBps: nat, ops: seq<Op>, id: nat)
    requires ops != []
    requires var s, t := Run(New(required, reserveBps), ops[..|ops| - 1]), Run(New(required, reserveBps), ops);
             id in t.spends && t.spends[id].executed && !(id in s.spends && s.spends[id].executed)
    ensures Pays(required, reserveBps, ops, |ops| - 1, id)
  {
    RunCouncil(required, reserveBps, ops[..|ops| - 1]);
    var s := Run(New(required, reserveBps), ops[..|ops| - 1]);
    NewlyExecuted(s, ops[|ops| - 1], id);
    assert SpendIs(s.spends[id], ops[..|ops| - 1], id);
  }

  lemma NewlyExecuted(s: Treasury, op: Op, id: nat)
    requires id in Apply(s, op).spends && Apply(s, op).spends[id].executed
    requires !(id in s.spends && s.spends[id].executed)
    ensures op.DoExecute? && op.id == id && id in s.spends
    ensures |s.spends[id].signers| >= s.required && s.spends[id].amount <= Balance(s, Emergency)
  {
  }

  lemma {:induction false} StaysExecuted(required: nat, t: Treasury, ops: seq<Op>, op: Op, id: nat)
    requires CouncilIs(t, required, ops) && id in t.spends && t.spends[id].executed
    ensures id in Apply(t, op).spends && Apply(t, op).spends[id].executed
  {
  }

  lemma PaysEarlier(required: nat, reserveBps: nat, ops: seq<Op>, j: nat, id: nat)
    requires j < |ops| - 1
    ensures Pays(required, reserveBps, ops[..|ops| - 1], j, id) <==> Pays(required, reserveBps, ops, j, id)
  {
    assert ops[..|ops| - 1][..j] == ops[..j];
  }

  lemma {:induction false} ExecutedIfPaid(required: nat, reserveBps: nat, ops: seq<Op>, j: nat, id: nat)
    requires j < |ops| && Pays(required, reserveBps, ops, j, id)
    ensures var t := Run(New(required, reserveBps), ops); id in t.spends && t.spends[id].executed
    decreases |ops|
  {
    var last := |ops| - 1;
    if j == last {
      ExecutesAt(required, reserveBps, ops, id);
    } else {
      PaysEarlier(required, reserveBps, ops, j, id);
      ExecutedIfPaid(required, reserveBps, ops[..last], j, id);
      RunCouncil(required, reserveBps, ops[..last]);
      StaysExecuted(required, Run(New(required, reserveBps), ops[..last]), ops[..last], ops[last], id);
    }
  }

  lemma {:induction false} PaidIfExecuted(required: nat, reserveBps: nat, ops: seq<Op>, id: nat) returns (j: nat)
    requires var t := Run(New(required, reserveBps), ops); id in t.spends && t.spends[id].executed
    ensures j < |ops| && Pays(required, reserveBps, ops, j, id)
    decreases |ops|
  {
    var last := |ops| - 1;
    var s := Run(New(required, reserveBps), ops[..last]);
    if id in s.spends && s.spends[id].executed {
      j := PaidIfExecuted(required, reserveBps, ops[..last], id);
      PaysEarlier(required, reserveBps, ops, j, id);
    } else {
      j := last;
      PaysWhenExecuting(required, reserveBps, ops, id);
    }
  }

  /** In every run a spend is executed if and only if at some operation that executes it as many distinct guardians
      as were then required had proposed or signed it, each a guardian at the time, and the emergency track held
      what it asks for. */
  lemma ExecutedExactly(required: nat, reserveBps: nat, ops: seq<Op>, id: nat)
    ensures var t := Run(New(required, reserveBps), ops);
            id in t.spends && t.spends[id].executed
            <==> exists j: nat :: j < |ops| && Pays(required, reserveBps, ops, j, id)
  {
    var t := Run(New(required, reserveBps), ops);
    if id in t.spends && t.spends[id].executed {
      var j := PaidIfExecuted(required, reserveBps, ops, id);
    }
    if j: nat :| j < |ops| && Pays(required, reserveBps, ops, j, id) {
      ExecutedIfPaid(required, reserveBps, ops, j, id);
    }
  }

  // ---------------------------------------------------------------- each track

  /** What was deposited into one track. */
  function DepositedTo(ops: seq<Op>, track: Track): nat {
    if ops == [] then 0
    else
      var op := ops[|ops| - 1];
      DepositedTo(ops[..|ops| - 1], track) + if op.DoDeposit? && op.track == track then op.amount else 0
  }

  lemma {:induction false} PartOfAll(ops: seq<Op>, track: Track)
    ensures DepositedTo(ops, track) <= Deposited(ops)
  {
    if ops != [] {
      PartOfAll(ops[..|ops| - 1], track);
    }
  }

  /** What grants hold back is out of the grants track. */
  ghost function HeldFor(t: Treasury, track: Track): nat {
    if track == Grants then Total(TreasuryRuns.Holdings(t.grants)) else 0
  }

  /** What went into the track is in it, held for grants, or paid out of it. */
  ghost predicate TrackAddsUp(t: Treasury, track: Track, deposited: nat) {
    Balance(t, track) + HeldFor(t, track) + TreasuryRuns.PaidFrom(t.log, track) == deposited
  }

  lemma MovedAt(b: map<Track, nat>, track: Track, amount: int, other: Track)
    requires 0 <= BalanceIn(b, track) + amount <= MAX_U64
    ensures BalanceIn(Moved(b, track, amount), other) == BalanceIn(b, other) + if other == track then amount else 0
  {
  }

  lemma DepositTrack(t: Treasury, amount: nat, to: Track, height: nat, track: Track, deposited: nat)
    requires TrackAddsUp(t, track, deposited) && Balance(t, to) + amount <= MAX_U64
    ensures TrackAddsUp(Deposit(t, amount, to, height).0, track, deposited + if track == to then amount else 0)
  {
    MovedAt(t.balances, to, amount, track);
    TreasuryRuns.PaidStep(t.log, Record(true, amount, to, 0, 0, height), 0, track);
  }

  lemma SpendTrack(t: Treasury, amount: nat, proposal: nat, from: Track, height: nat, track: Track, deposited: nat)
    requires TrackAddsUp(t, track, deposited) && Balance(t, from) <= MAX_U64
    ensures TrackAddsUp(Spend(t, amount, proposal, from, height).0, track, deposited)
  {
    if Spend(t, amount, proposal, from, height).1 {
      MovedAt(t.balances, from, 0 - amount, track);
      TreasuryRuns.PaidStep(t.log, Record(false, amount, from, proposal, 0, height), 0, track);
    }
  }

  lemma ExecuteTrack(t: Treasury, id: nat, height: nat, track: Track, deposited: nat)
    requires TrackAddsUp(t, track, deposited) && Balance(t, Emergency) <= MAX_U64
    ensures TrackAddsUp(Execute(t, id, height).0, track, deposited)
  {
    if Execute(t, id, height).1 {
      MovedAt(t.balances, Emergency, 0 - t.spends[id].amount, track);
      TreasuryRuns.PaidStep(t.log, Record(false, t.spends[id].amount, Emergency, 0, 0, height), 0, track);
    }
  }

  lemma CreateGrantTrack(t: Treasury, proposal: nat, recipient: Bytes, amounts: seq<nat>, track: Track, deposited: nat)
    requires TrackAddsUp(t, track, deposited) && Balance(t, Grants) <= MAX_U64 && SumOf(amounts) <= MAX_U64
    requires t.nextGrant !in t.grants && t.nextGrant > 0
    ensures TrackAddsUp(CreateGrant(t, proposal, recipient, amounts).0, track, deposited)
  {
    var total := SumOf(amounts);
    if CreateGrant(t, proposal, recipient, amounts).1 != 0 {
      MovedAt(t.balances, Grants, -(total as int), track);
      TreasuryRuns.NothingReleased(amounts);
      TreasuryRuns.HoldingsUpdate(t.grants, t.nextGrant, Grant(recipient, total, 0, false, Milestones(amounts)));
    }
  }

  lemma ReleaseTrack(t: Treasury, id: nat, index: nat, proposal: nat, height: nat, track: Track, deposited: nat)
    requires TrackAddsUp(t, track, deposited)
    ensures TrackAddsUp(ReleaseMilestone(t, id, index, proposal, height).0, track, deposited)
  {
    var t' := ReleaseMilestone(t, id, index, proposal, height).0;
    if ReleaseMilestone(t, id, index, proposal, height).1 {
      TreasuryRuns.ReleaseOne(t.grants[id].milestones, index);
      TreasuryRuns.HoldingsUpdate(t.grants, id, t'.grants[id]);
      TreasuryRuns.PaidStep(t.log, Record(false, t.grants[id].milestones[index].amount, Grants, proposal, id, height),
                            0, track);
    }
  }

  lemma RevokeTrack(t: Treasury, id: nat, proposal: nat, height: nat, track: Track, deposited: nat)
    requires TrackAddsUp(t, track, deposited)
    requires Balance(t, Grants) + Total(TreasuryRuns.Holdings(t.grants)) <= MAX_U64
    ensures TrackAddsUp(RevokeGrant(t, id, proposal, height).0, track, deposited)
  {
    if RevokeGrant(t, id, proposal, height).1 {
      var g := t.grants[id];
      TotalAtLeast(TreasuryRuns.Holdings(t.grants), id);
      MovedAt(t.balances, Grants, Unreleased(g.milestones), track);
      TreasuryRuns.HoldingsUpdate(t.grants, id, g.(revoked := true));
      TreasuryRuns.PaidStep(t.log, Record(true, Unreleased(g.milestones), Grants, proposal, id, height), 0, track);
    }
  }

  /** Every track fits what was deposited into it, and grants are numbered in order. */
  ghost predicate TracksFit(t: Treasury, ops: seq<Op>) {
    && (forall track :: TrackAddsUp(t, track, DepositedTo(ops, track)))
    && t.nextGrant > 0 && forall id | id in t.grants :: id < t.nextGrant
  }

  lemma {:induction false} StepTrack(t: Treasury, ops: seq<Op>, op: Op, track: Track)
    requires TracksFit(t, ops) && Fits(op) && Deposited(ops + [op]) <= MAX_U64
    ensures TrackAddsUp(Apply(t, op), track, DepositedTo(ops + [op], track))
  {
    OneMoreOp(ops, op);
    BalancesFit(t, ops, op);
    ApplyTrack(t, op, track, DepositedTo(ops, track));
  }

  lemma {:induction false} ApplyTrack(t: Treasury, op: Op, track: Track, deposited: nat)
    requires TrackAddsUp(t, track, deposited) && Fits(op) && t.nextGrant !in t.grants && t.nextGrant > 0
    requires forall other :: Balance(t, other) + HeldFor(t, other) <= MAX_U64
    requires op.DoDeposit? ==> Balance(t, op.track) + op.amount <= MAX_U64
    ensures TrackAddsUp(Apply(t, op), track, deposited + if op.DoDeposit? && op.track == track then op.amount else 0)
  {
    match op
    case DoDeposit(amount, to, height) => DepositTrack(t, amount, to, height, track, deposited);
    case DoSpend(amount, proposal, from, height) => SpendTrack(t, amount, proposal, from, height, track, deposited);
    case DoExecute(id, height) => ExecuteTrack(t, id, height, track, deposited);
    case DoCreateGrant(proposal, recipient, amounts) =>
      CreateGrantTrack(t, proposal, recipient, amounts, track, deposited);
    case DoRelease(id, index, proposal, height) =>
      ReleaseTrack(t, id, index, proposal, height, track, deposited);
    case DoRevoke(id, proposal, height) =>
      assert Balance(t, Grants) + HeldFor(t, Grants) <= MAX_U64;
      RevokeTrack(t, id, proposal, height, track, deposited);
    case _ => TreasuryRuns.NoMoneyMoves(t, op);
  }

  lemma BalancesFit(t: Treasury, ops: seq<Op>, op: Op)
    requires TracksFit(t, ops) && Deposited(ops + [op]) <= MAX_U64
    ensures forall track :: Balance(t, track) + HeldFor(t, track) <= MAX_U64
    ensures op.DoDeposit? ==> Balance(t, op.track) + op.amount <= MAX_U64
  {
    OneMoreOp(ops, op);
    forall track ensures Balance(t, track) + HeldFor(t, track) <= Deposited(ops) {
      assert TrackAddsUp(t, track, DepositedTo(ops, track));
      PartOfAll(ops, track);
    }
  }

  lemma GrantNumbers(t: Treasury, op: Op)
    requires t.nextGrant > 0 && forall id | id in t.grants :: id < t.nextGrant
    ensures var t' := Apply(t, op); t'.nextGrant > 0 && forall id | id in t'.grants :: id < t'.nextGrant
  {
  }

  /** In every run whose deposits fit 64 bits, for each track: what was deposited into it is in it, held for grants
      where it is the grants track, or was paid out of it. */
  lemma {:induction false} EveryTrackAddsUp(required: nat, reserveBps: nat, ops: seq<Op>)
    requires Deposited(ops) <= MAX_U64 && forall i | 0 <= i < |ops| :: Fits(ops[i])
    ensures TracksFit(Run(New(required, reserveBps), ops), ops)
    decreases |ops|
  {
    if ops == [] {
      assert TreasuryRuns.Holdings(map[]) == map[];
    } else {
      var init, op := ops[..|ops| - 1], ops[|ops| - 1];
      EveryTrackAddsUp(required, reserveBps, init);
      assert ops == init + [op];
      GrantNumbers(Run(New(required, reserveBps), init), op);
      forall track
        ensures TrackAddsUp(Run(New(required, reserveBps), ops), track, DepositedTo(ops, track))
      {
        StepTrack(Run(New(required, reserveBps), init), init, op, track);
      }
    }
  }
}
