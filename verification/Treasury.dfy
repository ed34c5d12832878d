/** The treasury: tracks, budget periods, milestone grants and multi-signature spends. */
module TreasuryModel {
  import opened Bytes

  datatype Track = CoreDevelopment | Grants | Operations | Emergency | Uncategorized

  datatype Period = Period(start: nat, end: nat, limits: map<Track, nat>, spent: map<Track, nat>)

  datatype Milestone = Milestone(amount: nat, released: bool)

  datatype Grant = Grant(recipient: Bytes, total: nat, released: nat, revoked: bool, milestones: seq<Milestone>)

  datatype MultiSigSpend = MultiSigSpend(amount: nat, recipient: Bytes, executed: bool, signers: set<Bytes>)

  /** A line of the audit log. A refund of a revoked grant is logged as a deposit under its grant. */
  datatype Record = Record(isDeposit: bool, amount: nat, track: Track, proposal: nat, grant: nat, height: nat)

  datatype Treasury = Treasury(
    balances: map<Track, nat>,
    guardians: seq<Bytes>,
    spends: map<nat, MultiSigSpend>,
    periods: seq<Period>,
    grants: map<nat, Grant>,
    log: seq<Record>,
    nextSpend: nat,
    nextGrant: nat,
    required: nat,
    reserveBps: nat)

  const NO_BALANCE: map<Track, nat> :=
    map[CoreDevelopment := 0, Grants := 0, Operations := 0, Emergency := 0, Uncategorized := 0]

  function New(required: nat, reserveBps: nat): Treasury {
    Treasury(NO_BALANCE, [], map[], [], map[], [], 1, 1, required, reserveBps)
  }

  function BalanceIn(b: map<Track, nat>, track: Track): nat {
    if track in b then b[track] else 0
  }

  function Balance(t: Treasury, track: Track): nat {
    BalanceIn(t.balances, track)
  }

  function AllTracks(b: map<Track, nat>): nat {
    BalanceIn(b, CoreDevelopment) + BalanceIn(b, Grants) + BalanceIn(b, Operations) + BalanceIn(b, Emergency)
    + BalanceIn(b, Uncategorized)
  }

  function TotalBalance(t: Treasury): nat {
    U64(AllTracks(t.balances))
  }

  function Moved(b: map<Track, nat>, track: Track, amount: int): map<Track, nat> {
    b[track := U64(BalanceIn(b, track) + amount)]
  }

  function Credit(t: Treasury, track: Track, amount: int): Treasury {
    t.(balances := Moved(t.balances, track, amount))
  }

  function Logged(t: Treasury, r: Record): Treasury {
    t.(log := t.log + [r])
  }

  // ---------------------------------------------------------------- guardians and deposits

  function AddGuardian(t: Treasury, g: Bytes): (Treasury, bool) {
    if g == [] || g in t.guardians then (t, false) else (t.(guardians := t.guardians + [g]), true)
  }

  function Without(s: seq<Bytes>, g: Bytes): seq<Bytes> {
    if s == [] then [] else if s[0] == g then s[1..] else [s[0]] + Without(s[1..], g)
  }

  function RemoveGuardian(t: Treasury, g: Bytes): (Treasury, bool) {
    if g !in t.guardians then (t, false) else (t.(guardians := Without(t.guardians, g)), true)
  }

  function Deposit(t: Treasury, amount: nat, track: Track, height: nat): (Treasury, bool) {
    if amount == 0 then (t, false)
    else (Logged(Credit(t, track, amount), Record(true, amount, track, 0, 0, height)), true)
  }

  // ---------------------------------------------------------------- spending

  /** Spending must leave the emergency track its share of what remains. */
  predicate ViolatesReserve(t: Treasury, debit: nat) {
    t.reserveBps != 0
    && (TotalBalance(t) <= debit
        || U64(Balance(t, Emergency) * 10000) < U64((TotalBalance(t) - debit) * t.reserveBps))
  }

  /** The first budget period that covers the height. */
  function FirstActive(periods: seq<Period>, height: nat): (i: nat)
    ensures i <= |periods|
  {
    if periods == [] || periods[0].start <= height <= periods[0].end then 0
    else 1 + FirstActive(periods[1..], height)
  }

  function Spent(p: Period, track: Track): nat {
    if track in p.spent then p.spent[track] else 0
  }

  function Limit(p: Period, track: Track): nat {
    if track in p.limits then p.limits[track] else 0
  }

  predicate WithinBudget(t: Treasury, track: Track, amount: nat, height: nat) {
    var i := FirstActive(t.periods, height);
    i == |t.periods| || Limit(t.periods[i], track) == 0
    || U64(Spent(t.periods[i], track) + amount) <= Limit(t.periods[i], track)
  }

  function ChargePeriod(periods: seq<Period>, track: Track, amount: nat, height: nat): (r: seq<Period>)
    ensures |r| == |periods|
  {
    var i := FirstActive(periods, height);
    if i == |periods| then periods
    else periods[i := periods[i].(spent := periods[i].spent[track := U64(Spent(periods[i], track) + amount)])]
  }

  function Spend(t: Treasury, amount: nat, proposal: nat, track: Track, height: nat): (Treasury, bool) {
    if proposal == 0 || amount == 0 || track == Emergency || amount > Balance(t, track)
       || !WithinBudget(t, track, amount, height) || ViolatesReserve(t, amount)
    then (t, false)
    else
      var charged := Credit(t, track, 0 - amount).(periods := ChargePeriod(t.periods, track, amount, height));
      (Logged(charged, Record(false, amount, track, proposal, 0, height)), true)
  }

  function CreateBudgetPeriod(t: Treasury, start: nat, end: nat, limits: map<Track, nat>, proposal: nat)
    : (Treasury, bool)
  {
    if proposal == 0 || end <= start then (t, false)
    else (t.(periods := t.periods + [Period(start, end, limits, map[])]), true)
  }

  // ---------------------------------------------------------------- multi-signature spends

  function Propose(t: Treasury, amount: nat, recipient: Bytes, initiator: Bytes): (Treasury, nat) {
    if amount == 0 || recipient == [] || initiator !in t.guardians then (t, 0)
    else
      (t.(spends := t.spends[t.nextSpend := MultiSigSpend(amount, recipient, false, {initiator})],
          nextSpend := t.nextSpend + 1), t.nextSpend)
  }

  function Sign(t: Treasury, id: nat, guardian: Bytes): (Treasury, bool) {
    if guardian !in t.guardians || id !in t.spends || t.spends[id].executed then (t, false)
    else
      var s := t.spends[id];
      (t.(spends := t.spends[id := s.(signers := s.signers + {guardian})]), true)
  }

  function Execute(t: Treasury, id: nat, height: nat): (Treasury, bool) {
    if id !in t.spends || t.spends[id].executed || |t.spends[id].signers| < t.required
       || t.spends[id].amount > Balance(t, Emergency)
    then (t, false)
    else
      var s := t.spends[id];
      var debited := Credit(t, Emergency, 0 - s.amount).(spends := t.spends[id := s.(executed := true)]);
      (Logged(debited, Record(false, s.amount, Emergency, 0, 0, height)), true)
  }

  // ---------------------------------------------------------------- milestone grants

  function SumOf(amounts: seq<nat>): nat {
    if amounts == [] then 0 else SumOf(amounts[..|amounts| - 1]) + amounts[|amounts| - 1]
  }

  function Unreleased(milestones: seq<Milestone>): nat {
    if milestones == [] then 0
    else
      Unreleased(milestones[..|milestones| - 1])
      + if milestones[|milestones| - 1].released then 0 else milestones[|milestones| - 1].amount
  }

  function Released(milestones: seq<Milestone>): nat {
    if milestones == [] then 0
    else
      Released(milestones[..|milestones| - 1])
      + if milestones[|milestones| - 1].released then milestones[|milestones| - 1].amount else 0
  }

  function Milestones(amounts: seq<nat>): (r: seq<Milestone>)
    ensures |r| == |amounts|
  {
    if amounts == [] then []
    else Milestones(amounts[..|amounts| - 1]) + [Milestone(amounts[|amounts| - 1], false)]
  }

  function CreateGrant(t: Treasury, proposal: nat, recipient: Bytes, amounts: seq<nat>): (Treasury, nat) {
    var total := U64(SumOf(amounts));
    if proposal == 0 || recipient == [] || amounts == [] || total == 0 || total > Balance(t, Grants) then (t, 0)
    else
      var grant := Grant(recipient, total, 0, false, Milestones(amounts));
      (Credit(t, Grants, 0 - total).(grants := t.grants[t.nextGrant := grant], nextGrant := t.nextGrant + 1),
       t.nextGrant)
  }

  function ReleaseMilestone(t: Treasury, id: nat, index: nat, proposal: nat, height: nat): (Treasury, bool) {
    if proposal == 0 || id !in t.grants || t.grants[id].revoked || index >= |t.grants[id].milestones|
       || t.grants[id].milestones[index].released
    then (t, false)
    else
      var g := t.grants[id];
      var m := g.milestones[index];
      var g' := g.(milestones := g.milestones[index := m.(released := true)], released := U64(g.released + m.amount));
      (Logged(t.(grants := t.grants[id := g']), Record(false, m.amount, Grants, proposal, id, height)), true)
  }

  function RevokeGrant(t: Treasury, id: nat, proposal: nat, height: nat): (Treasury, bool) {
    if proposal == 0 || id !in t.grants || t.grants[id].revoked then (t, false)
    else
      var refund := U64(Unreleased(t.grants[id].milestones));
      var credited := Credit(t, Grants, refund).(grants := t.grants[id := t.grants[id].(revoked := true)]);
      (Logged(credited, Record(true, refund, Grants, proposal, id, height)), true)
  }

  // ---------------------------------------------------------------- operations

  datatype Op =
    | DoDeposit(amount: uint64, track: Track, height: nat)
    | DoSpend(amount: uint64, proposal: nat, track: Track, height: nat)
    | DoPropose(amount: uint64, recipient: Bytes, initiator: Bytes)
    | DoSign(id: nat, guardian: Bytes)
    | DoExecute(id: nat, height: nat)
    | DoCreatePeriod(start: nat, end: nat, limits: map<Track, nat>, proposal: nat)
    | DoCreateGrant(proposal: nat, recipient: Bytes, amounts: seq<nat>)
    | DoRelease(id: nat, index: nat, proposal: nat, height: nat)
    | DoRevoke(id: nat, proposal: nat, height: nat)
    | DoAddGuardian(guardian: Bytes)
    | DoRemoveGuardian(guardian: Bytes)
    | DoConfigure(required: nat, reserveBps: nat)

  function Apply(t: Treasury, op: Op): Treasury {
    match op
    case DoDeposit(amount, track, height) => Deposit(t, amount, track, height).0
    case DoSpend(amount, proposal, track, height) => Spend(t, amount, proposal, track, height).0
    case DoPropose(amount, recipient, initiator) => Propose(t, amount, recipient, initiator).0
    case DoSign(id, guardian) => Sign(t, id, guardian).0
    case DoExecute(id, height) => Execute(t, id, height).0
    case DoCreatePeriod(start, end, limits, proposal) => CreateBudgetPeriod(t, start, end, limits, proposal).0
    case DoCreateGrant(proposal, recipient, amounts) => CreateGrant(t, proposal, recipient, amounts).0
    case DoRelease(id, index, proposal, height) => ReleaseMilestone(t, id, index, proposal, height).0
    case DoRevoke(id, proposal, height) => RevokeGrant(t, id, proposal, height).0
    case DoAddGuardian(g) => AddGuardian(t, g).0
    case DoRemoveGuardian(g) => RemoveGuardian(t, g).0
    case DoConfigure(required, reserveBps) => t.(required := required, reserveBps := reserveBps)
  }

  /** What the callers must keep to for 64 bits to suffice: a grant's milestones sum to a 64-bit number. */
  predicate Fits(op: Op) {
    op.DoCreateGrant? ==> SumOf(op.amounts) <= MAX_U64
  }

  function Run(t: Treasury, ops: seq<Op>): Treasury {
    if ops == [] then t else Apply(Run(t, ops[..|ops| - 1]), ops[|ops| - 1])
  }

  function Deposited(ops: seq<Op>): nat {
    if ops == [] then 0
    else Deposited(ops[..|ops| - 1]) + if ops[|ops| - 1].DoDeposit? then ops[|ops| - 1].amount else 0
  }
}
