/** Governance votes: proposals, ballots with snapshot power, tallies and verdicts. */
module VotingModel {
  import opened Arithmetic
  import opened Bytes
  import opened Ordered
  import opened AntiWhale

  datatype Kind = ParameterChange | TreasurySpending | ProtocolUpgrade | General | Constitutional | Emergency

  datatype Status = Pending | Active | Passed | Rejected | Executed | Expired

  datatype Choice = Yes | No | Abstain | Veto

  datatype Proposal = Proposal(
    kind: Kind, status: Status, start: nat, end: nat, executionTime: nat,
    yes: nat, no: nat, abstain: nat, veto: nat,
    quorum: nat, threshold: nat, vetoBps: nat, bouleApproved: bool)

  datatype Vote = Vote(voter: Bytes, choice: Choice, power: nat)

  datatype Entry = Entry(address: Bytes, power: nat)

  datatype Snapshot = Snapshot(entries: seq<Entry>, total: nat)

  datatype Voting = Voting(
    proposals: map<nat, Proposal>, votes: map<nat, seq<Vote>>, snapshots: map<nat, Snapshot>, next: nat, height: nat)

  /** What is attached to the voting system, and its parameters. */
  datatype Settings = Settings(
    h: Hash, check: (Bytes, Digest, Bytes) -> bool, snapshots: bool, guard: Option<Config>, requireBoule: bool,
    period: nat, quorum: nat, threshold: nat)

  const START_DELAY: nat := 100
  const EXECUTION_DELAY: nat := 1000
  const VETO_BPS: nat := 3334
  const INITIAL: Voting := Voting(map[], map[], map[], 1, 0)

  // ---------------------------------------------------------------- snapshots

  /** Entries without power are skipped. */
  function Kept(powers: seq<Entry>): seq<Entry> {
    if powers == [] then []
    else
      Kept(powers[..|powers| - 1]) + if powers[|powers| - 1].power == 0 then [] else [powers[|powers| - 1]]
  }

  function EntrySum(entries: seq<Entry>): nat {
    if entries == [] then 0 else entries[0].power + EntrySum(entries[1..])
  }

  function TakeSnapshot(powers: seq<Entry>): Snapshot {
    Snapshot(Kept(powers), U64(EntrySum(Kept(powers))))
  }

  /** The power of the first entry for an address; none means zero. */
  function FirstPower(entries: seq<Entry>, address: Bytes): nat {
    if entries == [] then 0
    else if entries[0].address == address then entries[0].power
    else FirstPower(entries[1..], address)
  }

  // ---------------------------------------------------------------- proposals and votes

  function CreateProposal(c: Settings, s: Voting, kind: Kind, powers: seq<Entry>): (Voting, nat) {
    var start := U64(s.height + START_DELAY);
    var p := Proposal(kind, Pending, start, U64(start + c.period), 0, 0, 0, 0, 0, c.quorum,
                      if kind == Constitutional then 66 else c.threshold, VETO_BPS, !c.requireBoule);
    var snapshots := if c.snapshots && powers != [] && s.next !in s.snapshots
                     then s.snapshots[s.next := TakeSnapshot(powers)] else s.snapshots;
    (s.(proposals := s.proposals[s.next := p], snapshots := snapshots, next := s.next + 1), s.next)
  }

  function VotesOn(s: Voting, id: nat): seq<Vote> {
    if id in s.votes then s.votes[id] else []
  }

  predicate HasVoted(votes: seq<Vote>, voter: Bytes) {
    exists i | 0 <= i < |votes| :: votes[i].voter == voter
  }

  function ChoiceByte(choice: Choice): byte {
    match choice case Yes => 0 case No => 1 case Abstain => 2 case Veto => 3
  }

  function Payload(id: nat, voter: Bytes, choice: Choice, power: nat): Bytes {
    LittleEndian(id % TWO_64, 8) + voter + [ChoiceByte(choice)] + LittleEndian(power % TWO_64, 8)
  }

  predicate Signed(c: Settings, id: nat, voter: Bytes, choice: Choice, power: nat, signature: Bytes) {
    |signature| == 64 && |voter| == 32 && c.check(voter, c.h(Payload(id, voter, choice, power)), signature)
  }

  function RawPower(s: Voting, id: nat, voter: Bytes, claimed: nat): nat {
    if id in s.snapshots then FirstPower(s.snapshots[id].entries, voter) else claimed
  }

  function EffectivePower(c: Settings, raw: nat): nat {
    match c.guard case None => raw case Some(g) => Effective(g, raw)
  }

  /** The square root of the largest 64-bit number divides by zero. */
  predicate RootFails(c: Settings, raw: nat) {
    c.guard.Some? && c.guard.value.quadratic && raw == MAX_U64
  }

  function Counted(p: Proposal, choice: Choice, power: nat): Proposal {
    var q := if p.status == Pending then p.(status := Active) else p;
    match choice
    case Yes => q.(yes := U64(p.yes + power))
    case No => q.(no := U64(p.no + power))
    case Abstain => q.(abstain := U64(p.abstain + power))
    case Veto => q.(veto := U64(p.veto + power))
  }

  datatype VoteOutcome = Accepted | Refused | Undefined

  /** What screening by the council leaves: its approval is noted even when the vote fails later. */
  function Screened(c: Settings, s: Voting, id: nat, bouleSays: bool): Voting
    requires id in s.proposals
  {
    if c.requireBoule && bouleSays then s.(proposals := s.proposals[id := s.proposals[id].(bouleApproved := true)])
    else s
  }

  function CastVote(c: Settings, s: Voting, id: nat, voter: Bytes, choice: Choice, claimed: nat, signature: Bytes,
                    bouleSays: bool): (Voting, VoteOutcome)
  {
    if id !in s.proposals then (s, Refused)
    else
      var s1 := Screened(c, s, id, bouleSays);
      var p := s1.proposals[id];
      var raw := RawPower(s, id, voter, claimed);
      if c.requireBoule && !p.bouleApproved then (s1, Refused)
      else if s.height < p.start || s.height > p.end then (s1, Refused)
      else if HasVoted(VotesOn(s, id), voter) then (s1, Refused)
      else if !Signed(c, id, voter, choice, claimed, signature) then (s1, Refused)
      else if id in s.snapshots && raw == 0 then (s1, Refused)
      else if RootFails(c, raw) then (s1, Undefined)
      else (Recorded(s1, id, Vote(voter, choice, EffectivePower(c, raw))), Accepted)
  }

  /** The council approves a proposal of its own accord. */
  function MarkBouleApproved(s: Voting, id: nat): (Voting, bool) {
    if id !in s.proposals then (s, false)
    else (s.(proposals := s.proposals[id := s.proposals[id].(bouleApproved := true)]), true)
  }

  function Recorded(s: Voting, id: nat, v: Vote): Voting
    requires id in s.proposals
  {
    s.(votes := s.votes[id := VotesOn(s, id) + [v]],
       proposals := s.proposals[id := Counted(s.proposals[id], v.choice, v.power)])
  }

  // ---------------------------------------------------------------- tally and execution

  function Scaled(a: nat, b: nat): nat {
    NonNegative(a, b);
    if b == 0 || a <= MAX_U64 / b then a * b else MAX_U64
  }

  function ApprovalPercent(yes: nat, approval: nat): nat
    requires approval > 0
  {
    if yes <= MAX_U64 / 100 then yes * 100 / approval
    else
      var denominator := approval / 100;
      var percent := if denominator > 0 then yes / denominator else 100;
      if percent > 100 then 100 else percent
  }

  /** Whether a tally passes the proposal: quorum, no veto, enough approval. */
  predicate Passes(p: Proposal) {
    var total, approval := U64(p.yes + p.no + p.abstain + p.veto), U64(p.yes + p.no);
    && total >= p.quorum
    && Scaled(p.veto, 10000) <= Scaled(total, if p.vetoBps > 0 then p.vetoBps else VETO_BPS)
    && approval > 0
    && ApprovalPercent(p.yes, approval) >= p.threshold
  }

  function TallyVotes(s: Voting, id: nat): (Voting, bool) {
    if id !in s.proposals || s.height <= s.proposals[id].end then (s, false)
    else
      var p := s.proposals[id];
      var q := if Passes(p) then p.(status := Passed, executionTime := U64(s.height + EXECUTION_DELAY))
               else p.(status := Rejected);
      (s.(proposals := s.proposals[id := q]), true)
  }

  function ExecuteProposal(s: Voting, id: nat, handlerAgrees: bool): (Voting, bool) {
    if id !in s.proposals || s.proposals[id].status != Passed || s.height < s.proposals[id].executionTime
       || !handlerAgrees
    then (s, false)
    else (s.(proposals := s.proposals[id := s.proposals[id].(status := Executed)]), true)
  }

  // ---------------------------------------------------------------- runs

  datatype Op =
    | Create(kind: Kind, powers: seq<Entry>)
    | Cast(id: nat, voter: Bytes, choice: Choice, claimed: nat, signature: Bytes, bouleSays: bool)
    | Approve(id: nat)
    | Tally(id: nat)
    | Execute(id: nat, handlerAgrees: bool)
    | Advance(blocks: nat)

  function Apply(c: Settings, s: Voting, op: Op): Voting {
    match op
    case Create(kind, powers) => CreateProposal(c, s, kind, powers).0
    case Cast(id, voter, choice, claimed, signature, bouleSays) =>
      CastVote(c, s, id, voter, choice, claimed, signature, bouleSays).0
    case Approve(id) => MarkBouleApproved(s, id).0
    case Tally(id) => TallyVotes(s, id).0
    case Execute(id, handlerAgrees) => ExecuteProposal(s, id, handlerAgrees).0
    case Advance(blocks) => s.(height := s.height + blocks)
  }

  function Run(c: Settings, s: Voting, ops: seq<Op>): Voting {
    if ops == [] then s else Apply(c, Run(c, s, ops[..|ops| - 1]), ops[|ops| - 1])
  }
}
