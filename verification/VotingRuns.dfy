/** What every voting run keeps: tallies are the recorded ballots, one ballot a voter, no more power
    than the snapshot holds, and a verdict that stays. */
module VotingRuns {
  import opened Bytes
  import opened AntiWhale
  import opened VotingModel

  function PowerFor(votes: seq<Vote>, choice: Choice): nat {
    if votes == [] then 0
    else
      var v := votes[|votes| - 1];
      PowerFor(votes[..|votes| - 1], choice) + if v.choice == choice then v.power else 0
  }

  function TotalPower(votes: seq<Vote>): nat {
    if votes == [] then 0 else TotalPower(votes[..|votes| - 1]) + votes[|votes| - 1].power
  }

  ghost predicate OneBallotEach(votes: seq<Vote>) {
    forall i, j | 0 <= i < j < |votes| :: votes[i].voter != votes[j].voter
  }

  ghost predicate WithinPower(votes: seq<Vote>, entries: seq<Entry>) {
    forall i | 0 <= i < |votes| :: votes[i].power <= FirstPower(entries, votes[i].voter)
  }

  function TallyOf(p: Proposal, choice: Choice): nat {
    match choice case Yes => p.yes case No => p.no case Abstain => p.abstain case Veto => p.veto
  }

  ghost predicate TalliesMatch(p: Proposal, votes: seq<Vote>) {
    forall choice :: TallyOf(p, choice) == U64(PowerFor(votes, choice))
  }

  ghost predicate BallotsRight(s: Voting, id: nat)
    requires id in s.proposals
  {
    var votes := VotesOn(s, id);
    && TalliesMatch(s.proposals[id], votes)
    && OneBallotEach(votes)
    && (id in s.snapshots ==>
          s.snapshots[id].total == U64(EntrySum(s.snapshots[id].entries)) && WithinPower(votes, s.snapshots[id].entries))
  }

  ghost predicate AllRight(s: Voting) {
    && (forall id | id in s.proposals :: id < s.next && BallotsRight(s, id))
    && s.votes.Keys <= s.proposals.Keys && s.snapshots.Keys <= s.proposals.Keys
  }

  // ---------------------------------------------------------------- one more ballot

  lemma BallotAdded(votes: seq<Vote>, v: Vote, choice: Choice)
    ensures PowerFor(votes + [v], choice) == PowerFor(votes, choice) + if v.choice == choice then v.power else 0
    ensures TotalPower(votes + [v]) == TotalPower(votes) + v.power
  {
    assert (votes + [v])[..|votes|] == votes;
  }

  lemma WrapOnce(a: nat, b: nat)
    ensures U64(U64(a) + b) == U64(a + b)
  {
  }

  lemma TallyGrows(votes: seq<Vote>, v: Vote, choice: Choice, tally: nat)
    requires tally == U64(PowerFor(votes, choice))
    ensures U64(PowerFor(votes + [v], choice)) == if v.choice == choice then U64(tally + v.power) else tally
  {
    BallotAdded(votes, v, choice);
    WrapOnce(PowerFor(votes, choice), v.power);
  }

  lemma CountedTally(p: Proposal, choice: Choice, power: nat, other: Choice)
    ensures TallyOf(Counted(p, choice, power), other)
         == if other == choice then U64(TallyOf(p, other) + power) else TallyOf(p, other)
  {
  }

  lemma CountedMatches(p: Proposal, votes: seq<Vote>, v: Vote)
    requires TalliesMatch(p, votes)
    ensures TalliesMatch(Counted(p, v.choice, v.power), votes + [v])
  {
    forall choice ensures TallyOf(Counted(p, v.choice, v.power), choice) == U64(PowerFor(votes + [v], choice)) {
      CountedTally(p, v.choice, v.power, choice);
      TallyGrows(votes, v, choice, TallyOf(p, choice));
    }
  }

  lemma EffectiveAtMostRaw(c: Settings, raw: nat)
    ensures EffectivePower(c, raw) <= raw
  {
    if c.guard.Some? {
      EffectiveTamesPower(c.guard.value, raw, raw);
    }
  }

  lemma OneMore(s: Voting, id: nat, v: Vote)
    requires id in s.proposals && BallotsRight(s, id) && !HasVoted(VotesOn(s, id), v.voter)
    requires id in s.snapshots ==> v.power <= FirstPower(s.snapshots[id].entries, v.voter)
    ensures BallotsRight(Recorded(s, id, v), id)
  {
    CountedMatches(s.proposals[id], VotesOn(s, id), v);
  }

  lemma RecordedRight(s: Voting, id: nat, v: Vote)
    requires AllRight(s) && id in s.proposals && !HasVoted(VotesOn(s, id), v.voter)
    requires id in s.snapshots ==> v.power <= FirstPower(s.snapshots[id].entries, v.voter)
    ensures AllRight(Recorded(s, id, v))
  {
    var t := Recorded(s, id, v);
    forall k | k in t.proposals ensures BallotsRight(t, k) {
      assert BallotsRight(s, k);
      if k == id {
        OneMore(s, id, v);
      }
    }
  }

  lemma ScreenedRight(c: Settings, s: Voting, id: nat, bouleSays: bool)
    requires AllRight(s) && id in s.proposals
    ensures AllRight(Screened(c, s, id, bouleSays))
  {
    var t := Screened(c, s, id, bouleSays);
    forall k | k in t.proposals ensures BallotsRight(t, k) {
      assert BallotsRight(s, k);
    }
  }

  lemma CastRight(c: Settings, s: Voting, id: nat, voter: Bytes, choice: Choice, claimed: nat, signature: Bytes,
                  bouleSays: bool)
    requires AllRight(s)
    ensures AllRight(CastVote(c, s, id, voter, choice, claimed, signature, bouleSays).0)
  {
    if id in s.proposals {
      ScreenedRight(c, s, id, bouleSays);
      if CastVote(c, s, id, voter, choice, claimed, signature, bouleSays).1 == Accepted {
        var raw := RawPower(s, id, voter, claimed);
        EffectiveAtMostRaw(c, raw);
        RecordedRight(Screened(c, s, id, bouleSays), id, Vote(voter, choice, EffectivePower(c, raw)));
      }
    }
  }

  lemma CreateRight(c: Settings, s: Voting, kind: Kind, powers: seq<Entry>)
    requires AllRight(s)
    ensures AllRight(CreateProposal(c, s, kind, powers).0)
  {
    var t := CreateProposal(c, s, kind, powers).0;
    assert s.next !in s.proposals;
    forall k | k in t.proposals ensures k < t.next && BallotsRight(t, k) {
      assert k in s.proposals ==> BallotsRight(s, k);
    }
  }

  /** A proposal whose ballot fields are as they were. */
  lemma SameBallots(s: Voting, t: Voting)
    requires AllRight(s) && t.votes == s.votes && t.snapshots == s.snapshots && t.next == s.next
    requires t.proposals.Keys == s.proposals.Keys
    requires forall id | id in s.proposals :: SameTallies(s.proposals[id], t.proposals[id])
    ensures AllRight(t)
  {
    forall id | id in t.proposals ensures BallotsRight(t, id) {
      assert BallotsRight(s, id) && SameTallies(s.proposals[id], t.proposals[id]);
      assert forall choice :: TallyOf(t.proposals[id], choice) == TallyOf(s.proposals[id], choice);
    }
  }

  ghost predicate SameTallies(p: Proposal, q: Proposal) {
    q.yes == p.yes && q.no == p.no && q.abstain == p.abstain && q.veto == p.veto
  }

  lemma {:induction false} RunRight(c: Settings, ops: seq<Op>)
    ensures AllRight(Run(c, INITIAL, ops))
    decreases |ops|
  {
    if ops != [] {
      var init, op := ops[..|ops| - 1], ops[|ops| - 1];
      RunRight(c, init);
      ApplyRight(c, Run(c, INITIAL, init), op);
    }
  }

  lemma TallyRight(s: Voting, id: nat)
    requires AllRight(s)
    ensures AllRight(TallyVotes(s, id).0)
  {
    SameBallots(s, TallyVotes(s, id).0);
  }

  lemma ExecuteRight(s: Voting, id: nat, handlerAgrees: bool)
    requires AllRight(s)
    ensures AllRight(ExecuteProposal(s, id, handlerAgrees).0)
  {
    SameBallots(s, ExecuteProposal(s, id, handlerAgrees).0);
  }

  lemma ApplyRight(c: Settings, s: Voting, op: Op)
    requires AllRight(s)
    ensures AllRight(Apply(c, s, op))
  {
    match op
    case Create(kind, powers) => CreateRight(c, s, kind, powers);
    case Cast(id, voter, choice, claimed, signature, bouleSays) =>
      CastRight(c, s, id, voter, choice, claimed, signature, bouleSays);
    case Approve(id) => SameBallots(s, MarkBouleApproved(s, id).0);
    case Tally(id) => TallyRight(s, id);
    case Execute(id, handlerAgrees) => ExecuteRight(s, id, handlerAgrees);
    case Advance(blocks) => SameBallots(s, s.(height := s.height + blocks));
  }

  // ---------------------------------------------------------------- no more power than the snapshot holds

  /** The ballots of everyone but one voter. */
  function WithoutVoter(votes: seq<Vote>, voter: Bytes): seq<Vote> {
    if votes == [] then []
    else
      WithoutVoter(votes[..|votes| - 1], voter)
      + if votes[|votes| - 1].voter == voter then [] else [votes[|votes| - 1]]
  }

  lemma {:induction false} WithoutVoterKeeps(votes: seq<Vote>, voter: Bytes)
    ensures forall v :: v in WithoutVoter(votes, voter) <==> v in votes && v.voter != voter
  {
    if votes != [] {
      var init, last := votes[..|votes| - 1], votes[|votes| - 1];
      WithoutVoterKeeps(init, voter);
      assert votes == init + [last];
    }
  }

  lemma {:induction false} WithoutVoterOnce(votes: seq<Vote>, voter: Bytes)
    requires OneBallotEach(votes)
    ensures OneBallotEach(WithoutVoter(votes, voter))
  {
    if votes != [] {
      var init, last := votes[..|votes| - 1], votes[|votes| - 1];
      WithoutVoterOnce(init, voter);
      WithoutVoterKeeps(init, voter);
      forall i | 0 <= i < |WithoutVoter(init, voter)| ensures WithoutVoter(init, voter)[i].voter != last.voter {
        assert WithoutVoter(init, voter)[i] in init;
      }
    }
  }

  lemma {:induction false} NoSuchVoter(votes: seq<Vote>, voter: Bytes)
    requires forall i | 0 <= i < |votes| :: votes[i].voter != voter
    ensures WithoutVoter(votes, voter) == votes
  {
    if votes != [] {
      NoSuchVoter(votes[..|votes| - 1], voter);
      assert votes == votes[..|votes| - 1] + [votes[|votes| - 1]];
    }
  }

  /** One voter's ballot weighs at most a bound on every ballot of that voter. */
  lemma {:induction false} OneVoterAtMost(votes: seq<Vote>, voter: Bytes, bound: nat)
    requires OneBallotEach(votes)
    requires forall i | 0 <= i < |votes| :: votes[i].voter == voter ==> votes[i].power <= bound
    ensures TotalPower(votes) <= bound + TotalPower(WithoutVoter(votes, voter))
  {
    if votes != [] {
      var init, last := votes[..|votes| - 1], votes[|votes| - 1];
      if last.voter == voter {
        NoSuchVoter(init, voter);
        assert init + [] == init;
      } else {
        OneVoterAtMost(init, voter, bound);
        var rest := WithoutVoter(init, voter);
        assert (rest + [last])[..|rest|] == rest;
      }
    }
  }

  lemma {:induction false} PowerWithinSnapshot(votes: seq<Vote>, entries: seq<Entry>)
    requires OneBallotEach(votes) && WithinPower(votes, entries)
    ensures TotalPower(votes) <= EntrySum(entries)
    decreases |entries|
  {
    if entries == [] {
      NoPower(votes);
    } else {
      var e, rest := entries[0], WithoutVoter(votes, entries[0].address);
      OneVoterAtMost(votes, e.address, e.power);
      WithoutVoterOnce(votes, e.address);
      WithoutVoterKeeps(votes, e.address);
      forall i | 0 <= i < |rest| ensures rest[i].power <= FirstPower(entries[1..], rest[i].voter) {
        assert rest[i] in votes;
      }
      PowerWithinSnapshot(rest, entries[1..]);
    }
  }

  lemma {:induction false} NoPower(votes: seq<Vote>)
    requires forall i | 0 <= i < |votes| :: votes[i].power <= 0
    ensures TotalPower(votes) == 0
  {
    if votes != [] {
      NoPower(votes[..|votes| - 1]);
    }
  }

  lemma {:induction false} TotalByChoice(votes: seq<Vote>)
    ensures TotalPower(votes)
         == PowerFor(votes, Yes) + PowerFor(votes, No) + PowerFor(votes, Abstain) + PowerFor(votes, Veto)
  {
    if votes != [] {
      TotalByChoice(votes[..|votes| - 1]);
    }
  }

  /** In every run, whatever powers voters claim and whatever the transform does: nobody votes twice on a proposal
      with a snapshot, and the recorded powers are at most what its entries hold. As long as those sum to a 64-bit
      number the tallies are the sums of the recorded powers, and together at most the snapshot's total;
      `TurnoutBoundExactly` says what is left of that where the total has wrapped. */
  lemma TurnoutWithinSnapshot(c: Settings, ops: seq<Op>, id: nat)
    requires id in Run(c, INITIAL, ops).proposals && id in Run(c, INITIAL, ops).snapshots
    ensures var s := Run(c, INITIAL, ops);
            var p, votes, held := s.proposals[id], VotesOn(s, id), EntrySum(s.snapshots[id].entries);
            && OneBallotEach(votes) && TotalPower(votes) <= held
            && (held <= MAX_U64 ==>
                  && p.yes == PowerFor(votes, Yes) && p.no == PowerFor(votes, No)
                  && p.abstain == PowerFor(votes, Abstain) && p.veto == PowerFor(votes, Veto)
                  && p.yes + p.no + p.abstain + p.veto <= s.snapshots[id].total)
  {
    RunRight(c, ops);
    var s := Run(c, INITIAL, ops);
    assert BallotsRight(s, id);
    var p, votes := s.proposals[id], VotesOn(s, id);
    assert TallyOf(p, Yes) == U64(PowerFor(votes, Yes)) && TallyOf(p, No) == U64(PowerFor(votes, No));
    assert TallyOf(p, Abstain) == U64(PowerFor(votes, Abstain)) && TallyOf(p, Veto) == U64(PowerFor(votes, Veto));
    PowerWithinSnapshot(VotesOn(s, id), s.snapshots[id].entries);
    TotalByChoice(VotesOn(s, id));
  }

  /** How often the four tallies of the ballots have passed 2^64. */
  function Wraps(votes: seq<Vote>): nat {
    PowerFor(votes, Yes) / TWO_64 + PowerFor(votes, No) / TWO_64
    + PowerFor(votes, Abstain) / TWO_64 + PowerFor(votes, Veto) / TWO_64
  }

  lemma CutSum(sum: nat)
    ensures U64(sum) == sum - TWO_64 * (sum / TWO_64)
  {
  }

  /** In every run, also where the total of a snapshot has wrapped: the tallies together are at most the total if and
      only if the power not used is at least 2^64 for every time the total has wrapped and the tallies have not. */
  lemma TurnoutBoundExactly(c: Settings, ops: seq<Op>, id: nat)
    requires id in Run(c, INITIAL, ops).proposals && id in Run(c, INITIAL, ops).snapshots
    ensures var s := Run(c, INITIAL, ops);
            var p, votes, held := s.proposals[id], VotesOn(s, id), EntrySum(s.snapshots[id].entries);
            p.yes + p.no + p.abstain + p.veto <= s.snapshots[id].total
            <==> held - TotalPower(votes) >= TWO_64 * (held / TWO_64 - Wraps(votes))
  {
    RunRight(c, ops);
    var s := Run(c, INITIAL, ops);
    assert BallotsRight(s, id);
    TurnoutOf(s.proposals[id], VotesOn(s, id));
    CutSum(EntrySum(s.snapshots[id].entries));
    PowerWithinSnapshot(VotesOn(s, id), s.snapshots[id].entries);
  }

  lemma TurnoutOf(p: Proposal, votes: seq<Vote>)
    requires TalliesMatch(p, votes)
    ensures p.yes + p.no + p.abstain + p.veto == TotalPower(votes) - TWO_64 * Wraps(votes)
  {
    assert TallyOf(p, Yes) == U64(PowerFor(votes, Yes)) && TallyOf(p, No) == U64(PowerFor(votes, No));
    assert TallyOf(p, Abstain) == U64(PowerFor(votes, Abstain)) && TallyOf(p, Veto) == U64(PowerFor(votes, Veto));
    CutSum(PowerFor(votes, Yes));
    CutSum(PowerFor(votes, No));
    CutSum(PowerFor(votes, Abstain));
    CutSum(PowerFor(votes, Veto));
    TotalByChoice(votes);
  }

  /** Two entries of 2^63 total zero, and either of them votes for more than that. */
  lemma WrappedSnapshotExceeded(c: Settings, s: Voting, kind: Kind, a: Bytes, b: Bytes, signature: Bytes)
    requires c.snapshots && c.guard.None? && !c.requireBoule && s.next !in s.snapshots && s.next !in s.votes
    requires s.height + START_DELAY + c.period <= MAX_U64 && Signed(c, s.next, a, Yes, 0, signature)
    ensures var created := Apply(c, s, Create(kind, [Entry(a, 0x8000_0000_0000_0000), Entry(b, 0x8000_0000_0000_0000)]));
            var voted := Apply(c, Apply(c, created, Advance(START_DELAY)), Cast(s.next, a, Yes, 0, signature, false));
            && s.next in voted.snapshots && voted.snapshots[s.next].total == 0
            && s.next in voted.proposals && voted.proposals[s.next].yes == 0x8000_0000_0000_0000
  {
    var powers := [Entry(a, 0x8000_0000_0000_0000), Entry(b, 0x8000_0000_0000_0000)];
    var created := CreatedWith(c, s, kind, powers);
    assert VotesOn(created, s.next) == [];
  }

  lemma CreatedWith(c: Settings, s: Voting, kind: Kind, powers: seq<Entry>) returns (created: Voting)
    requires c.snapshots && s.next !in s.snapshots
    requires |powers| == 2 && powers[0].power > 0 && powers[1].power > 0
    ensures created == Apply(c, s, Create(kind, powers)) && s.next in created.snapshots
    ensures created.snapshots[s.next].total == U64(powers[0].power + powers[1].power)
    ensures FirstPower(created.snapshots[s.next].entries, powers[0].address) == powers[0].power
  {
    created := Apply(c, s, Create(kind, powers));
    BothKept(powers);
    BothSummed(powers);
  }

  lemma {:induction false} BothKept(powers: seq<Entry>)
    requires |powers| == 2 && powers[0].power > 0 && powers[1].power > 0
    ensures Kept(powers) == powers
  {
    assert powers[..1][..0] == [] && Kept(powers[..1]) == [powers[0]];
    assert powers == [powers[0]] + [powers[1]];
  }

  lemma {:induction false} BothSummed(powers: seq<Entry>)
    requires |powers| == 2
    ensures EntrySum(powers) == powers[0].power + powers[1].power
  {
    assert EntrySum(powers[1..]) == powers[1].power + EntrySum(powers[1..][1..]);
  }

  // ---------------------------------------------------------------- the verdict stays

  /** Voting is over and the status is the verdict of the tallies, carried out or not. */
  ghost predicate Decided(s: Voting, id: nat) {
    && id in s.proposals && id < s.next && s.height > s.proposals[id].end
    && var p := s.proposals[id];
    if Passes(p) then p.status == Passed || p.status == Executed else p.status == Rejected
  }

  /** Everything a verdict depends on. */
  ghost predicate SameBallot(p: Proposal, q: Proposal) {
    && q.yes == p.yes && q.no == p.no && q.abstain == p.abstain && q.veto == p.veto
    && q.quorum == p.quorum && q.threshold == p.threshold && q.vetoBps == p.vetoBps && q.end == p.end
  }

  lemma SameVerdict(p: Proposal, q: Proposal)
    requires SameBallot(p, q)
    ensures Passes(p) == Passes(q)
  {
  }

  lemma TallyDecides(s: Voting, id: nat)
    requires TallyVotes(s, id).1 && id < s.next
    ensures Decided(TallyVotes(s, id).0, id)
  {
    SameVerdict(s.proposals[id], TallyVotes(s, id).0.proposals[id]);
  }

  lemma StepStaysDecided(c: Settings, s: Voting, op: Op, id: nat)
    requires Decided(s, id)
    ensures Decided(Apply(c, s, op), id)
    ensures SameBallot(s.proposals[id], Apply(c, s, op).proposals[id])
    ensures VotesOn(Apply(c, s, op), id) == VotesOn(s, id)
  {
    var t := Apply(c, s, op);
    CloseBallot(c, s, op, id);
    SameVerdict(s.proposals[id], t.proposals[id]);
  }

  /** Once voting is over no operation touches a proposal's ballot, and its status moves only as tally
      and execution move it. */
  ghost predicate OnlyStatusMoves(s: Voting, t: Voting, op: Op, id: nat)
    requires id in s.proposals
  {
    && id in t.proposals && SameBallot(s.proposals[id], t.proposals[id]) && VotesOn(t, id) == VotesOn(s, id)
    && t.height >= s.height && t.next >= s.next
    && (t.proposals[id].status == s.proposals[id].status
        || (op == Tally(id) && t.proposals[id].status == if Passes(s.proposals[id]) then Passed else Rejected)
        || (op.Execute? && s.proposals[id].status == Passed && t.proposals[id].status == Executed))
  }

  lemma CloseBallot(c: Settings, s: Voting, op: Op, id: nat)
    requires id in s.proposals && id < s.next && s.height > s.proposals[id].end
    ensures OnlyStatusMoves(s, Apply(c, s, op), op, id)
  {
    match op
    case Cast(k, voter, choice, claimed, signature, bouleSays) =>
      CastMisses(c, s, op, id);
    case Tally(k) => TallyMoves(c, s, op, id);
    case _ =>
  }

  lemma CastMisses(c: Settings, s: Voting, op: Op, id: nat)
    requires op.Cast? && id in s.proposals && s.height > s.proposals[id].end
    ensures OnlyStatusMoves(s, Apply(c, s, op), op, id)
  {
    if op.id == id {
      assert Apply(c, s, op) == Screened(c, s, id, op.bouleSays);
    }
  }

  lemma TallyMoves(c: Settings, s: Voting, op: Op, id: nat)
    requires op.Tally? && id in s.proposals
    ensures OnlyStatusMoves(s, Apply(c, s, op), op, id)
  {
  }

  /** From the first successful tally on, however the run goes on, the ballot stays as it is and every
      tally gives the same verdict: passing never turns into rejecting or back. */
  lemma {:induction false} VerdictStays(c: Settings, s: Voting, ops: seq<Op>, id: nat)
    requires Decided(s, id)
    ensures var t := Run(c, s, ops);
            Decided(t, id) && SameBallot(s.proposals[id], t.proposals[id]) && Passes(t.proposals[id]) == Passes(s.proposals[id])
    decreases |ops|
  {
    if ops != [] {
      var init := ops[..|ops| - 1];
      VerdictStays(c, s, init, id);
      StepStaysDecided(c, Run(c, s, init), ops[|ops| - 1], id);
      SameVerdict(s.proposals[id], Run(c, s, ops).proposals[id]);
    } else {
      SameVerdict(s.proposals[id], s.proposals[id]);
    }
  }

  /** Over whole runs: once a tally has succeeded, every later tally succeeds too and gives the status
      the first one gave. */
  lemma VerdictSettled(c: Settings, ops: seq<Op>, id: nat, more: seq<Op>)
    requires TallyVotes(Run(c, INITIAL, ops), id).1
    ensures var first := TallyVotes(Run(c, INITIAL, ops), id).0;
            var t := Run(c, first, more);
            && TallyVotes(t, id).1
            && TallyVotes(t, id).0.proposals[id].status == first.proposals[id].status
  {
    RunRight(c, ops);
    var s := Run(c, INITIAL, ops);
    var first := TallyVotes(s, id).0;
    TallyDecides(s, id);
    SameVerdict(s.proposals[id], first.proposals[id]);
    VerdictStays(c, first, more, id);
  }

  /** A tally does not look at the status: repeated on a decided proposal, it changes the status exactly
      when the proposal has been executed, and then makes it executable once more. */
  lemma RetallyReopensExecuted(s: Voting, id: nat)
    requires Decided(s, id)
    ensures var t := TallyVotes(s, id).0;
            && (t.proposals[id].status != s.proposals[id].status <==> s.proposals[id].status == Executed)
            && (s.proposals[id].status == Executed ==> t.proposals[id].status == Passed)
  {
  }
}
