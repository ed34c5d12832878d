/** The voting system object, with its linear scans, and the snapshot registry it keeps. */
module VotingClass {
  import opened Bytes
  import opened AntiWhale
  import opened VotingModel

  class VotingSystem {
    const c: Settings
    var proposals: map<nat, Proposal>
    var votes: map<nat, seq<Vote>>
    var snapshots: map<nat, Snapshot>
    var next: nat
    var height: nat

    ghost function View(): Voting
      reads this
    {
      Voting(proposals, votes, snapshots, next, height)
    }

    constructor (c: Settings)
      ensures this.c == c && View() == INITIAL
    {
      this.c := c;
      proposals, votes, snapshots, next, height := map[], map[], map[], 1, 0;
    }

    method CreateSnapshot(id: nat, powers: seq<Entry>) returns (ok: bool)
      modifies `snapshots
      ensures ok == (id !in old(snapshots))
      ensures snapshots == if ok then old(snapshots)[id := TakeSnapshot(powers)] else old(snapshots)
    {
      if id in snapshots {
        return false;
      }
      var entries: seq<Entry> := [];
      var total: nat := 0;
      for i := 0 to |powers|
        invariant snapshots == old(snapshots) && entries == Kept(powers[..i]) && total == U64(EntrySum(entries))
      {
        assert powers[..i + 1][..i] == powers[..i];
        if powers[i].power != 0 {
          SumWithLast(entries, powers[i]);
          entries := entries + [powers[i]];
          total := U64(total + powers[i].power);
        }
      }
      assert powers[..|powers|] == powers;
      snapshots := snapshots[id := Snapshot(entries, total)];
      return true;
    }

    static lemma {:induction false} SumWithLast(entries: seq<Entry>, e: Entry)
      ensures EntrySum(entries + [e]) == EntrySum(entries) + e.power
      decreases |entries|
    {
      if entries != [] {
        SumWithLast(entries[1..], e);
        assert (entries + [e])[1..] == entries[1..] + [e];
      }
    }

    method GetSnapshotPower(id: nat, address: Bytes) returns (power: nat)
      ensures power == if id in snapshots then FirstPower(snapshots[id].entries, address) else 0
    {
      if id !in snapshots {
        return 0;
      }
      var entries := snapshots[id].entries;
      var i := 0;
      assert entries[0..] == entries;
      while i < |entries|
        invariant i <= |entries| && FirstPower(entries, address) == FirstPower(entries[i..], address)
      {
        if entries[i].address == address {
          return entries[i].power;
        }
        assert entries[i..][1..] == entries[i + 1..];
        i := i + 1;
      }
      return 0;
    }

    method CreateProposal(kind: Kind, powers: seq<Entry>) returns (id: nat)
      modifies this
      ensures (View(), id) == VotingModel.CreateProposal(c, old(View()), kind, powers)
    {
      id := next;
      next := next + 1;
      var start := U64(height + START_DELAY);
      proposals := proposals[id := Proposal(kind, Pending, start, U64(start + c.period), 0, 0, 0, 0, 0, c.quorum,
                                            if kind == Constitutional then 66 else c.threshold, VETO_BPS,
                                            !c.requireBoule)];
      if c.snapshots {
        if powers != [] {
          var ok := CreateSnapshot(id, powers);
        }
      }
    }

    method VoterSeen(id: nat, voter: Bytes) returns (seen: bool)
      ensures seen == HasVoted(VotesOn(View(), id), voter)
    {
      if id !in votes {
        return false;
      }
      var cast := votes[id];
      for i := 0 to |cast|
        invariant forall k | 0 <= k < i :: cast[k].voter != voter
      {
        if cast[i].voter == voter {
          return true;
        }
      }
      return false;
    }

    /** What the council says, where it is asked. */
    method Screen(id: nat, bouleSays: bool) returns (ok: bool)
      requires id in proposals
      modifies this`proposals
      ensures View() == Screened(c, old(View()), id, bouleSays)
      ensures id in proposals && ok == (c.requireBoule ==> proposals[id].bouleApproved)
    {
      if c.requireBoule {
        if bouleSays {
          proposals := proposals[id := proposals[id].(bouleApproved := true)];
        }
        if !proposals[id].bouleApproved {
          return false;
        }
      }
      return true;
    }

    method CastVote(id: nat, voter: Bytes, choice: Choice, claimed: uint64, signature: Bytes, bouleSays: bool)
      returns (outcome: VoteOutcome)
      requires SnapshotPowersFit()
      modifies this
      ensures (View(), outcome) == VotingModel.CastVote(c, old(View()), id, voter, choice, claimed, signature, bouleSays)
    {
      if id !in proposals {
        return Refused;
      }
      var screened := Screen(id, bouleSays);
      if !screened {
        return Refused;
      }
      if height < proposals[id].start || height > proposals[id].end {
        return Refused;
      }
      var seen := VoterSeen(id, voter);
      if seen || !Signed(c, id, voter, choice, claimed, signature) {
        return Refused;
      }
      var power: nat := claimed;
      if id in snapshots {
        power := GetSnapshotPower(id, voter);
        if power == 0 {
          return Refused;
        }
      }
      FirstPowerFits(id, voter);
      outcome := Guarded(id, voter, choice, power);
    }

    /** Powers come from 64-bit fields. */
    ghost predicate SnapshotPowersFit()
      reads this
    {
      forall id, i | id in snapshots && 0 <= i < |snapshots[id].entries| :: snapshots[id].entries[i].power <= MAX_U64
    }

    lemma FirstPowerFits(id: nat, voter: Bytes)
      requires SnapshotPowersFit()
      ensures id in snapshots ==> FirstPower(snapshots[id].entries, voter) <= MAX_U64
    {
      if id in snapshots {
        FirstOf(snapshots[id].entries, voter);
      }
    }

    static lemma {:induction false} FirstOf(entries: seq<Entry>, voter: Bytes)
      requires forall i | 0 <= i < |entries| :: entries[i].power <= MAX_U64
      ensures FirstPower(entries, voter) <= MAX_U64
      decreases |entries|
    {
      if entries != [] {
        FirstOf(entries[1..], voter);
      }
    }

    method Guarded(id: nat, voter: Bytes, choice: Choice, power: nat) returns (outcome: VoteOutcome)
      requires id in proposals && power <= MAX_U64
      modifies this
      ensures (View(), outcome) ==
        if RootFails(c, power) then (old(View()), Undefined)
        else (Recorded(old(View()), id, Vote(voter, choice, EffectivePower(c, power))), Accepted)
    {
      var effective := power;
      if c.guard.Some? {
        var r := ComputeEffectivePower(c.guard.value, power);
        if r.DivisionByZero? {
          return Undefined;
        }
        effective := r.value;
      }
      var cast := if id in votes then votes[id] else [];
      votes := votes[id := cast + [Vote(voter, choice, effective)]];
      proposals := proposals[id := Counted(proposals[id], choice, effective)];
      return Accepted;
    }

    method MarkBouleApproved(id: nat) returns (ok: bool)
      modifies this
      ensures (View(), ok) == VotingModel.MarkBouleApproved(old(View()), id)
    {
      if id !in proposals {
        return false;
      }
      proposals := proposals[id := proposals[id].(bouleApproved := true)];
      return true;
    }

    method TallyVotes(id: nat) returns (ok: bool)
      modifies this
      ensures (View(), ok) == VotingModel.TallyVotes(old(View()), id)
    {
      if id !in proposals || height <= proposals[id].end {
        return false;
      }
      var p := proposals[id];
      var passed := Verdict(p);
      if passed {
        p := p.(status := Passed, executionTime := U64(height + EXECUTION_DELAY));
      } else {
        p := p.(status := Rejected);
      }
      proposals := proposals[id := p];
      return true;
    }

    /** Quorum, then veto, then approval. */
    method Verdict(p: Proposal) returns (passed: bool)
      ensures passed == Passes(p)
    {
      var total := U64(p.yes + p.no + p.abstain + p.veto);
      if total < p.quorum {
        return false;
      }
      var threshold := if p.vetoBps > 0 then p.vetoBps else VETO_BPS;
      if Scaled(p.veto, 10000) > Scaled(total, threshold) {
        return false;
      }
      var approval := U64(p.yes + p.no);
      if approval == 0 {
        return false;
      }
      return ApprovalPercent(p.yes, approval) >= p.threshold;
    }

    method ExecuteProposal(id: nat, handlerAgrees: bool) returns (ok: bool)
      modifies this
      ensures (View(), ok) == VotingModel.ExecuteProposal(old(View()), id, handlerAgrees)
    {
      if id !in proposals || proposals[id].status != Passed || height < proposals[id].executionTime {
        return false;
      }
      if !handlerAgrees {
        return false;
      }
      proposals := proposals[id := proposals[id].(status := Executed)];
      return true;
    }
  }
}
