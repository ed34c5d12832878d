/** What a verdict means in 64-bit arithmetic, and what tallying again does to the time of execution. */
module VotingVerdict {
  import opened Arithmetic
  import opened Bytes
  import opened VotingModel
  import opened VotingRuns

  // ---------------------------------------------------------------- when a proposal passes

  function VetoShare(p: Proposal): nat {
    if p.vetoBps > 0 then p.vetoBps else VETO_BPS
  }

  function Turnout(p: Proposal): nat {
    p.yes + p.no + p.abstain + p.veto
  }

  /** The verdict meant: the turnout reaches the quorum, the veto share is at most its threshold, and the
      share of yes among yes and no reaches the approval threshold in percent. */
  predicate Deserves(p: Proposal) {
    && Turnout(p) >= p.quorum
    && p.veto * 10000 <= Turnout(p) * VetoShare(p)
    && p.yes + p.no > 0
    && p.yes * 100 >= p.threshold * (p.yes + p.no)
  }

  /** The verdict reached, over all tallies: sums wrap, a veto comparison that saturates on the right is
      always passed, and from a hundredth of the largest number on yes votes are measured against whole
      hundredths of the votes. */
  lemma PassesExactly(p: Proposal)
    ensures var turnout, approval := U64(Turnout(p)), U64(p.yes + p.no);
            Passes(p) <==>
            && turnout >= p.quorum
            && (p.veto * 10000 <= turnout * VetoShare(p) || turnout * VetoShare(p) >= MAX_U64)
            && approval > 0
            && if p.yes <= MAX_U64 / 100 then p.yes * 100 >= p.threshold * approval
               else p.threshold <= 100 && p.yes >= p.threshold * (approval / 100)
  {
    var turnout, approval := U64(Turnout(p)), U64(p.yes + p.no);
    ScaledIsLesser(p.veto, 10000);
    ScaledIsLesser(turnout, VetoShare(p));
    if approval > 0 {
      PercentExactly(p.yes, approval, p.threshold);
    }
  }

  /** The guarded product is the true one, or the largest number if that is less. */
  lemma ScaledIsLesser(a: nat, b: nat)
    ensures Scaled(a, b) == if a * b <= MAX_U64 then a * b else MAX_U64
  {
    if b > 0 {
      QuotientAtLeast(MAX_U64, b, a);
    } else {
      assert a * b == 0;
    }
  }

  lemma QuotientAtLeast(a: nat, b: nat, t: nat)
    requires b > 0
    ensures a / b >= t <==> a >= t * b
  {
    var q := a / b;
    assert q * b <= a < q * b + b;
    if q >= t {
      LessMono(t, q, b);
    } else {
      LessMono(q + 1, t, b);
      assert (q + 1) * b == q * b + b;
    }
  }

  lemma PercentExactly(yes: nat, approval: nat, threshold: nat)
    requires approval > 0
    ensures ApprovalPercent(yes, approval) >= threshold
            <==> if yes <= MAX_U64 / 100 then yes * 100 >= threshold * approval
                 else threshold <= 100 && yes >= threshold * (approval / 100)
  {
    if yes <= MAX_U64 / 100 {
      QuotientAtLeast(yes * 100, approval, threshold);
    } else if approval / 100 > 0 {
      QuotientAtLeast(yes, approval / 100, threshold);
    } else {
      assert threshold * (approval / 100) == 0;
    }
  }

  /** While the turnout stays below a ten-thousandth of the largest number the verdict is the one meant. */
  lemma PassesMeans(p: Proposal)
    requires Turnout(p) <= MAX_U64 / 10000 && p.vetoBps <= 10000
    ensures Passes(p) <==> Deserves(p)
  {
    PassesExactly(p);
    LessMono(VetoShare(p), 10000, Turnout(p));
    assert Turnout(p) * VetoShare(p) <= Turnout(p) * 10000 < MAX_U64;
  }

  /** Beyond that the arithmetic only errs towards passing, as long as the turnout fits 64 bits: what
      deserves to pass does, and what passes without deserving it does so because the veto comparison
      saturated or because yes was measured against fewer votes than were cast. */
  lemma ErrsTowardsPassing(p: Proposal)
    requires Turnout(p) <= MAX_U64
    ensures Deserves(p) ==> Passes(p)
    ensures Passes(p) ==>
              (Deserves(p) <==>
               && (p.veto * 10000 <= Turnout(p) * VetoShare(p))
               && (p.yes > MAX_U64 / 100 ==> p.yes * 100 >= p.threshold * (p.yes + p.no)))
  {
    PassesExactly(p);
    if p.yes > MAX_U64 / 100 && p.yes * 100 >= p.threshold * (p.yes + p.no) {
      WholeHundredths(p.yes, p.yes + p.no, p.threshold);
    }
  }

  lemma WholeHundredths(yes: nat, approval: nat, threshold: nat)
    requires 0 < yes <= approval && yes * 100 >= threshold * approval
    ensures threshold <= 100 && yes >= threshold * (approval / 100)
  {
    if threshold > 100 {
      LessMono(101, threshold, approval);
      assert false;
    }
    LessMono(approval / 100 * 100, approval, threshold);
    assert threshold * (approval / 100 * 100) == threshold * (approval / 100) * 100;
  }

  /** Two vetoes out of three votes cast, and yet it passes. */
  lemma VetoIgnored(p: Proposal)
    requires p.yes == 0x4000_0000_0000_0000 && p.veto == 0x8000_0000_0000_0000 && p.no == 0 && p.abstain == 0
    requires p.quorum <= 0xC000_0000_0000_0000 && p.vetoBps == VETO_BPS && p.threshold <= 100
    ensures Passes(p) && !Deserves(p)
  {
    PassesExactly(p);
    LessMono(p.threshold, 100, p.yes / 100);
  }

  // ---------------------------------------------------------------- tallying again

  /** A tally passed now, and is due a fixed delay later. */
  ghost predicate JustPassed(s: Voting, id: nat) {
    && id in s.proposals && s.height > s.proposals[id].end && Passes(s.proposals[id])
    && s.proposals[id].status == Passed && s.proposals[id].executionTime == s.height + EXECUTION_DELAY
  }

  lemma TallyPasses(s: Voting, id: nat)
    requires id in s.proposals && s.height > s.proposals[id].end && Passes(s.proposals[id])
    requires s.height + EXECUTION_DELAY <= MAX_U64
    ensures JustPassed(TallyVotes(s, id).0, id)
  {
    SameVerdict(s.proposals[id], TallyVotes(s, id).0.proposals[id]);
  }

  /** Tallied again after some blocks, a passed proposal is executable that many blocks later. */
  lemma RetallyPostpones(c: Settings, s: Voting, id: nat, blocks: nat)
    requires JustPassed(s, id) && s.height + blocks + EXECUTION_DELAY <= MAX_U64
    ensures var t := Run(c, s, [Advance(blocks), Tally(id)]);
            && JustPassed(t, id)
            && t.proposals[id].executionTime == s.proposals[id].executionTime + blocks
            && t.height == s.height + blocks
  {
    var ops := [Advance(blocks), Tally(id)];
    assert ops[..1][..0] == [] && ops[..1][0] == Advance(blocks);
    var later := s.(height := s.height + blocks);
    assert Run(c, s, ops[..1]) == later;
    TallyPasses(later, id);
  }

  /** One round of waiting and tallying for each of the gaps. */
  function Rounds(id: nat, gaps: seq<nat>): seq<Op> {
    if gaps == [] then [] else Rounds(id, gaps[..|gaps| - 1]) + [Advance(gaps[|gaps| - 1]), Tally(id)]
  }

  function Blocks(gaps: seq<nat>): nat {
    if gaps == [] then 0 else Blocks(gaps[..|gaps| - 1]) + gaps[|gaps| - 1]
  }

  lemma {:induction false} RunInTwo(c: Settings, s: Voting, ops: seq<Op>, more: seq<Op>)
    ensures Run(c, s, ops + more) == Run(c, Run(c, s, ops), more)
    decreases |more|
  {
    if more == [] {
      assert ops + more == ops;
    } else {
      RunInTwo(c, s, ops, more[..|more| - 1]);
      assert (ops + more)[..|ops + more| - 1] == ops + more[..|more| - 1];
    }
  }

  /** Whoever tallies again before the delay is over keeps a passed proposal from ever being executed:
      after any number of rounds it is as far from execution as after the first tally. */
  lemma {:induction false} PostponedForever(c: Settings, s: Voting, id: nat, gaps: seq<nat>, wait: nat, handlerAgrees: bool)
    requires JustPassed(s, id) && wait < EXECUTION_DELAY
    requires s.height + Blocks(gaps) + EXECUTION_DELAY <= MAX_U64
    ensures var t := Run(c, s, Rounds(id, gaps));
            && JustPassed(t, id) && t.height == s.height + Blocks(gaps)
            && !ExecuteProposal(t.(height := t.height + wait), id, handlerAgrees).1
    decreases |gaps|
  {
    if gaps != [] {
      var init, last := gaps[..|gaps| - 1], gaps[|gaps| - 1];
      PostponedForever(c, s, id, init, wait, handlerAgrees);
      RunInTwo(c, s, Rounds(id, init), [Advance(last), Tally(id)]);
      RetallyPostpones(c, Run(c, s, Rounds(id, init)), id, last);
    }
  }
}
