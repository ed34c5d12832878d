/** What a proposal's status is, told from the operations of the run and the tallies it has come to. */
module VotingStatus {
  import opened Bytes
  import opened VotingModel
  import opened VotingHistory
  import VotingRuns

  /** The last block a proposal can be voted on in, in 64-bit arithmetic. */
  function LastBlock(c: Settings, ops: seq<Op>, id: nat): nat {
    ((MadeAt(ops, id) + 100) % TWO_64 + c.period) % TWO_64
  }

  /** The operation tallies the proposal after its last block. */
  predicate Tallies(c: Settings, before: seq<Op>, op: Op, id: nat) {
    op == Tally(id) && Exists(before, id) && LastBlock(c, before, id) < Height(before)
  }

  /** The height of the last tally that counted. */
  function TalliedAt(c: Settings, ops: seq<Op>, id: nat): Option<nat> {
    if ops == [] then None
    else
      var op, before := ops[|ops| - 1], ops[..|ops| - 1];
      if Tallies(c, before, op, id) then Some(Height(before)) else TalliedAt(c, before, id)
  }

  /** Since then somebody has executed it, a thousand blocks later or more, and its handler agreed. */
  predicate CarriedOut(c: Settings, ops: seq<Op>, id: nat) {
    ops != []
    && var op, before := ops[|ops| - 1], ops[..|ops| - 1];
       if Tallies(c, before, op, id) then false
       else if op == Execute(id, true) && TalliedAt(c, before, id).Some?
               && Height(before) >= (TalliedAt(c, before, id).value + 1000) % TWO_64 then true
       else CarriedOut(c, before, id)
  }

  ghost predicate StatusIs(c: Settings, s: Voting, ops: seq<Op>, id: nat)
    requires id in s.proposals
  {
    var p := s.proposals[id];
    match TalliedAt(c, ops, id)
    case None => p.status == if VotesOn(s, id) == [] then Pending else Active
    case Some(h) =>
      && LastBlock(c, ops, id) < h <= Height(ops)
      && (if !Passes(p) then p.status == Rejected
          else p.status == (if CarriedOut(c, ops, id) then Executed else Passed)
               && p.executionTime == (h + 1000) % TWO_64)
  }

  lemma {:induction false} NotTallied(c: Settings, ops: seq<Op>, id: nat)
    requires !Exists(ops, id)
    ensures TalliedAt(c, ops, id) == None
  {
    if ops != [] {
      NotTallied(c, ops[..|ops| - 1], id);
    }
  }

  lemma {:induction false} SameLastBlock(c: Settings, ops: seq<Op>, op: Op, id: nat)
    requires Exists(ops, id)
    ensures LastBlock(c, ops + [op], id) == LastBlock(c, ops, id)
    ensures Height(ops) <= Height(ops + [op])
  {
    OneMoreOp(ops, op);
  }

  lemma {:induction false} CreateStatus(c: Settings, s: Voting, ops: seq<Op>, op: Op, id: nat)
    requires SetUp(c, s, ops) && VotingRuns.AllRight(s) && op.Create? && id in Apply(c, s, op).proposals
    requires id in s.proposals ==> StatusIs(c, s, ops, id)
    ensures StatusIs(c, Apply(c, s, op), ops + [op], id)
  {
    OneMoreOp(ops, op);
    if id in s.proposals {
      SameLastBlock(c, ops, op, id);
    } else {
      NotTallied(c, ops, id);
    }
  }

  lemma {:induction false} CastStatus(c: Settings, s: Voting, ops: seq<Op>, op: Op, id: nat)
    requires SetUp(c, s, ops) && op.Cast? && id in s.proposals && StatusIs(c, s, ops, id)
    ensures id in Apply(c, s, op).proposals && StatusIs(c, Apply(c, s, op), ops + [op], id)
  {
    OneMoreOp(ops, op);
    SameLastBlock(c, ops, op, id);
    assert ProposalIs(c, s.proposals[id], ops, id);
    CastMoves(c, s, op, id);
    if TalliedAt(c, ops, id).Some? {
      VotingRuns.SameVerdict(s.proposals[id], Apply(c, s, op).proposals[id]);
    }
  }

  lemma {:induction false} ApproveStatus(c: Settings, s: Voting, ops: seq<Op>, op: Op, id: nat)
    requires SetUp(c, s, ops) && op.Approve? && id in s.proposals && StatusIs(c, s, ops, id)
    ensures id in Apply(c, s, op).proposals && StatusIs(c, Apply(c, s, op), ops + [op], id)
  {
    OneMoreOp(ops, op);
    SameLastBlock(c, ops, op, id);
    VotingRuns.SameVerdict(s.proposals[id], Apply(c, s, op).proposals[id]);
  }

  /** A ballot that is not recorded moves nothing but the council's approval; one that is opens the voting. */
  lemma {:induction false} CastMoves(c: Settings, s: Voting, op: Op, id: nat)
    requires op.Cast? && id in s.proposals
    ensures id in Apply(c, s, op).proposals
    ensures var (p, q) := (s.proposals[id], Apply(c, s, op).proposals[id]);
            || (VotesOn(Apply(c, s, op), id) == VotesOn(s, id) && VotingRuns.SameBallot(p, q) && q.status == p.status
                && q.executionTime == p.executionTime)
            || (s.height <= p.end && VotesOn(Apply(c, s, op), id) != []
                && q.status == if p.status == Pending then Active else p.status)
  {
  }

  lemma {:induction false} TallyMoves(s: Voting, k: nat, id: nat)
    requires id in s.proposals
    ensures var (p, t) := (s.proposals[id], TallyVotes(s, k).0);
            && t.height == s.height && t.votes == s.votes && id in t.proposals
            && VotingRuns.SameBallot(p, t.proposals[id])
            && var q := t.proposals[id];
               if k == id && s.height > p.end
               then q.status == (if Passes(p) then Passed else Rejected)
                    && (Passes(p) ==> q.executionTime == (s.height + 1000) % TWO_64)
               else q == p
  {
  }

  lemma {:induction false} TallyStatus(c: Settings, s: Voting, ops: seq<Op>, op: Op, id: nat)
    requires SetUp(c, s, ops) && op.Tally? && id in s.proposals && StatusIs(c, s, ops, id)
    ensures id in Apply(c, s, op).proposals && StatusIs(c, Apply(c, s, op), ops + [op], id)
  {
    OneMoreOp(ops, op);
    SameLastBlock(c, ops, op, id);
    assert ProposalIs(c, s.proposals[id], ops, id);
    TallyMoves(s, op.id, id);
    VotingRuns.SameVerdict(s.proposals[id], Apply(c, s, op).proposals[id]);
  }

  lemma {:induction false} ExecuteStatus(c: Settings, s: Voting, ops: seq<Op>, op: Op, id: nat)
    requires SetUp(c, s, ops) && op.Execute? && id in s.proposals && StatusIs(c, s, ops, id)
    ensures id in Apply(c, s, op).proposals && StatusIs(c, Apply(c, s, op), ops + [op], id)
  {
    OneMoreOp(ops, op);
    SameLastBlock(c, ops, op, id);
    VotingRuns.SameVerdict(s.proposals[id], Apply(c, s, op).proposals[id]);
  }

  lemma {:induction false} StatusStep(c: Settings, s: Voting, ops: seq<Op>, op: Op, id: nat)
    requires SetUp(c, s, ops) && VotingRuns.AllRight(s) && id in Apply(c, s, op).proposals
    requires id in s.proposals ==> StatusIs(c, s, ops, id)
    ensures StatusIs(c, Apply(c, s, op), ops + [op], id)
  {
    if op.Create? {
      CreateStatus(c, s, ops, op, id);
    } else if op.Cast? {
      CastStatus(c, s, ops, op, id);
    } else if op.Approve? {
      ApproveStatus(c, s, ops, op, id);
    } else if op.Tally? {
      TallyStatus(c, s, ops, op, id);
    } else if op.Execute? {
      ExecuteStatus(c, s, ops, op, id);
    } else {
      OneMoreOp(ops, op);
      SameLastBlock(c, ops, op, id);
    }
  }

  /** In every run a proposal is pending until a ballot is recorded and active until a tally after its last block. From
      then on it is rejected or passed by what its tallies say, and executed once that has been done at least a
      thousand blocks after the last tally, with no tally since. */
  lemma {:induction false} StatusFromHistory(c: Settings, ops: seq<Op>, id: nat)
    requires Exists(ops, id)
    ensures id in Run(c, INITIAL, ops).proposals && StatusIs(c, Run(c, INITIAL, ops), ops, id)
    decreases |ops|
  {
    RunSetUp(c, ops);
    var last := |ops| - 1;
    var before := ops[..last];
    RunSetUp(c, before);
    VotingRuns.RunRight(c, before);
    if Exists(before, id) {
      StatusFromHistory(c, before, id);
    }
    StatusStep(c, Run(c, INITIAL, before), before, ops[last], id);
    assert before + [ops[last]] == ops;
  }

  // ---------------------------------------------------------------- the terms of a proposal

  /** The proposal was created as a constitutional one. */
  predicate IsConstitutional(ops: seq<Op>, id: nat) {
    ops != []
    && if Creates(ops, id) then ops[|ops| - 1].kind == Constitutional else IsConstitutional(ops[..|ops| - 1], id)
  }

  predicate TermsAre(c: Settings, p: Proposal, constitutional: bool) {
    p.quorum == c.quorum && p.threshold == (if constitutional then 66 else c.threshold) && p.vetoBps == 3334
  }

  lemma {:induction false} TermsStep(c: Settings, s: Voting, ops: seq<Op>, op: Op, id: nat)
    requires SetUp(c, s, ops) && id in Apply(c, s, op).proposals
    requires id in s.proposals ==> TermsAre(c, s.proposals[id], IsConstitutional(ops, id))
    ensures TermsAre(c, Apply(c, s, op).proposals[id], IsConstitutional(ops + [op], id))
  {
    OneMoreOp(ops, op);
    if id in s.proposals {
      TermsKept(c, s, op, id);
    }
  }

  predicate SameTerms(p: Proposal, q: Proposal) {
    q.quorum == p.quorum && q.threshold == p.threshold && q.vetoBps == p.vetoBps
  }

  lemma {:induction false} TermsKept(c: Settings, s: Voting, op: Op, id: nat)
    requires id in s.proposals && id < s.next
    ensures id in Apply(c, s, op).proposals && SameTerms(s.proposals[id], Apply(c, s, op).proposals[id])
  {
    if op.Cast? {
      CastKeepsTerms(c, s, op, id);
    }
  }

  lemma {:induction false} CastKeepsTerms(c: Settings, s: Voting, op: Op, id: nat)
    requires id in s.proposals && op.Cast?
    ensures id in Apply(c, s, op).proposals && SameTerms(s.proposals[id], Apply(c, s, op).proposals[id])
  {
  }

  /** The quorum, the threshold and the veto share a proposal is judged by are those in force for its kind, in every
      run. */
  lemma {:induction false} TermsFromHistory(c: Settings, ops: seq<Op>, id: nat)
    requires Exists(ops, id)
    ensures id in Run(c, INITIAL, ops).proposals
    ensures TermsAre(c, Run(c, INITIAL, ops).proposals[id], IsConstitutional(ops, id))
    decreases |ops|
  {
    RunSetUp(c, ops);
    var last := |ops| - 1;
    var before := ops[..last];
    RunSetUp(c, before);
    if Exists(before, id) {
      TermsFromHistory(c, before, id);
    }
    TermsStep(c, Run(c, INITIAL, before), before, ops[last], id);
    assert before + [ops[last]] == ops;
  }
}
