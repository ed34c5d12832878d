/** Which ballots a voting run has recorded, told from its operations alone. */
module VotingHistory {
  import opened Bytes
  import opened Ordered
  import opened AntiWhale
  import opened VotingModel

  // ---------------------------------------------------------------- what the operations have set up

  function Height(ops: seq<Op>): nat {
    if ops == [] then 0
    else
      Height(ops[..|ops| - 1]) + match ops[|ops| - 1] { case Advance(blocks) => blocks case _ => 0 }
  }

  /** How many proposals there are; they are numbered from one. */
  function Created(ops: seq<Op>): nat {
    if ops == [] then 0 else Created(ops[..|ops| - 1]) + if ops[|ops| - 1].Create? then 1 else 0
  }

  predicate Exists(ops: seq<Op>, id: nat) {
    1 <= id <= Created(ops)
  }

  /** The last operation creates the proposal. */
  predicate Creates(ops: seq<Op>, id: nat) {
    ops != [] && ops[|ops| - 1].Create? && Created(ops) == id
  }

  /** The height the proposal was created at. */
  function MadeAt(ops: seq<Op>, id: nat): nat {
    if ops == [] then 0
    else if Creates(ops, id) then Height(ops[..|ops| - 1])
    else MadeAt(ops[..|ops| - 1], id)
  }

  /** What the registry said of everybody's power when the proposal was created. */
  function Holders(ops: seq<Op>, id: nat): seq<Entry> {
    if ops == [] then []
    else if Creates(ops, id) then ops[|ops| - 1].powers
    else Holders(ops[..|ops| - 1], id)
  }

  /** Whether the council has approved it since, of its own accord or asked when a ballot came in. */
  predicate Approved(ops: seq<Op>, id: nat) {
    ops != []
    && var op, before := ops[|ops| - 1], ops[..|ops| - 1];
       if Exists(before, id) && (op == Approve(id) || (op.Cast? && op.id == id && op.bouleSays)) then true
       else Approved(before, id)
  }

  /** The power of the first entry for the voter that has any. */
  function PowerOf(powers: seq<Entry>, voter: Bytes): nat {
    if powers == [] then 0
    else if powers[0].address == voter && powers[0].power > 0 then powers[0].power
    else PowerOf(powers[1..], voter)
  }

  predicate Frozen(c: Settings, ops: seq<Op>, id: nat) {
    c.snapshots && Holders(ops, id) != []
  }

  // ---------------------------------------------------------------- ballots

  /** The 49 bytes a voter signs: the proposal and the claimed power with their low bytes first, around the voter's
      key and the choice. */
  predicate Says(message: Bytes, id: nat, voter: Bytes, choice: Choice, claimed: nat) {
    && |message| == 49 && |voter| == 32
    && FromLittleEndian(message[..8]) == id % TWO_64
    && message[8..40] == voter
    && message[40] == (match choice case Yes => 0 case No => 1 case Abstain => 2 case Veto => 3)
    && FromLittleEndian(message[41..]) == claimed % TWO_64
  }

  ghost predicate SignedFor(c: Settings, op: Op)
    requires op.Cast?
  {
    && |op.signature| == 64
    && exists message :: Says(message, op.id, op.voter, op.choice, op.claimed)
                         && c.check(op.voter, c.h(message), op.signature)
  }

  /** The proposal is there and the height is within its period, in 64-bit arithmetic. */
  predicate Open(c: Settings, ops: seq<Op>, id: nat) {
    && Exists(ops, id)
    && var start := (MadeAt(ops, id) + 100) % TWO_64;
       start <= Height(ops) <= (start + c.period) % TWO_64
  }

  /** The power a ballot goes in with: that of the snapshot if there is one, and else what it claims. */
  function Power(c: Settings, ops: seq<Op>, op: Op): nat
    requires op.Cast?
  {
    if Frozen(c, ops, op.id) then PowerOf(Holders(ops, op.id), op.voter) else op.claimed
  }

  /** The ballot is on an open proposal the council lets through, signed, and of a voter with power in the snapshot;
      and its power is not the one number whose root divides by zero. */
  ghost predicate Fit(c: Settings, ops: seq<Op>, op: Op, id: nat) {
    && op.Cast? && op.id == id && Open(c, ops, id)
    && (c.requireBoule ==> op.bouleSays || Approved(ops, id))
    && SignedFor(c, op)
    && (Frozen(c, ops, id) ==> Power(c, ops, op) > 0)
    && !(c.guard.Some? && c.guard.value.quadratic && Power(c, ops, op) == MAX_U64)
  }

  /** The weight a power comes to: its root where voting is quadratic, and no more than the cap where there is one. */
  ghost predicate Weighs(guard: Option<Config>, power: nat, weight: nat) {
    match guard
    case None => weight == power
    case Some(g) =>
      exists plain :: Plain(g.quadratic, power, plain) && weight == if 0 < g.cap < plain then g.cap else plain
  }

  predicate Plain(quadratic: bool, power: nat, weight: nat) {
    if quadratic then IsFloorRoot(weight, power) else weight == power
  }

  ghost predicate Records(c: Settings, ops: seq<Op>, op: Op, v: Vote) {
    op.Cast? && v.voter == op.voter && v.choice == op.choice && Weighs(c.guard, Power(c, ops, op), v.power)
  }

  /** Which operations are recorded as ballots on the proposal: each fit one by a voter not recorded before. */
  ghost function Ballots(c: Settings, ops: seq<Op>, id: nat): (js: seq<nat>)
    ensures forall i | 0 <= i < |js| :: js[i] < |ops|
  {
    if ops == [] then []
    else
      var last := |ops| - 1;
      var before := Ballots(c, ops[..last], id);
      before + if Fit(c, ops[..last], ops[last], id) && NoneBy(ops[..last], before, ops[last]) then [last] else []
  }

  ghost predicate NoneBy(ops: seq<Op>, js: seq<nat>, op: Op)
    requires forall i | 0 <= i < |js| :: js[i] < |ops|
    requires op.Cast?
  {
    forall i | 0 <= i < |js| :: ops[js[i]].Cast? ==> ops[js[i]].voter != op.voter
  }

  ghost predicate Recording(c: Settings, ops: seq<Op>, js: seq<nat>, votes: seq<Vote>) {
    && |votes| == |js|
    && forall i | 0 <= i < |js| :: js[i] < |ops| && Records(c, ops[..js[i]], ops[js[i]], votes[i])
  }

  // ---------------------------------------------------------------- the booth against its history

  ghost predicate ProposalIs(c: Settings, p: Proposal, ops: seq<Op>, id: nat) {
    && p.start == (MadeAt(ops, id) + 100) % TWO_64 && p.end == (p.start + c.period) % TWO_64
    && (p.bouleApproved <==> !c.requireBoule || Approved(ops, id))
  }

  ghost predicate SetUp(c: Settings, s: Voting, ops: seq<Op>) {
    && s.height == Height(ops) && s.next == Created(ops) + 1
    && (forall id :: id in s.proposals <==> Exists(ops, id))
    && (forall id :: id in s.snapshots <==> Exists(ops, id) && Frozen(c, ops, id))
    && (forall id | id in s.snapshots :: s.snapshots[id].entries == Kept(Holders(ops, id)))
    && (forall id | id in s.proposals :: ProposalIs(c, s.proposals[id], ops, id))
  }

  lemma OneMoreOp(ops: seq<Op>, op: Op)
    ensures ops + [op] != [] && (ops + [op])[..|ops + [op]| - 1] == ops && (ops + [op])[|ops + [op]| - 1] == op
  {
  }

  lemma {:induction false} NotYetApproved(ops: seq<Op>, id: nat)
    requires !Exists(ops, id)
    ensures !Approved(ops, id)
  {
    if ops != [] {
      NotYetApproved(ops[..|ops| - 1], id);
    }
  }

  lemma {:induction false} CountersStep(c: Settings, s: Voting, ops: seq<Op>, op: Op)
    requires SetUp(c, s, ops)
    ensures var t := Apply(c, s, op);
            && t.height == Height(ops + [op]) && t.next == Created(ops + [op]) + 1
            && forall id :: id in t.proposals <==> Exists(ops + [op], id)
  {
    OneMoreOp(ops, op);
  }

  lemma {:induction false} SnapshotsStep(c: Settings, s: Voting, ops: seq<Op>, op: Op)
    requires SetUp(c, s, ops)
    ensures var t := Apply(c, s, op);
            && (forall id :: id in t.snapshots <==> Exists(ops + [op], id) && Frozen(c, ops + [op], id))
            && forall id | id in t.snapshots :: t.snapshots[id].entries == Kept(Holders(ops + [op], id))
  {
    OneMoreOp(ops, op);
    if !op.Create? {
      SameSnapshots(c, s, op);
    }
  }

  lemma SameSnapshots(c: Settings, s: Voting, op: Op)
    requires !op.Create?
    ensures Apply(c, s, op).snapshots == s.snapshots
  {
  }

  lemma {:induction false} ProposalStep(c: Settings, s: Voting, ops: seq<Op>, op: Op, id: nat)
    requires SetUp(c, s, ops) && id in Apply(c, s, op).proposals
    ensures ProposalIs(c, Apply(c, s, op).proposals[id], ops + [op], id)
  {
    OneMoreOp(ops, op);
    if id !in s.proposals {
      NotYetApproved(ops, id);
    } else if op.Cast? {
      assert ProposalIs(c, s.proposals[id], ops, id);
      CastProposalStep(c, s, ops, op, id);
    } else if op == Approve(id) {
      assert ProposalIs(c, s.proposals[id], ops, id);
    } else {
      OtherKeeps(c, s, op, id);
      assert ProposalIs(c, s.proposals[id], ops, id);
    }
  }

  lemma {:induction false} OtherKeeps(c: Settings, s: Voting, op: Op, id: nat)
    requires id in s.proposals && id < s.next && !op.Cast? && op != Approve(id)
    ensures id in Apply(c, s, op).proposals
    ensures var (p, q) := (s.proposals[id], Apply(c, s, op).proposals[id]);
            q.start == p.start && q.end == p.end && q.bouleApproved == p.bouleApproved
  {
  }

  lemma {:induction false} CastProposalStep(c: Settings, s: Voting, ops: seq<Op>, op: Op, id: nat)
    requires SetUp(c, s, ops) && id in s.proposals && op.Cast? && ProposalIs(c, s.proposals[id], ops, id)
    ensures id in Apply(c, s, op).proposals && ProposalIs(c, Apply(c, s, op).proposals[id], ops + [op], id)
  {
    OneMoreOp(ops, op);
    var (p, q) := (s.proposals[id], Apply(c, s, op).proposals[id]);
    CastOnlyApproves(c, s, op, id);
    assert MadeAt(ops + [op], id) == MadeAt(ops, id);
  }

  lemma {:induction false} CastOnlyApproves(c: Settings, s: Voting, op: Op, id: nat)
    requires id in s.proposals && op.Cast?
    ensures id in Apply(c, s, op).proposals
    ensures var (p, q) := (s.proposals[id], Apply(c, s, op).proposals[id]);
            && q.start == p.start && q.end == p.end
            && (q.bouleApproved <==> p.bouleApproved || (c.requireBoule && op.bouleSays && op.id == id))
  {
  }

  lemma {:induction false} SetUpStep(c: Settings, s: Voting, ops: seq<Op>, op: Op)
    requires SetUp(c, s, ops)
    ensures SetUp(c, Apply(c, s, op), ops + [op])
  {
    CountersStep(c, s, ops, op);
    SnapshotsStep(c, s, ops, op);
    forall id | id in Apply(c, s, op).proposals ensures ProposalIs(c, Apply(c, s, op).proposals[id], ops + [op], id) {
      ProposalStep(c, s, ops, op, id);
    }
  }

  // ---------------------------------------------------------------- one ballot

  lemma {:induction false} KeptPower(powers: seq<Entry>, voter: Bytes)
    ensures FirstPower(Kept(powers), voter) == PowerOf(powers, voter)
    decreases |powers|
  {
    if powers != [] {
      KeptFront(powers);
      KeptPower(powers[1..], voter);
      var rest := Kept(powers[1..]);
      if powers[0].power == 0 {
        assert Kept(powers) == rest;
      } else {
        assert Kept(powers)[1..] == rest;
      }
    }
  }

  lemma {:induction false} KeptFront(powers: seq<Entry>)
    requires powers != []
    ensures Kept(powers) == (if powers[0].power == 0 then [] else [powers[0]]) + Kept(powers[1..])
    decreases |powers|
  {
    if |powers| > 1 {
      KeptFront(powers[..|powers| - 1]);
      assert powers[..|powers| - 1][1..] == powers[1..][..|powers| - 2];
    } else {
      assert powers[..|powers| - 1] == [] && powers[1..] == [];
    }
  }

  lemma {:induction false} PayloadSays(id: nat, voter: Bytes, choice: Choice, claimed: nat, message: Bytes)
    requires |voter| == 32
    ensures Says(message, id, voter, choice, claimed) <==> message == Payload(id, voter, choice, claimed)
  {
    var (front, back) := (LittleEndian(id % TWO_64, 8), LittleEndian(claimed % TWO_64, 8));
    var payload := Payload(id, voter, choice, claimed);
    assert payload[..8] == front && payload[8..40] == voter && payload[40] == ChoiceByte(choice);
    assert payload[41..] == back;
    ReadBack64(id % TWO_64, 8);
    ReadBack64(claimed % TWO_64, 8);
    if Says(message, id, voter, choice, claimed) {
      SameBytes(message[..8], front);
      SameBytes(message[41..], back);
      assert message == message[..8] + message[8..40] + [message[40]] + message[41..];
    }
  }

  lemma ReadBack64(n: uint64, len: nat)
    requires len == 8
    ensures FromLittleEndian(LittleEndian(n, len)) == n
  {
    EightBytes(len);
    LittleEndianReadBack(n, len, TWO_64);
  }

  lemma EightBytes(len: nat)
    requires len == 8
    ensures Pow256(len) == TWO_64
  {
    assert Pow256(8) == TWO_64;
  }

  lemma {:induction false} SameBytes(a: Bytes, b: Bytes)
    requires |a| == |b| && FromLittleEndian(a) == FromLittleEndian(b)
    ensures a == b
    decreases |a|
  {
    if a != [] {
      SameByte(a[0], FromLittleEndian(a[1..]), b[0], FromLittleEndian(b[1..]));
      SameBytes(a[1..], b[1..]);
      assert a == [a[0]] + a[1..] && b == [b[0]] + b[1..];
    }
  }

  lemma SameByte(x: byte, rest: nat, y: byte, other: nat)
    requires x + 256 * rest == y + 256 * other
    ensures x == y && rest == other
  {
  }

  lemma {:induction false} SignedExactly(c: Settings, op: Op)
    requires op.Cast?
    ensures Signed(c, op.id, op.voter, op.choice, op.claimed, op.signature) <==> SignedFor(c, op)
  {
    if |op.voter| == 32 {
      var payload := Payload(op.id, op.voter, op.choice, op.claimed);
      PayloadSays(op.id, op.voter, op.choice, op.claimed, payload);
      forall message | Says(message, op.id, op.voter, op.choice, op.claimed) ensures message == payload {
        PayloadSays(op.id, op.voter, op.choice, op.claimed, message);
      }
    }
  }

  lemma {:induction false} EffectiveWeighs(c: Settings, power: nat)
    ensures Weighs(c.guard, power, EffectivePower(c, power))
  {
    if c.guard.Some? {
      var g := c.guard.value;
      assert Plain(g.quadratic, power, if g.quadratic then FloorRoot(power) else power);
    }
  }

  /** A power comes to one weight only. */
  lemma {:induction false} OneWeight(guard: Option<Config>, power: nat, weight: nat, other: nat)
    requires Weighs(guard, power, weight) && Weighs(guard, power, other)
    ensures weight == other
  {
    if guard.Some? && guard.value.quadratic {
      forall r | Plain(true, power, r) ensures r == FloorRoot(power) {
        FloorRootUnique(r, power);
      }
    }
  }

  lemma {:induction false} PowerIs(c: Settings, s: Voting, ops: seq<Op>, op: Op)
    requires SetUp(c, s, ops) && op.Cast? && Exists(ops, op.id)
    ensures RawPower(s, op.id, op.voter, op.claimed) == Power(c, ops, op)
  {
    KeptPower(Holders(ops, op.id), op.voter);
  }

  /** What the booth answers to a ballot, from the history: it is recorded exactly when it is fit and its voter has
      none on the proposal yet. */
  lemma {:induction false} CastIsFit(c: Settings, s: Voting, ops: seq<Op>, op: Op)
    requires SetUp(c, s, ops) && op.Cast?
    ensures CastVote(c, s, op.id, op.voter, op.choice, op.claimed, op.signature, op.bouleSays).1 == Accepted
            <==> Fit(c, ops, op, op.id) && !HasVoted(VotesOn(s, op.id), op.voter)
  {
    if op.id in s.proposals {
      assert ProposalIs(c, s.proposals[op.id], ops, op.id);
      PowerIs(c, s, ops, op);
      SignedExactly(c, op);
    }
  }

  lemma {:induction false} VotesStep(c: Settings, s: Voting, op: Op, id: nat)
    ensures var accepted := op.Cast? && op.id == id
                && CastVote(c, s, id, op.voter, op.choice, op.claimed, op.signature, op.bouleSays).1 == Accepted;
            VotesOn(Apply(c, s, op), id)
            == VotesOn(s, id)
               + if accepted
                 then [Vote(op.voter, op.choice, EffectivePower(c, RawPower(s, id, op.voter, op.claimed)))]
                 else []
  {
  }

  // ---------------------------------------------------------------- runs

  lemma {:induction false} RunSetUp(c: Settings, ops: seq<Op>)
    ensures SetUp(c, Run(c, INITIAL, ops), ops)
    decreases |ops|
  {
    if ops != [] {
      var last := |ops| - 1;
      RunSetUp(c, ops[..last]);
      SetUpStep(c, Run(c, INITIAL, ops[..last]), ops[..last], ops[last]);
      assert ops[..last] + [ops[last]] == ops;
    }
  }

  lemma {:induction false} VotedBefore(c: Settings, ops: seq<Op>, js: seq<nat>, votes: seq<Vote>, op: Op)
    requires Recording(c, ops, js, votes) && op.Cast?
    ensures HasVoted(votes, op.voter) <==> !NoneBy(ops, js, op)
  {
    if HasVoted(votes, op.voter) {
      var i :| 0 <= i < |votes| && votes[i].voter == op.voter;
      assert Records(c, ops[..js[i]], ops[js[i]], votes[i]);
    }
    forall i | 0 <= i < |js| ensures ops[js[i]].Cast? && ops[js[i]].voter == votes[i].voter {
      assert Records(c, ops[..js[i]], ops[js[i]], votes[i]);
    }
  }

  lemma {:induction false} StillRecording(c: Settings, ops: seq<Op>, n: nat, js: seq<nat>, votes: seq<Vote>)
    requires n <= |ops| && Recording(c, ops[..n], js, votes)
    ensures Recording(c, ops, js, votes)
  {
    forall i | 0 <= i < |js| ensures js[i] < |ops| && Records(c, ops[..js[i]], ops[js[i]], votes[i]) {
      assert ops[..n][..js[i]] == ops[..js[i]];
    }
  }

  lemma {:induction false} OneMoreRecorded(c: Settings, ops: seq<Op>, js: seq<nat>, votes: seq<Vote>, v: Vote)
    requires ops != [] && Recording(c, ops, js, votes)
    requires Records(c, ops[..|ops| - 1], ops[|ops| - 1], v)
    ensures Recording(c, ops, js + [|ops| - 1], votes + [v])
  {
  }

  /** The votes on a proposal are, in order, the fit ballots on it, the first of each voter: signed by the voter for
      this proposal, choice and claim, cast within its period, with the council's approval where that is asked for, and
      weighing what the snapshot, the root and the cap make of the voter's power. */
  lemma {:induction false} VotesAreBallots(c: Settings, ops: seq<Op>, id: nat)
    ensures Recording(c, ops, Ballots(c, ops, id), VotesOn(Run(c, INITIAL, ops), id))
    decreases |ops|
  {
    if ops != [] {
      var last := |ops| - 1;
      var (before, op) := (ops[..last], ops[last]);
      var s := Run(c, INITIAL, before);
      VotesAreBallots(c, before, id);
      RunSetUp(c, before);
      VotesStep(c, s, op, id);
      BallotStep(c, s, ops, id, last, before, op);
    }
  }

  lemma {:induction false} BallotStep(c: Settings, s: Voting, ops: seq<Op>, id: nat, last: nat, before: seq<Op>, op: Op)
    requires last == |ops| - 1 && before == ops[..last] && op == ops[last]
    requires SetUp(c, s, before) && Recording(c, before, Ballots(c, before, id), VotesOn(s, id))
    requires Run(c, INITIAL, ops) == Apply(c, s, op)
    ensures Recording(c, ops, Ballots(c, ops, id), VotesOn(Apply(c, s, op), id))
  {
    var (js, votes) := (Ballots(c, before, id), VotesOn(s, id));
    StillRecording(c, ops, last, js, votes);
    VotesStep(c, s, op, id);
    if op.Cast? && op.id == id {
      CastIsFit(c, s, before, op);
      VotedBefore(c, before, js, votes, op);
      if Fit(c, before, op, id) && NoneBy(before, js, op) {
        PowerIs(c, s, before, op);
        EffectiveWeighs(c, Power(c, before, op));
        OneMoreRecorded(c, ops, js, votes, Vote(op.voter, op.choice, EffectivePower(c, Power(c, before, op))));
      }
    }
  }

  /** A fit ballot's voter has a ballot recorded. */
  lemma {:induction false} BallotOf(c: Settings, ops: seq<Op>, id: nat, i: nat) returns (k: nat)
    requires i < |ops| && Fit(c, ops[..i], ops[i], id)
    ensures var js := Ballots(c, ops, id);
            k < |js| && ops[js[k]].Cast? && ops[js[k]].voter == ops[i].voter
    decreases |ops|
  {
    var last := |ops| - 1;
    var before := ops[..last];
    var js := Ballots(c, before, id);
    if i < last {
      assert before[..i] == ops[..i];
      k := BallotOf(c, before, id, i);
    } else if NoneBy(before, js, ops[last]) {
      k := |js|;
    } else {
      k :| 0 <= k < |js| && before[js[k]].Cast? && before[js[k]].voter == ops[last].voter;
    }
  }

  lemma {:induction false} BallotsFit(c: Settings, ops: seq<Op>, id: nat, k: nat)
    requires k < |Ballots(c, ops, id)|
    ensures var j := Ballots(c, ops, id)[k]; Fit(c, ops[..j], ops[j], id)
    decreases |ops|
  {
    var last := |ops| - 1;
    var before := ops[..last];
    if k < |Ballots(c, before, id)| {
      BallotsFit(c, before, id, k);
      assert before[..Ballots(c, before, id)[k]] == ops[..Ballots(c, before, id)[k]];
    }
  }

  /** No fit ballot among the first `j` operations is by the voter. */
  ghost predicate FirstBy(c: Settings, ops: seq<Op>, id: nat, j: nat, voter: Bytes)
    requires j <= |ops|
  {
    forall i | 0 <= i < j && Fit(c, ops[..i], ops[i], id) :: ops[i].voter != voter
  }

  lemma {:induction false} SameFirst(c: Settings, ops: seq<Op>, id: nat, n: nat, j: nat, voter: Bytes)
    requires j <= n <= |ops|
    ensures FirstBy(c, ops[..n], id, j, voter) <==> FirstBy(c, ops, id, j, voter)
  {
    forall i | 0 <= i < j ensures ops[..n][..i] == ops[..i] {
    }
  }

  /** An operation is among them exactly when it is fit and no earlier one of its voter is. */
  lemma {:induction false} FirstFitExactly(c: Settings, ops: seq<Op>, id: nat, j: nat)
    requires j < |ops|
    ensures j in Ballots(c, ops, id)
            <==> Fit(c, ops[..j], ops[j], id) && FirstBy(c, ops, id, j, ops[j].voter)
    decreases |ops|
  {
    var last := |ops| - 1;
    var before := ops[..last];
    if j == last {
      LastFitExactly(c, ops, id, before, ops[last]);
    } else {
      FirstFitExactly(c, before, id, j);
      assert before[..j] == ops[..j];
      if ops[j].Cast? {
        SameFirst(c, ops, id, last, j, ops[j].voter);
      }
    }
  }

  lemma {:induction false} LastFitExactly(c: Settings, ops: seq<Op>, id: nat, before: seq<Op>, op: Op)
    requires ops != [] && before == ops[..|ops| - 1] && op == ops[|ops| - 1]
    ensures |before| in Ballots(c, ops, id)
            <==> Fit(c, before, op, id) && FirstBy(c, ops, id, |before|, op.voter)
  {
    if op.Cast? {
      SameFirst(c, ops, id, |before|, |before|, op.voter);
      LastFit(c, before, id, op);
    }
  }

  lemma {:induction false} LastFit(c: Settings, before: seq<Op>, id: nat, op: Op)
    requires op.Cast?
    ensures NoneBy(before, Ballots(c, before, id), op) <==> FirstBy(c, before, id, |before|, op.voter)
  {
    var js := Ballots(c, before, id);
    forall k | 0 <= k < |js| ensures Fit(c, before[..js[k]], before[js[k]], id) {
      BallotsFit(c, before, id, k);
    }
    forall i | 0 <= i < |before| && Fit(c, before[..i], before[i], id)
      ensures exists k :: 0 <= k < |js| && before[js[k]].Cast? && before[js[k]].voter == before[i].voter
    {
      var k := BallotOf(c, before, id, i);
    }
  }
}
