/** Who stands behind an executed multi-signature spend. */
module TreasurySigners {
  import opened Bytes
  import opened TreasuryModel

  /** The guardians whose last change in the run is a removal: adding one again brings it back. */
  function Gone(ops: seq<Op>): set<Bytes> {
    if ops == [] then {} else GoneAfter(Gone(ops[..|ops| - 1]), ops[|ops| - 1])
  }

  function GoneAfter(gone: set<Bytes>, op: Op): set<Bytes> {
    if op.DoRemoveGuardian? then gone + {op.guardian}
    else if op.DoAddGuardian? then gone - {op.guardian}
    else gone
  }

  function CurrentSigners(t: Treasury, id: nat): set<Bytes>
    requires id in t.spends
  {
    set g | g in t.spends[id].signers && g in t.guardians
  }

  predicate Distinct(s: seq<Bytes>) {
    forall i, j | 0 <= i < j < |s| :: s[i] != s[j]
  }

  /** No guardian is listed twice, empty or gone. */
  ghost predicate GuardiansHere(guardians: seq<Bytes>, gone: set<Bytes>) {
    Distinct(guardians) && [] !in guardians && forall g | g in guardians :: g !in gone
  }

  /** Whoever signed is a guardian or gone. */
  ghost predicate Accounted(signers: set<Bytes>, guardians: seq<Bytes>, gone: set<Bytes>) {
    [] !in signers && forall g | g in signers :: g in guardians || g in gone
  }

  ghost predicate SignersAccounted(t: Treasury, gone: set<Bytes>) {
    && GuardiansHere(t.guardians, gone)
    && forall id | id in t.spends :: Accounted(t.spends[id].signers, t.guardians, gone)
  }

  lemma {:induction false} WithoutExactly(s: seq<Bytes>, g: Bytes)
    requires Distinct(s)
    ensures Distinct(Without(s, g)) && forall x :: x in Without(s, g) <==> x in s && x != g
    decreases |s|
  {
    if s != [] {
      var rest := s[1..];
      assert forall i | 0 <= i < |rest| :: rest[i] == s[i + 1];
      WithoutExactly(rest, g);
      assert s == [s[0]] + rest && s[0] !in rest;
      InFront(s[0], Without(rest, g));
    }
  }

  lemma {:induction false} InFront(x: Bytes, s: seq<Bytes>)
    requires Distinct(s) && x !in s
    ensures Distinct([x] + s) && forall y :: y in [x] + s <==> y == x || y in s
  {
    var all := [x] + s;
    assert forall i | 0 < i < |all| :: all[i] == s[i - 1];
  }

  lemma {:induction false} RemovalAccounted(t: Treasury, g: Bytes, gone: set<Bytes>)
    requires SignersAccounted(t, gone)
    ensures SignersAccounted(RemoveGuardian(t, g).0, gone + {g})
  {
    WithoutExactly(t.guardians, g);
  }

  lemma AdditionAccounted(t: Treasury, g: Bytes, gone: set<Bytes>)
    requires SignersAccounted(t, gone)
    ensures SignersAccounted(AddGuardian(t, g).0, gone - {g})
  {
    var after := AddGuardian(t, g).0;
    assert forall x | x in t.guardians :: x in after.guardians;
    assert g == [] || g in after.guardians;
  }

  lemma StepAccounted(t: Treasury, op: Op, gone: set<Bytes>)
    requires SignersAccounted(t, gone)
    ensures SignersAccounted(Apply(t, op), GoneAfter(gone, op))
  {
    match op
    case DoRemoveGuardian(g) => RemovalAccounted(t, g, gone);
    case DoAddGuardian(g) => AdditionAccounted(t, g, gone);
    case DoPropose(_, _, _) =>
    case DoSign(_, _) =>
    case DoExecute(_, _) =>
    case _ =>
  }

  lemma {:induction false} RunAccounted(required: nat, reserveBps: nat, ops: seq<Op>)
    ensures SignersAccounted(Run(New(required, reserveBps), ops), Gone(ops))
    decreases |ops|
  {
    if ops != [] {
      RunAccounted(required, reserveBps, ops[..|ops| - 1]);
      StepAccounted(Run(New(required, reserveBps), ops[..|ops| - 1]), ops[|ops| - 1], Gone(ops[..|ops| - 1]));
    }
  }

  /** In every run: the signers behind a spend about to be executed who are guardians still are those who are
      not gone, so that they are as many as required if and only if the signers exceed the requirement by at
      least the number of those who are. */
  lemma ExecutedByGuardiansExactly(required: nat, reserveBps: nat, ops: seq<Op>, id: nat, height: nat)
    requires Execute(Run(New(required, reserveBps), ops), id, height).1
    ensures var t := Run(New(required, reserveBps), ops);
            var signers, current := t.spends[id].signers, CurrentSigners(t, id);
            && current == signers - Gone(ops)
            && (|current| >= t.required <==> |signers * Gone(ops)| <= |signers| - t.required)
  {
    RunAccounted(required, reserveBps, ops);
    var t := Run(New(required, reserveBps), ops);
    var signers := t.spends[id].signers;
    assert Accounted(signers, t.guardians, Gone(ops));
    assert signers == (signers - Gone(ops)) + (signers * Gone(ops));
  }

  /** A guardian proposes, is removed, and the spend is executed with nobody left to stand behind it. */
  lemma RemovedGuardianCounts(t: Treasury, g: Bytes, recipient: Bytes, height: nat)
    requires t.guardians == [g] && t.required <= 1 && recipient != [] && Balance(t, Emergency) >= 1
    ensures var proposed := Apply(t, DoPropose(1, recipient, g));
            var gone := Apply(proposed, DoRemoveGuardian(g));
            && gone.guardians == [] && CurrentSigners(gone, t.nextSpend) == {}
            && Execute(gone, t.nextSpend, height).1
  {
    var gone := Apply(Apply(t, DoPropose(1, recipient, g)), DoRemoveGuardian(g));
    assert gone.guardians == [];
    assert |{g}| == 1 && gone.spends[t.nextSpend].signers == {g};
  }
}
