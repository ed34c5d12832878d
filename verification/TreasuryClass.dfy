/** The treasury object, with its loops over periods, milestones and guardians. */
module TreasuryClass {
  import opened Bytes
  import opened TreasuryModel

  class Treasury {
    var balances: map<Track, nat>
    var guardians: seq<Bytes>
    var spends: map<nat, MultiSigSpend>
    var periods: seq<Period>
    var grants: map<nat, Grant>
    var log: seq<Record>
    var nextSpend: nat
    var nextGrant: nat
    var required: nat
    var reserveBps: nat

    ghost function View(): TreasuryModel.Treasury
      reads this
    {
      TreasuryModel.Treasury(balances, guardians, spends, periods, grants, log, nextSpend, nextGrant, required, reserveBps)
    }

    constructor (required: nat, reserveBps: nat)
      ensures View() == New(required, reserveBps)
    {
      this.required, this.reserveBps := required, reserveBps;
      balances, guardians, spends, periods, grants, log := NO_BALANCE, [], map[], [], map[], [];
      nextSpend, nextGrant := 1, 1;
    }

    method RecordTx(isDeposit: bool, amount: nat, track: Track, proposal: nat, grant: nat, height: nat)
      modifies `log
      ensures View() == Logged(old(View()), Record(isDeposit, amount, track, proposal, grant, height))
    {
      log := log + [Record(isDeposit, amount, track, proposal, grant, height)];
    }

    method AddGuardian(g: Bytes) returns (ok: bool)
      modifies `guardians
      ensures (View(), ok) == TreasuryModel.AddGuardian(old(View()), g)
    {
      if g == [] {
        return false;
      }
      if g in guardians {
        return false;
      }
      guardians := guardians + [g];
      return true;
    }

    method RemoveGuardian(g: Bytes) returns (ok: bool)
      modifies `guardians
      ensures (View(), ok) == TreasuryModel.RemoveGuardian(old(View()), g)
    {
      var found, i := FindGuardian(g);
      if !found {
        return false;
      }
      FirstWithout(guardians, g, i);
      guardians := guardians[..i] + guardians[i + 1..];
      return true;
    }

    method FindGuardian(g: Bytes) returns (found: bool, i: nat)
      ensures found <==> g in guardians
      ensures found ==> i < |guardians| && guardians[i] == g && g !in guardians[..i]
    {
      i := 0;
      while i < |guardians| && guardians[i] != g
        invariant i <= |guardians| && g !in guardians[..i]
      {
        i := i + 1;
      }
      found := i < |guardians|;
      assert guardians[..|guardians|] == guardians;
    }

    method Deposit(amount: nat, track: Track, height: nat) returns (ok: bool)
      modifies this
      ensures (View(), ok) == TreasuryModel.Deposit(old(View()), amount, track, height)
    {
      if amount == 0 {
        return false;
      }
      balances := Moved(balances, track, amount);
      RecordTx(true, amount, track, 0, 0, height);
      return true;
    }

    method ViolatesReserve(debit: nat) returns (violated: bool)
      ensures violated == TreasuryModel.ViolatesReserve(View(), debit)
    {
      if reserveBps == 0 {
        return false;
      }
      var total := GetTotalBalance();
      if total <= debit {
        return true;
      }
      var after := total - debit;
      var emergency := BalanceIn(balances, Emergency);
      return U64(emergency * 10000) < U64(after * reserveBps);
    }

    method GetTotalBalance() returns (total: nat)
      ensures total == TotalBalance(View())
    {
      var tracks := [CoreDevelopment, Grants, Operations, Emergency, Uncategorized];
      total := 0;
      for i := 0 to |tracks|
        invariant total == U64(FirstTracks(balances, i))
      {
        OneMoreTrack(balances, tracks, i);
        total := U64(total + BalanceIn(balances, tracks[i]));
      }
    }

    lemma OneMoreTrack(b: map<Track, nat>, tracks: seq<Track>, i: nat)
      requires tracks == [CoreDevelopment, Grants, Operations, Emergency, Uncategorized] && i < |tracks|
      ensures U64(FirstTracks(b, i + 1)) == U64(U64(FirstTracks(b, i)) + BalanceIn(b, tracks[i]))
    {
      assert FirstTracks(b, i + 1) == FirstTracks(b, i) + BalanceIn(b, tracks[i]);
    }

    ghost function FirstTracks(b: map<Track, nat>, i: nat): nat {
      (if i > 0 then BalanceIn(b, CoreDevelopment) else 0) + (if i > 1 then BalanceIn(b, Grants) else 0)
      + (if i > 2 then BalanceIn(b, Operations) else 0) + (if i > 3 then BalanceIn(b, Emergency) else 0)
      + (if i > 4 then BalanceIn(b, Uncategorized) else 0)
    }

    method FindActive(height: nat) returns (i: nat)
      ensures i == FirstActive(periods, height)
    {
      i := 0;
      assert periods[0..] == periods;
      while i < |periods| && !(periods[i].start <= height <= periods[i].end)
        invariant i <= |periods| && FirstActive(periods, height) == i + FirstActive(periods[i..], height)
      {
        assert periods[i..][1..] == periods[i + 1..];
        i := i + 1;
      }
    }

    method IsWithinBudget(track: Track, amount: nat, height: nat) returns (ok: bool)
      ensures ok == WithinBudget(View(), track, amount, height)
    {
      var i := FindActive(height);
      if i == |periods| || Limit(periods[i], track) == 0 {
        return true;
      }
      return U64(Spent(periods[i], track) + amount) <= Limit(periods[i], track);
    }

    method Spend(amount: nat, proposal: nat, track: Track, height: nat) returns (ok: bool)
      modifies this
      ensures (View(), ok) == TreasuryModel.Spend(old(View()), amount, proposal, track, height)
    {
      if proposal == 0 || amount == 0 || track == Emergency {
        return false;
      }
      if amount > BalanceIn(balances, track) {
        return false;
      }
      ok := IsWithinBudget(track, amount, height);
      if !ok {
        return;
      }
      var violated := ViolatesReserve(amount);
      if violated {
        return false;
      }
      balances := Moved(balances, track, 0 - amount);
      var i := FindActive(height);
      if i < |periods| {
        var p := periods[i];
        periods := periods[i := p.(spent := p.spent[track := U64(Spent(p, track) + amount)])];
      }
      RecordTx(false, amount, track, proposal, 0, height);
      return true;
    }

    method CreateBudgetPeriod(start: nat, end: nat, limits: map<Track, nat>, proposal: nat) returns (ok: bool)
      modifies `periods
      ensures (View(), ok) == TreasuryModel.CreateBudgetPeriod(old(View()), start, end, limits, proposal)
    {
      if proposal == 0 || end <= start {
        return false;
      }
      periods := periods + [Period(start, end, limits, map[])];
      return true;
    }

    method ProposeMultiSigSpend(amount: nat, recipient: Bytes, initiator: Bytes) returns (id: nat)
      modifies `spends, `nextSpend
      ensures (View(), id) == Propose(old(View()), amount, recipient, initiator)
    {
      if amount == 0 || recipient == [] || initiator !in guardians {
        return 0;
      }
      id := nextSpend;
      nextSpend := nextSpend + 1;
      spends := spends[id := MultiSigSpend(amount, recipient, false, {initiator})];
    }

    method SignMultiSigSpend(id: nat, guardian: Bytes) returns (ok: bool)
      modifies `spends
      ensures (View(), ok) == Sign(old(View()), id, guardian)
    {
      if guardian !in guardians || id !in spends || spends[id].executed {
        return false;
      }
      var s := spends[id];
      spends := spends[id := s.(signers := s.signers + {guardian})];
      return true;
    }

    method ExecuteMultiSigSpend(id: nat, height: nat) returns (ok: bool)
      modifies this
      ensures (View(), ok) == Execute(old(View()), id, height)
    {
      if id !in spends || spends[id].executed || |spends[id].signers| < required {
        return false;
      }
      var s := spends[id];
      if s.amount > BalanceIn(balances, Emergency) {
        return false;
      }
      balances := Moved(balances, Emergency, 0 - s.amount);
      spends := spends[id := s.(executed := true)];
      RecordTx(false, s.amount, Emergency, 0, 0, height);
      return true;
    }

    method CreateGrant(proposal: nat, recipient: Bytes, amounts: seq<nat>) returns (id: nat)
      modifies this
      ensures (View(), id) == TreasuryModel.CreateGrant(old(View()), proposal, recipient, amounts)
    {
      if proposal == 0 || recipient == [] || amounts == [] {
        return 0;
      }
      var total, milestones := AddUp(amounts);
      if total == 0 || total > BalanceIn(balances, Grants) {
        return 0;
      }
      id := nextGrant;
      nextGrant := nextGrant + 1;
      balances := Moved(balances, Grants, 0 - total);
      grants := grants[id := Grant(recipient, total, 0, false, milestones)];
    }

    method AddUp(amounts: seq<nat>) returns (total: nat, milestones: seq<Milestone>)
      ensures total == U64(SumOf(amounts)) && milestones == Milestones(amounts)
    {
      total, milestones := 0, [];
      for i := 0 to |amounts|
        invariant total == U64(SumOf(amounts[..i])) && milestones == Milestones(amounts[..i])
      {
        assert amounts[..i + 1][..i] == amounts[..i];
        total := U64(total + amounts[i]);
        milestones := milestones + [Milestone(amounts[i], false)];
      }
      assert amounts[..|amounts|] == amounts;
    }

    method ReleaseMilestone(id: nat, index: nat, proposal: nat, height: nat) returns (ok: bool)
      modifies this
      ensures (View(), ok) == TreasuryModel.ReleaseMilestone(old(View()), id, index, proposal, height)
    {
      if proposal == 0 || id !in grants {
        return false;
      }
      var g := grants[id];
      if g.revoked || index >= |g.milestones| || g.milestones[index].released {
        return false;
      }
      var m := g.milestones[index];
      g := g.(milestones := g.milestones[index := m.(released := true)], released := U64(g.released + m.amount));
      grants := grants[id := g];
      RecordTx(false, m.amount, Grants, proposal, id, height);
      return true;
    }

    method RevokeGrant(id: nat, proposal: nat, height: nat) returns (ok: bool)
      modifies this
      ensures (View(), ok) == TreasuryModel.RevokeGrant(old(View()), id, proposal, height)
    {
      if proposal == 0 || id !in grants {
        return false;
      }
      var g := grants[id];
      if g.revoked {
        return false;
      }
      var refund := Refund(g.milestones);
      balances := Moved(balances, Grants, refund);
      grants := grants[id := g.(revoked := true)];
      RecordTx(true, refund, Grants, proposal, id, height);
      return true;
    }

    method Refund(milestones: seq<Milestone>) returns (refund: nat)
      ensures refund == U64(Unreleased(milestones))
    {
      refund := 0;
      for i := 0 to |milestones|
        invariant refund == U64(Unreleased(milestones[..i]))
      {
        assert milestones[..i + 1][..i] == milestones[..i];
        if !milestones[i].released {
          refund := U64(refund + milestones[i].amount);
        }
      }
      assert milestones[..|milestones|] == milestones;
    }
  }

  /** Removing a guardian cuts its first listing out. */
  lemma {:induction false} FirstWithout(s: seq<Bytes>, g: Bytes, i: nat)
    requires i < |s| && s[i] == g && g !in s[..i]
    ensures Without(s, g) == s[..i] + s[i + 1..]
    decreases |s|
  {
    if i > 0 {
      assert s[0] == s[..i][0] && s[1..][..i - 1] == s[..i][1..];
      FirstWithout(s[1..], g, i - 1);
      assert s[1..][i..] == s[i + 1..];
      assert s[..i] + s[i + 1..] == [s[0]] + (s[1..][..i - 1] + s[1..][i..]);
    }
  }
}
