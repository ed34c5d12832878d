/** What the reserve rule of the treasury guarantees, and when its 64-bit products let a spend through. */
module TreasuryReserve {
  import opened Arithmetic
  import opened Bytes
  import opened TreasuryModel

  /** The emergency track holds at least its share, in ten-thousandths, of all there is. */
  predicate ReserveMet(t: Treasury) {
    Balance(t, Emergency) * 10000 >= TotalBalance(t) * t.reserveBps
  }

  /** Neither side of the comparison is cut off at 64 bits. */
  predicate ProductsFit(t: Treasury) {
    Balance(t, Emergency) * 10000 <= MAX_U64 && TotalBalance(t) * t.reserveBps <= MAX_U64
  }

  /** Every check of a spend but that of the reserve. */
  predicate OtherwiseAllowed(t: Treasury, amount: nat, proposal: nat, track: Track, height: nat) {
    proposal != 0 && amount != 0 && track != Emergency && amount <= Balance(t, track)
    && WithinBudget(t, track, amount, height)
  }

  /** A debit from another track takes as much off the 64-bit total, unless it is more than that. */
  lemma TotalAfter(t: Treasury, track: Track, amount: nat)
    requires track != Emergency && amount <= TotalBalance(t)
    ensures var s := Credit(t, track, 0 - amount);
            TotalBalance(s) == TotalBalance(t) - amount && Balance(s, Emergency) == Balance(t, Emergency)
  {
    var rest, balance := OneTrack(t.balances, track, amount);
    Congruent(rest, balance - amount);
    Reduced(AllTracks(t.balances), amount);
  }

  lemma OneTrack(b: map<Track, nat>, track: Track, amount: nat) returns (rest: nat, balance: nat)
    ensures balance == BalanceIn(b, track) && rest + balance == AllTracks(b)
    ensures AllTracks(Moved(b, track, 0 - amount)) == rest + U64(balance - amount)
  {
    balance := BalanceIn(b, track);
    rest := AllTracks(b) - balance;
    OtherTracks(b, track, balance - amount);
  }

  lemma OtherTracks(b: map<Track, nat>, track: Track, left: int)
    ensures AllTracks(b[track := U64(left)]) + BalanceIn(b, track) == AllTracks(b) + U64(left)
  {
    match track
    case CoreDevelopment =>
    case Grants =>
    case Operations =>
    case Emergency =>
    case Uncategorized =>
  }

  lemma Congruent(a: nat, b: int)
    ensures U64(a + U64(b)) == U64(a + b)
  {
  }

  lemma Reduced(a: nat, b: nat)
    requires b <= U64(a)
    ensures U64(a - b) == U64(a) - b
  {
  }

  /** An accepted spend leaves the emergency track its share of what remains, while both products fit. */
  lemma SpendLeavesReserve(t: Treasury, amount: nat, proposal: nat, track: Track, height: nat)
    requires Spend(t, amount, proposal, track, height).1
    ensures var s := Spend(t, amount, proposal, track, height).0;
            ProductsFit(s) ==> ReserveMet(s)
  {
    if t.reserveBps != 0 {
      TotalAfter(t, track, amount);
    }
  }

  /** The comparison of two numbers cut off at 64 bits: the difference counts for less by 2^64 for every wrap. */
  lemma CutOff(e: nat, r: nat)
    ensures U64(e) >= U64(r) <==> e - r >= TWO_64 * (e / TWO_64 - r / TWO_64)
  {
  }

  // ---------------------------------------------------------------- budgets

  predicate Covers(p: Period, height: nat) {
    p.start <= height <= p.end
  }

  predicate FirstCovering(periods: seq<Period>, i: nat, height: nat) {
    && i < |periods| && Covers(periods[i], height)
    && forall k | 0 <= k < i :: !Covers(periods[k], height)
  }

  /** The period sets no limit on the track, or what was spent and the amount keep to it, in 64-bit arithmetic. */
  predicate LeavesRoom(p: Period, track: Track, amount: nat) {
    track !in p.limits || p.limits[track] == 0
    || ((if track in p.spent then p.spent[track] else 0) + amount) % TWO_64 <= p.limits[track]
  }

  lemma {:induction false} ActiveIsFirst(periods: seq<Period>, height: nat)
    ensures var i := FirstActive(periods, height);
            (forall k | 0 <= k < i :: !Covers(periods[k], height)) && (i < |periods| ==> Covers(periods[i], height))
  {
    if periods != [] && !Covers(periods[0], height) {
      ActiveIsFirst(periods[1..], height);
      forall k | 0 < k < FirstActive(periods, height) ensures !Covers(periods[k], height) {
        assert periods[1..][k - 1] == periods[k];
      }
    }
  }

  lemma OnlyFirst(periods: seq<Period>, i: nat, j: nat, height: nat)
    requires FirstCovering(periods, j, height) && i <= |periods|
    requires (forall k | 0 <= k < i :: !Covers(periods[k], height)) && (i < |periods| ==> Covers(periods[i], height))
    ensures i == j
  {
  }

  /** Only the first period that covers the height counts. */
  lemma {:induction false} BudgetExactly(t: Treasury, track: Track, amount: nat, height: nat)
    ensures WithinBudget(t, track, amount, height)
            <==> forall i: nat | FirstCovering(t.periods, i, height) :: LeavesRoom(t.periods[i], track, amount)
  {
    ActiveIsFirst(t.periods, height);
    var i := FirstActive(t.periods, height);
    forall j: nat | FirstCovering(t.periods, j, height) ensures j == i {
      OnlyFirst(t.periods, i, j, height);
    }
    if i < |t.periods| {
      assert FirstCovering(t.periods, i, height);
    }
  }

  /** For all treasuries and spends: the spend goes through if and only if it is for some proposal, of some money, from
      another track than the emergency one, which holds it; the first budget period that covers its height leaves
      room for it; and no reserve is asked for, or something remains and the emergency track's product exceeds that
      of what remains by at least 2^64 for each time it wraps more often. */
  lemma ReserveRuleExactly(t: Treasury, amount: nat, proposal: nat, track: Track, height: nat)
    ensures Spend(t, amount, proposal, track, height).1
            <==> && proposal > 0 && amount > 0 && track != Emergency && amount <= Balance(t, track)
                 && (forall i: nat | FirstCovering(t.periods, i, height) :: LeavesRoom(t.periods[i], track, amount))
                 && (t.reserveBps == 0 || (amount < TotalBalance(t) && ReserveLeft(t, amount)))
  {
    BudgetExactly(t, track, amount, height);
    if t.reserveBps != 0 && amount < TotalBalance(t) {
      ReserveLeftExactly(t, amount);
    }
  }

  /** The emergency product against the one asked for, in 64-bit arithmetic. */
  predicate ReserveLeft(t: Treasury, amount: nat)
    requires amount < TotalBalance(t)
  {
    var held, asked: int := Balance(t, Emergency) * 10000, (TotalBalance(t) - amount) * t.reserveBps;
    held - asked >= TWO_64 * (held / TWO_64 - asked / TWO_64)
  }

  lemma ReserveLeftExactly(t: Treasury, amount: nat)
    requires t.reserveBps != 0 && amount < TotalBalance(t)
    ensures ViolatesReserve(t, amount) <==> !ReserveLeft(t, amount)
  {
    NonNegative(TotalBalance(t) - amount, t.reserveBps);
    CutOff(Balance(t, Emergency) * 10000, (TotalBalance(t) - amount) * t.reserveBps);
  }

  /** With 2048 ten-thousandths asked for, a spend that leaves 2^53 and nothing in the emergency track goes
      through: the product is 2^64. */
  lemma NoReserveLeft(t: Treasury, amount: nat, proposal: nat, track: Track, height: nat)
    requires OtherwiseAllowed(t, amount, proposal, track, height)
    requires t.reserveBps == 2048 && Balance(t, Emergency) == 0 && TotalBalance(t) == amount + 0x20_0000_0000_0000
    ensures Spend(t, amount, proposal, track, height).1
    ensures !ReserveMet(Spend(t, amount, proposal, track, height).0)
  {
    TotalAfter(t, track, amount);
  }
}
