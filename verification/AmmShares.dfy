/** What the double credit of liquidity shares and the saturating products do: who holds more than was
    issued, who is paid more than was deposited, and who dilutes whom. */
module AmmShares {
  import opened Bytes
  import opened Amm
  import Sums

  // ---------------------------------------------------------------- deposits

  /** A deposit is refused when a reserve is missing or a sum would not fit. */
  predicate Accepted(p: Pool, amountA: uint64, amountB: uint64) {
    && (p.totalShares != 0 ==> p.reserveA != 0 && p.reserveB != 0)
    && p.reserveA + amountA <= MAX_U64 && p.reserveB + amountB <= MAX_U64
    && p.totalShares + MintedShares(p, amountA, amountB) <= MAX_U64
  }

  lemma Deposited(p: Pool, x: uint64, y: uint64, provider: Bytes)
    ensures var (q, s) := AddLiquidity(p, x, y, provider);
            if Accepted(p, x, y) then
              && s == MintedShares(p, x, y) && q.totalShares == p.totalShares + s
              && q.reserveA == p.reserveA + x && q.reserveB == p.reserveB + y
              && q.shares == Credit(p.shares, provider, s)
            else q == p && s == 0
  {
  }

  // ---------------------------------------------------------------- credits against issued shares

  /** All shares the providers can redeem. */
  ghost function Credited(p: Pool): nat {
    Sums.Total(p.shares)
  }

  function MintedBy(p: Pool, action: Action): nat {
    match action
    case DoSwap(_, _, _) => 0
    case DoAdd(x, y, provider) => AddLiquidity(p, x, y, provider).1
    case DoRemove(_, _) => 0
  }

  /** What the wrapping first credit and the saturating second one keep from the provider. */
  function LostBy(p: Pool, action: Action): nat {
    match action
    case DoSwap(_, _, _) => 0
    case DoAdd(x, y, provider) =>
      CreditAtMostTwice(p.shares, provider, MintedBy(p, action));
      if Accepted(p, x, y) then
        SharesOf(p, provider) + 2 * MintedBy(p, action) - Credit(p.shares, provider, MintedBy(p, action))[provider]
      else 0
    case DoRemove(_, _) => 0
  }

  lemma CreditAtMostTwice(shares: map<Bytes, uint64>, provider: Bytes, n: uint64)
    ensures Credit(shares, provider, n)[provider] <= Held(shares, provider) + 2 * n
    ensures Credit(shares, provider, n)[provider] == Held(shares, provider) + 2 * n
            <==> Held(shares, provider) + 2 * n <= MAX_U64
  {
  }

  /** A redemption of more shares than were issued wraps their number. */
  function OverdrawnBy(p: Pool, action: Action): nat {
    match action
    case DoSwap(_, _, _) => 0
    case DoAdd(_, _, _) => 0
    case DoRemove(n, provider) => if 0 < p.totalShares < n <= SharesOf(p, provider) then 1 else 0
  }

  function Tally(f: (Pool, Action) -> nat, p: Pool, actions: seq<Action>): nat
    decreases |actions|
  {
    if actions == [] then 0 else f(p, actions[0]) + Tally(f, Act(p, actions[0]), actions[1..])
  }

  lemma ActCredits(p: Pool, action: Action)
    ensures var q := Act(p, action);
            Credited(q) + LostBy(p, action) + p.totalShares + TWO_64 * OverdrawnBy(p, action)
            == Credited(p) + q.totalShares + MintedBy(p, action)
  {
    match action
    case DoSwap(_, _, _) =>
    case DoAdd(x, y, provider) => AddCredits(p, x, y, provider, MintedShares(p, x, y));
    case DoRemove(n, provider) => RemoveCredits(p, n, provider);
  }

  lemma AddCredits(p: Pool, x: uint64, y: uint64, provider: Bytes, s: nat)
    requires s == MintedShares(p, x, y)
    ensures var q := AddLiquidity(p, x, y, provider).0;
            Credited(q) + LostBy(p, DoAdd(x, y, provider)) + p.totalShares
            == Credited(p) + q.totalShares + MintedBy(p, DoAdd(x, y, provider))
  {
    Deposited(p, x, y, provider);
    if Accepted(p, x, y) {
      CreditAtMostTwice(p.shares, provider, s);
      Sums.TotalUpdate(p.shares, provider, Credit(p.shares, provider, s)[provider]);
    }
  }

  lemma RemoveCredits(p: Pool, n: uint64, provider: Bytes)
    ensures var q := RemoveLiquidity(p, n, provider).0;
            Credited(q) + p.totalShares + TWO_64 * OverdrawnBy(p, DoRemove(n, provider))
            == Credited(p) + q.totalShares
  {
    if SharesOf(p, provider) < n || p.totalShares == 0 {
      Sums.TotalUpdate(p.shares, provider, SharesOf(p, provider));
    } else {
      Sums.TotalUpdate(p.shares, provider, SharesOf(p, provider) - n);
      Debited(p.totalShares, n);
    }
  }

  /** Over every run from every pool: what the providers hold, with what was lost in crediting, exceeds
      what the pool has issued by all that was minted since, because each mint is credited twice. */
  lemma {:induction false} CreditsAddUp(p: Pool, actions: seq<Action>)
    ensures var q := ActAll(p, actions);
            Credited(q) + Tally(LostBy, p, actions) + p.totalShares + TWO_64 * Tally(OverdrawnBy, p, actions)
            == Credited(p) + q.totalShares + Tally(MintedBy, p, actions)
    decreases |actions|
  {
    if actions != [] {
      ActCredits(p, actions[0]);
      CreditsAddUp(Act(p, actions[0]), actions[1..]);
    }
  }

  /** No credit wraps or saturates, and no redemption exceeds what was issued. */
  predicate Unsaturated(p: Pool, action: Action) {
    match action
    case DoSwap(_, _, _) => true
    case DoAdd(x, y, provider) => SharesOf(p, provider) + 2 * AddLiquidity(p, x, y, provider).1 <= MAX_U64
    case DoRemove(n, provider) => n <= p.totalShares
  }

  predicate UnsaturatedRun(p: Pool, actions: seq<Action>)
    decreases |actions|
  {
    actions == [] || (Unsaturated(p, actions[0]) && UnsaturatedRun(Act(p, actions[0]), actions[1..]))
  }

  /** From an empty pool the providers together hold the issued shares and, once more, every share minted. */
  lemma CreditedTwice(p: Pool, actions: seq<Action>)
    requires p.totalShares == 0 && p.shares == map[] && UnsaturatedRun(p, actions)
    ensures Credited(ActAll(p, actions)) == ActAll(p, actions).totalShares + Tally(MintedBy, p, actions)
  {
    NothingLost(p, actions);
    CreditsAddUp(p, actions);
  }

  lemma {:induction false} NothingLost(p: Pool, actions: seq<Action>)
    requires UnsaturatedRun(p, actions)
    ensures Tally(LostBy, p, actions) == 0 && Tally(OverdrawnBy, p, actions) == 0
    decreases |actions|
  {
    if actions != [] {
      NothingLost(Act(p, actions[0]), actions[1..]);
    }
  }

  // ---------------------------------------------------------------- redeeming

  /** Redeeming `n` of `total` shares takes more than `k` of a reserve; division-free while the product
      fits 64 bits. */
  predicate TakesMoreThan(k: nat, n: uint64, reserve: uint64, total: uint64)
    requires 0 < total
  {
    if n * reserve <= MAX_U64 then (k + 1) * total <= n * reserve
    else if n * (reserve / total) <= MAX_U64 then k < n * (reserve / total)
    else k < reserve
  }

  lemma PayoutExactly(k: nat, n: uint64, reserve: uint64, total: uint64)
    requires 0 < total
    ensures SafeAmount(n, reserve, total) > k <==> TakesMoreThan(k, n, reserve, total)
  {
    MulMono(0, n, 0, reserve);
    MulMono(1, k + 1, 1, total);
    if n * reserve <= MAX_U64 {
      AboveQuotient(n * reserve, total, k);
    }
  }

  lemma AboveQuotient(m: nat, d: nat, k: nat)
    requires 0 < d
    ensures m / d > k <==> (k + 1) * d <= m
  {
    FloorOnCurve(m, d);
    if m / d > k {
      MulMono(k + 1, m / d, d, d);
    } else {
      MulMono(m / d + 1, k + 1, d, d);
    }
  }

  /** Nothing wraps in a redemption exactly when no more shares are redeemed than were issued. Beyond
      that the number of shares always wraps, and each reserve as soon as rounding no longer hides it. */
  lemma RedemptionWrapsExactly(p: Pool, n: uint64, provider: Bytes)
    requires n <= SharesOf(p, provider) && 0 < p.totalShares
    ensures var (q, w) := RemoveLiquidity(p, n, provider);
            && (q.totalShares + n == p.totalShares <==> n <= p.totalShares)
            && (q.reserveA + w.0 == p.reserveA <==> !TakesMoreThan(p.reserveA, n, p.reserveA, p.totalShares))
            && (q.reserveB + w.1 == p.reserveB <==> !TakesMoreThan(p.reserveB, n, p.reserveB, p.totalShares))
            && (q.totalShares + n == p.totalShares ==> q.reserveA + w.0 == p.reserveA && q.reserveB + w.1 == p.reserveB)
  {
    PayoutExactly(p.reserveA, n, p.reserveA, p.totalShares);
    PayoutExactly(p.reserveB, n, p.reserveB, p.totalShares);
    WithdrawalBound(n, p.reserveA, p.totalShares);
    WithdrawalBound(n, p.reserveB, p.totalShares);
    Debited(p.reserveA, SafeAmount(n, p.reserveA, p.totalShares));
    Debited(p.reserveB, SafeAmount(n, p.reserveB, p.totalShares));
    Debited(p.totalShares, n);
  }

  lemma Debited(balance: uint64, amount: uint64)
    ensures Wrap(balance + TWO_64 - amount) + amount == if amount <= balance then balance else balance + TWO_64
  {
  }

  /** A first depositor holds more shares than were issued, and so can wrap them, unless the product of
      the amounts is zero or saturates. */
  lemma FirstDepositorOverdraws(p: Pool, x: uint64, y: uint64, provider: Bytes)
    requires p.totalShares == 0 && SharesOf(p, provider) == 0 && Accepted(p, x, y)
    ensures var (q, s) := AddLiquidity(p, x, y, provider);
            SharesOf(q, provider) > q.totalShares <==> 0 < s < MAX_U64
  {
    Deposited(p, x, y, provider);
  }

  // ---------------------------------------------------------------- depositing and redeeming

  /** Beside a reserve of `a` behind `t` shares, a deposit of `x` that mints `s` and is credited twice `s` is paid
      back with more than `x`: the excess credit outweighs what rounding and the other providers keep. */
  predicate Overpaid(a: nat, x: nat, t: nat, s: nat) {
    (x + 1) * t <= s * (2 * a + x - 1)
  }

  lemma TwiceMinted(a: nat, x: nat, t: nat, s: nat)
    ensures (x + 1) * (t + s) <= 2 * s * (a + x) <==> Overpaid(a, x, t, s)
  {
    assert 2 * s * (a + x) == s * (2 * a + x - 1) + s * (x + 1);
    assert (x + 1) * (t + s) == (x + 1) * t + s * (x + 1);
  }

  lemma OverpaidExactly(a: nat, x: nat, t: nat, s: nat)
    requires 2 * s <= MAX_U64 && a + x <= MAX_U64 && 0 < t + s <= MAX_U64 && 2 * s * (a + x) <= MAX_U64
    ensures SafeAmount(2 * s, a + x, t + s) > x <==> Overpaid(a, x, t, s)
  {
    PayoutExactly(x, 2 * s, a + x, t + s);
    TwiceMinted(a, x, t, s);
  }

  /** Depositing and redeeming what the deposit was credited pays more of an asset than was deposited exactly when
      that asset is overpaid, as long as neither the credit nor the product with the reserve saturates. */
  lemma RoundTripOverpaidExactly(p: Pool, x: uint64, y: uint64, provider: Bytes, s: nat)
    requires Accepted(p, x, y) && s == MintedShares(p, x, y) && 0 < p.totalShares + s
    requires SharesOf(p, provider) + 2 * s <= MAX_U64
    ensures var w := RemoveLiquidity(AddLiquidity(p, x, y, provider).0, 2 * s, provider).1;
            && (2 * s * (p.reserveA + x) <= MAX_U64 ==> (w.0 > x <==> Overpaid(p.reserveA, x, p.totalShares, s)))
            && (2 * s * (p.reserveB + y) <= MAX_U64 ==> (w.1 > y <==> Overpaid(p.reserveB, y, p.totalShares, s)))
  {
    Deposited(p, x, y, provider);
    CreditAtMostTwice(p.shares, provider, s);
    if 2 * s * (p.reserveA + x) <= MAX_U64 {
      OverpaidExactly(p.reserveA, x, p.totalShares, s);
    }
    if 2 * s * (p.reserveB + y) <= MAX_U64 {
      OverpaidExactly(p.reserveB, y, p.totalShares, s);
    }
  }

  /** Whatever saturates: what a provider gains by a deposit and redeems at once, against what was deposited. It
      is twice the minted shares as long as they fit, and the payout of each asset exceeds the deposit exactly
      when that many shares take more than it. */
  lemma RoundTripPaysMoreExactly(p: Pool, x: uint64, y: uint64, provider: Bytes)
    requires Accepted(p, x, y)
    ensures var (q, s) := AddLiquidity(p, x, y, provider);
            && (SharesOf(p, provider) + 2 * s <= MAX_U64 <==> SharesOf(q, provider) == SharesOf(p, provider) + 2 * s)
            && (SharesOf(q, provider) >= SharesOf(p, provider) && q.totalShares > 0 ==>
                  var gained := SharesOf(q, provider) - SharesOf(p, provider);
                  var w := RemoveLiquidity(q, gained, provider).1;
                  && (w.0 > x <==> TakesMoreThan(x, gained, p.reserveA + x, p.totalShares + s))
                  && (w.1 > y <==> TakesMoreThan(y, gained, p.reserveB + y, p.totalShares + s)))
  {
    var (q, s) := AddLiquidity(p, x, y, provider);
    Deposited(p, x, y, provider);
    CreditAtMostTwice(p.shares, provider, s);
    if SharesOf(q, provider) >= SharesOf(p, provider) && q.totalShares > 0 {
      var gained := SharesOf(q, provider) - SharesOf(p, provider);
      PayoutExactly(x, gained, q.reserveA, q.totalShares);
      PayoutExactly(y, gained, q.reserveB, q.totalShares);
    }
  }

  /** A deposit in the exact proportion of the reserves is paid back twice. */
  lemma ProportionalDepositPaidTwice(p: Pool, x: uint64, y: uint64, provider: Bytes)
    requires Accepted(p, x, y)
    requires var s := MintedShares(p, x, y);
             && s > 0 && x * p.totalShares == s * p.reserveA && y * p.totalShares == s * p.reserveB
             && SharesOf(p, provider) + 2 * s <= MAX_U64
             && 2 * s * (p.reserveA + x) <= MAX_U64 && 2 * s * (p.reserveB + y) <= MAX_U64
    ensures var (q, s) := AddLiquidity(p, x, y, provider);
            RemoveLiquidity(q, 2 * s, provider).1 == (2 * x, 2 * y)
  {
    var (q, s) := AddLiquidity(p, x, y, provider);
    Deposited(p, x, y, provider);
    CreditAtMostTwice(p.shares, provider, s);
    PaidTwice(p.reserveA, x, p.totalShares, s);
    PaidTwice(p.reserveB, y, p.totalShares, s);
  }

  lemma PaidTwice(reserve: nat, x: nat, t: nat, s: nat)
    requires 0 < 2 * s <= MAX_U64 && reserve + x <= MAX_U64 && t + s <= MAX_U64
    requires x * t == s * reserve && 2 * s * (reserve + x) <= MAX_U64
    ensures SafeAmount(2 * s, reserve + x, t + s) == 2 * x
  {
    MulMono(0, s, 0, reserve + x);
    assert 2 * x * (t + s) == 2 * s * (reserve + x);
    ExactQuotient(2 * s * (reserve + x), t + s, 2 * x);
  }

  lemma ExactQuotient(n: nat, d: nat, q: nat)
    requires d > 0 && n == q * d
    ensures n / d == q
  {
    FloorOnCurve(n, d);
    AboveQuotient(n, d, q);
    if q > 0 {
      AboveQuotient(n, d, q - 1);
    }
  }

  // ---------------------------------------------------------------- witnesses

  /** The first deposit of 1000 and 1000 is credited 2000000 of 1000000 shares; redeeming them pays 2000
      and 2000, and leaves the reserve 1000 short of 2^64. */
  lemma FirstDepositRedeemed(p: Pool, provider: Bytes)
    requires p.reserveA == 0 && p.reserveB == 0 && p.totalShares == 0 && p.shares == map[]
    ensures var (q, s) := AddLiquidity(p, 1000, 1000, provider);
            && s == 1_000_000 && q.totalShares == 1_000_000 && SharesOf(q, provider) == 2_000_000
            && RemoveLiquidity(q, 2_000_000, provider).1 == (2000, 2000)
            && RemoveLiquidity(q, 2_000_000, provider).0.reserveA == TWO_64 - 1000
  {
  }

  /** Beside others' 1000 and 1000, a deposit of 100 and 100 is paid back as 200 and 200. */
  lemma LaterDepositRedeemed(p: Pool, provider: Bytes)
    requires p.reserveA == 1000 && p.reserveB == 1000 && p.totalShares == 1_000_000 && SharesOf(p, provider) == 0
    ensures var (q, s) := AddLiquidity(p, 100, 100, provider);
            && s == 100_000 && SharesOf(q, provider) == 200_000
            && RemoveLiquidity(q, 200_000, provider).1 == (200, 200)
  {
  }

  // ---------------------------------------------------------------- dilution

  /** The product of `x` with the issued shares saturates, `s` shares are more than `x` covers, and what
      rounding the other amount's shares leaves in the pool does not make up for it. */
  predicate Overstated(a: nat, x: nat, b: nat, y: nat, t: nat, s: nat)
    requires b > 0
  {
    && x * t > MAX_U64
    && x * t < a * s
    && y * t % b * (t * (a + x)) < (a * s - x * t) * (b * (t + s))
  }

  /** A deposit lowers the value behind a share in exactly these cases: one amount is overstated by the
      saturation; or the pool has reserves but no shares, and any are minted. */
  lemma DepositDilutesExactly(p: Pool, x: uint64, y: uint64, provider: Bytes)
    ensures !NoLessPerShare(p, AddLiquidity(p, x, y, provider).0)
            <==> && Accepted(p, x, y)
                 && var s := MintedShares(p, x, y);
                    if p.totalShares == 0 then s > 0 && p.reserveA > 0 && p.reserveB > 0
                    else || Overstated(p.reserveA, x, p.reserveB, y, p.totalShares, s)
                         || Overstated(p.reserveB, y, p.reserveA, x, p.totalShares, s)
  {
    Deposited(p, x, y, provider);
    if Accepted(p, x, y) {
      var s := MintedShares(p, x, y);
      if p.totalShares == 0 {
        FirstDilutes(p.reserveA, p.reserveB, s, p.reserveA + x, p.reserveB + y);
      } else {
        DilutedExactly(p, x, y, provider, s);
      }
    }
  }

  lemma FirstDilutes(a: nat, b: nat, s: nat, a': nat, b': nat)
    ensures a' * b' * (0 * 0) >= a * b * (s * s) <==> !(s > 0 && a > 0 && b > 0)
  {
    if s > 0 && a > 0 && b > 0 {
      MulMono(1, a, 1, b);
      MulMono(1, s, 1, s);
      MulMono(1, a * b, 1, s * s);
    }
  }

  /** Depositing 2^32 and 1 where 2^32 shares stand against reserves of 2^48 - 1 and 1. */
  lemma SaturatedDepositDilutes(p: Pool, provider: Bytes)
    requires p.reserveA == 0xFFFF_FFFF_FFFF && p.reserveB == 1 && p.totalShares == 0x1_0000_0000
    ensures !NoLessPerShare(p, AddLiquidity(p, 0x1_0000_0000, 1, provider).0)
  {
    DepositDilutesExactly(p, 0x1_0000_0000, 1, provider);
  }

  lemma DilutedExactly(p: Pool, x: uint64, y: uint64, provider: Bytes, s: nat)
    requires Accepted(p, x, y) && p.totalShares > 0 && s == MintedShares(p, x, y)
    ensures NoLessPerShare(p, AddLiquidity(p, x, y, provider).0)
            <==> !Overstated(p.reserveA, x, p.reserveB, y, p.totalShares, s)
                 && !Overstated(p.reserveB, y, p.reserveA, x, p.totalShares, s)
  {
    var a, b, t := p.reserveA, p.reserveB, p.totalShares;
    Deposited(p, x, y, provider);
    if x * t <= MAX_U64 && y * t <= MAX_U64 {
      AddKeepsShareValue(p, x, y, provider);
    } else if y * t <= MAX_U64 {
      SharesOfOther(y * t, b);
      SaturatedDilutes(a, x, b, y, t, s);
    } else if x * t <= MAX_U64 {
      SharesOfOther(x * t, a);
      SaturatedDilutes(b, y, a, x, t, s);
      assert (a + x) * (b + y) == (b + y) * (a + x) && a * b == b * a;
    } else {
      assert false;
    }
  }

  /** The quotient of a product that fits is never above the saturated one. */
  lemma SharesOfOther(product: uint64, reserve: uint64)
    requires reserve > 0
    ensures Quotient(product, reserve) == product / reserve <= MAX_U64
  {
  }

  lemma SaturatedDilutes(a: nat, x: nat, b: nat, y: nat, t: nat, s: nat)
    requires a > 0 && b > 0 && t > 0 && s == y * t / b && x * t > MAX_U64
    ensures (a + x) * (b + y) * (t * t) >= a * b * ((t + s) * (t + s)) <==> !Overstated(a, x, b, y, t, s)
  {
    MulMono(0, y, 0, t);
    var v: nat := y * t % b;
    assert s * b + v == y * t;
    var low: nat, whole: nat := t * (a + x), b * (t + s);
    ScaledSide(b, y, t, s, v, whole);
    ScaledSide(a, x, t, s, x * t - a * s, a * (t + s));
    Paired(a + x, b + y, t, low, whole + v);
    Paired(a, b, t + s, low + (a * s - x * t), whole);
    Residual(low, whole, v, a * s - x * t);
  }

  lemma ScaledSide(b: nat, y: nat, t: nat, s: nat, v: int, whole: int)
    requires s * b + v == y * t && whole == b * (t + s)
    ensures t * (b + y) == (b + y) * t == whole + v
  {
    assert b * (t + s) == b * t + s * b;
    assert (b + y) * t == b * t + y * t;
  }

  lemma Paired(a: nat, b: nat, p: nat, low: int, high: int)
    requires low == a * p && high == b * p
    ensures a * b * (p * p) == low * high
  {
    assert a * b * (p * p) == a * (b * (p * p));
    assert b * (p * p) == p * (b * p);
    assert a * (p * (b * p)) == (a * p) * (b * p);
  }

  lemma Residual(low: nat, whole: nat, v: nat, d: int)
    ensures low * (whole + v) >= (low + d) * whole <==> !(0 < d && v * low < d * whole)
  {
    if d <= 0 {
      MulMono(0, 0 - d, 0, whole);
      MulMono(0, low, 0, v);
      assert (0 - d) * whole == 0 - d * whole;
    }
  }

  // ---------------------------------------------------------------- the value behind a share

  /** Everything but what the theorems above single out: a swap that wraps the reserve it pays into while
      the other is not empty, a deposit that dilutes or starts a new pool, and a redemption of more shares
      than were issued. */
  predicate Fair(p: Pool, action: Action) {
    match action
    case DoSwap(asset, input, minOutput) =>
      || Rejected(p, asset, input, minOutput)
      || ReserveIn(p, asset) + input <= MAX_U64
      || ReserveOut(p, asset) == 0
    case DoAdd(x, y, _) =>
      Accepted(p, x, y) ==>
        var s := MintedShares(p, x, y);
        if p.totalShares == 0 then s == 0
        else && !Overstated(p.reserveA, x, p.reserveB, y, p.totalShares, s)
             && !Overstated(p.reserveB, y, p.reserveA, x, p.totalShares, s)
    case DoRemove(n, provider) => n <= p.totalShares || SharesOf(p, provider) < n
  }

  predicate FairRun(p: Pool, actions: seq<Action>)
    decreases |actions|
  {
    actions == [] || (Fair(p, actions[0]) && FairRun(Act(p, actions[0]), actions[1..]))
  }

  lemma ActKeepsShareValue(p: Pool, action: Action)
    requires Fair(p, action)
    ensures NoLessPerShare(p, Act(p, action))
  {
    match action
    case DoSwap(asset, input, minOutput) =>
      SwapKeepsProduct(p, asset, input, minOutput);
      MulMono(Product(p), Product(Act(p, action)), p.totalShares * p.totalShares, p.totalShares * p.totalShares);
    case DoAdd(x, y, provider) => DepositDilutesExactly(p, x, y, provider);
    case DoRemove(n, provider) => RemoveKeepsShareValue(p, n, provider);
  }

  lemma NoLessTransitive(p: Pool, q: Pool, r: Pool)
    requires q.totalShares > 0 && NoLessPerShare(p, q) && NoLessPerShare(q, r)
    ensures NoLessPerShare(p, r)
  {
    MulMono(1, q.totalShares, 1, q.totalShares);
    RatioTransitive(Product(p), p.totalShares * p.totalShares, Product(q), q.totalShares * q.totalShares,
                    Product(r), r.totalShares * r.totalShares);
  }

  lemma RatioTransitive(x: nat, s: nat, y: nat, t: nat, z: nat, u: nat)
    requires t > 0 && y * s >= x * t && z * t >= y * u
    ensures z * s >= x * u
  {
    MulMono(x * t, y * s, u, u);
    MulMono(y * u, z * t, s, s);
    assert x * t * u == x * u * t && y * s * u == y * u * s && z * t * s == z * s * t;
    if z * s < x * u {
      LessTimes(z * s, x * u, t);
      assert false;
    }
  }

  lemma EmptyIsNoLess(p: Pool, q: Pool)
    requires q.totalShares == 0
    ensures NoLessPerShare(p, q)
  {
    assert Product(p) * (q.totalShares * q.totalShares) == 0;
  }

  /** Over any run of such swaps, deposits and withdrawals the value behind a share never falls. */
  lemma {:induction false} ShareValueNeverFalls(p: Pool, actions: seq<Action>)
    requires FairRun(p, actions)
    ensures NoLessPerShare(p, ActAll(p, actions))
    decreases |actions|
  {
    if actions != [] {
      var q := Act(p, actions[0]);
      ActKeepsShareValue(p, actions[0]);
      ShareValueNeverFalls(q, actions[1..]);
      if q.totalShares > 0 {
        NoLessTransitive(p, q, ActAll(q, actions[1..]));
      } else {
        EmptyPoolStaysEmpty(q, actions[1..]);
        EmptyIsNoLess(p, ActAll(q, actions[1..]));
      }
    }
  }

  lemma {:induction false} EmptyPoolStaysEmpty(p: Pool, actions: seq<Action>)
    requires FairRun(p, actions) && p.totalShares == 0
    ensures ActAll(p, actions).totalShares == 0
    decreases |actions|
  {
    if actions != [] {
      EmptyPoolStaysEmpty(Act(p, actions[0]), actions[1..]);
    }
  }
}
