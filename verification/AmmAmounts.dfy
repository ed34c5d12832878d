/** What the pool operations come to, as the largest amounts that the reserves allow. */
module AmmAmounts {
  import opened Bytes
  import opened Amm

  // ---------------------------------------------------------------- swaps

  /** A swap that would pay less than the minimum changes nothing; any other pays the output, which is at least that,
      from one reserve, takes the input into the other, and leaves the shares alone. */
  lemma SwapMeetsMinimum(p: Pool, inputAsset: nat, input: uint64, minOutput: uint64)
    ensures var (q, y) := Swap(p, inputAsset, input, minOutput);
            var output := GetOutputAmount(input, ReserveIn(p, inputAsset), ReserveOut(p, inputAsset), p.feeRate);
            && (output < minOutput ==> q == p && y == 0)
            && (minOutput <= output ==>
                  && y == output >= minOutput
                  && ReserveIn(q, inputAsset) == (ReserveIn(p, inputAsset) + input) % TWO_64
                  && ReserveOut(q, inputAsset) == ReserveOut(p, inputAsset) - y
                  && q.shares == p.shares && q.totalShares == p.totalShares)
  {
  }

  // ---------------------------------------------------------------- deposits

  /** Minting `s` shares for the amount is no more than proportional; a product past 64 bits sets no bound. */
  predicate Allows(amount: nat, reserve: nat, total: nat, s: nat) {
    amount * total <= MAX_U64 ==> s * reserve <= amount * total
  }

  lemma ProportionalIsLargest(amount: uint64, reserve: uint64, total: uint64, s: uint64)
    requires reserve > 0
    ensures Allows(amount, reserve, total, s) <==> s <= ProportionalShares(amount, reserve, total)
  {
    if amount * total <= MAX_U64 {
      Floor(amount * total, reserve, s);
    }
  }

  lemma Floor(n: nat, d: nat, s: nat)
    requires d > 0
    ensures s * d <= n <==> s <= n / d
  {
    FloorOnCurve(n, d);
    if s <= n / d {
      MulMono(s, n / d, d, d);
    } else {
      MulMono(n / d + 1, s, d, d);
    }
  }

  /** Where shares are issued against both reserves, a deposit mints the largest 64-bit number of them that is no more
      than proportional to either amount; as far as the products fit, that is the largest `s` with `s * reserve` at
      most `amount * total` for both assets. */
  lemma MintedIsLargest(p: Pool, x: uint64, y: uint64, s: uint64)
    requires p.totalShares > 0 && p.reserveA > 0 && p.reserveB > 0
    ensures Allows(x, p.reserveA, p.totalShares, s) && Allows(y, p.reserveB, p.totalShares, s)
            <==> s <= MintedShares(p, x, y)
  {
    ProportionalIsLargest(x, p.reserveA, p.totalShares, s);
    ProportionalIsLargest(y, p.reserveB, p.totalShares, s);
  }

  /** With no shares issued, a deposit mints the product of its amounts, or all that 64 bits hold. */
  lemma FirstMinted(p: Pool, x: uint64, y: uint64, s: uint64)
    requires p.totalShares == 0
    ensures s <= x * y <==> s <= MintedShares(p, x, y)
  {
  }

  // ---------------------------------------------------------------- withdrawals

  /** While the product fits, a withdrawal takes the largest amount that is no more than the redeemed part of the
      reserve. */
  lemma WithdrawnIsLargest(n: uint64, reserve: uint64, total: uint64, amount: nat)
    requires total > 0 && n * reserve <= MAX_U64
    ensures amount * total <= n * reserve <==> amount <= SafeAmount(n, reserve, total)
  {
    Floor(n * reserve, total, amount);
    if n == 0 || reserve == 0 {
      assert n * reserve == 0;
    }
  }

  /** Beyond that it is as many times the largest whole part of the reserve a single share stands for, or the whole
      reserve where that does not fit. */
  lemma WithdrawnPerShare(n: uint64, reserve: uint64, total: uint64, part: nat)
    requires total > 0 && n * reserve > MAX_U64
    requires part * total <= reserve < (part + 1) * total
    ensures SafeAmount(n, reserve, total) == if n * part > MAX_U64 then reserve else n * part
  {
    Floor(reserve, total, part);
    Floor(reserve, total, part + 1);
  }

  lemma Borrowed(x: uint64, y: uint64)
    ensures Wrap(x + TWO_64 - y) == (x - y) % TWO_64
  {
  }

  /** A redemption of no more than the provider holds takes the two amounts out of the reserves and the shares off what
      is held and issued, in 64-bit arithmetic. */
  lemma Redeemed(p: Pool, n: uint64, provider: Bytes, a: uint64, b: uint64)
    requires n <= SharesOf(p, provider) && p.totalShares > 0
    requires a == SafeAmount(n, p.reserveA, p.totalShares) && b == SafeAmount(n, p.reserveB, p.totalShares)
    ensures var (q, w) := RemoveLiquidity(p, n, provider);
            && w == (a, b)
            && q.reserveA == (p.reserveA - a) % TWO_64 && q.reserveB == (p.reserveB - b) % TWO_64
            && q.totalShares == (p.totalShares - n) % TWO_64
            && SharesOf(q, provider) == SharesOf(p, provider) - n
            && forall other | other != provider :: SharesOf(q, other) == SharesOf(p, other)
  {
    Borrowed(p.reserveA, a);
    Borrowed(p.reserveB, b);
    Borrowed(p.totalShares, n);
  }

  /** Any other pays nothing and takes nothing. */
  lemma NotRedeemed(p: Pool, n: uint64, provider: Bytes)
    requires n > SharesOf(p, provider) || p.totalShares == 0
    ensures var (q, w) := RemoveLiquidity(p, n, provider);
            && w == (0, 0) && q.reserveA == p.reserveA && q.reserveB == p.reserveB && q.totalShares == p.totalShares
            && forall other :: SharesOf(q, other) == SharesOf(p, other)
  {
  }
}
