/** Constant-product pools in 64-bit arithmetic. */
module Amm {
  import opened Bytes

  const BASIS: nat := 10000

  function SafeMul(a: uint64, b: uint64): Option<uint64> {
    if a * b <= MAX_U64 then Some(a * b) else None
  }

  function SafeAdd(a: uint64, b: uint64): Option<uint64> {
    if a + b <= MAX_U64 then Some(a + b) else None
  }

  function GetOutputAmount(input: uint64, inputReserve: uint64, outputReserve: uint64, feeRate: uint64): uint64 {
    if feeRate >= BASIS || inputReserve == 0 || outputReserve == 0 then 0
    else
      match SafeMul(input, BASIS - feeRate)
      case None => 0
      case Some(inputWithFee) =>
        match SafeMul(inputWithFee, outputReserve)
        case None => 0
        case Some(numerator) =>
          match SafeMul(inputReserve, BASIS)
          case None => 0
          case Some(scaled) =>
            match SafeAdd(scaled, inputWithFee)
            case None => 0
            case Some(denominator) => Quotient(numerator, denominator)
  }

  function Quotient(a: uint64, b: uint64): uint64 {
    if b == 0 then 0 else QuotientFits(a, b); a / b
  }

  lemma QuotientFits(a: nat, b: nat)
    requires b > 0
    ensures a / b <= a
  {
    MulMono(1, b, a / b, a / b);
  }

  // ---------------------------------------------------------------- nonlinear arithmetic

  /** The overflow guard of the source, `b > max / a`, is that the product exceeds the maximum. */
  lemma GuardIsProduct(a: nat, b: nat, max: nat)
    requires a > 0
    ensures b > max / a <==> a * b > max
  {
    FloorOnCurve(max, a);
    if b > max / a {
      MulMono(max / a + 1, b, a, a);
    } else {
      MulMono(b, max / a, a, a);
    }
  }

  lemma MulMono(a: int, b: int, c: int, d: int)
    requires 0 <= a <= b && 0 <= c <= d
    ensures a * c <= b * d
  {
  }

  // ---------------------------------------------------------------- the output of a swap

  /** Every step of GetOutputAmount stays within 64 bits. */
  predicate NoOverflow(input: nat, inputReserve: nat, outputReserve: nat, feeRate: nat)
    requires feeRate < BASIS
  {
    var inputWithFee := input * (BASIS - feeRate);
    && inputWithFee <= MAX_U64
    && inputWithFee * outputReserve <= MAX_U64
    && inputReserve * BASIS + inputWithFee <= MAX_U64
  }

  /** The constant-product bound: an output `y` for input `x` at fee multiplier `f`. */
  predicate WithinCurve(x: nat, y: nat, a: nat, b: nat, f: nat) {
    y * (a * BASIS + x * f) <= x * f * b
  }

  lemma OutputValue(x: uint64, a: uint64, b: uint64, feeRate: uint64)
    requires feeRate < BASIS && a > 0 && b > 0
    ensures a * BASIS + x * (BASIS - feeRate) > 0
    ensures GetOutputAmount(x, a, b, feeRate)
            == if NoOverflow(x, a, b, feeRate) then
                 x * (BASIS - feeRate) * b / (a * BASIS + x * (BASIS - feeRate))
               else 0
  {
    MulMono(x, x, 0, BASIS - feeRate);
  }

  lemma FloorOnCurve(n: nat, d: nat)
    requires d > 0
    ensures n / d * d <= n && !((n / d + 1) * d <= n)
  {
  }

  /** Whatever the arithmetic does, the output never exceeds the constant-product curve; without
      overflow it is the largest amount that does not. */
  lemma OutputOnCurve(x: uint64, a: uint64, b: uint64, feeRate: uint64)
    requires feeRate < BASIS
    ensures WithinCurve(x, GetOutputAmount(x, a, b, feeRate), a, b, BASIS - feeRate)
    ensures a > 0 && b > 0 && NoOverflow(x, a, b, feeRate) ==>
              !WithinCurve(x, GetOutputAmount(x, a, b, feeRate) + 1, a, b, BASIS - feeRate)
    ensures GetOutputAmount(x, a, b, feeRate) > 0 ==> a > 0 && NoOverflow(x, a, b, feeRate)
  {
    var f := BASIS - feeRate;
    if a > 0 && b > 0 {
      OutputValue(x, a, b, feeRate);
      FloorOnCurve(x * f * b, a * BASIS + x * f);
    }
    ZeroOnCurve(x, a, b, f);
  }

  lemma ZeroOnCurve(x: nat, a: nat, b: nat, f: nat)
    ensures WithinCurve(x, 0, a, b, f)
  {
    assert x * f * b >= 0;
  }

  /** A positive output is less than the reserve it is paid from, and the input reserve it is added
      to cannot wrap. */
  lemma OutputBelowReserve(x: uint64, a: uint64, b: uint64, feeRate: uint64)
    requires GetOutputAmount(x, a, b, feeRate) > 0
    ensures GetOutputAmount(x, a, b, feeRate) < b && a + x <= MAX_U64
  {
    assert feeRate < BASIS;
    OutputOnCurve(x, a, b, feeRate);
    var f, y := BASIS - feeRate, GetOutputAmount(x, a, b, feeRate);
    MulMono(x, x, 1, f);
    BelowReserve(x, y, a, b, f);
  }

  lemma BelowReserve(x: nat, y: nat, a: nat, b: nat, f: nat)
    requires a > 0 && b > 0 && WithinCurve(x, y, a, b, f)
    ensures y < b
  {
    var d := a * BASIS + x * f;
    if y >= b {
      MulMono(b, y, d, d);
      assert b * d == b * (a * BASIS) + x * f * b;
      MulMono(1, b, 1, a * BASIS);
      assert false;
    }
  }

  /** A payment on the curve never lowers the product of the reserves. */
  lemma ProductKept(x: nat, y: nat, a: nat, b: nat, f: nat)
    requires 0 < f <= BASIS && y <= b && WithinCurve(x, y, a, b, f)
    ensures (a + x) * (b - y) >= a * b
  {
    MulMono(x, x, f, BASIS);
    MulMono(y, y, a * BASIS + x * f, a * BASIS + x * BASIS);
    // y * (a + x) * BASIS against x * b * BASIS, one fee apart
    var g := BASIS - f;
    assert y * (a * BASIS + x * f) <= x * f * b;
    assert y * ((a + x) * BASIS) == y * (a * BASIS + x * f) + y * (x * g);
    assert x * b * BASIS == x * f * b + x * b * g;
    MulMono(y, b, x * g, x * g);
    assert b * (x * g) == x * b * g;
    assert y * (a + x) * BASIS <= x * b * BASIS;
    assert y * (a + x) <= x * b;
    assert (a + x) * (b - y) == a * b + x * b - y * (a + x);
  }

  // ---------------------------------------------------------------- pools

  datatype Pool = Pool(
    assetA: nat, assetB: nat, reserveA: uint64, reserveB: uint64,
    totalShares: uint64, shares: map<Bytes, uint64>, feeRate: uint64)

  function Held(shares: map<Bytes, uint64>, provider: Bytes): uint64 {
    if provider in shares then shares[provider] else 0
  }

  function SharesOf(p: Pool, provider: Bytes): uint64 {
    Held(p.shares, provider)
  }

  /** The unchecked addition of the source. */
  function Wrap(n: nat): uint64 {
    n % TWO_64
  }

  function Swap(p: Pool, inputAsset: nat, input: uint64, minOutput: uint64): (r: (Pool, uint64))
    ensures r.0.totalShares == p.totalShares && r.0.feeRate == p.feeRate
  {
    var fromA := inputAsset == p.assetA;
    var a, b := if fromA then p.reserveA else p.reserveB, if fromA then p.reserveB else p.reserveA;
    var output := GetOutputAmount(input, a, b, p.feeRate);
    if output < minOutput then (p, 0)
    else
      assert output <= b by {
        if output > 0 { OutputBelowReserve(input, a, b, p.feeRate); }
      }
      (if fromA then p.(reserveA := Wrap(a + input), reserveB := b - output)
       else p.(reserveB := Wrap(a + input), reserveA := b - output), output)
  }

  /** Shares minted for one of the two amounts; saturates instead of overflowing. */
  function ProportionalShares(amount: uint64, reserve: uint64, total: uint64): uint64
    requires reserve > 0
  {
    if amount * total > MAX_U64 then MAX_U64 else Quotient(amount * total, reserve)
  }

  function MintedShares(p: Pool, amountA: uint64, amountB: uint64): uint64 {
    if p.totalShares == 0 then (if amountA * amountB > MAX_U64 then MAX_U64 else amountA * amountB)
    else if p.reserveA == 0 || p.reserveB == 0 then 0
    else
      var a := ProportionalShares(amountA, p.reserveA, p.totalShares);
      var b := ProportionalShares(amountB, p.reserveB, p.totalShares);
      if b < a then b else a
  }

  /** The provider is credited twice, as the source does: once wrapping, once saturating. */
  function Credit(shares: map<Bytes, uint64>, provider: Bytes, n: uint64): map<Bytes, uint64> {
    var once := Wrap(Held(shares, provider) + n);
    shares[provider := if once + n > MAX_U64 then MAX_U64 else once + n]
  }

  function AddLiquidity(p: Pool, amountA: uint64, amountB: uint64, provider: Bytes): (Pool, uint64) {
    var shares := MintedShares(p, amountA, amountB);
    if (p.totalShares != 0 && (p.reserveA == 0 || p.reserveB == 0))
       || p.reserveA + amountA > MAX_U64 || p.reserveB + amountB > MAX_U64 || p.totalShares + shares > MAX_U64
    then (p, 0)
    else
      (p.(reserveA := p.reserveA + amountA, reserveB := p.reserveB + amountB,
          totalShares := p.totalShares + shares, shares := Credit(p.shares, provider, shares)), shares)
  }

  /** The part of a reserve that `n` of `total` shares withdraw. */
  function SafeAmount(n: uint64, reserve: uint64, total: uint64): uint64
    requires total > 0
  {
    if reserve == 0 || n == 0 then 0
    else if n * reserve <= MAX_U64 then Quotient(n * reserve, total)
    else if n * Quotient(reserve, total) > MAX_U64 then reserve
    else n * Quotient(reserve, total)
  }

  /** Looking a provider up records it, with no shares if it is new. The subtractions wrap when more
      shares are redeemed than the pool has issued. */
  function RemoveLiquidity(p: Pool, n: uint64, provider: Bytes): (Pool, (uint64, uint64)) {
    if SharesOf(p, provider) < n || p.totalShares == 0 then
      (p.(shares := p.shares[provider := SharesOf(p, provider)]), (0, 0))
    else
      var a, b := SafeAmount(n, p.reserveA, p.totalShares), SafeAmount(n, p.reserveB, p.totalShares);
      (p.(reserveA := Wrap(p.reserveA + TWO_64 - a), reserveB := Wrap(p.reserveB + TWO_64 - b),
          totalShares := Wrap(p.totalShares + TWO_64 - n),
          shares := p.shares[provider := SharesOf(p, provider) - n]), (a, b))
  }

  // ---------------------------------------------------------------- swaps

  function Product(p: Pool): nat {
    p.reserveA * p.reserveB
  }

  /** The reserve a swap pays into, and the one it pays from. */
  function ReserveIn(p: Pool, inputAsset: nat): uint64 {
    if inputAsset == p.assetA then p.reserveA else p.reserveB
  }

  function ReserveOut(p: Pool, inputAsset: nat): uint64 {
    if inputAsset == p.assetA then p.reserveB else p.reserveA
  }

  predicate Rejected(p: Pool, inputAsset: nat, input: uint64, minOutput: uint64) {
    GetOutputAmount(input, ReserveIn(p, inputAsset), ReserveOut(p, inputAsset), p.feeRate) < minOutput
  }

  /** A swap lowers the product of the reserves in one case only: the input reserve wraps, which it
      can only do when the swap pays nothing. */
  lemma SwapKeepsProduct(p: Pool, inputAsset: nat, input: uint64, minOutput: uint64)
    ensures Product(Swap(p, inputAsset, input, minOutput).0) >= Product(p)
            <==> Rejected(p, inputAsset, input, minOutput)
                 || ReserveIn(p, inputAsset) + input <= MAX_U64
                 || ReserveOut(p, inputAsset) == 0
  {
    var a, b := ReserveIn(p, inputAsset), ReserveOut(p, inputAsset);
    PaymentKeepsProduct(a, b, input, p.feeRate);
    if !Rejected(p, inputAsset, input, minOutput) {
      SwapProduct(p, inputAsset, input, minOutput);
    }
  }

  lemma SwapProduct(p: Pool, inputAsset: nat, input: uint64, minOutput: uint64)
    requires !Rejected(p, inputAsset, input, minOutput)
    ensures var a, b := ReserveIn(p, inputAsset), ReserveOut(p, inputAsset);
            && Product(p) == a * b
            && Product(Swap(p, inputAsset, input, minOutput).0)
               == Wrap(a + input) * (b - GetOutputAmount(input, a, b, p.feeRate))
  {
  }

  lemma PaymentKeepsProduct(a: uint64, b: uint64, input: uint64, feeRate: uint64)
    ensures Wrap(a + input) * (b - GetOutputAmount(input, a, b, feeRate)) >= a * b
            <==> a + input <= MAX_U64 || b == 0
  {
    var y := GetOutputAmount(input, a, b, feeRate);
    if y > 0 {
      PositivePaymentKeeps(a, b, input, feeRate, y);
    } else {
      NoPayment(a, b, input);
    }
  }

  lemma PositivePaymentKeeps(a: uint64, b: uint64, input: uint64, feeRate: uint64, y: uint64)
    requires y == GetOutputAmount(input, a, b, feeRate) > 0
    ensures y < b && a + input <= MAX_U64 && Wrap(a + input) * (b - y) >= a * b
  {
    OutputBelowReserve(input, a, b, feeRate);
    OutputOnCurve(input, a, b, feeRate);
    ProductKept(input, y, a, b, BASIS - feeRate);
    NotWrapped(a + input);
  }

  lemma NotWrapped(n: uint64)
    ensures Wrap(n) == n
  {
  }

  lemma NoPayment(a: uint64, b: uint64, input: uint64)
    ensures Wrap(a + input) * b >= a * b <==> a + input <= MAX_U64 || b == 0
  {
    if a + input <= MAX_U64 {
      NotWrapped(a + input);
      MulMono(a, a + input, b, b);
    } else if b > 0 {
      WrapLowers(a, input);
      LessTimes(Wrap(a + input), a, b);
    }
  }

  lemma LessTimes(a: nat, b: nat, c: nat)
    requires a < b && c > 0
    ensures a * c < b * c
  {
  }

  lemma WrapLowers(a: uint64, x: uint64)
    requires a + x > MAX_U64
    ensures Wrap(a + x) < a
  {
  }

  // ---------------------------------------------------------------- splitting one input

  function Sum(xs: seq<uint64>): nat {
    if xs == [] then 0 else xs[0] + Sum(xs[1..])
  }

  /** Total paid out for consecutive swaps of the same asset. */
  function SplitOutput(p: Pool, inputAsset: nat, xs: seq<uint64>): nat
    decreases |xs|
  {
    if xs == [] then 0
    else
      var (p', y) := Swap(p, inputAsset, xs[0], 0);
      y + SplitOutput(p', inputAsset, xs[1..])
  }

  /** Consecutive payments on their curves stay together on the curve of the whole input. */
  lemma {:induction false} SplitOnCurve(p: Pool, inputAsset: nat, xs: seq<uint64>)
    requires p.feeRate < BASIS && ReserveIn(p, inputAsset) + Sum(xs) <= MAX_U64
    ensures WithinCurve(Sum(xs), SplitOutput(p, inputAsset, xs), ReserveIn(p, inputAsset), ReserveOut(p, inputAsset),
                        BASIS - p.feeRate)
    decreases |xs|
  {
    var a, b, f := ReserveIn(p, inputAsset), ReserveOut(p, inputAsset), BASIS - p.feeRate;
    if xs == [] {
      ZeroOnCurve(0, a, b, f);
    } else {
      var (p', y) := Swap(p, inputAsset, xs[0], 0);
      OutputOnCurve(xs[0], a, b, p.feeRate);
      SwapReserves(p, inputAsset, xs[0]);
      SplitOnCurve(p', inputAsset, xs[1..]);
      TwoOnCurve(xs[0], y, Sum(xs[1..]), SplitOutput(p', inputAsset, xs[1..]), a, b, f);
    }
  }

  lemma SwapReserves(p: Pool, inputAsset: nat, x: uint64)
    requires ReserveIn(p, inputAsset) + x <= MAX_U64
    ensures var (p', y) := Swap(p, inputAsset, x, 0);
            && y == GetOutputAmount(x, ReserveIn(p, inputAsset), ReserveOut(p, inputAsset), p.feeRate)
            && y <= ReserveOut(p, inputAsset)
            && ReserveIn(p', inputAsset) == ReserveIn(p, inputAsset) + x
            && ReserveOut(p', inputAsset) == ReserveOut(p, inputAsset) - y
  {
    if GetOutputAmount(x, ReserveIn(p, inputAsset), ReserveOut(p, inputAsset), p.feeRate) > 0 {
      OutputBelowReserve(x, ReserveIn(p, inputAsset), ReserveOut(p, inputAsset), p.feeRate);
    }
  }

  lemma TwoOnCurve(x: nat, y: nat, x': nat, y': nat, a: nat, b: nat, f: nat)
    requires f <= BASIS && y <= b
    requires WithinCurve(x, y, a, b, f) && WithinCurve(x', y', a + x, b - y, f)
    ensures WithinCurve(x + x', y + y', a, b, f)
  {
    MulMono(x, x, f, BASIS);
    MulMono(0, x, 0, f);
    MulMono(0, x', 0, f);
    assert (x + x') * f == x * f + x' * f;
    CurvesAdd(y, y', a * BASIS + x * f, (a + x) * BASIS + x' * f, b, x * f, x' * f);
  }

  lemma CurvesAdd(y: nat, y': nat, d: nat, d': nat, b: nat, u: nat, u': nat)
    requires y <= b && d + u' <= d' && y * d <= u * b && y' * d' <= u' * (b - y)
    ensures (y + y') * (d + u') <= (u + u') * b
  {
    MulMono(y', y', d + u', d');
    assert (y + y') * (d + u') == y * d + y * u' + y' * (d + u');
    assert u' * (b - y) == u' * b - y * u';
    assert (u + u') * b == u * b + u' * b;
  }

  /** Splitting an input into any number of consecutive swaps never pays more than one swap. */
  lemma SplittingNeverPays(p: Pool, inputAsset: nat, xs: seq<uint64>)
    requires Sum(xs) <= MAX_U64
    requires p.feeRate < BASIS && NoOverflow(Sum(xs), ReserveIn(p, inputAsset), ReserveOut(p, inputAsset), p.feeRate)
    requires ReserveIn(p, inputAsset) > 0 && ReserveOut(p, inputAsset) > 0
    ensures SplitOutput(p, inputAsset, xs) <= Swap(p, inputAsset, Sum(xs), 0).1
  {
    var a, b, f := ReserveIn(p, inputAsset), ReserveOut(p, inputAsset), BASIS - p.feeRate;
    MulMono(Sum(xs), Sum(xs), 1, f);
    SplitOnCurve(p, inputAsset, xs);
    OutputOnCurve(Sum(xs), a, b, p.feeRate);
    LargestOnCurve(Sum(xs), SplitOutput(p, inputAsset, xs), GetOutputAmount(Sum(xs), a, b, p.feeRate), a, b, f);
  }

  lemma LargestOnCurve(x: nat, y: nat, z: nat, a: nat, b: nat, f: nat)
    requires WithinCurve(x, y, a, b, f) && !WithinCurve(x, z + 1, a, b, f)
    ensures y <= z
  {
    if y > z {
      MulMono(z + 1, y, a * BASIS + x * f, a * BASIS + x * f);
    }
  }

  /** Less input, and less in the reserve it goes to, keeps every step within 64 bits. */
  lemma NoOverflowBelow(x: nat, a: nat, x': nat, a': nat, b: nat, feeRate: nat)
    requires feeRate < BASIS && x <= x' && a <= a' && NoOverflow(x', a', b, feeRate)
    ensures NoOverflow(x, a, b, feeRate)
  {
    MulMono(x, x', BASIS - feeRate, BASIS - feeRate);
    MulMono(0, x, 0, BASIS - feeRate);
    MulMono(x * (BASIS - feeRate), x' * (BASIS - feeRate), b, b);
  }

  /** What pays with more in the input reserve pays with less. */
  lemma PaysWithLess(x: uint64, a: uint64, a': uint64, b: uint64, feeRate: uint64)
    requires feeRate < BASIS && 0 < a <= a' && b > 0 && GetOutputAmount(x, a', b, feeRate) > 0
    ensures GetOutputAmount(x, a, b, feeRate) > 0
  {
    OutputOnCurve(x, a', b, feeRate);
    NoOverflowBelow(x, a, x, a', b, feeRate);
    OutputValue(x, a, b, feeRate);
    OutputValue(x, a', b, feeRate);
    var n: nat, d: nat, d': nat := x * (BASIS - feeRate) * b, a * BASIS + x * (BASIS - feeRate),
                                   a' * BASIS + x * (BASIS - feeRate);
    FloorOnCurve(n, d);
    FloorOnCurve(n, d');
    MulMono(1, n / d', d', d');
  }

  /** Before anything is paid out, swaps only raise the input reserve: what is paid in parts some single part
      is paid for from the start. */
  lemma {:induction false} SomePartPays(p: Pool, inputAsset: nat, xs: seq<uint64>) returns (x: uint64)
    requires p.feeRate < BASIS && ReserveIn(p, inputAsset) > 0 && ReserveOut(p, inputAsset) > 0
    requires ReserveIn(p, inputAsset) + Sum(xs) <= MAX_U64 && SplitOutput(p, inputAsset, xs) > 0
    ensures x <= Sum(xs)
    ensures GetOutputAmount(x, ReserveIn(p, inputAsset), ReserveOut(p, inputAsset), p.feeRate) > 0
    decreases |xs|
  {
    var a, b := ReserveIn(p, inputAsset), ReserveOut(p, inputAsset);
    x := xs[0];
    if GetOutputAmount(x, a, b, p.feeRate) == 0 {
      SwapReserves(p, inputAsset, x);
      x := SomePartPays(Swap(p, inputAsset, xs[0], 0).0, inputAsset, xs[1..]);
      PaysWithLess(x, a, a + xs[0], b, p.feeRate);
    }
  }

  /** Some split of an input pays more than one swap of it if and only if the one swap overflows, and so pays
      nothing, while some part of the input pays by itself. */
  lemma SplittingPaysExactly(p: Pool, inputAsset: nat, total: uint64)
    requires p.feeRate < BASIS && ReserveIn(p, inputAsset) > 0 && ReserveOut(p, inputAsset) > 0
    requires ReserveIn(p, inputAsset) + total <= MAX_U64
    ensures (exists xs :: Sum(xs) == total && SplitOutput(p, inputAsset, xs) > Swap(p, inputAsset, total, 0).1)
            <==> && !NoOverflow(total, ReserveIn(p, inputAsset), ReserveOut(p, inputAsset), p.feeRate)
                 && exists x: uint64 :: x <= total
                      && GetOutputAmount(x, ReserveIn(p, inputAsset), ReserveOut(p, inputAsset), p.feeRate) > 0
  {
    var a, b := ReserveIn(p, inputAsset), ReserveOut(p, inputAsset);
    OutputValue(total, a, b, p.feeRate);
    if xs :| Sum(xs) == total && SplitOutput(p, inputAsset, xs) > Swap(p, inputAsset, total, 0).1 {
      if NoOverflow(total, a, b, p.feeRate) {
        SplittingNeverPays(p, inputAsset, xs);
      }
      var x := SomePartPays(p, inputAsset, xs);
    }
    if !NoOverflow(total, a, b, p.feeRate) {
      if x: uint64 :| x <= total && GetOutputAmount(x, a, b, p.feeRate) > 0 {
        PartFirst(p, inputAsset, x, total - x);
      }
    }
  }

  lemma PartFirst(p: Pool, inputAsset: nat, x: uint64, y: uint64)
    ensures Sum([x, y]) == x + y
    ensures SplitOutput(p, inputAsset, [x, y])
            >= GetOutputAmount(x, ReserveIn(p, inputAsset), ReserveOut(p, inputAsset), p.feeRate)
  {
    var xs: seq<uint64> := [x, y];
    assert xs[1..] == [y] && [y][1..] == [];
    assert Sum([y]) == y;
  }

  // ---------------------------------------------------------------- runs

  datatype Action =
    | DoSwap(inputAsset: nat, input: uint64, minOutput: uint64)
    | DoAdd(amountA: uint64, amountB: uint64, provider: Bytes)
    | DoRemove(n: uint64, provider: Bytes)

  function Act(p: Pool, action: Action): Pool {
    match action
    case DoSwap(asset, input, minOutput) => Swap(p, asset, input, minOutput).0
    case DoAdd(a, b, provider) => AddLiquidity(p, a, b, provider).0
    case DoRemove(n, provider) => RemoveLiquidity(p, n, provider).0
  }

  function ActAll(p: Pool, actions: seq<Action>): Pool
    decreases |actions|
  {
    if actions == [] then p else ActAll(Act(p, actions[0]), actions[1..])
  }

  /** Swaps that take no reserve past 64 bits. */
  predicate SmoothSwaps(p: Pool, actions: seq<Action>)
    decreases |actions|
  {
    || actions == []
    || (&& actions[0].DoSwap? && ReserveIn(p, actions[0].inputAsset) + actions[0].input <= MAX_U64
        && SmoothSwaps(Act(p, actions[0]), actions[1..]))
  }

  /** Product of the reserves per share squared, compared without dividing. */
  ghost predicate NoLessPerShare(p: Pool, q: Pool) {
    Product(q) * (p.totalShares * p.totalShares) >= Product(p) * (q.totalShares * q.totalShares)
  }

  /** Each reserve per share, compared without dividing. */
  lemma ReservesPerShare(a: nat, b: nat, t: nat, a': nat, b': nat, t': nat)
    requires a' * t >= a * t' && b' * t >= b * t'
    ensures a' * b' * (t * t) >= a * b * (t' * t')
  {
    MulMono(a * t', a' * t, b * t', b' * t);
    assert (a * t') * (b * t') == a * b * (t' * t');
    assert (a' * t) * (b' * t) == a' * b' * (t * t);
  }

  lemma AddKeepsShareValue(p: Pool, amountA: uint64, amountB: uint64, provider: Bytes)
    requires p.totalShares > 0 && amountA * p.totalShares <= MAX_U64 && amountB * p.totalShares <= MAX_U64
    ensures NoLessPerShare(p, AddLiquidity(p, amountA, amountB, provider).0)
  {
    var (q, s) := AddLiquidity(p, amountA, amountB, provider);
    if q != p {
      MintedBound(p, amountA, amountB);
      GrowthPerShare(p.reserveA, amountA, p.totalShares, s);
      GrowthPerShare(p.reserveB, amountB, p.totalShares, s);
      ReservesPerShare(p.reserveA, p.reserveB, p.totalShares, q.reserveA, q.reserveB, q.totalShares);
    }
  }

  lemma MintedBound(p: Pool, amountA: uint64, amountB: uint64)
    requires p.totalShares > 0 && p.reserveA > 0 && p.reserveB > 0
    requires amountA * p.totalShares <= MAX_U64 && amountB * p.totalShares <= MAX_U64
    ensures p.reserveA * MintedShares(p, amountA, amountB) <= amountA * p.totalShares
    ensures p.reserveB * MintedShares(p, amountA, amountB) <= amountB * p.totalShares
  {
    var s := MintedShares(p, amountA, amountB);
    FloorOnCurve(amountA * p.totalShares, p.reserveA);
    FloorOnCurve(amountB * p.totalShares, p.reserveB);
    MintBound(s, amountA * p.totalShares / p.reserveA, p.reserveA, amountA * p.totalShares);
    MintBound(s, amountB * p.totalShares / p.reserveB, p.reserveB, amountB * p.totalShares);
  }

  lemma GrowthPerShare(reserve: nat, amount: nat, t: nat, s: nat)
    requires reserve * s <= amount * t
    ensures (reserve + amount) * t >= reserve * (t + s)
  {
  }

  lemma DropPerShare(reserve: nat, amount: nat, t: nat, n: nat)
    requires amount <= reserve && n <= t && amount * t <= n * reserve
    ensures (reserve - amount) * t >= reserve * (t - n)
  {
  }

  lemma MintBound(s: nat, floor: nat, reserve: nat, n: nat)
    requires s <= floor && floor * reserve <= n
    ensures reserve * s <= n
  {
    MulMono(s, floor, reserve, reserve);
  }

  /** However it is computed, a withdrawal takes at most the redeemed part of a reserve; and no more
      than there is, unless more shares are redeemed than were issued. */
  lemma WithdrawalBound(n: uint64, reserve: uint64, total: uint64)
    requires 0 < total
    ensures SafeAmount(n, reserve, total) * total <= n * reserve
    ensures n <= total ==> SafeAmount(n, reserve, total) <= reserve
  {
    WaysToCompute(n, reserve, total);
    EachWayBound(SafeAmount(n, reserve, total), n, reserve, total);
  }

  lemma WaysToCompute(n: uint64, reserve: uint64, total: uint64)
    requires 0 < total
    ensures var amount := SafeAmount(n, reserve, total);
            || amount == 0
            || amount == n * reserve / total
            || amount == n * (reserve / total)
            || (amount == reserve && reserve < n * (reserve / total))
  {
  }

  lemma EachWayBound(amount: nat, n: nat, reserve: nat, total: nat)
    requires 0 < total
    requires || amount == 0
             || amount == n * reserve / total
             || amount == n * (reserve / total)
             || (amount == reserve && reserve < n * (reserve / total))
    ensures amount * total <= n * reserve && (n <= total ==> amount <= reserve)
  {
    FloorOnCurve(reserve, total);
    if amount == 0 {
      MulMono(0, n, 0, reserve);
    } else if amount == n * reserve / total {
      WholeBound(n, reserve, total);
    } else if amount == n * (reserve / total) {
      PerShareBound(n, reserve / total, total, reserve);
    } else {
      CapBound(n, reserve / total, total, reserve);
    }
  }

  lemma WholeBound(n: nat, reserve: nat, total: nat)
    requires total > 0
    ensures n * reserve / total * total <= n * reserve && (n <= total ==> n * reserve / total <= reserve)
  {
    MulMono(0, n, 0, reserve);
    FloorOnCurve(n * reserve, total);
    if n <= total {
      QuotientWithin(n * reserve, total, n, reserve);
    }
  }

  lemma CapBound(n: nat, per: nat, total: nat, reserve: nat)
    requires per * total <= reserve < n * per
    ensures total < n && reserve * total <= n * reserve
  {
    if n <= total {
      MulMono(n, total, per, per);
    }
    MulMono(reserve, reserve, total, n);
  }

  lemma QuotientWithin(m: nat, total: nat, n: nat, reserve: nat)
    requires 0 < total && n <= total && m == n * reserve
    ensures m / total <= reserve
  {
    MulMono(n, total, reserve, reserve);
    FloorOnCurve(m, total);
    if m / total > reserve {
      LessTimes(reserve, m / total, total);
      assert false;
    }
  }

  lemma PerShareBound(n: nat, per: nat, total: nat, reserve: nat)
    requires per * total <= reserve
    ensures n * per * total <= n * reserve && (n <= total ==> n * per <= reserve)
  {
    MulMono(n, n, per * total, reserve);
    assert n * per * total == n * (per * total);
    if n <= total {
      MulMono(n, total, per, per);
    }
  }

  lemma RemoveKeepsShareValue(p: Pool, n: uint64, provider: Bytes)
    requires n <= p.totalShares || SharesOf(p, provider) < n
    ensures NoLessPerShare(p, RemoveLiquidity(p, n, provider).0)
  {
    var t := p.totalShares;
    if SharesOf(p, provider) >= n && t > 0 {
      var a, b := SafeAmount(n, p.reserveA, t), SafeAmount(n, p.reserveB, t);
      WithdrawalBound(n, p.reserveA, t);
      WithdrawalBound(n, p.reserveB, t);
      Withdrawn(p, n, provider);
      DropPerShare(p.reserveA, a, t, n);
      DropPerShare(p.reserveB, b, t, n);
      ReservesPerShare(p.reserveA, p.reserveB, t, p.reserveA - a, p.reserveB - b, t - n);
    }
  }

  lemma Withdrawn(p: Pool, n: uint64, provider: Bytes)
    requires SharesOf(p, provider) >= n && 0 < p.totalShares && n <= p.totalShares
    ensures var q := RemoveLiquidity(p, n, provider).0;
            && q.reserveA == p.reserveA - SafeAmount(n, p.reserveA, p.totalShares)
            && q.reserveB == p.reserveB - SafeAmount(n, p.reserveB, p.totalShares)
            && q.totalShares == p.totalShares - n
  {
    WithdrawalBound(n, p.reserveA, p.totalShares);
    WithdrawalBound(n, p.reserveB, p.totalShares);
  }

  /** Trading there and back, or around any number of swaps, yields no profit: a trader who leaves
      one reserve no larger than it was has not lowered the other. */
  lemma NoProfitFromSwaps(p: Pool, actions: seq<Action>)
    requires SmoothSwaps(p, actions)
    requires p.reserveA > 0 && p.reserveB > 0
    ensures var q := ActAll(p, actions);
            && (q.reserveB <= p.reserveB ==> q.reserveA >= p.reserveA)
            && (q.reserveA <= p.reserveA ==> q.reserveB >= p.reserveB)
  {
    SwapsKeepProduct(p, actions);
    var q := ActAll(p, actions);
    SmallerFactor(p.reserveA, p.reserveB, q.reserveA, q.reserveB);
  }

  lemma SmallerFactor(a: nat, b: nat, a': nat, b': nat)
    requires a > 0 && b > 0 && a' * b' >= a * b
    ensures (b' <= b ==> a' >= a) && (a' <= a ==> b' >= b)
  {
    if b' <= b && a' < a {
      MulMono(a', a', b', b);
      LessTimes(a', a, b);
      assert false;
    }
    if a' <= a && b' < b {
      MulMono(a', a, b', b');
      LessTimes(b', b, a);
      assert false;
    }
  }

  lemma {:induction false} SwapsKeepProduct(p: Pool, actions: seq<Action>)
    requires SmoothSwaps(p, actions)
    ensures Product(ActAll(p, actions)) >= Product(p)
    decreases |actions|
  {
    if actions != [] {
      var a := actions[0];
      SwapKeepsProduct(p, a.inputAsset, a.input, a.minOutput);
      SwapsKeepProduct(Act(p, a), actions[1..]);
    }
  }

  // ---------------------------------------------------------------- the table of pools

  class AutomatedMarketMaker {
    var pools: map<Bytes, Pool>

    constructor ()
      ensures pools == map[]
    {
      pools := map[];
    }

    /** `id` is the hash the source derives from the two assets. */
    method CreatePool(id: Bytes, assetA: nat, assetB: nat, initialA: uint64, initialB: uint64, feeRate: uint64)
      modifies this
      ensures id in pools && pools[id].shares == map[]
      ensures pools[id].totalShares == if initialA * initialB > MAX_U64 then MAX_U64 else initialA * initialB
      ensures pools == old(pools)[id := Pool(assetA, assetB, initialA, initialB, pools[id].totalShares, map[], feeRate)]
    {
      var total := SaturatedProduct(initialA, initialB);
      pools := pools[id := Pool(assetA, assetB, initialA, initialB, total, map[], feeRate)];
    }

    /** The product with the guard that keeps it within 64 bits. */
    method SaturatedProduct(a: uint64, b: uint64) returns (r: uint64)
      ensures r == if a * b > MAX_U64 then MAX_U64 else a * b
    {
      if a > 0 {
        GuardIsProduct(a, b, MAX_U64);
      }
      r := if a > 0 && b > MAX_U64 / a then MAX_U64 else a * b;
    }

    method ProportionalPart(amount: uint64, reserve: uint64, total: uint64) returns (r: uint64)
      requires reserve > 0 && total > 0
      ensures r == ProportionalShares(amount, reserve, total)
    {
      GuardIsProduct(total, amount, MAX_U64);
      if amount > MAX_U64 / total {
        return MAX_U64;
      }
      MulMono(0, amount, 0, total);
      QuotientFits(amount * total, reserve);
      r := amount * total / reserve;
    }

    method SwapIn(id: Bytes, inputAsset: nat, input: uint64, minOutput: uint64) returns (output: uint64)
      modifies this
      ensures id !in old(pools) ==> output == 0 && pools == old(pools)
      ensures id in old(pools) ==>
                var (p, y) := Swap(old(pools)[id], inputAsset, input, minOutput);
                pools == old(pools)[id := p] && output == y
    {
      if id !in pools {
        return 0;
      }
      var pool := pools[id];
      var a, b := pool.reserveB, pool.reserveA;
      if inputAsset == pool.assetA {
        a, b := pool.reserveA, pool.reserveB;
      }
      output := GetOutputAmount(input, a, b, pool.feeRate);
      if output < minOutput {
        assert pools == pools[id := pool];
        return 0;
      }
      ghost var y := output;
      if y > 0 {
        OutputBelowReserve(input, a, b, pool.feeRate);
      }
      if inputAsset == pool.assetA {
        pool := pool.(reserveA := Wrap(pool.reserveA + input));
        pool := pool.(reserveB := pool.reserveB - output);
      } else {
        pool := pool.(reserveB := Wrap(pool.reserveB + input));
        pool := pool.(reserveA := pool.reserveA - output);
      }
      pools := pools[id := pool];
    }

    method AddTo(id: Bytes, amountA: uint64, amountB: uint64, provider: Bytes) returns (minted: uint64)
      modifies this
      ensures id !in old(pools) ==> minted == 0 && pools == old(pools)
      ensures id in old(pools) ==>
                var (p, s) := AddLiquidity(old(pools)[id], amountA, amountB, provider);
                pools == old(pools)[id := p] && minted == s
    {
      if id !in pools {
        return 0;
      }
      var pool := pools[id];
      assert pools[id := pool] == pools;
      if pool.totalShares != 0 && (pool.reserveA == 0 || pool.reserveB == 0) {
        return 0;
      }
      var shares := SharesFor(pool, amountA, amountB);
      if pool.reserveA > MAX_U64 - amountA || pool.reserveB > MAX_U64 - amountB || pool.totalShares > MAX_U64 - shares {
        return 0;
      }
      pool := pool.(reserveA := pool.reserveA + amountA);
      pool := pool.(reserveB := pool.reserveB + amountB);
      pool := pool.(totalShares := pool.totalShares + shares);
      var credited := CreditTwice(pool.shares, provider, shares);
      pool := pool.(shares := credited);
      pools := pools[id := pool];
      minted := shares;
    }

    method SharesFor(pool: Pool, amountA: uint64, amountB: uint64) returns (shares: uint64)
      requires pool.totalShares != 0 ==> pool.reserveA != 0 && pool.reserveB != 0
      ensures shares == MintedShares(pool, amountA, amountB)
    {
      if pool.totalShares == 0 {
        shares := SaturatedProduct(amountA, amountB);
        return;
      }
      var sharesA := ProportionalPart(amountA, pool.reserveA, pool.totalShares);
      var sharesB := ProportionalPart(amountB, pool.reserveB, pool.totalShares);
      shares := if sharesB < sharesA then sharesB else sharesA;
    }

    /** The first credit wraps; the second, meant as a check of the first, saturates. */
    method CreditTwice(shares: map<Bytes, uint64>, provider: Bytes, n: uint64) returns (r: map<Bytes, uint64>)
      ensures r == Credit(shares, provider, n)
    {
      r := shares[provider := Wrap(Held(shares, provider) + n)];
      var current := r[provider];
      if current > MAX_U64 - n {
        r := r[provider := MAX_U64];
      } else {
        r := r[provider := current + n];
      }
      assert r == Credit(shares, provider, n);
    }

    /** The safe amount of a withdrawal, with its guards. */
    method AmountOf(n: uint64, reserve: uint64, total: uint64) returns (amount: uint64)
      requires total > 0
      ensures amount == SafeAmount(n, reserve, total)
    {
      if reserve == 0 || n == 0 {
        return 0;
      }
      GuardIsProduct(reserve, n, MAX_U64);
      if n <= MAX_U64 / reserve {
        MulMono(0, n, 0, reserve);
        QuotientFits(n * reserve, total);
        return n * reserve / total;
      }
      amount := PerShareAmount(n, reserve, total);
    }

    method PerShareAmount(n: uint64, reserve: uint64, total: uint64) returns (amount: uint64)
      requires total > 0
      ensures amount == if n * Quotient(reserve, total) > MAX_U64 then reserve else n * Quotient(reserve, total)
    {
      QuotientFits(reserve, total);
      var perShare: uint64 := reserve / total;
      if perShare > 0 {
        GuardIsProduct(perShare, n, MAX_U64);
        if n > MAX_U64 / perShare {
          return reserve;
        }
      }
      MulMono(0, n, 0, perShare);
      amount := perShare * n;
    }

    method RemoveFrom(id: Bytes, n: uint64, provider: Bytes) returns (amounts: (uint64, uint64))
      modifies this
      ensures id !in old(pools) ==> amounts == (0, 0) && pools == old(pools)
      ensures id in old(pools) ==>
                var (p, w) := RemoveLiquidity(old(pools)[id], n, provider);
                pools == old(pools)[id := p] && amounts == w
    {
      if id !in pools {
        return (0, 0);
      }
      var pool := pools[id];
      pool := pool.(shares := pool.shares[provider := SharesOf(pool, provider)]);
      if pool.shares[provider] < n || pool.totalShares == 0 {
        pools := pools[id := pool];
        return (0, 0);
      }
      var amountA := AmountOf(n, pool.reserveA, pool.totalShares);
      var amountB := AmountOf(n, pool.reserveB, pool.totalShares);
      pool := pool.(reserveA := Wrap(pool.reserveA + TWO_64 - amountA));
      pool := pool.(reserveB := Wrap(pool.reserveB + TWO_64 - amountB));
      pool := pool.(totalShares := Wrap(pool.totalShares + TWO_64 - n));
      pool := pool.(shares := pool.shares[provider := pool.shares[provider] - n]);
      assert pool.shares == old(pools)[id].shares[provider := SharesOf(old(pools)[id], provider) - n];
      pools := pools[id := pool];
      amounts := (amountA, amountB);
    }
  }
}
