/** Exponentiation by squaring over any product with a zero and a one, as a loop that may leave early:
    when leaving early changes the answer, and when the answer is a power. */
module Squaring {
  import opened Arithmetic
  import opened Word256
  import opened WordShift

  datatype Products<!T> = Products(mul: (T, T) -> T, zero: T, one: T)

  /** Nothing is asked of the product but what a factor zero or one on the right does. */
  ghost predicate Lawful<T(!new)>(g: Products<T>) {
    && g.zero != g.one
    && (forall x :: g.mul(x, g.zero) == g.zero)
    && (forall x :: g.mul(x, g.one) == x)
  }

  /** Squaring from bit `i` on, leaving early at a zero square, and at a square of one beside another
      result. */
  function Loop<T(==)>(g: Products<T>, bits: seq<bool>, i: nat, result: T, base: T): T
    requires i <= |bits|
    decreases |bits| - i
  {
    if i == |bits| then result
    else
      var r := if bits[i] then g.mul(result, base) else result;
      var square := g.mul(base, base);
      if square == g.zero || (square == g.one && r != g.one) then r
      else Loop(g, bits, i + 1, r, square)
  }

  /** The base squared `n` times. */
  function Squared<T>(g: Products<T>, base: T, n: nat): T {
    if n == 0 then base else g.mul(Squared(g, base, n - 1), Squared(g, base, n - 1))
  }

  /** The product of the squares that the low `n` bits choose, nothing left out. */
  function Chosen<T>(g: Products<T>, base: T, bits: seq<bool>, n: nat): T
    requires n <= |bits|
  {
    if n == 0 then g.one
    else if bits[n - 1] then g.mul(Chosen(g, base, bits, n - 1), Squared(g, base, n - 1))
    else Chosen(g, base, bits, n - 1)
  }

  // ---------------------------------------------------------------- when leaving early matters

  /** The `n`-th square is the first that is zero, a later bit would still multiply it in, and the
      product so far is not zero. */
  predicate ExitBites<T(==)>(g: Products<T>, base: T, bits: seq<bool>, n: nat) {
    && 0 < n < |bits|
    && Squared(g, base, n) == g.zero && Squared(g, base, n - 1) != g.zero
    && true in bits[n..]
    && Chosen(g, base, bits, n) != g.zero
  }

  /** Once a square is zero or one, so are all that follow. */
  lemma {:induction false} SquaresStay<T(!new)>(g: Products<T>, base: T, m: nat, n: nat)
    requires Lawful(g) && m <= n && (Squared(g, base, m) == g.zero || Squared(g, base, m) == g.one)
    ensures Squared(g, base, n) == Squared(g, base, m)
    decreases n
  {
    if n > m {
      SquaresStay(g, base, m, n - 1);
    }
  }

  lemma {:induction false} AfterZero<T(!new)>(g: Products<T>, base: T, bits: seq<bool>, m: nat, n: nat)
    requires Lawful(g) && m <= n <= |bits| && Squared(g, base, m) == g.zero
    ensures Chosen(g, base, bits, n) == if true in bits[m..n] then g.zero else Chosen(g, base, bits, m)
    decreases n
  {
    if n > m {
      AfterZero(g, base, bits, m, n - 1);
      SquaresStay(g, base, m, n - 1);
      assert bits[m..n] == bits[m..n - 1] + [bits[n - 1]];
    }
  }

  lemma {:induction false} AfterOne<T(!new)>(g: Products<T>, base: T, bits: seq<bool>, m: nat, n: nat)
    requires Lawful(g) && m <= n <= |bits| && Squared(g, base, m) == g.one
    ensures Chosen(g, base, bits, n) == Chosen(g, base, bits, m)
    decreases n
  {
    if n > m {
      AfterOne(g, base, bits, m, n - 1);
      SquaresStay(g, base, m, n - 1);
    }
  }

  lemma ExitAtZero<T(!new)>(g: Products<T>, base: T, bits: seq<bool>, n: nat)
    requires Lawful(g) && 0 < n <= |bits| && Squared(g, base, n) == g.zero && Squared(g, base, n - 1) != g.zero
    ensures Chosen(g, base, bits, n) != Chosen(g, base, bits, |bits|) <==> exists m :: n <= m && ExitBites(g, base, bits, m)
  {
    AfterZero(g, base, bits, n, |bits|);
    assert bits[n..|bits|] == bits[n..];
    forall m | n <= m && ExitBites(g, base, bits, m) ensures m == n {
      if n < m {
        SquaresStay(g, base, n, m - 1);
      }
    }
    if true in bits[n..] && Chosen(g, base, bits, n) != g.zero {
      assert ExitBites(g, base, bits, n);
    }
  }

  lemma NoHarmAtOne<T(!new)>(g: Products<T>, base: T, bits: seq<bool>, n: nat)
    requires Lawful(g) && n <= |bits| && Squared(g, base, n) == g.one
    ensures Chosen(g, base, bits, n) == Chosen(g, base, bits, |bits|)
    ensures forall m | n <= m :: !ExitBites(g, base, bits, m)
  {
    AfterOne(g, base, bits, n, |bits|);
    forall m: nat | n <= m ensures !ExitBites(g, base, bits, m) {
      SquaresStay(g, base, n, m);
    }
  }

  /** The exit at one never changes the answer. The exit at zero does exactly when a later bit would have
      multiplied that zero in and the product so far is not zero already. */
  lemma {:induction false} EarlyExitMattersExactly<T(!new)>(g: Products<T>, base: T, bits: seq<bool>, i: nat)
    requires Lawful(g) && i <= |bits| && Squared(g, base, i) != g.zero
    ensures Loop(g, bits, i, Chosen(g, base, bits, i), Squared(g, base, i)) != Chosen(g, base, bits, |bits|)
            <==> exists m :: i < m && ExitBites(g, base, bits, m)
    decreases |bits| - i
  {
    if i < |bits| {
      var square := Squared(g, base, i + 1);
      if square == g.zero {
        ExitAtZero(g, base, bits, i + 1);
      } else if square == g.one && Chosen(g, base, bits, i + 1) != g.one {
        NoHarmAtOne(g, base, bits, i + 1);
      } else {
        EarlyExitMattersExactly(g, base, bits, i + 1);
      }
    }
  }

  /** Leaving there, the loop answers with the product so far. */
  lemma {:induction false} LeavesWith<T(!new)>(g: Products<T>, base: T, bits: seq<bool>, i: nat, n: nat)
    requires Lawful(g) && i < n && ExitBites(g, base, bits, n)
    ensures Loop(g, bits, i, Chosen(g, base, bits, i), Squared(g, base, i)) == Chosen(g, base, bits, n)
    decreases n - i
  {
    if i + 1 < n {
      if Squared(g, base, i + 1) == g.zero {
        SquaresStay(g, base, i + 1, n - 1);
      } else if Squared(g, base, i + 1) == g.one {
        SquaresStay(g, base, i + 1, n);
      }
      LeavesWith(g, base, bits, i + 1, n);
    }
  }

  /** The number the low `n` bits spell. */
  function Number(bits: seq<bool>, n: nat): nat
    requires n <= |bits|
  {
    if n == 0 then 0 else Number(bits, n - 1) + if bits[n - 1] then Pow2(n - 1) else 0
  }

  /** An exponent with a single bit multiplies one square into one. */
  lemma OneBit<T(!new)>(g: Products<T>, base: T, bits: seq<bool>, n: nat)
    requires Lawful(g) && n < |bits| && (forall i | 0 <= i < |bits| :: bits[i] <==> i == n)
    requires forall i | 0 <= i <= n :: Squared(g, base, i) != g.zero
    ensures Loop(g, bits, 0, g.one, base) == g.mul(g.one, Squared(g, base, n))
  {
    assert Squared(g, base, 0) != g.zero;
    EarlyExitMattersExactly(g, base, bits, 0);
    forall m: nat ensures !ExitBites(g, base, bits, m) {
      if n < m <= |bits| {
        assert true !in bits[m..];
      }
    }
    NoneChosen(g, base, bits, n);
    NoBitsAbove(g, base, bits, n + 1, |bits|);
  }

  lemma {:induction false} NoneChosen<T>(g: Products<T>, base: T, bits: seq<bool>, n: nat)
    requires n <= |bits| && forall i | 0 <= i < n :: !bits[i]
    ensures Chosen(g, base, bits, n) == g.one
    decreases n
  {
    if n > 0 {
      NoneChosen(g, base, bits, n - 1);
    }
  }

  lemma {:induction false} NoBitsAbove<T>(g: Products<T>, base: T, bits: seq<bool>, m: nat, n: nat)
    requires m <= n <= |bits| && true !in bits[m..]
    ensures Chosen(g, base, bits, n) == Chosen(g, base, bits, m) && Number(bits, n) == Number(bits, m)
    decreases n
  {
    if n > m {
      NoBitsAbove(g, base, bits, m, n - 1);
      assert bits[n - 1] == bits[m..][n - 1 - m];
    }
  }

  // ---------------------------------------------------------------- when the answer is a power

  function Pow(b: nat, e: nat): nat {
    if e == 0 then 1
    else
      NonNegative(b, Pow(b, e - 1));
      b * Pow(b, e - 1)
  }

  lemma {:induction false} PowAdd(b: nat, x: nat, y: nat)
    ensures Pow(b, x + y) == Pow(b, x) * Pow(b, y)
    decreases y
  {
    if y > 0 {
      PowAdd(b, x, y - 1);
      assert Pow(b, x + y) == b * Pow(b, x + (y - 1));
      OneFactorOut(b, Pow(b, x), Pow(b, y - 1));
    }
  }

  lemma OneFactorOut(b: nat, p: nat, q: nat)
    ensures b * (p * q) == p * (b * q)
  {
  }

  lemma {:induction false} PowPositive(b: nat, e: nat)
    requires b > 0
    ensures Pow(b, e) > 0
  {
    if e > 0 {
      PowPositive(b, e - 1);
      LessMono(1, b, Pow(b, e - 1));
    }
  }

  /** Squaring once more doubles the exponent. */
  lemma PowSquare(b: nat, n: nat)
    ensures Pow(b, Pow2(n + 1)) == Pow(b, Pow2(n)) * Pow(b, Pow2(n))
  {
    PowAdd(b, Pow2(n), Pow2(n));
  }

  /** A reading of the elements as numbers below `m`, for which the product is right when the second
      factor is a single byte. */
  ghost predicate RightByBytes<T(!new)>(g: Products<T>, val: T -> nat, m: nat) {
    && m >= 0x1_0000
    && val(g.one) == 1
    && (forall x :: val(x) < m && (val(x) == 0 <==> x == g.zero))
    && (forall x, y | val(y) < 256 :: val(g.mul(x, y)) == val(x) * val(y) % m)
  }

  lemma {:induction false} SquaresSmall(b: nat, n: nat, k: nat)
    requires Pow(b, Pow2(k)) < 256 && n <= k
    ensures Pow(b, Pow2(n)) < 256
    decreases k - n
  {
    if n < k {
      SquaresSmall(b, n + 1, k);
      PowSquare(b, n);
      AtMostSquare(Pow(b, Pow2(n)));
    }
  }

  lemma AtMostSquare(x: nat)
    ensures x <= x * x
  {
  }

  lemma SquareBelow(x: nat, b: nat)
    requires x < b
    ensures 0 <= x * x < b * b
  {
  }

  /** While the squares fit a byte they are powers, and so is the next. */
  lemma {:induction false} SquaresRight<T(!new)>(g: Products<T>, val: T -> nat, m: nat, base: T, k: nat, n: nat)
    requires RightByBytes(g, val, m) && Pow(val(base), Pow2(k)) < 256 && n <= k + 1
    ensures val(Squared(g, base, n)) == Pow(val(base), Pow2(n))
    decreases n
  {
    if n == 0 {
      PowOne(val(base), Pow2(0));
    } else {
      SquaresRight(g, val, m, base, k, n - 1);
      SquaresSmall(val(base), n - 1, k);
      PowSquare(val(base), n - 1);
      var x := Pow(val(base), Pow2(n - 1));
      SquareBelow(x, 256);
      SmallMod(x * x, m);
    }
  }

  lemma PowOne(b: nat, e: nat)
    requires e == 1
    ensures Pow(b, e) == b
  {
    assert Pow(b, e - 1) == 1;
  }

  lemma {:induction false} ChosenRight<T(!new)>(g: Products<T>, val: T -> nat, m: nat, base: T, bits: seq<bool>, k: nat,
                                                n: nat)
    requires RightByBytes(g, val, m) && Pow(val(base), Pow2(k)) < 256 && n <= k + 1 && n <= |bits|
    ensures val(Chosen(g, base, bits, n)) == Pow(val(base), Number(bits, n)) % m
    decreases n
  {
    if n == 0 {
      SmallMod(1, m);
    } else {
      ChosenRight(g, val, m, base, bits, k, n - 1);
      if bits[n - 1] {
        SquaresRight(g, val, m, base, k, n - 1);
        SquaresSmall(val(base), n - 1, k);
        var x, y := Number(bits, n - 1), Pow2(n - 1);
        ModTimes(Pow(val(base), x), Pow(val(base), y), m);
        PowAdd(val(base), x, y);
      }
    }
  }

  /** The answer is the power as long as the square for the highest bit set fits a byte. */
  lemma PowerLaw<T(!new)>(g: Products<T>, val: T -> nat, m: nat, base: T, bits: seq<bool>, k: nat)
    requires Lawful(g) && RightByBytes(g, val, m) && base != g.zero
    requires Pow(val(base), Pow2(k)) < 256 && (k + 1 <= |bits| ==> true !in bits[k + 1..])
    ensures val(Loop(g, bits, 0, g.one, base)) == Pow(val(base), Number(bits, |bits|)) % m
  {
    EarlyExitMattersExactly(g, base, bits, 0);
    forall n: nat ensures !ExitBites(g, base, bits, n) {
      NoExitBites(g, val, m, base, bits, k, n);
    }
    if k + 1 < |bits| {
      ChosenRight(g, val, m, base, bits, k, k + 1);
      NoBitsAbove(g, base, bits, k + 1, |bits|);
    } else {
      ChosenRight(g, val, m, base, bits, k, |bits|);
    }
  }

  lemma NoExitBites<T(!new)>(g: Products<T>, val: T -> nat, m: nat, base: T, bits: seq<bool>, k: nat, n: nat)
    requires RightByBytes(g, val, m) && base != g.zero
    requires Pow(val(base), Pow2(k)) < 256 && (k + 1 <= |bits| ==> true !in bits[k + 1..])
    ensures !ExitBites(g, base, bits, n)
  {
    if 0 < n <= k + 1 {
      SquaresRight(g, val, m, base, k, n);
      PowPositive(val(base), Pow2(n));
    } else if k + 1 < n <= |bits| {
      assert bits[n..] == bits[k + 1..][n - k - 1..];
    }
  }
}
