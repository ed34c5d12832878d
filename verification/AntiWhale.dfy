/** The anti-whale transform: Newton's integer square root and the cap. */
module AntiWhale {
  import opened Arithmetic
  import opened Bytes

  /** The largest number whose square is at most `n`. */
  predicate IsFloorRoot(r: nat, n: nat) {
    r * r <= n < (r + 1) * (r + 1)
  }

  function FloorRoot(n: nat): (r: nat)
    ensures IsFloorRoot(r, n)
  {
    if n == 0 then 0
    else
      var r := FloorRoot(n - 1);
      RootGrows(r, n);
      if (r + 1) * (r + 1) <= n then r + 1 else r
  }

  lemma RootGrows(r: nat, n: nat)
    requires n > 0 && IsFloorRoot(r, n - 1)
    ensures (r + 1) * (r + 1) <= n ==> IsFloorRoot(r + 1, n)
    ensures (r + 1) * (r + 1) > n ==> IsFloorRoot(r, n)
  {
    assert (r + 2) * (r + 2) == (r + 1) * (r + 1) + 2 * r + 3;
  }

  lemma SquareMono(a: nat, b: nat)
    requires a <= b
    ensures a * a <= b * b
  {
    assert b * b == a * a + (b - a) * (b + a);
  }

  lemma FloorRootUnique(r: nat, n: nat)
    requires IsFloorRoot(r, n)
    ensures r == FloorRoot(n)
  {
    var s := FloorRoot(n);
    if r < s {
      SquareMono(r + 1, s);
      assert false;
    }
    if s < r {
      SquareMono(s + 1, r);
      assert false;
    }
  }

  /** A Newton step from above the root does not fall below it: twice the mean is at least twice the
      geometric mean. */
  lemma NewtonStays(n: nat, x: nat, y: nat)
    requires x > 0 && y == (x + n / x) / 2
    ensures n < (y + 1) * (y + 1)
  {
    var q := n / x;
    assert n < (q + 1) * x by {
      assert n == q * x + n % x;
    }
    var s, d := x + (q + 1), x - (q + 1);
    assert s * s == 4 * ((q + 1) * x) + d * d;
    SquareMono(0, if d < 0 then -d else d);
    assert s * s >= 4 * ((q + 1) * x);
    SquareMono(s, 2 * (y + 1));
    assert 2 * (y + 1) * (2 * (y + 1)) == 4 * ((y + 1) * (y + 1));
  }

  /** Once a step no longer goes down, the square is within `n`. */
  lemma NewtonStops(n: nat, x: nat)
    requires x > 0 && (x + n / x) / 2 >= x
    ensures x * x <= n
  {
    var q := n / x;
    assert q >= x;
    assert n == q * x + n % x;
    assert q * x == x * x + (q - x) * x;
  }

  /** The root, or the division by zero the largest 64-bit number runs into. */
  datatype Root = Root(value: nat) | DivisionByZero

  /** The Newton loop is the floor square root for every 64-bit number except the largest one: there the
      first step wraps to zero and the loop divides by it. */
  method Isqrt(n: uint64) returns (r: Root)
    ensures r == if n == MAX_U64 then DivisionByZero else Root(FloorRoot(n))
  {
    if n == 0 {
      return Root(0);
    }
    var x: nat := n;
    var y: nat := (x + 1) % TWO_64 / 2;
    if n < MAX_U64 {
      Started(n);
    }
    while y < x
      invariant if n < MAX_U64 then Above(n, x, y) else x == n && y == 0
      decreases x
    {
      if n < MAX_U64 {
        Stepped(n, x, y);
      }
      x := y;
      if x == 0 {
        return DivisionByZero;
      }
      y := (x + n / x) % TWO_64 / 2;
    }
    Stopped(n, x, y);
    return Root(x);
  }

  /** The loop stays above the root, with the next step at hand. */
  ghost predicate Above(n: nat, x: nat, y: nat) {
    0 < x <= n && y == (x + n / x) / 2 && n < (x + 1) * (x + 1)
  }

  lemma Started(n: nat)
    requires 0 < n < MAX_U64
    ensures Above(n, n, (n + 1) % TWO_64 / 2)
  {
    assert (n + 1) * (n + 1) == n * n + 2 * n + 1;
    SquareMono(0, n);
  }

  lemma Stepped(n: nat, x: nat, y: nat)
    requires Above(n, x, y) && y < x && n < MAX_U64
    ensures y > 0 && Above(n, y, (y + n / y) % TWO_64 / 2)
  {
    NewtonStays(n, x, y);
    MeanAtMost(n, x);
    HalfStep(n, y);
  }

  /** A mean of two factors of at most `n` is at most half of `n + 1`. */
  lemma MeanAtMost(n: nat, x: nat)
    requires 0 < x <= n
    ensures 2 <= x + n / x <= n + 1
  {
    var q := n / x;
    assert n == q * x + n % x && q >= 1;
    assert (x - 1) * (q - 1) == q * x - x - q + 1;
    NonNegative(x - 1, q - 1);
  }

  lemma HalfStep(n: nat, y: nat)
    requires y > 0 && 2 * y <= n + 1 && n < MAX_U64
    ensures (y + n / y) % TWO_64 == y + n / y
  {
    if y == 1 {
      assert n / y == n;
    } else {
      assert n / y <= n / 2;
    }
  }

  lemma Stopped(n: nat, x: nat, y: nat)
    requires Above(n, x, y) && y >= x
    ensures x == FloorRoot(n)
  {
    NewtonStops(n, x);
    FloorRootUnique(x, n);
  }

  datatype Config = Config(quadratic: bool, cap: nat)

  function Effective(g: Config, raw: nat): nat {
    var power := if g.quadratic then FloorRoot(raw) else raw;
    if g.cap > 0 && power > g.cap then g.cap else power
  }

  method ComputeEffectivePower(g: Config, raw: uint64) returns (r: Root)
    ensures r == if g.quadratic && raw == MAX_U64 then DivisionByZero else Root(Effective(g, raw))
  {
    var power := raw;
    if g.quadratic {
      var root := Isqrt(power);
      if root.DivisionByZero? {
        return DivisionByZero;
      }
      power := root.value;
    }
    if g.cap > 0 && power > g.cap {
      power := g.cap;
    }
    return Root(power);
  }

  /** The transform never adds power, and orders voters as their raw power does. */
  lemma EffectiveTamesPower(g: Config, raw: nat, more: nat)
    requires raw <= more
    ensures Effective(g, raw) <= raw && Effective(g, raw) <= Effective(g, more)
  {
    RootAtMost(raw);
    RootMono(raw, more);
  }

  lemma RootAtMost(n: nat)
    ensures FloorRoot(n) <= n
  {
    var r := FloorRoot(n);
    if r > 0 {
      assert r * r == r + r * (r - 1);
      NonNegative(r, r - 1);
    }
  }

  lemma RootMono(m: nat, n: nat)
    requires m <= n
    ensures FloorRoot(m) <= FloorRoot(n)
  {
    var r, s := FloorRoot(m), FloorRoot(n);
    if r > s {
      SquareMono(s + 1, r);
      assert false;
    }
  }
}
