/** 32-byte words: their numeric reading, addition, subtraction, order and shifts. */
module Word256 {
  import opened Arithmetic
  import opened Bytes
  import opened Ordered

  type Word = Digest

  function Pow2(k: nat): (r: nat)
    ensures r > 0
  {
    if k == 0 then 1 else 2 * Pow2(k - 1)
  }

  /** Words represent numbers modulo this power of two. */
  function Modulus(w: Word): (m: nat)
    ensures m > 0
  {
    Pow256(|w|)
  }

  /** The number a big-endian byte string spells. */
  function Value(s: Bytes): (v: nat)
    decreases |s|
  {
    if s == [] then 0 else Value(s[..|s| - 1]) * 256 + s[|s| - 1]
  }

  lemma {:induction false} ValueBound(s: Bytes)
    ensures Value(s) < Pow256(|s|)
    decreases |s|
  {
    if s != [] {
      ValueBound(s[..|s| - 1]);
    }
  }

  lemma {:induction false} ValueConcat(a: Bytes, b: Bytes)
    ensures Value(a + b) == Value(a) * Pow256(|b|) + Value(b)
    decreases |b|
  {
    if b == [] {
      assert a + b == a;
    } else {
      var last := |b| - 1;
      assert (a + b)[..|a + b| - 1] == a + b[..last];
      ValueConcat(a, b[..last]);
      ConcatStep(Value(a), Pow256(last), Value(b[..last]), b[last]);
    }
  }

  lemma ConcatStep(x: nat, p: nat, y: nat, d: nat)
    ensures (x * p + y) * 256 + d == x * (256 * p) + (y * 256 + d)
  {
  }

  /** Taking one more byte at the front. */
  lemma ValueFront(s: Bytes, i: nat)
    requires i < |s|
    ensures Tail(s, i) == s[i] * Pow256(|s| - i - 1) + Tail(s, i + 1)
  {
    assert s[i..] == [s[i]] + s[i + 1..];
    assert Value([s[i]]) == s[i] by {
      assert [s[i]][..0] == [];
    }
    ValueConcat([s[i]], s[i + 1..]);
  }

  // ---------------------------------------------------------------- addition and subtraction

  method Add(a: Word, b: Word) returns (result: Word)
    ensures Value(result) == (Value(a) + Value(b)) % Modulus(a)
  {
    result := ZERO_DIGEST;
    var carry: nat := 0;
    var i: nat := |a|;
    NothingAdded(a, b, i, carry);
    while i > 0
      invariant AddedFrom(a, b, result, i, carry)
    {
      i := i - 1;
      result, carry := AddByteAt(a, b, result, i, carry);
    }
    AllAdded(a, b, result, i, carry);
  }

  method AddByteAt(a: Word, b: Word, r: Word, i: nat, carry: nat) returns (r': Word, carry': nat)
    requires i < 32 && AddedFrom(a, b, r, i + 1, carry)
    ensures AddedFrom(a, b, r', i, carry')
  {
    AddByte(a, b, r, i, carry);
    var sum: nat := a[i] + b[i] + carry;
    r', carry' := r[i := sum % 256], sum / 256;
  }

  /** The bytes from `i` on have been added, with `carry` to go into the next. */
  ghost predicate AddedFrom(a: Word, b: Word, r: Word, i: nat, carry: nat) {
    i <= 32 && carry <= 1 && Tail(r, i) + carry * Pow256(|a| - i) == Tail(a, i) + Tail(b, i)
  }

  lemma NothingAdded(a: Word, b: Word, i: nat, carry: nat)
    requires i == |a| && carry == 0
    ensures AddedFrom(a, b, ZERO_DIGEST, i, carry)
  {
    WholeTail(a);
    WholeTail(b);
    WholeTail(ZERO_DIGEST);
  }

  lemma {:induction false} AllAdded(a: Word, b: Word, r: Word, i: nat, carry: nat)
    requires i == 0 && AddedFrom(a, b, r, i, carry)
    ensures Value(r) == (Value(a) + Value(b)) % Modulus(a)
  {
    var sum, m := AddedInAll(a, b, r, i, carry);
    Carried(sum, Value(r), carry, m);
  }

  lemma AddedInAll(a: Word, b: Word, r: Word, i: nat, carry: nat) returns (sum: nat, m: nat)
    requires i == 0 && AddedFrom(a, b, r, i, carry)
    ensures sum == Value(a) + Value(b) && m == Modulus(a) && Value(r) < m && Value(r) + carry * m == sum
  {
    sum := Value(a) + Value(b);
    WholeTail(a);
    WholeTail(b);
    WholeTail(r);
    m := Pow256(|a| - i);
  }

  /** The value of the bytes from `i` on. */
  function Tail(s: Bytes, i: nat): nat
    requires i <= |s|
  {
    Value(s[i..])
  }

  lemma WholeTail(s: Bytes)
    ensures Tail(s, 0) == Value(s) && Tail(s, |s|) == 0 && Value(s) < Pow256(|s|)
  {
    assert s[0..] == s;
    ValueBound(s);
  }

  lemma Carried(n: nat, r: nat, carry: nat, m: nat)
    requires r < m && r + carry * m == n
    ensures r == n % m
  {
    DivModUnique(n, m, carry, r);
  }

  lemma AddByte(a: Word, b: Word, r: Word, i: nat, carry: nat)
    requires i < 32 && AddedFrom(a, b, r, i + 1, carry)
    ensures var sum := a[i] + b[i] + carry; AddedFrom(a, b, r[i := sum % 256], i, sum / 256)
  {
    var sum := a[i] + b[i] + carry;
    assert r[i := sum % 256][i + 1..] == r[i + 1..];
    ValueFront(a, i);
    ValueFront(b, i);
    ValueFront(r[i := sum % 256], i);
    AddStep(Pow256(|a| - i - 1), a[i], b[i], carry, Tail(a, i + 1), Tail(b, i + 1), Tail(r, i + 1));
  }

  lemma AddStep(p: nat, x: nat, y: nat, carry: nat, a: nat, b: nat, r: nat)
    requires r + carry * p == a + b
    ensures (x + y + carry) % 256 * p + r + (x + y + carry) / 256 * (256 * p) == x * p + a + (y * p + b)
  {
    var s := x + y + carry;
    assert s == s % 256 + s / 256 * 256;
    SplitDigit(s, p);
    assert s * p == x * p + y * p + carry * p;
  }

  lemma SplitDigit(s: nat, p: nat)
    ensures s % 256 * p + s / 256 * (256 * p) == s * p
  {
    var q, d := s / 256, s % 256;
    assert s == d + q * 256;
    assert (d + q * 256) * p == d * p + q * (256 * p);
  }

  method Sub(a: Word, b: Word) returns (result: Word)
    ensures Value(result) == (Value(a) - Value(b)) % Modulus(a)
    ensures Value(b) <= Value(a) ==> Value(result) == Value(a) - Value(b)
  {
    result := ZERO_DIGEST;
    var borrow: nat := 0;
    var i: nat := |a|;
    NothingTaken(a, b, i, borrow);
    while i > 0
      invariant TakenFrom(a, b, result, i, borrow)
    {
      i := i - 1;
      var diff: int := a[i] - b[i] - borrow;
      var owed: nat := if diff < 0 then 1 else 0;
      SubByte(a, b, result, i, borrow, owed);
      result := result[i := diff + 256 * owed];
      borrow := owed;
    }
    AllTaken(a, b, result, i, borrow);
  }

  /** The bytes from `i` on have been subtracted, with `borrow` owed by the next. */
  ghost predicate TakenFrom(a: Word, b: Word, r: Word, i: nat, borrow: nat) {
    i <= 32 && borrow <= 1 && Tail(r, i) + Tail(b, i) == Tail(a, i) + borrow * Pow256(|a| - i)
  }

  lemma NothingTaken(a: Word, b: Word, i: nat, borrow: nat)
    requires i == |a| && borrow == 0
    ensures TakenFrom(a, b, ZERO_DIGEST, i, borrow)
  {
    WholeTail(a);
    WholeTail(b);
    WholeTail(ZERO_DIGEST);
  }

  lemma {:induction false} AllTaken(a: Word, b: Word, r: Word, i: nat, borrow: nat)
    requires i == 0 && TakenFrom(a, b, r, i, borrow)
    ensures Value(r) == (Value(a) - Value(b)) % Modulus(a)
    ensures Value(b) <= Value(a) ==> Value(r) == Value(a) - Value(b)
  {
    var m := TakenInAll(a, b, r, i, borrow);
    Borrowed(Value(a), Value(b), Value(r), borrow, m);
  }

  lemma TakenInAll(a: Word, b: Word, r: Word, i: nat, borrow: nat) returns (m: nat)
    requires i == 0 && TakenFrom(a, b, r, i, borrow)
    ensures m == Modulus(a) && borrow <= 1 && Value(a) < m && Value(r) < m
    ensures Value(r) + Value(b) == Value(a) + borrow * m
  {
    WholeTail(a);
    WholeTail(b);
    WholeTail(r);
    m := Pow256(|a| - i);
  }

  lemma Borrowed(a: nat, b: nat, r: nat, borrow: nat, m: nat)
    requires a < m && r < m && borrow <= 1 && r + b == a + borrow * m
    ensures r == (a - b) % m && (b <= a ==> r == a - b)
  {
    assert (0 - borrow) * m + r == a - b;
    DivModUnique(a - b, m, 0 - borrow, r);
  }

  lemma SubByte(a: Word, b: Word, r: Word, i: nat, borrow: nat, borrow': nat)
    requires i < 32 && borrow' <= 1 && 0 <= a[i] - b[i] - borrow + 256 * borrow' < 256
    requires TakenFrom(a, b, r, i + 1, borrow)
    ensures TakenFrom(a, b, r[i := a[i] - b[i] - borrow + 256 * borrow'], i, borrow')
  {
    var r' := r[i := a[i] - b[i] - borrow + 256 * borrow'];
    assert r'[i + 1..] == r[i + 1..];
    ValueFront(a, i);
    ValueFront(b, i);
    ValueFront(r', i);
    SubStep(Pow256(|a| - i - 1), a[i], b[i], borrow, borrow', Tail(a, i + 1), Tail(b, i + 1), Tail(r, i + 1));
  }

  lemma SubStep(p: nat, x: nat, y: nat, borrow: nat, borrow': nat, a: nat, b: nat, r: nat)
    requires r + b == a + borrow * p
    requires x - y - borrow + 256 * borrow' >= 0
    ensures (x - y - borrow + 256 * borrow') * p + r + (y * p + b) == x * p + a + borrow' * (256 * p)
  {
  }

  // ---------------------------------------------------------------- order

  method Lt(a: Word, b: Word) returns (less: bool)
    ensures less <==> Value(a) < Value(b)
  {
    for i := 0 to 32
      invariant a[..i] == b[..i]
    {
      if a[i] < b[i] {
        FirstDifference(a, b, i);
        return true;
      }
      if a[i] > b[i] {
        FirstDifference(b, a, i);
        return false;
      }
      assert a[..i + 1] == a[..i] + [a[i]] && b[..i + 1] == b[..i] + [b[i]];
    }
    assert a == a[..32] && b == b[..32];
    return false;
  }

  lemma FirstDifference(a: Word, b: Word, i: nat)
    requires i < 32 && a[..i] == b[..i] && a[i] < b[i]
    ensures Value(a) < Value(b)
  {
    SplitAt(a, i);
    SplitAt(b, i);
    ValueBound(a[i + 1..]);
    LessDigit(a[i], b[i], Pow256(|a| - i - 1), Tail(a, i + 1), Tail(b, i + 1));
  }

  /** A word as the part before a byte, the byte, and the part after it. */
  lemma SplitAt(a: Word, i: nat)
    requires i < 32
    ensures Value(a) == Value(a[..i]) * Pow256(|a| - i) + (a[i] * Pow256(|a| - i - 1) + Tail(a, i + 1))
  {
    assert a == a[..i] + a[i..];
    ValueConcat(a[..i], a[i..]);
    ValueFront(a, i);
  }

  lemma LessDigit(x: nat, y: nat, p: nat, a: nat, b: nat)
    requires x < y && a < p
    ensures x * p + a < y * p + b
  {
    LessMono(x + 1, y, p);
    assert (x + 1) * p == x * p + p;
  }

  method IsZero(a: Word) returns (zero: bool)
    ensures zero <==> Value(a) == 0
  {
    for i := 0 to 32
      invariant a[..i] == ZERO_DIGEST[..i]
    {
      if a[i] != 0 {
        NonZeroByte(a, i);
        return false;
      }
      assert a[..i + 1] == a[..i] + [a[i]] && ZERO_DIGEST[..i + 1] == ZERO_DIGEST[..i] + [0];
    }
    assert a == ZERO_DIGEST;
    ZeroValue(a);
    return true;
  }

  lemma NonZeroByte(a: Word, i: nat)
    requires i < 32 && a[i] > 0
    ensures Value(a) > 0
  {
    SplitAt(a, i);
    LessDigit(0, a[i], Pow256(|a| - i - 1), 0, Tail(a, i + 1));
    LessMono(0, Value(a[..i]), Pow256(|a| - i));
  }

  lemma {:induction false} ZeroValue(s: Bytes)
    requires forall i | 0 <= i < |s| :: s[i] == 0
    ensures Value(s) == 0
    decreases |s|
  {
    if s != [] {
      ZeroValue(s[..|s| - 1]);
    }
  }
}
