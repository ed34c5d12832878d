/** Bitwise long division on 32-byte words. */
module WordDivision {
  import opened Arithmetic
  import opened Bytes
  import opened Ordered
  import opened Word256

  // ---------------------------------------------------------------- bits of a word

  /** Bit `i` counted from the most significant one. */
  function Bit(w: Bytes, i: nat): nat
    requires i < 8 * |w|
  {
    w[i / 8] / Pow2(7 - i % 8) % 2
  }

  /** The first `j` bits of a byte. */
  function HighBits(x: byte, j: nat): nat
    requires j <= 8
  {
    NonNegativeQuotient(x, Pow2(8 - j));
    x / Pow2(8 - j)
  }

  /** The number spelled by the first `i` bits. */
  function TopBits(w: Bytes, i: nat): nat
    requires i <= 8 * |w|
  {
    NonNegative(Value(w[..i / 8]), Pow2(i % 8));
    Value(w[..i / 8]) * Pow2(i % 8) + if i % 8 == 0 then 0 else HighBits(w[i / 8], i % 8)
  }

  lemma HalfAgain(x: nat, p: nat)
    requires p > 0
    ensures x / p / 2 == x / (2 * p)
    ensures x / p == 2 * (x / (2 * p)) + x / p % 2
  {
    var q, r := x / p, x % p;
    assert q * p + r == x;
    TwoHalves(x, p, q, r, q / 2, q % 2);
  }

  lemma TwoHalves(x: nat, p: nat, q: nat, r: nat, h: nat, bit: nat)
    requires p > 0 && q * p + r == x && r < p && q == 2 * h + bit && bit <= 1
    ensures x / (2 * p) == h
  {
    assert (2 * h + bit) * p == h * (2 * p) + bit * p;
    DivModUnique(x, 2 * p, h, bit * p + r);
  }

  lemma TopBitsStep(w: Bytes, i: nat)
    requires i < 8 * |w|
    ensures TopBits(w, i + 1) == 2 * TopBits(w, i) + Bit(w, i)
  {
    NextBitPosition(i);
    if i % 8 < 7 {
      BitInsideByte(Value(w[..i / 8]), w[i / 8], i % 8);
    } else {
      assert w[..i / 8 + 1][..i / 8] == w[..i / 8];
      PowersOfTwo();
    }
  }

  lemma BitInsideByte(v: nat, x: byte, j: nat)
    requires j < 7
    ensures v * Pow2(j + 1) == 2 * (v * Pow2(j))
    ensures x / Pow2(7 - j) == (if j == 0 then 0 else 2 * (x / Pow2(8 - j))) + x / Pow2(7 - j) % 2
  {
    HalfAgain(x, Pow2(7 - j));
    if j == 0 {
      PowersOfTwo();
    }
  }

  lemma {:induction false} TopBitsAtMost(w: Bytes, i: nat)
    requires i <= 8 * |w|
    ensures TopBits(w, i) <= Value(w)
    decreases 8 * |w| - i
  {
    if i == 8 * |w| {
      AllBits(w);
    } else {
      TopBitsStep(w, i);
      TopBitsAtMost(w, i + 1);
    }
  }

  lemma AllBits(w: Bytes)
    ensures TopBits(w, 8 * |w|) == Value(w)
  {
    assert 8 * |w| / 8 == |w| && 8 * |w| % 8 == 0 && w[..|w|] == w;
    TimesOne(Value(w), Pow2(8 * |w| % 8));
  }

  lemma TimesOne(x: nat, p: nat)
    requires p == 1
    ensures x * p == x
  {
  }

  /** No bit is set from bit `i` on. */
  ghost predicate ClearFrom(w: Bytes, i: nat) {
    && (forall k | 0 <= k < |w| && k > i / 8 :: w[k] == 0)
    && (i / 8 < |w| ==> w[i / 8] % Pow2(8 - i % 8) == 0)
  }

  /** The bit the source sets with an or. */
  function SetBit(w: Word, i: nat): Word
    requires i < 256 && Bit(w, i) == 0
  {
    UnsetBitFits(w[i / 8], i % 8);
    w[i / 8 := w[i / 8] + Pow2(7 - i % 8)]
  }

  lemma UnsetBitFits(x: byte, j: nat)
    requires j < 8 && x / Pow2(7 - j) % 2 == 0
    ensures x + Pow2(7 - j) < 256
  {
    PowersOfTwo();
  }

  lemma PowersOfTwo()
    ensures Pow2(0) == 1 && Pow2(1) == 2 && Pow2(2) == 4 && Pow2(3) == 8 && Pow2(4) == 16
    ensures Pow2(5) == 32 && Pow2(6) == 64 && Pow2(7) == 128 && Pow2(8) == 256
  {
  }

  lemma ClearBitStays(w: Word, i: nat)
    requires i < 256 && ClearFrom(w, i)
    ensures Bit(w, i) == 0 && ClearFrom(w, i + 1)
    ensures TopBits(w, i + 1) == 2 * TopBits(w, i)
  {
    ClearByte(w[i / 8], i % 8);
    TopBitsStep(w, i);
    NextBitPosition(i);
  }

  lemma NextBitPosition(i: nat)
    ensures if i % 8 == 7 then (i + 1) / 8 == i / 8 + 1 && (i + 1) % 8 == 0
            else (i + 1) / 8 == i / 8 && (i + 1) % 8 == i % 8 + 1
  {
  }

  lemma ClearByte(x: byte, j: nat)
    requires j < 8 && x % Pow2(8 - j) == 0
    ensures x / Pow2(7 - j) % 2 == 0 && x % Pow2(7 - j) == 0
  {
    EvenMultiple(x, Pow2(7 - j));
  }

  lemma EvenMultiple(x: nat, p: nat)
    requires p > 0 && x % (2 * p) == 0
    ensures x / p % 2 == 0 && x % p == 0
  {
    var m := x / (2 * p);
    assert 2 * m * p == x;
    DivModUnique(x, p, 2 * m, 0);
  }

  lemma SetByte(x: byte, j: nat)
    requires j < 8 && x % Pow2(8 - j) == 0
    ensures x + Pow2(7 - j) < 256
    ensures (x + Pow2(7 - j)) / Pow2(8 - j) == x / Pow2(8 - j)
    ensures (x + Pow2(7 - j)) / Pow2(7 - j) % 2 == 1
    ensures (x + Pow2(7 - j)) % Pow2(7 - j) == 0
  {
    ClearByte(x, j);
    UnsetBitFits(x, j);
    OddMultiple(x, Pow2(7 - j));
  }

  lemma OddMultiple(x: nat, p: nat)
    requires p > 0 && x % (2 * p) == 0
    ensures (x + p) / (2 * p) == x / (2 * p) && (x + p) / p % 2 == 1 && (x + p) % p == 0
  {
    var m := x / (2 * p);
    assert m * (2 * p) == x;
    DivModUnique(x + p, 2 * p, m, p);
    assert (2 * m + 1) * p == x + p;
    DivModUnique(x + p, p, 2 * m + 1, 0);
  }

  lemma SetBitAppends(w: Word, i: nat)
    requires i < 256 && ClearFrom(w, i)
    ensures Bit(w, i) == 0 && ClearFrom(SetBit(w, i), i + 1)
    ensures TopBits(SetBit(w, i), i + 1) == 2 * TopBits(w, i) + 1
  {
    ClearByte(w[i / 8], i % 8);
    SetByte(w[i / 8], i % 8);
    var r := SetBit(w, i);
    SetBitClears(w, r, i, i / 8);
    assert r[..i / 8] == w[..i / 8];
    TopBitsStep(r, i);
  }

  lemma SetBitClears(w: Word, r: Word, i: nat, j: nat)
    requires i < 256 && j == i / 8 && ClearFrom(w, i)
    requires forall k | j < k < 32 :: r[k] == w[k]
    requires r[j] % Pow2(7 - i % 8) == 0
    ensures ClearFrom(r, i + 1)
  {
    NextBitPosition(i);
  }

  // ---------------------------------------------------------------- doubling the remainder

  /** The remainder shifted left by one bit. The carry out of the top byte is dropped. */
  method Double(w: Word) returns (r: Word)
    requires 2 * Value(w) < Modulus(w)
    ensures Value(r) == 2 * Value(w) && r[31] % 2 == 0
  {
    var carry: nat;
    r, carry := DoubleWithCarry(w);
    EvenLastByte(r, Value(w));
  }

  /** The bytes from `j` on have been doubled, `carry` being what was pushed out of them. */
  ghost predicate DoubledFrom(w: Word, r: Word, j: nat, carry: nat) {
    && j <= 32 && carry <= 1
    && (forall k | 0 <= k < j :: r[k] == w[k])
    && Tail(r, j) + carry * Pow256(|w| - j) == 2 * Tail(w, j)
  }

  /** The carry the source leaves behind after the top byte is always zero when the double fits. */
  method DoubleWithCarry(w: Word) returns (r: Word, carry: nat)
    ensures Value(r) + carry * Modulus(w) == 2 * Value(w)
    ensures 2 * Value(w) < Modulus(w) ==> carry == 0
  {
    r, carry := w, 0;
    NothingDoubled(w);
    var j := 32;
    while j > 0
      invariant 0 <= j <= 32 && DoubledFrom(w, r, j, carry)
    {
      j := j - 1;
      r, carry := DoubleOneByte(w, r, j, carry);
    }
    AllDoubled(w, r, carry);
    if 2 * Value(w) < Modulus(w) {
      CarryIsZero(Value(r), carry, Value(w), Modulus(w));
    }
  }

  lemma NothingDoubled(w: Word)
    ensures DoubledFrom(w, w, 32, 0)
  {
    WholeTail(w);
  }

  lemma AllDoubled(w: Word, r: Word, carry: nat)
    requires DoubledFrom(w, r, 0, carry)
    ensures Value(r) + carry * Modulus(w) == 2 * Value(w)
  {
    WholeTail(w);
    WholeTail(r);
  }

  method DoubleOneByte(w: Word, r: Word, j: nat, carry: nat) returns (r': Word, carry': nat)
    requires j < 32 && DoubledFrom(w, r, j + 1, carry)
    ensures DoubledFrom(w, r', j, carry')
  {
    DoubleByte(w, r, j, carry);
    var shifted := 2 * r[j] + carry;
    r' := r[j := shifted % 256];
    carry' := shifted / 256;
  }

  lemma EvenLastByte(r: Word, v: nat)
    requires Value(r) == 2 * v
    ensures r[31] % 2 == 0
  {
  }

  lemma DoubleByte(w: Word, r: Word, j: nat, carry: nat)
    requires j < 32 && carry <= 1 && r[j] == w[j]
    requires Tail(r, j + 1) + carry * Pow256(|w| - j - 1) == 2 * Tail(w, j + 1)
    ensures var s := 2 * r[j] + carry;
            Tail(r[j := s % 256], j) + s / 256 * Pow256(|w| - j) == 2 * Tail(w, j)
  {
    var s := 2 * r[j] + carry;
    assert r[j := s % 256][j + 1..] == r[j + 1..];
    ValueFront(w, j);
    ValueFront(r[j := s % 256], j);
    SplitDigit(s, Pow256(|w| - j - 1));
    DoubleSum(r[j], carry, Pow256(|w| - j - 1));
  }

  lemma DoubleSum(x: nat, carry: nat, p: nat)
    ensures (2 * x + carry) * p == 2 * (x * p) + carry * p
  {
  }

  lemma CarryIsZero(r: nat, carry: nat, v: nat, m: nat)
    requires r + carry * m == 2 * v && 2 * v < m
    ensures carry == 0
  {
    if carry > 0 {
      LessMono(1, carry, m);
    }
  }

  lemma OddLastByte(w: Word)
    requires w[31] % 2 == 0
    ensures w[31] + 1 < 256 && Value(w[31 := w[31] + 1]) == Value(w) + 1
  {
    assert w[31 := w[31] + 1][..31] == w[..31];
  }

  /** Shift the next bit of the dividend into the remainder. */
  method BringDown(remainder: Word, a: Word, i: nat) returns (r: Word)
    requires i < 256 && 2 * Value(remainder) + Bit(a, i) < Modulus(a)
    ensures Value(r) == 2 * Value(remainder) + Bit(a, i)
  {
    r := Double(remainder);
    if a[i / 8] / Pow2(7 - i % 8) % 2 == 1 {
      OddLastByte(r);
      r := r[31 := r[31] + 1];
    }
  }

  // ---------------------------------------------------------------- division

  /** After `i` bits: the bits taken so far are quotient times divisor plus remainder. */
  ghost predicate Divided(a: Word, b: Word, i: nat, q: nat, remainder: Word) {
    i <= 256 && Value(remainder) < Value(b) && TopBits(a, i) == q * Value(b) + Value(remainder)
  }

  /** The doubled remainder fits a word, so the shift loses nothing. */
  lemma RemainderFits(a: Word, b: Word, i: nat, q: nat, remainder: Word)
    requires i < 256 && Divided(a, b, i, q, remainder)
    ensures 2 * Value(remainder) + Bit(a, i) < Modulus(a)
  {
    NonNegative(q, Value(b));
    TopBitsStep(a, i);
    TopBitsAtMost(a, i + 1);
    WholeTail(a);
  }

  lemma QuotientBit(a: Word, b: Word, i: nat, q: nat, remainder: Word, v: nat)
    requires i < 256 && Divided(a, b, i, q, remainder) && v == 2 * Value(remainder) + Bit(a, i)
    ensures TopBits(a, i + 1) == 2 * q * Value(b) + v
    ensures v >= Value(b) ==> v - Value(b) < Value(b) && TopBits(a, i + 1) == (2 * q + 1) * Value(b) + (v - Value(b))
  {
    TopBitsStep(a, i);
    Redouble(Value(b), q, Value(remainder), Bit(a, i));
  }

  lemma Redouble(b: nat, q: nat, r: nat, bit: nat)
    ensures 2 * (q * b + r) + bit == 2 * q * b + (2 * r + bit)
    ensures 2 * q * b + b == (2 * q + 1) * b
    ensures bit <= 1 && r < b ==> 2 * r + bit - b < b
  {
  }

  method Div(a: Word, b: Word) returns (quotient: Word)
    ensures Value(b) == 0 ==> Value(quotient) == 0
    ensures Value(b) != 0 ==> Value(quotient) == Value(a) / Value(b)
  {
    ZeroValue(ZERO_DIGEST);
    var zero := IsZero(b);
    if zero {
      return ZERO_DIGEST;
    }
    quotient := ZERO_DIGEST;
    var remainder := ZERO_DIGEST;
    StartDivision(a, b);
    for i := 0 to 256
      invariant Divided(a, b, i, TopBits(quotient, i), remainder) && ClearFrom(quotient, i)
    {
      var ge: bool;
      remainder, ge := DivideBit(a, b, i, TopBits(quotient, i), remainder);
      if ge {
        SetBitAppends(quotient, i);
        quotient := SetBit(quotient, i);
      } else {
        ClearBitStays(quotient, i);
      }
    }
    AllBits(a);
    AllBits(quotient);
    DivModUnique(Value(a), Value(b), Value(quotient), Value(remainder));
  }

  lemma StartDivision(a: Word, b: Word)
    requires Value(b) > 0
    ensures Divided(a, b, 0, TopBits(ZERO_DIGEST, 0), ZERO_DIGEST) && ClearFrom(ZERO_DIGEST, 0)
  {
    ZeroValue(ZERO_DIGEST);
    assert a[..0] == [] && ZERO_DIGEST[..0] == [];
  }

  /** One turn of the division loop, up to the quotient bit. */
  method DivideBit(a: Word, b: Word, i: nat, ghost q: nat, remainder: Word) returns (r: Word, ge: bool)
    requires i < 256 && Divided(a, b, i, q, remainder)
    ensures Divided(a, b, i + 1, if ge then 2 * q + 1 else 2 * q, r)
  {
    RemainderFits(a, b, i, q, remainder);
    r := BringDown(remainder, a, i);
    QuotientBit(a, b, i, q, remainder, Value(r));
    var less := Lt(r, b);
    ge := !less;
    if ge {
      r := Sub(r, b);
    }
  }

  method Mod(a: Word, b: Word) returns (remainder: Word)
    ensures Value(b) == 0 ==> Value(remainder) == 0
    ensures Value(b) != 0 ==> Value(remainder) == Value(a) % Value(b)
  {
    ZeroValue(ZERO_DIGEST);
    var zero := IsZero(b);
    if zero {
      return ZERO_DIGEST;
    }
    remainder := ZERO_DIGEST;
    ghost var q: nat := 0;
    StartDivision(a, b);
    for i := 0 to 256
      invariant Divided(a, b, i, q, remainder)
    {
      var ge: bool;
      remainder, ge := DivideBit(a, b, i, q, remainder);
      q := if ge then 2 * q + 1 else 2 * q;
    }
    AllBits(a);
    DivModUnique(Value(a), Value(b), q, Value(remainder));
  }
}
