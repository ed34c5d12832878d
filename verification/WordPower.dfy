/** The machine's exponentiation: when its early exit changes the answer, and when the answer is a power. */
module WordPower {
  import opened Arithmetic
  import opened Bytes
  import opened Ordered
  import opened Word256
  import opened WordShift
  import opened Squaring
  import opened VmWords

  // ---------------------------------------------------------------- the loop

  /** Bit `i` counted from the least significant one. */
  predicate LowBit(w: Word, i: nat)
    requires i < 256
  {
    w[31 - i / 8] / Pow2(i % 8) % 2 == 1
  }

  function Bits(e: Word): (bits: seq<bool>)
    ensures |bits| == 8 * |e| && forall i | 0 <= i < |bits| :: bits[i] <==> LowBit(e, i)
  {
    seq(256, i requires 0 <= i < 256 => LowBit(e, i))
  }

  function Words(): Products<Word> {
    Products(MulWord, ZERO_DIGEST, ToWord(1))
  }

  function ExpWord(base: Word, e: Word): Word {
    if Value(e) == 0 then ToWord(1)
    else if Value(base) == 0 then ZERO_DIGEST
    else Loop(Words(), Bits(e), 0, ToWord(1), base)
  }

  /** The squares the exponent's bits choose, multiplied together with no early exit. */
  function PlainPower(base: Word, e: Word): Word {
    Chosen(Words(), base, Bits(e), |Bits(e)|)
  }

  /** The plain product, unless a square is zero while the product so far is not and the exponent has a
      later bit: then that product so far. */
  method Exp(base: Word, e: Word) returns (result: Word)
    ensures result == ExpWord(base, e)
    ensures (forall n: nat :: !ExitBites(Words(), base, Bits(e), n)) ==> result == PlainPower(base, e)
    ensures forall n: nat | ExitBites(Words(), base, Bits(e), n) :: result == Chosen(Words(), base, Bits(e), n)
  {
    ExitsMatterExactly(base, e);
    forall n: nat | ExitBites(Words(), base, Bits(e), n)
      ensures ExpWord(base, e) == Chosen(Words(), base, Bits(e), n)
    {
      ExitAnswers(base, e, n);
    }
    result := ToUint256(1);
    var zero := IsZero(e);
    if zero {
      return;
    }
    zero := IsZero(base);
    if zero {
      return ZERO_DIGEST;
    }
    result := ExpLoop(base, e, result, Words(), Bits(e));
  }

  method ExpLoop(base: Word, e: Word, one: Word, ghost g: Products<Word>, ghost bits: seq<bool>)
    returns (result: Word)
    requires g == Words() && bits == Bits(e) && one == g.one
    ensures result == Loop(g, bits, 0, one, base)
  {
    result := one;
    var current := base;
    var i: nat := 0;
    while i < 256
      invariant i <= 256 && Loop(g, bits, i, result, current) == Loop(g, bits, 0, one, base)
    {
      var leave: bool;
      result, current, leave := ExpTurn(e, i, result, current, one, g, bits);
      if leave {
        return;
      }
      i := i + 1;
    }
  }

  /** One turn of the loop: multiply where the bit is set, square, and see whether to leave. */
  method ExpTurn(e: Word, i: nat, result: Word, current: Word, one: Word, ghost g: Products<Word>, ghost bits: seq<bool>)
    returns (r: Word, square: Word, leave: bool)
    requires g == Words() && bits == Bits(e) && one == g.one && i < |bits|
    ensures Loop(g, bits, i, result, current) == if leave then r else Loop(g, bits, i + 1, r, square)
  {
    r := result;
    if e[31 - i / 8] / Pow2(i % 8) % 2 == 1 {
      r := Mul(r, current);
    }
    square := Mul(current, current);
    leave := IsZero(square);
    SameZero(square);
    TurnOf(g, bits, i, result, current, r, square);
    leave := leave || (square == one && r != one);
  }

  lemma TurnOf(g: Products<Word>, bits: seq<bool>, i: nat, result: Word, base: Word, r: Word, square: Word)
    requires i < |bits| && r == (if bits[i] then g.mul(result, base) else result) && square == g.mul(base, base)
    ensures Loop(g, bits, i, result, base)
            == if square == g.zero || (square == g.one && r != g.one) then r else Loop(g, bits, i + 1, r, square)
  {
  }

  // ---------------------------------------------------------------- bits of a word

  /** A bit of a word is a bit of its value. */
  lemma BitOfValue(w: Word, i: nat)
    requires i < 256
    ensures LowBit(w, i) <==> Value(w) / Pow2(i) % 2 == 1
  {
    BitAt(w, i, i / 8, i % 8);
  }

  lemma BitAt(w: Word, i: nat, k: nat, r: nat)
    requires k < 32 && r < 8 && i == 8 * k + r
    ensures Value(w) / Pow2(i) % 2 == w[31 - k] / Pow2(r) % 2
  {
    BytesAbove(w, k);
    Pow2Add(8 * k, r);
    DivTwice(Value(w), Pow2(8 * k), Pow2(r));
    BitOfByte(Value(w[..31 - k]), w[31 - k], r);
  }

  lemma BytesAbove(w: Word, k: nat)
    requires k < 32
    ensures Value(w) / Pow2(8 * k) == Value(w[..31 - k]) * 256 + w[31 - k]
  {
    Pow256IsPow2(k);
    HighBytes(w, 32 - k);
    assert w[..32 - k][..31 - k] == w[..31 - k];
  }

  lemma BitOfByte(high: nat, d: byte, r: nat)
    requires r < 8
    ensures (high * 256 + d) / Pow2(r) % 2 == d / Pow2(r) % 2
  {
    Pow2Add(r + 1, 7 - r);
    assert Pow2(8) == 256;
    BitOfDigit(high, d, Pow2(r), Pow2(7 - r));
  }

  lemma BitOfDigit(high: nat, d: byte, p: nat, q: nat)
    requires p > 0 && q > 0 && 2 * p * q == 256
    ensures (high * 256 + d) / p % 2 == d / p % 2
  {
    assert d / p * p + d % p == d;
    NonNegative(high, q);
    EvenAbove(high, d, p, q, d / p, d % p, high * q);
  }

  lemma EvenAbove(high: nat, d: nat, p: nat, q: nat, x: nat, r: nat, k: nat)
    requires p > 0 && 2 * p * q == 256 && x * p + r == d && r < p && k == high * q
    ensures (high * 256 + d) / p == 2 * k + x
  {
    assert high * (2 * p * q) == 2 * k * p;
    DivModUnique(high * 256 + d, p, 2 * k + x, r);
  }

  /** The low `n` bits spell the value modulo two to the `n`. */
  lemma {:induction false} BitsSpell(e: Word, bits: seq<bool>, n: nat)
    requires bits == Bits(e) && n <= |bits|
    ensures Number(bits, n) == Value(e) % Pow2(n)
    decreases n
  {
    if n == 0 {
      assert Pow2(n) == 1;
    } else {
      BitsSpell(e, bits, n - 1);
      BitOfValue(e, n - 1);
      DoubleModulus(Value(e), Pow2(n - 1));
    }
  }

  lemma DoubleModulus(v: nat, p: nat)
    requires p > 0
    ensures v % (2 * p) == v % p + if v / p % 2 == 1 then p else 0
  {
    var q, r := v / p, v % p;
    assert q * p + r == v;
    var h, b := q / 2, q % 2;
    assert q == 2 * h + b;
    assert (2 * h + b) * p == h * (2 * p) + b * p;
    DivModUnique(v, 2 * p, h, b * p + r);
  }

  lemma AllBitsSpell(e: Word)
    ensures Number(Bits(e), |Bits(e)|) == Value(e)
  {
    BitsSpell(e, Bits(e), |Bits(e)|);
    WholeTail(e);
    Pow256IsPow2(|e|);
    SmallMod(Value(e), Pow2(8 * |e|));
  }

  lemma NoHighBits(e: Word, n: nat)
    requires Value(e) < Pow2(n)
    ensures n <= |Bits(e)| ==> true !in Bits(e)[n..]
  {
    if n <= |Bits(e)| {
      forall i | n <= i < |Bits(e)| ensures !Bits(e)[i] {
        BitOfValue(e, i);
        Pow2Mono(n, i);
        DivModUnique(Value(e), Pow2(i), 0, Value(e));
      }
    }
  }

  // ---------------------------------------------------------------- the machine's product

  lemma SameValue(a: Word, b: Word)
    ensures a == b <==> Value(a) == Value(b)
  {
    NumberSpelled(a);
    NumberSpelled(b);
  }

  lemma SameZero(w: Word)
    ensures w == ZERO_DIGEST <==> Value(w) == 0
  {
    ZeroValue(ZERO_DIGEST);
    SameValue(w, ZERO_DIGEST);
  }

  lemma OneSpelled()
    ensures Value(ToWord(1)) == 1 && ToWord(1) == ONE
  {
    OneValue();
    SpelledExactly(ONE, 1);
  }

  lemma TimesZero(a: Word)
    ensures MulWord(a, ZERO_DIGEST) == ZERO_DIGEST
  {
    ZeroValue(ZERO_DIGEST);
    MulByByte(a, ZERO_DIGEST);
    SmallMod(0, Modulus(a));
    SameZero(MulWord(a, ZERO_DIGEST));
  }

  lemma TimesOne(a: Word, one: Word)
    requires Value(one) == 1
    ensures MulWord(a, one) == a
  {
    MulByByte(a, one);
    ValueBound(a);
    SmallMod(Value(a), Modulus(a));
    assert Value(a) * Value(one) == Value(a);
    SameValue(MulWord(a, one), a);
  }

  lemma WordsLawful(g: Products<Word>)
    requires g == Words()
    ensures Lawful(g)
  {
    OneSpelled();
    SameZero(g.one);
    forall x ensures g.mul(x, g.zero) == g.zero {
      TimesZero(x);
    }
    forall x ensures g.mul(x, g.one) == x {
      TimesOne(x, g.one);
    }
  }

  lemma WordsRightByBytes(g: Products<Word>, val: Word -> nat, m: nat)
    requires g == Words() && m == Pow256(|g.zero|) && forall x: Word :: val(x) == Value(x)
    ensures RightByBytes(g, val, m)
  {
    OneSpelled();
    TwoBytesFit(|g.zero|);
    forall x: Word ensures val(x) < m && (val(x) == 0 <==> x == g.zero) {
      ValueBound(x);
      SameZero(x);
    }
    forall x: Word, y: Word | val(y) < 256 ensures val(g.mul(x, y)) == val(x) * val(y) % m {
      MulByByte(x, y);
    }
  }

  lemma TwoBytesFit(n: nat)
    requires n >= 2
    ensures Pow256(n) >= 0x1_0000
  {
    Pow256Add(n - 2, 2);
    assert Pow256(2) == 0x1_0000;
    LessMono(1, Pow256(n - 2), 0x1_0000);
  }

  // ---------------------------------------------------------------- what the answer is

  /** The early exits change the answer exactly when some square is the first to be zero, the exponent
      has a later bit that would have multiplied it in, and the product so far is not zero. */
  lemma ExitsMatterExactly(base: Word, e: Word)
    ensures ExpWord(base, e) != PlainPower(base, e) <==> exists n :: ExitBites(Words(), base, Bits(e), n)
  {
    var g, bits := Words(), Bits(e);
    WordsLawful(g);
    SameZero(base);
    if Value(e) == 0 {
      NoHighBits(e, 0);
      NoBitsAbove(g, base, bits, 0, |bits|);
      forall n: nat ensures !ExitBites(g, base, bits, n) {
        if 0 < n < |bits| {
          assert bits[n..] == bits[0..][n..];
        }
      }
    } else if Value(base) == 0 {
      ZeroBase(g, base, bits);
      AllBitsSpell(e);
      if true !in bits[0..] {
        NoBitsAbove(g, base, bits, 0, |bits|);
      }
    } else {
      EarlyExitMattersExactly(g, base, bits, 0);
    }
  }

  lemma ExitAnswers(base: Word, e: Word, n: nat)
    requires ExitBites(Words(), base, Bits(e), n)
    ensures ExpWord(base, e) == Chosen(Words(), base, Bits(e), n)
  {
    WordsLawful(Words());
    SameZero(base);
    if Value(e) == 0 {
      NoHighBits(e, n);
    } else if Value(base) == 0 {
      ZeroBase(Words(), base, Bits(e));
    } else {
      LeavesWith(Words(), base, Bits(e), 0, n);
    }
  }

  lemma ZeroBase(g: Products<Word>, base: Word, bits: seq<bool>)
    requires Lawful(g) && base == g.zero
    ensures Chosen(g, base, bits, |bits|) == if true in bits[0..] then g.zero else g.one
    ensures forall n :: !ExitBites(g, base, bits, n)
  {
    AfterZero(g, base, bits, 0, |bits|);
    assert bits[0..|bits|] == bits[0..];
    forall n: nat ensures !ExitBites(g, base, bits, n) {
      if n > 0 {
        SquaresStay(g, base, 0, n - 1);
      }
    }
  }

  /** The answer is the power modulo 2^256 as long as the square for the exponent's highest bit fits a
      byte. */
  lemma ExpIsPower(base: Word, e: Word, k: nat)
    requires Pow(Value(base), Pow2(k)) < 256 && Value(e) < Pow2(k + 1)
    ensures Value(ExpWord(base, e)) == Pow(Value(base), Value(e)) % Modulus(e)
  {
    if Value(e) == 0 {
      OneSpelled();
      ByteIsSmall(1, e);
    } else if Value(base) == 0 {
      ZeroValue(ZERO_DIGEST);
      SmallMod(0, Modulus(e));
      PowOfZero(Value(base), Value(e));
    } else {
      PowerByLoop(base, e, k, Words(), (w: Word) => Value(w), Modulus(e), Bits(e));
    }
  }

  lemma PowOfZero(b: nat, n: nat)
    requires b == 0 && n > 0
    ensures Pow(b, n) == 0
  {
  }

  lemma PowerByLoop(base: Word, e: Word, k: nat, g: Products<Word>, val: Word -> nat, m: nat, bits: seq<bool>)
    requires g == Words() && bits == Bits(e) && m == Modulus(e) && forall x: Word :: val(x) == Value(x)
    requires Value(base) != 0 && Pow(Value(base), Pow2(k)) < 256 && Value(e) < Pow2(k + 1)
    ensures Value(Loop(g, bits, 0, g.one, base)) == Pow(Value(base), Value(e)) % m
  {
    WordsLawful(g);
    WordsRightByBytes(g, val, m);
    SameZero(base);
    NoHighBits(e, k + 1);
    AllBitsSpell(e);
    PowerLaw(g, val, m, base, bits, k);
  }

  // ---------------------------------------------------------------- where it is not

  lemma {:induction false} BitOfPower(n: nat, i: nat)
    ensures Pow2(n) / Pow2(i) % 2 == 1 <==> i == n
  {
    if i < n {
      Pow2Add(n - i, i);
      DivModUnique(Pow2(n), Pow2(i), 2 * Pow2(n - i - 1), 0);
    } else if i == n {
      DivModUnique(Pow2(n), Pow2(i), 1, 0);
    } else {
      Pow2Mono(n + 1, i);
      DivModUnique(Pow2(n), Pow2(i), 0, Pow2(n));
    }
  }

  /** An exponent that is a power of two multiplies one square into one, which keeps its last byte only. */
  lemma SingleBit(base: Word, e: Word, n: nat, g: Products<Word>)
    requires g == Words() && n < 256 && Value(e) == Pow2(n)
    requires forall i | 0 <= i <= n :: Squared(g, base, i) != ZERO_DIGEST
    ensures Value(ExpWord(base, e)) == Squared(g, base, n)[31]
  {
    WordsLawful(g);
    OneSpelled();
    assert Squared(g, base, 0) != ZERO_DIGEST;
    SameZero(base);
    forall i: nat | i < 256 ensures LowBit(e, i) <==> i == n {
      BitOfValue(e, i);
      BitOfPower(n, i);
    }
    OneBit(g, base, Bits(e), n);
    MulOfOne(g.one, Squared(g, base, n));
  }

  lemma {:induction false} PowAtLeast(b: nat, n: nat)
    requires b >= 2
    ensures Pow(b, n) >= Pow2(n)
    decreases n
  {
    if n > 0 {
      PowAtLeast(b, n - 1);
      LessMono(2, b, Pow(b, n - 1));
    }
  }

  /** The last square of a byte that still fits a byte. */
  lemma LastByteSquare(b: nat) returns (k: nat)
    requires 2 <= b < 256
    ensures k <= 2 && Pow(b, Pow2(k)) < 256 <= Pow(b, Pow2(k + 1))
  {
    PowOne(b, Pow2(0));
    PowAtLeast(b, Pow2(3));
    assert Pow2(3) == 8 && Pow2(8) == 256;
    k := 0;
    while k < 2 && Pow(b, Pow2(k + 1)) < 256
      invariant k <= 2 && Pow(b, Pow2(k)) < 256
    {
      k := k + 1;
    }
  }

  lemma WideSquareLost(base: Word, e: Word, k: nat, g: Products<Word>, val: Word -> nat)
    requires g == Words() && forall x: Word :: val(x) == Value(x)
    requires k < 255 && Value(e) == Pow2(k + 1)
    requires Value(base) > 0 && Pow(Value(base), Pow2(k)) < 256 <= Pow(Value(base), Pow2(k + 1))
    ensures Value(ExpWord(base, e)) == Pow(Value(base), Value(e)) % 256
    ensures Pow(Value(base), Value(e)) % Modulus(e) == Pow(Value(base), Value(e))
  {
    WordsRightByBytes(g, val, Modulus(e));
    forall i: nat | i <= k + 1 ensures Squared(g, base, i) != ZERO_DIGEST {
      SquaresRight(g, val, Modulus(e), base, k, i);
      PowPositive(Value(base), Pow2(i));
      SameZero(Squared(g, base, i));
    }
    SingleBit(base, e, k + 1, g);
    SquaresRight(g, val, Modulus(e), base, k, k + 1);
    ValueBound(Squared(g, base, k + 1));
    SmallMod(Pow(Value(base), Pow2(k + 1)), Modulus(e));
    LastByteOfValue(Squared(g, base, k + 1));
  }

  lemma LastByteOfValue(w: Word)
    ensures Value(w) % 256 == w[31]
  {
  }

  lemma SpelledSmall(n: nat)
    requires n < 0x1_0000
    ensures Value(ToWord(n)) == n
  {
    TwoBytesFit(|ZERO_DIGEST|);
    SpelledBelow(n, Pow256(|ZERO_DIGEST|));
  }

  /** The machine computes powers of zero and one rightly, and of no other base for every exponent. */
  lemma ExpRightExactly(base: Word)
    ensures (forall e: Word :: Value(ExpWord(base, e)) == Pow(Value(base), Value(e)) % Modulus(e)) <==> Value(base) <= 1
  {
    if Value(base) <= 1 {
      forall e: Word ensures Value(ExpWord(base, e)) == Pow(Value(base), Value(e)) % Modulus(e) {
        PowOfBit(Value(base), Pow2(8 * |e| - 1));
        ValueBound(e);
        Pow256IsPow2(|e|);
        ExpIsPower(base, e, 8 * |e| - 1);
      }
    } else {
      var e := WrongExponent(base);
    }
  }

  lemma {:induction false} PowOfBit(b: nat, n: nat)
    requires b <= 1
    ensures Pow(b, n) <= 1
    decreases n
  {
    if n > 0 {
      PowOfBit(b, n - 1);
    }
  }

  lemma WrongExponent(base: Word) returns (e: Word)
    requires Value(base) > 1
    ensures Value(ExpWord(base, e)) < 256 <= Pow(Value(base), Value(e)) % Modulus(e)
  {
    if Value(base) >= 256 {
      e := ONE;
      OneValue();
      assert Pow2(0) == 1;
      SameZero(base);
      assert Squared(Words(), base, 0) == base;
      SingleBit(base, e, 0, Words());
      PowOne(Value(base), Value(e));
      ValueBound(base);
      SmallMod(Value(base), Modulus(e));
    } else {
      var k := LastByteSquare(Value(base));
      Pow2Mono(k + 1, 3);
      assert Pow2(3) == 8;
      SpelledSmall(Pow2(k + 1));
      e := ToWord(Pow2(k + 1));
      WideSquareLost(base, e, k, Words(), (w: Word) => Value(w));
    }
  }

  /** Two to the eighth comes out as 0 instead of 256, and 256 squared as 1 instead of 65536. */
  lemma SmallPowersWrong()
    ensures var two, eight := ZERO_DIGEST[31 := 2], ZERO_DIGEST[31 := 8];
            && Value(two) == 2 && Value(eight) == 8
            && Value(ExpWord(two, eight)) == 0 && Pow(2, 8) % Modulus(eight) == 256
    ensures var two, wide := ZERO_DIGEST[31 := 2], ZERO_DIGEST[30 := 1];
            && Value(two) == 2 && Value(wide) == 256
            && Value(ExpWord(wide, two)) == 1 && Pow(256, 2) % Modulus(two) == 0x1_0000
  {
    TwoToEighth(ZERO_DIGEST[31 := 2], ZERO_DIGEST[31 := 8]);
    WideSquared(ZERO_DIGEST[30 := 1], ZERO_DIGEST[31 := 2]);
  }

  lemma TwoToEighth(two: Word, eight: Word)
    requires two == ZERO_DIGEST[31 := 2] && eight == ZERO_DIGEST[31 := 8]
    ensures Value(two) == 2 && Value(eight) == 8
    ensures Value(ExpWord(two, eight)) == 0 && Pow(2, 8) % Modulus(eight) == 256
  {
    LastByte(ZERO_DIGEST, 2);
    LastByte(ZERO_DIGEST, 8);
    assert Pow2(2) == 4 && Pow2(3) == 8 && Pow(2, 4) == 16 && Pow(2, 8) == 256;
    WideSquareLost(two, eight, 2, Words(), (w: Word) => Value(w));
  }

  lemma WideSquared(wide: Word, two: Word)
    requires wide == ZERO_DIGEST[30 := 1] && two == ZERO_DIGEST[31 := 2]
    ensures Value(two) == 2 && Value(wide) == 256
    ensures Value(ExpWord(wide, two)) == 1 && Pow(256, 2) % Modulus(two) == 0x1_0000
  {
    LastByte(ZERO_DIGEST, 2);
    SingleByte(wide, 30);
    assert Pow256(1) == 256;
    assert Pow(256, 2) == 0x1_0000 by {
      assert Pow(256, 1) == 256;
    }
    SecondDigit(wide);
    TwoSquares(Words(), wide);
    SameZero(wide);
    SameZero(MulWord(wide, wide));
    assert Pow2(1) == 2;
    SingleBit(wide, two, 1, Words());
    LastByteOfValue(MulWord(wide, wide));
    ThreeBytesFit(|two|);
    SmallMod(0x1_0000, Modulus(two));
  }

  lemma ThreeBytesFit(n: nat)
    requires n >= 3
    ensures Pow256(n) > 0x1_0000
  {
    Pow256Add(n - 3, 3);
    assert Pow256(3) == 0x100_0000;
    LessMono(1, Pow256(n - 3), 0x100_0000);
  }

  lemma TwoSquares(g: Products<Word>, base: Word)
    requires g == Words()
    ensures Squared(g, base, 0) == base && Squared(g, base, 1) == MulWord(base, base)
  {
    assert Squared(g, base, 1) == g.mul(Squared(g, base, 0), Squared(g, base, 0));
  }

  /** 256 times 256: the one digit meets a first factor that has lost a byte. */
  lemma SecondDigit(w: Word)
    requires w == ZERO_DIGEST[30 := 1] && Value(w) == 256
    ensures Value(MulWord(w, w)) == 1
  {
    ProductIsMisplaced(w, w);
    FirstDigit(Value(w), w, 0);
    SmallMod(0, Modulus(w));
    OneAdded(Value(w) / 256, w, |w| - 1);
  }

  lemma OneAdded(x: nat, w: Word, digits: nat)
    requires x == 1 && 1 < digits <= 32 && w[digits - 1] == 1
    ensures Misplaced(x, w, digits, 0) == 1
  {
    var m := Pow256(digits);
    Pow256Big(digits);
    DivModUnique(0, m, 0, 0);
    SmallMod(1, m);
    assert AddLow(0, 1, m) == 1;
    NothingMoreAdded(0, w, digits - 1, 1);
  }

  /** The early exit alone: 2^252 squared is 0 modulo 2^256 and the plain product says so, but the loop
      leaves before multiplying that square in and answers 1. */
  lemma EarlyExitWrong()
    ensures var base, two := ZERO_DIGEST[0 := 16], ZERO_DIGEST[31 := 2];
            && Value(base) == Pow2(8 * |base| - 4) && Value(two) == 2
            && Value(ExpWord(base, two)) == 1 && PlainPower(base, two) == ZERO_DIGEST
            && Pow(Value(base), 2) % Modulus(two) == 0
  {
    var base, two := ZERO_DIGEST[0 := 16], ZERO_DIGEST[31 := 2];
    LastByte(ZERO_DIGEST, 2);
    TopByte(base);
    TopByteSquared(base);
    SquareOfTop(Value(base), |base|);
    ExitAtFirstSquare(base, two, Words(), Bits(two));
  }

  lemma TopByte(w: Word)
    requires w == ZERO_DIGEST[0 := 16]
    ensures Value(w) == 16 * Pow256(|w| - 1) == Pow2(8 * |w| - 4)
  {
    TopByteOnly(w, 0);
    NibbleUp(|w|);
  }

  lemma TopByteOnly(w: Word, i: nat)
    requires i == 0 && forall k | 0 < k < 32 :: w[k] == 0
    ensures Value(w) == w[0] * Pow256(|w| - 1)
  {
    WholeTail(w);
    ValueFront(w, i);
    ZeroValue(w[i + 1..]);
  }

  lemma NibbleUp(n: nat)
    requires n > 0
    ensures 16 * Pow256(n - 1) == Pow2(8 * n - 4)
  {
    Pow256IsPow2(n - 1);
    Pow2Add(8 * (n - 1), 4);
    assert Pow2(4) == 16;
  }

  lemma SquareOfTop(x: nat, n: nat)
    requires n >= 2 && x == 16 * Pow256(n - 1)
    ensures Pow(x, 2) % Pow256(n) == 0
  {
    assert Pow(x, 1) == x * Pow(x, 0);
    assert Pow(x, 2) == x * x;
    var p, q := Pow256(n - 1), Pow256(n - 2);
    assert p == 256 * q;
    assert x * x == (16 * 16) * p * p == p * (256 * p);
    NonNegative(p, 1);
    DivModUnique(x * x, Pow256(n), p, 0);
  }

  /** Digits that are zero only move the first factor down. */
  lemma {:induction false} SkipZeroDigits(a: nat, b: Word, digits: nat, left: nat, sum: nat, x: nat)
    requires left <= digits <= 32 && forall k | left <= k < digits :: b[k] == 0
    requires x == a / Pow256(digits - left)
    ensures Misplaced(a, b, digits, sum) == Misplaced(x, b, left, sum)
    decreases digits
  {
    if digits == left {
      DivModUnique(a, Pow256(digits - left), a, 0);
    } else {
      DivideByByte(a, digits - left, x);
      NoDigit(a, b, digits, sum);
      SkipZeroDigits(a / 256, b, digits - 1, left, sum, x);
    }
  }

  lemma DivideByByte(a: nat, n: nat, x: nat)
    requires n > 0 && x == a / Pow256(n)
    ensures x == a / 256 / Pow256(n - 1)
  {
    DivTwice(a, 256, Pow256(n - 1));
  }

  lemma TopByteSquared(w: Word)
    requires w == ZERO_DIGEST[0 := 16] && Value(w) == 16 * Pow256(|w| - 1)
    ensures MulWord(w, w) == ZERO_DIGEST
  {
    TopDigitSquared(w, Value(w));
    SameZero(MulWord(w, w));
  }

  lemma TopDigitSquared(w: Word, v: nat)
    requires v == Value(w) == 16 * Pow256(|w| - 1) && w[0] == 16 && forall k | 1 <= k < |w| :: w[k] == 0
    ensures Value(MulWord(w, w)) == 0
  {
    TopDigit(w, v, |w|, 1, 16);
    ProductIsMisplaced(w, w);
  }

  lemma TopDigit(w: Word, v: nat, digits: nat, left: nat, x: nat)
    requires digits == |w| && left == 1 && x == 16 && v == x * Pow256(digits - left)
    requires w[0] == 16 && forall k | left <= k < digits :: w[k] == 0
    ensures Misplaced(v, w, digits, 0) == 0
  {
    DivModUnique(v, Pow256(digits - left), x, 0);
    SkipZeroDigits(v, w, digits, left, 0, x);
    LastDigitVanishes(w, x, left);
  }

  lemma LastDigitVanishes(w: Word, x: nat, digits: nat)
    requires x == 16 && digits == 1 && w[0] == 16
    ensures Misplaced(x, w, digits, 0) == 0
  {
    var m := Pow256(digits);
    assert m == 256;
    assert AddLow(0, 256, m) == 0;
    assert Misplaced(x, w, digits, 0) == Misplaced(x / 256, w, digits - 1, AddLow(0, 256, m));
  }

  lemma ExitAtFirstSquare(base: Word, e: Word, g: Products<Word>, bits: seq<bool>)
    requires g == Words() && bits == Bits(e) && Value(e) == 2
    requires MulWord(base, base) == ZERO_DIGEST && Value(base) > 0
    ensures Value(ExpWord(base, e)) == 1 && PlainPower(base, e) == ZERO_DIGEST
  {
    WordsLawful(g);
    OneSpelled();
    TwoSquares(g, base);
    forall i: nat | i < 256 ensures bits[i] <==> i == 1 {
      BitOfValue(e, i);
      assert Pow2(1) == 2;
      BitOfPower(1, i);
    }
    assert Loop(g, bits, 0, g.one, base) == g.one;
    AfterZero(g, base, bits, 1, |bits|);
    assert bits[1..|bits|][0];
  }
}
