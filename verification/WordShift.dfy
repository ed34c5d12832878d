/** Shifts and multiplication of 32-byte words, and where they depart from 256-bit arithmetic. */
module WordShift {
  import opened Arithmetic
  import opened Bytes
  import opened Ordered
  import opened Word256

  // ---------------------------------------------------------------- powers

  lemma {:induction false} Pow256Add(a: nat, b: nat)
    ensures Pow256(a + b) == Pow256(a) * Pow256(b)
    decreases b
  {
    if b > 0 {
      Pow256Add(a, b - 1);
      assert 256 * (Pow256(a) * Pow256(b - 1)) == Pow256(a) * (256 * Pow256(b - 1));
    }
  }

  lemma {:induction false} Pow2Add(a: nat, b: nat)
    ensures Pow2(a + b) == Pow2(a) * Pow2(b)
    decreases b
  {
    if b > 0 {
      Pow2Add(a, b - 1);
      assert 2 * (Pow2(a) * Pow2(b - 1)) == Pow2(a) * (2 * Pow2(b - 1));
    }
  }

  lemma {:induction false} Pow256IsPow2(k: nat)
    ensures Pow256(k) == Pow2(8 * k)
    decreases k
  {
    if k > 0 {
      Pow256IsPow2(k - 1);
      Pow2Add(8 * (k - 1), 8);
      assert Pow2(8) == 256;
    }
  }

  // ---------------------------------------------------------------- the shift amount

  /** The last eight bytes of a word: all that a shift looks at. */
  function Low64(w: Word): nat {
    Value(w) % Pow256(|w| - 24)
  }

  method ToUint64(w: Word) returns (r: nat)
    ensures r == Low64(w)
  {
    r := 0;
    var p: nat := 1;
    for i := 0 to 8
      invariant p == Pow256(i) && r == Tail(w, 32 - i)
    {
      r := r + (w[31 - i] as int) * p;
      ValueFront(w, 31 - i);
      p := 256 * p;
    }
    LowBytes(w, 24);
  }

  lemma LowBytes(w: Word, i: nat)
    requires i <= 32
    ensures Tail(w, i) == Value(w) % Pow256(|w| - i)
  {
    FrontAndBack(w, i);
    ValueBound(w[i..]);
    DivModUnique(Value(w), Pow256(|w| - i), Value(w[..i]), Tail(w, i));
  }

  lemma HighBytes(w: Word, i: nat)
    requires i <= 32
    ensures Value(w[..i]) == Value(w) / Pow256(|w| - i)
  {
    FrontAndBack(w, i);
    ValueBound(w[i..]);
    DivModUnique(Value(w), Pow256(|w| - i), Value(w[..i]), Tail(w, i));
  }

  // ---------------------------------------------------------------- shifting left

  function Zeros(k: nat): (z: Bytes)
    ensures |z| == k && Value(z) == 0
  {
    if k == 0 then []
    else
      assert (Zeros(k - 1) + [0])[..k - 1] == Zeros(k - 1);
      Zeros(k - 1) + [0]
  }

  method ShiftBytesLeft(w: Word, k: nat) returns (r: Word)
    requires 0 < k < 32
    ensures r == w[k..] + Zeros(k)
  {
    r := MoveLeft(w, k);
    var j := 32 - k;
    while j < 32
      invariant 32 - k <= j <= 32
      invariant forall i | 0 <= i < 32 - k :: r[i] == w[i + k]
      invariant forall i | 32 - k <= i < j :: r[i] == 0
    {
      r := r[j := 0];
      j := j + 1;
    }
    ZerosAt(k);
    assert r == w[k..] + Zeros(k);
  }

  method MoveLeft(w: Word, k: nat) returns (r: Word)
    requires 0 < k < 32
    ensures forall i | 0 <= i < 32 - k :: r[i] == w[i + k]
  {
    r := w;
    var j := 0;
    while j + k < 32
      invariant j + k <= 32
      invariant forall i | 0 <= i < j :: r[i] == w[i + k]
      invariant forall i | j <= i < 32 :: r[i] == w[i]
    {
      r := r[j := r[j + k]];
      j := j + 1;
    }
  }

  lemma {:induction false} ZerosAt(k: nat)
    ensures forall i | 0 <= i < k :: Zeros(k)[i] == 0
  {
    if k > 0 {
      ZerosAt(k - 1);
    }
  }

  lemma BytesLeftValue(w: Word, k: nat)
    requires k < 32
    ensures Value(w[k..] + Zeros(k)) == Value(w) * Pow256(k) % Modulus(w)
  {
    ZerosBehind(w[k..], k);
    ValueBound(w[k..] + Zeros(k));
    FrontAndBack(w, k);
    Pow256Add(|w| - k, k);
    DropTop(Value(w[..k]), Value(w[k..]), Pow256(|w| - k), Pow256(k), Modulus(w), Value(w),
            Value(w[k..] + Zeros(k)));
  }

  lemma ZerosBehind(s: Bytes, k: nat)
    ensures Value(s + Zeros(k)) == Value(s) * Pow256(k)
  {
    ValueConcat(s, Zeros(k));
  }

  lemma FrontAndBack(s: Bytes, k: nat)
    requires k <= |s|
    ensures Value(s) == Value(s[..k]) * Pow256(|s| - k) + Value(s[k..])
  {
    assert s == s[..k] + s[k..];
    ValueConcat(s[..k], s[k..]);
  }

  lemma DropTop(top: nat, low: nat, p: nat, q: nat, m: nat, v: nat, r: nat)
    requires p * q == m && r == low * q && r < m && v == top * p + low
    ensures r == v * q % m
  {
    assert (top * p + low) * q == top * (p * q) + low * q;
    DivModUnique((top * p + low) * q, m, top, low * q);
  }

  /** Shift by less than a byte, the bits pushed out of one byte entering the next. */
  method ShiftBitsLeft(w: Word, bits: nat) returns (r: Word)
    requires 0 < bits < 8
    ensures Value(r) == Value(w) * Pow2(bits) % Modulus(w)
  {
    var carry: nat;
    r, carry := ShiftBitsWithCarry(w, bits);
    FinishShift(w, r, carry, Pow2(bits));
  }

  lemma PowersMakeByte(bits: nat)
    requires 0 < bits < 8
    ensures Pow2(bits) * Pow2(8 - bits) == 256
  {
    Pow2Add(bits, 8 - bits);
    assert Pow2(8) == 256;
  }

  /** The bytes from `j` on have been shifted, `carry` being what was pushed out of them. */
  ghost predicate ShiftedFrom(w: Word, r: Word, j: nat, carry: nat, p: nat) {
    && j <= 32 && carry < p
    && (forall k | 0 <= k < j :: r[k] == w[k])
    && Tail(r, j) + carry * Pow256(|w| - j) == Tail(w, j) * p
  }

  method ShiftBitsWithCarry(w: Word, bits: nat) returns (r: Word, carry: nat)
    requires 0 < bits < 8
    ensures ShiftedFrom(w, r, 0, carry, Pow2(bits))
  {
    r, carry := w, 0;
    StartShift(w, Pow2(bits));
    var j := 32;
    while j > 0
      invariant 0 <= j <= 32 && ShiftedFrom(w, r, j, carry, Pow2(bits))
    {
      j := j - 1;
      r, carry := ShiftOneByte(w, r, j, carry, bits);
    }
  }

  lemma {:induction false} FinishShift(w: Word, r: Word, carry: nat, p: nat)
    requires ShiftedFrom(w, r, 0, carry, p)
    ensures Value(r) == Value(w) * p % Modulus(w)
  {
    WholeTail(r);
    WholeTail(w);
    Carried(Value(w) * p, Value(r), carry, Modulus(w));
  }

  lemma StartShift(w: Word, p: nat)
    requires p > 0
    ensures ShiftedFrom(w, w, 32, 0, p)
  {
    WholeTail(w);
  }

  /** Byte `j` shifted left with the carry entering it; the or of the two parts is a sum. */
  method ShiftOneByte(w: Word, r: Word, j: nat, carry: nat, bits: nat) returns (r': Word, carry': nat)
    requires j < 32 && 0 < bits < 8 && ShiftedFrom(w, r, j + 1, carry, Pow2(bits))
    ensures ShiftedFrom(w, r', j, carry', Pow2(bits))
  {
    PowersMakeByte(bits);
    ByteAndCarry(w[j], Pow2(bits), Pow2(8 - bits), carry);
    NonNegative(w[j], Pow2(bits));
    ShiftByte(w, r, j, carry, Pow2(bits), w[j] * Pow2(bits) + carry);
    r' := r[j := r[j] * Pow2(bits) % 256 + carry];
    carry' := r[j] / Pow2(8 - bits);
  }

  /** The byte and carry the source forms with an or and a right shift. */
  lemma ByteAndCarry(x: byte, p: nat, q: nat, carry: nat)
    requires p * q == 256 && p > 0 && q > 0 && carry < p
    ensures x / q < p && x * p % 256 + carry == (x * p + carry) % 256 && x / q == (x * p + carry) / 256
  {
    assert x / q * q + x % q == x;
    SplitByte(x, x / q, x % q, p, q, carry);
  }

  lemma SplitByte(x: nat, d: nat, m: nat, p: nat, q: nat, carry: nat)
    requires x < 256 && p * q == 256 && p > 0 && q > 0 && carry < p && d * q + m == x && m < q
    ensures d < p && x * p % 256 + carry == (x * p + carry) % 256 && d == (x * p + carry) / 256
  {
    assert q * p == p * q;
    BelowByte(d, m, q, p);
    NonNegative(m, p);
    assert (d * q + m) * p == d * (q * p) + m * p;
    DivModUnique(x * p + carry, 256, d, m * p + carry);
    DivModUnique(x * p, 256, d, m * p);
  }

  lemma BelowByte(d: nat, m: nat, p: nat, q: nat)
    requires p > 0 && q > 0 && p * q == 256 && m < p && d * p + m < 256
    ensures d < q && m * q <= 256 - q
  {
    assert q * p == p * q;
    if d >= q {
      LessMono(q, d, p);
      assert false;
    }
    LessMono(m + 1, p, q);
    assert (m + 1) * q == m * q + q;
  }

  lemma ShiftByte(w: Word, r: Word, j: nat, carry: nat, p: nat, s: nat)
    requires j < 32 && s == w[j] * p + carry
    requires Tail(r, j + 1) + carry * Pow256(|w| - j - 1) == Tail(w, j + 1) * p
    ensures Tail(r[j := s % 256], j) + s / 256 * Pow256(|w| - j) == Tail(w, j) * p
  {
    assert r[j := s % 256][j + 1..] == r[j + 1..];
    ValueFront(w, j);
    ValueFront(r[j := s % 256], j);
    ShiftSum(w[j], Pow256(|w| - j - 1), Tail(w, j + 1), p, carry, Tail(r, j + 1), s);
  }

  lemma ShiftSum(x: nat, u: nat, t: nat, p: nat, carry: nat, t': nat, s: nat)
    requires t' + carry * u == t * p && s == x * p + carry
    ensures s % 256 * u + t' + s / 256 * (256 * u) == (x * u + t) * p
  {
    SplitDigit(s, u);
    assert (x * p + carry) * u == x * u * p + carry * u;
  }

  /** What is left of a number after a shift by `s`, where 256 and more leave nothing. */
  function ShiftedLeft(v: nat, s: nat): nat {
    NonNegative(v, Pow2(s));
    if s >= 256 then 0 else v * Pow2(s)
  }

  method Shl(shift: Word, value: Word) returns (result: Word)
    ensures Value(result) == ShiftedLeft(Value(value), Low64(shift)) % Modulus(value)
  {
    var s := ToUint64(shift);
    if s >= 256 {
      ZeroValue(ZERO_DIGEST);
      SmallMod(0, Modulus(value));
      return ZERO_DIGEST;
    }
    var bytes, bits := s / 8, s % 8;
    result := ShlBytes(value, bytes);
    result := ShlBits(result, bits);
    TwoShifts(Value(value), bytes, bits, s, Modulus(value));
  }

  method ShlBytes(w: Word, bytes: nat) returns (r: Word)
    requires bytes < 32
    ensures Value(r) == Value(w) * Pow256(bytes) % Modulus(w)
  {
    r := w;
    if bytes > 0 {
      r := ShiftBytesLeft(w, bytes);
      BytesLeftValue(w, bytes);
    } else {
      assert Pow256(0) == 1;
      WholeTail(w);
      SmallMod(Value(w), Modulus(w));
    }
  }

  method ShlBits(w: Word, bits: nat) returns (r: Word)
    requires bits < 8
    ensures Value(r) == Value(w) * Pow2(bits) % Modulus(w)
  {
    r := w;
    if bits > 0 {
      r := ShiftBitsLeft(w, bits);
    } else {
      assert Pow2(0) == 1;
      WholeTail(w);
      SmallMod(Value(w), Modulus(w));
    }
  }

  lemma SmallMod(n: nat, m: nat)
    requires n < m
    ensures n % m == n
  {
    DivModUnique(n, m, 0, n);
  }

  lemma TwoShifts(v: nat, bytes: nat, bits: nat, s: nat, m: nat)
    requires s == 8 * bytes + bits && m > 0
    ensures v * Pow256(bytes) % m * Pow2(bits) % m == v * Pow2(s) % m
  {
    Pow256IsPow2(bytes);
    Pow2Add(8 * bytes, bits);
    ThreeFactors(v, Pow256(bytes), Pow2(bits), m);
  }

  lemma ThreeFactors(v: nat, x: nat, y: nat, m: nat)
    requires m > 0
    ensures v * x % m * y % m == v * (x * y) % m
  {
    ModTimes(v * x, y, m);
    assert v * x * y == v * (x * y);
  }

  lemma ModTimes(x: nat, p: nat, m: nat)
    requires m > 0
    ensures x % m * p % m == x * p % m
  {
    var q, r := x / m, x % m;
    assert x == q * m + r;
    var q', r' := r * p / m, r * p % m;
    NonNegative(r, p);
    assert r * p == q' * m + r';
    assert x * p == (q * p + q') * m + r' by {
      assert (q * m + r) * p == q * p * m + r * p;
    }
    DivModUnique(x * p, m, q * p + q', r');
  }

  /** Shifting left is multiplying by two to the whole amount modulo 2^256, except that the code looks
      at the low 64 bits of the amount: from 2^64 on the answer should be zero, and is so exactly when
      the low 64 bits push every bit of the value out. */
  lemma ShlAgrees(shift: Word, value: Word)
    ensures ShiftedLeft(Value(value), Low64(shift)) % Modulus(value)
            == Value(value) * Pow2(Value(shift)) % Modulus(value)
            <==> || Value(shift) < Pow256(|shift| - 24)
                 || Low64(shift) >= 256
                 || Value(value) % Pow2(8 * |value| - Low64(shift)) == 0
  {
    LeftIsProduct(value, Value(shift));
    if Value(shift) < Pow256(|shift| - 24) {
      SmallMod(Value(shift), Pow256(|shift| - 24));
    } else {
      Pow256Big(|shift| - 24);
      ShiftOut(value, Value(shift));
      LeavesNothingExactly(value, Low64(shift));
    }
  }

  lemma LeftIsProduct(w: Word, n: nat)
    ensures ShiftedLeft(Value(w), n) % Modulus(w) == Value(w) * Pow2(n) % Modulus(w)
  {
    ShiftOut(w, n);
    SmallMod(0, Modulus(w));
  }

  lemma LeavesNothingExactly(w: Word, s: nat)
    ensures ShiftedLeft(Value(w), s) % Modulus(w) == 0
            <==> s >= 256 || Value(w) % Pow2(8 * |w| - s) == 0
  {
    SmallMod(0, Modulus(w));
    if s < 256 {
      Pow256IsPow2(|w|);
      PushedOutExactly(Value(w), s, 8 * |w|);
    }
  }

  lemma PushedOutExactly(v: nat, s: nat, width: nat)
    requires s <= width
    ensures v * Pow2(s) % Pow2(width) == 0 <==> v % Pow2(width - s) == 0
  {
    Pow2Add(s, width - s);
    ScaledMod(v, Pow2(width - s), Pow2(s), Pow2(width));
  }

  lemma ScaledMod(v: nat, p: nat, q: nat, m: nat)
    requires p > 0 && q > 0 && m == q * p
    ensures v * q % m == 0 <==> v % p == 0
  {
    var d, r := v / p, v % p;
    assert d * p + r == v;
    assert v * q == d * (q * p) + r * q;
    LessMono(r + 1, p, q);
    assert (r + 1) * q == r * q + q;
    NonNegative(r, q);
    DivModUnique(v * q, m, d, r * q);
    if r > 0 {
      LessMono(1, r, q);
    }
  }

  lemma Pow256Big(k: nat)
    requires k >= 1
    ensures Pow256(k) >= 256
  {
  }

  lemma ShiftOut(w: Word, n: nat)
    ensures n >= 256 ==> Value(w) * Pow2(n) % Modulus(w) == 0
  {
    if n >= 256 {
      Pow256IsPow2(|w|);
      Multiple(Value(w), 8 * |w|, n - 256, n, Modulus(w));
    }
  }

  lemma Multiple(v: nat, a: nat, b: nat, n: nat, m: nat)
    requires n == a + b && m == Pow2(a)
    ensures v * Pow2(n) % m == 0
  {
    Pow2Add(a, b);
    NonNegative(v, Pow2(b));
    assert v * Pow2(b) * Pow2(a) == v * Pow2(a + b);
    DivModUnique(v * Pow2(a + b), Pow2(a), v * Pow2(b), 0);
  }

  // ---------------------------------------------------------------- shifting right

  method ShiftBytesRight(w: Word, k: nat) returns (r: Word)
    requires 0 < k < 32
    ensures r == Zeros(k) + w[..32 - k]
  {
    r := w;
    var j := 32;
    while j > k
      invariant k <= j <= 32
      invariant forall i | j <= i < 32 :: r[i] == w[i - k]
      invariant forall i | 0 <= i < j :: r[i] == w[i]
    {
      j := j - 1;
      r := r[j := r[j - k]];
    }
    j := 0;
    while j < k
      invariant 0 <= j <= k
      invariant forall i | k <= i < 32 :: r[i] == w[i - k]
      invariant forall i | 0 <= i < j :: r[i] == 0
    {
      r := r[j := 0];
      j := j + 1;
    }
    ZerosAt(k);
    assert r == Zeros(k) + w[..32 - k];
  }

  lemma BytesRightValue(w: Word, k: nat)
    requires k <= 32
    ensures Value(Zeros(k) + w[..32 - k]) == Value(w) / Pow256(k)
  {
    ValueConcat(Zeros(k), w[..32 - k]);
    assert 0 * Pow256(|w[..32 - k]|) == 0;
    HighBytes(w, 32 - k);
  }

  /** The first `j` bytes have been shifted, `rest` being what was pushed out of them. */
  ghost predicate ShiftedTo(w: Word, r: Word, j: nat, rest: nat, p: nat) {
    && j <= 32 && rest < p
    && (forall k | j <= k < 32 :: r[k] == w[k])
    && Value(r[..j]) * p + rest == Value(w[..j])
  }

  method ShiftBitsRight(w: Word, bits: nat) returns (r: Word)
    requires 0 < bits < 8
    ensures Value(r) == Value(w) / Pow2(bits)
  {
    r := w;
    var carry: nat := 0;
    ghost var rest: nat := 0;
    assert w[..0] == [];
    for j := 0 to 32
      invariant ShiftedTo(w, r, j, rest, Pow2(bits)) && carry == rest * Pow2(8 - bits)
    {
      r, carry, rest := ShiftOneByteRight(w, r, j, carry, bits, rest);
    }
    FinishShiftRight(w, r, rest, Pow2(bits));
  }

  lemma FinishShiftRight(w: Word, r: Word, rest: nat, p: nat)
    requires ShiftedTo(w, r, 32, rest, p)
    ensures Value(r) == Value(w) / p
  {
    assert r[..32] == r && w[..32] == w;
    DivModUnique(Value(w), p, Value(r), rest);
  }

  method ShiftOneByteRight(w: Word, r: Word, j: nat, carry: nat, bits: nat, ghost rest: nat)
    returns (r': Word, carry': nat, ghost rest': nat)
    requires j < 32 && 0 < bits < 8 && ShiftedTo(w, r, j, rest, Pow2(bits)) && carry == rest * Pow2(8 - bits)
    ensures ShiftedTo(w, r', j + 1, rest', Pow2(bits)) && carry' == rest' * Pow2(8 - bits)
  {
    PowersMakeByte(bits);
    ByteRight(w[j], Pow2(bits), Pow2(8 - bits), rest, Value(r[..j]), Value(w[..j]));
    r' := r[j := r[j] / Pow2(bits) + carry];
    carry' := r[j] * Pow2(8 - bits) % 256;
    rest' := r[j] % Pow2(bits);
    assert r'[..j + 1][..j] == r[..j] && w[..j + 1][..j] == w[..j];
  }

  lemma ByteRight(x: byte, p: nat, q: nat, rest: nat, high: nat, whole: nat)
    requires p > 0 && q > 0 && p * q == 256 && rest < p && high * p + rest == whole
    ensures 0 <= x / p + rest * q < 256 && x * q % 256 == x % p * q
    ensures (high * 256 + (x / p + rest * q)) * p + x % p == whole * 256 + x
  {
    var d, m := x / p, x % p;
    assert d * p + m == x;
    BelowByte(d, m, p, q);
    BelowByte(0, rest, p, q);
    NonNegative(rest, q);
    NonNegative(m, q);
    assert (d * p + m) * q == d * (p * q) + m * q;
    DivModUnique(x * q, 256, d, m * q);
    JoinByte(high, d, rest, p, q);
  }

  lemma JoinByte(high: nat, d: nat, rest: nat, p: nat, q: nat)
    requires p * q == 256
    ensures (high * 256 + (d + rest * q)) * p == (high * p + rest) * 256 + d * p
  {
    assert (high * 256 + (d + rest * q)) * p == high * p * 256 + d * p + rest * (p * q);
  }

  function ShiftedRight(v: nat, s: nat): nat {
    NonNegativeQuotient(v, Pow2(s));
    if s >= 256 then 0 else v / Pow2(s)
  }

  method Shr(shift: Word, value: Word) returns (result: Word)
    ensures Value(result) == ShiftedRight(Value(value), Low64(shift))
  {
    var s := ToUint64(shift);
    if s >= 256 {
      ZeroValue(ZERO_DIGEST);
      return ZERO_DIGEST;
    }
    var bytes, bits := s / 8, s % 8;
    result := value;
    if bytes > 0 {
      result := ShiftBytesRight(value, bytes);
      BytesRightValue(value, bytes);
    }
    ghost var v := Value(result);
    if bits > 0 {
      result := ShiftBitsRight(result, bits);
    }
    TwoShiftsRight(Value(value), v, Value(result), bytes, bits, s);
  }

  lemma TwoShiftsRight(v: nat, x: nat, y: nat, bytes: nat, bits: nat, s: nat)
    requires s == 8 * bytes + bits
    requires x == if bytes > 0 then v / Pow256(bytes) else v
    requires y == if bits > 0 then x / Pow2(bits) else x
    ensures y == v / Pow2(s)
  {
    Pow256IsPow2(bytes);
    Pow2Add(8 * bytes, bits);
    assert Pow256(0) == 1 && Pow2(0) == 1;
    DivTwice(v, Pow256(bytes), Pow2(bits));
  }

  lemma DivTwice(v: nat, p: nat, q: nat)
    requires p > 0 && q > 0
    ensures p * q > 0 && v / p / q == v / (p * q)
  {
    var x := v / p;
    var y := x / q;
    assert x * p + v % p == v && y * q + x % q == x;
    LessMono(x % q + 1, q, p);
    assert (x % q + 1) * p == x % q * p + p;
    NonNegative(x % q, p);
    assert (y * q + x % q) * p == y * (p * q) + x % q * p;
    assert q * p == p * q;
    NonNegative(p - 1, q);
    DivModUnique(v, p * q, y, x % q * p + v % p);
  }

  /** Shifting right is dividing by two to the whole amount, with the same exception. */
  lemma ShrAgrees(shift: Word, value: Word)
    ensures ShiftedRight(Value(value), Low64(shift)) == Value(value) / Pow2(Value(shift))
            <==> || Value(shift) < Pow256(|shift| - 24)
                 || Low64(shift) >= 256
                 || Value(value) < Pow2(Low64(shift))
  {
    var n, s := Value(shift), Low64(shift);
    ShiftedAway(value, n);
    ShiftedAway(value, s);
    if n < Pow256(|shift| - 24) {
      SmallMod(n, Pow256(|shift| - 24));
    } else {
      Pow256Big(|shift| - 24);
      ZeroQuotientExactly(Value(value), Pow2(s));
    }
  }

  lemma ShiftedAway(w: Word, n: nat)
    ensures n >= 256 ==> Value(w) / Pow2(n) == 0
  {
    if n >= 256 {
      WholeTail(w);
      Pow256IsPow2(|w|);
      Pow2Mono(8 * |w|, n);
      ZeroQuotientExactly(Value(w), Pow2(n));
    }
  }

  lemma Pow2Mono(a: nat, b: nat)
    requires a <= b
    ensures Pow2(a) <= Pow2(b)
  {
    Pow2Add(a, b - a);
    LessMono(1, Pow2(b - a), Pow2(a));
  }

  lemma ZeroQuotientExactly(v: nat, p: nat)
    requires p > 0
    ensures v / p == 0 <==> v < p
  {
    if v < p {
      DivModUnique(v, p, 0, v);
    }
  }

  const ONE: Word := ZERO_DIGEST[31 := 1]

  lemma OneValue()
    ensures Value(ONE) == 1
  {
    LastByte(ZERO_DIGEST, 1);
  }

  lemma LastByte(w: Word, d: byte)
    requires forall i | 0 <= i < 31 :: w[i] == 0
    ensures Value(w[31 := d]) == d
  {
    ZeroValue(w[31 := d][..31]);
  }

  /** The smallest amount that goes wrong: a shift of one by 2^64, either way, leaves it one. */
  lemma ShiftBy64BitsWrong()
    ensures var shift := ZERO_DIGEST[23 := 1];
            && Value(shift) == Pow256(|shift| - 24) && Value(ONE) == 1
            && ShiftedLeft(Value(ONE), Low64(shift)) % Modulus(ONE) == 1
            && Value(ONE) * Pow2(Value(shift)) % Modulus(ONE) == 0
            && ShiftedRight(Value(ONE), Low64(shift)) == 1
            && Value(ONE) / Pow2(Value(shift)) == 0
  {
    var shift := ZERO_DIGEST[23 := 1];
    SingleByte(shift, 23);
    OneValue();
    DivModUnique(Value(shift), Pow256(|shift| - 24), 1, 0);
    Pow256Big(|shift| - 24);
    Pow256Big(|ONE|);
    ShiftOut(ONE, Value(shift));
    ShiftedAway(ONE, Value(shift));
    assert Pow2(0) == 1;
    SmallMod(1, Modulus(ONE));
  }

  lemma SingleByte(w: Word, i: nat)
    requires i < 32 && forall k | 0 <= k < 32 :: w[k] == if k == i then 1 else 0
    ensures Value(w) == Pow256(|w| - i - 1)
  {
    SplitAt(w, i);
    ZeroValue(w[..i]);
    ZeroValue(w[i + 1..]);
  }

  // ---------------------------------------------------------------- multiplication

  /** Add `d` times the first `j` bytes of `a` into `r`, at the places the code computes: byte `k` of
      `a` goes to byte `k + shift`. */
  function MulRow(a: Word, d: byte, shift: nat, r: Word, j: nat, carry: nat): Word
    requires j <= 32
    decreases j
  {
    if j == 0 then r
    else if j - 1 + shift >= 32 then MulRow(a, d, shift, r, j - 1, carry)
    else
      var product := (a[j - 1] as int) * d + r[j - 1 + shift] + carry;
      MulRow(a, d, shift, r[j - 1 + shift := product % 256], j - 1, product / 256)
  }

  /** The rows from the one for byte `i - 1` of `b` upwards. */
  function MulRows(a: Word, b: Word, r: Word, i: nat): Word
    requires i <= 32
    decreases i
  {
    if i == 0 then r
    else MulRows(a, b, if b[i - 1] == 0 then r else MulRow(a, b[i - 1], 32 - i, r, |a|, 0), i - 1)
  }

  function MulWord(a: Word, b: Word): Word {
    MulRows(a, b, ZERO_DIGEST, |b|)
  }

  method Mul(a: Word, b: Word) returns (result: Word)
    ensures result == MulWord(a, b) && Value(result) == Misplaced(Value(a), b, |b|, 0)
  {
    ProductIsMisplaced(a, b);
    result := ZERO_DIGEST;
    var i := 32;
    while i > 0
      invariant 0 <= i <= 32 && MulRows(a, b, result, i) == MulWord(a, b)
    {
      i := i - 1;
      if b[i] != 0 {
        result := AddRow(a, b[i], 31 - i, result);
      }
    }
  }

  method AddRow(a: Word, d: byte, shift: nat, r: Word) returns (result: Word)
    ensures result == MulRow(a, d, shift, r, |a|, 0)
  {
    result := r;
    var carry: nat := 0;
    var j := 32;
    while j > 0
      invariant 0 <= j <= 32 && MulRow(a, d, shift, result, j, carry) == MulRow(a, d, shift, r, |a|, 0)
    {
      j := j - 1;
      result, carry := AddProduct(a, d, shift, result, j, carry);
    }
  }

  method AddProduct(a: Word, d: byte, shift: nat, r: Word, j: nat, carry: nat) returns (r': Word, carry': nat)
    requires j < 32
    ensures MulRow(a, d, shift, r', j, carry') == MulRow(a, d, shift, r, j + 1, carry)
  {
    r', carry' := r, carry;
    if j + shift < 32 {
      NonNegative(a[j], d);
      var product := (a[j] as int) * d + r[j + shift] + carry;
      r' := r[j + shift := product % 256];
      carry' := product / 256;
    }
  }

  // ---------------------------------------------------------------- what the products add up to

  /** The digits of `b` from the last to the first: each adds its multiple of what is left of the first
      factor to the low bytes of the sum, one byte fewer every time, and drops the carry out of them;
      and where the first factor should gain a byte it loses one. */
  function Misplaced(a: nat, b: Word, digits: nat, sum: nat): nat
    requires digits <= 32
    decreases digits
  {
    if digits == 0 then sum
    else
      NonNegative(a, b[digits - 1]);
      Misplaced(a / 256, b, digits - 1, AddLow(sum, a * b[digits - 1], Pow256(digits)))
  }

  /** `sum` with `x` added to its part below `m`. */
  function AddLow(sum: nat, x: nat, m: nat): nat
    requires m > 0
  {
    NonNegative(sum / m, m);
    sum / m * m + (sum % m + x) % m
  }

  lemma ProductIsMisplaced(a: Word, b: Word)
    ensures Value(MulWord(a, b)) == Misplaced(Value(a), b, |b|, 0)
  {
    assert a[..|a|] == a;
    ZeroValue(ZERO_DIGEST);
    RowsValue(a, b, ZERO_DIGEST, |b|, Value(a));
  }

  lemma {:induction false} RowsValue(a: Word, b: Word, r: Word, i: nat, x: nat)
    requires i <= 32 && x == Value(a[..i])
    ensures Value(MulRows(a, b, r, i)) == Misplaced(x, b, i, Value(r))
    decreases i
  {
    if i > 0 {
      DropByte(a, i);
      OneRow(a, b[i - 1], i, r, x);
      RowsValue(a, b, if b[i - 1] == 0 then r else MulRow(a, b[i - 1], 32 - i, r, |a|, 0), i - 1, x / 256);
    }
  }

  lemma DropByte(a: Word, i: nat)
    requires 0 < i <= 32
    ensures Value(a[..i - 1]) == Value(a[..i]) / 256
  {
    assert a[..i][..i - 1] == a[..i - 1];
    DivModUnique(Value(a[..i]), 256, Value(a[..i - 1]), a[i - 1]);
  }

  lemma {:induction false} OneRow(a: Word, d: byte, i: nat, r: Word, x: nat)
    requires 0 < i <= 32 && x == Value(a[..i])
    ensures x * d >= 0
    ensures Value(if d == 0 then r else MulRow(a, d, 32 - i, r, |a|, 0)) == AddLow(Value(r), x * d, Pow256(i))
  {
    NonNegative(x, d);
    if d == 0 {
      NothingAddedLow(Value(r), Pow256(i));
    } else {
      SkipRow(a, d, 32 - i, r, |a|, 0);
      RowAdds(a, d, 32 - i, r, i, x * d);
    }
  }

  lemma RowAdds(a: Word, d: byte, shift: nat, r: Word, i: nat, x: nat)
    requires shift + i == 32 && x == Value(a[..i]) * d
    ensures Value(MulRow(a, d, shift, r, i, 0)) == AddLow(Value(r), x, Pow256(i))
  {
    RowBytes(a, d, shift, r, i, 0);
    assert a[0..i] == a[..i];
    JoinParts(MulRow(a, d, shift, r, i, 0), r, shift, i, x);
  }

  lemma NothingAddedLow(sum: nat, m: nat)
    requires m > 0
    ensures AddLow(sum, 0, m) == sum
  {
    assert sum / m * m + sum % m == sum;
    SmallMod(sum % m, m);
  }

  lemma JoinParts(q: Word, r: Word, k: nat, i: nat, x: nat)
    requires k + i == 32 && q[..k] == r[..k]
    requires Part(q, k, i) == (Part(r, k, i) + x) % Pow256(i)
    ensures Value(q) == AddLow(Value(r), x, Pow256(i))
  {
    SumOfParts(q, r, k, i, x);
    AddLowBytes(r, k, i, x);
  }

  lemma SumOfParts(q: Word, r: Word, k: nat, i: nat, x: nat)
    requires k + i == 32 && q[..k] == r[..k]
    requires Part(q, k, i) == (Part(r, k, i) + x) % Pow256(i)
    ensures Value(q) == Value(r[..k]) * Pow256(i) + (Tail(r, k) + x) % Pow256(i)
  {
    PartIsTail(q, k, i);
    PartIsTail(r, k, i);
    FrontAndBack(q, k);
  }

  lemma AddLowBytes(r: Word, k: nat, i: nat, x: nat)
    requires k + i == 32
    ensures AddLow(Value(r), x, Pow256(i)) == Value(r[..k]) * Pow256(i) + (Tail(r, k) + x) % Pow256(i)
  {
    HighBytes(r, k);
    LowBytes(r, k);
    AddLowParts(Value(r), x, Pow256(i), Value(r[..k]), Tail(r, k));
  }

  lemma PartIsTail(w: Word, k: nat, i: nat)
    requires k + i == 32
    ensures Part(w, k, i) == Tail(w, k)
  {
    assert w[k..k + i] == w[k..];
  }

  lemma AddLowParts(sum: nat, x: nat, m: nat, high: nat, low: nat)
    requires m > 0 && high == sum / m && low == sum % m
    ensures AddLow(sum, x, m) == high * m + (low + x) % m
  {
  }

  /** The bytes of `a` that would land past the end are left out. */
  lemma {:induction false} SkipRow(a: Word, d: byte, shift: nat, r: Word, j: nat, carry: nat)
    requires shift < 32 && 32 - shift <= j <= 32
    ensures MulRow(a, d, shift, r, j, carry) == MulRow(a, d, shift, r, 32 - shift, carry)
    decreases j
  {
    if j > 32 - shift {
      SkipRow(a, d, shift, r, j - 1, carry);
    }
  }

  /** A row changes the `j` bytes from `shift` on only, adding a multiple of the first `j` bytes of `a`
      to them and dropping the carry. */
  lemma {:induction false} RowBytes(a: Word, d: byte, shift: nat, r: Word, j: nat, carry: nat)
    requires shift + j <= 32
    ensures var q := MulRow(a, d, shift, r, j, carry);
            && q[..shift] == r[..shift] && q[shift + j..] == r[shift + j..]
            && Part(q, shift, j) == (Part(r, shift, j) + Part(a, 0, j) * d + carry) % Pow256(j)
    decreases j
  {
    if j > 0 {
      var r', carry' := NextRow(a, d, shift, r, j, carry);
      RowBytes(a, d, shift, r', j - 1, carry');
      NonNegative(a[j - 1], d);
      RowByte(a, d, shift, r, j, carry, (a[j - 1] as int) * d + r[j - 1 + shift] + carry,
              r', MulRow(a, d, shift, r, j, carry));
    }
  }

  lemma RowByte(a: Word, d: byte, shift: nat, r: Word, j: nat, carry: nat, product: nat, r': Word, q: Word)
    requires 0 < j && shift + j <= 32 && product == (a[j - 1] as int) * d + r[j - 1 + shift] + carry
    requires r' == r[j - 1 + shift := product % 256]
    requires q[..shift] == r'[..shift] && q[shift + j - 1..] == r'[shift + j - 1..]
    requires Part(q, shift, j - 1) == (Part(r', shift, j - 1) + Part(a, 0, j - 1) * d + product / 256) % Pow256(j - 1)
    ensures q[..shift] == r[..shift] && q[shift + j..] == r[shift + j..]
    ensures Part(q, shift, j) == (Part(r, shift, j) + Part(a, 0, j) * d + carry) % Pow256(j)
  {
    OneByteSet(r, r', q, shift, j - 1 + shift, product % 256);
    LastOfPart(q, shift, j);
    LastOfPart(r, shift, j);
    LastOfPart(a, 0, j);
    RowDigit(Part(r, shift, j - 1), Part(a, 0, j - 1), a[j - 1], d, r[j - 1 + shift], carry, Pow256(j - 1), product,
             Part(r, shift, j), Part(a, 0, j), Pow256(j), Part(q, shift, j));
  }

  lemma OneByteSet(r: Word, r': Word, q: Word, shift: nat, k: nat, x: byte)
    requires shift <= k < 32 && r' == r[k := x] && q[..shift] == r'[..shift] && q[k..] == r'[k..]
    ensures q[..shift] == r[..shift] && q[k + 1..] == r[k + 1..] && q[k] == x && r'[shift..k] == r[shift..k]
  {
    assert r'[..shift] == r[..shift];
    assert q[k] == q[k..][0] && r'[k] == r'[k..][0];
    assert q[k + 1..] == q[k..][1..] && r'[k + 1..] == r'[k..][1..] && r'[k + 1..] == r[k + 1..];
  }

  /** The value of `j` bytes from `first` on. */
  function Part(w: Word, first: nat, j: nat): nat
    requires first + j <= 32
  {
    Value(w[first..first + j])
  }

  lemma LastOfPart(w: Word, first: nat, j: nat)
    requires 0 < j && first + j <= 32
    ensures Part(w, first, j) == Part(w, first, j - 1) * 256 + w[first + j - 1]
  {
    assert w[first..first + j][..j - 1] == w[first..first + j - 1];
  }

  lemma NextRow(a: Word, d: byte, shift: nat, r: Word, j: nat, carry: nat) returns (r': Word, carry': nat)
    requires 0 < j <= 32 && j - 1 + shift < 32
    ensures var product := (a[j - 1] as int) * d + r[j - 1 + shift] + carry;
            r' == r[j - 1 + shift := product % 256] && carry' == product / 256
    ensures MulRow(a, d, shift, r, j, carry) == MulRow(a, d, shift, r', j - 1, carry')
  {
    NonNegative(a[j - 1], d);
    var product := (a[j - 1] as int) * d + r[j - 1 + shift] + carry;
    r', carry' := r[j - 1 + shift := product % 256], product / 256;
  }

  lemma RowDigit(x: nat, y: nat, c: nat, d: nat, e: nat, carry: nat, p: nat, product: nat,
                 x': nat, y': nat, m: nat, sum: nat)
    requires p > 0 && m == 256 * p && product == c * d + e + carry && x' == x * 256 + e && y' == y * 256 + c
    requires sum == (x + y * d + product / 256) % p * 256 + product % 256
    ensures sum == (x' + y' * d + carry) % m
  {
    NonNegative(y, d);
    var n: nat := (x + y * d) * 256 + product;
    assert n == x' + y' * d + carry by {
      assert (y * 256 + c) * d == y * d * 256 + c * d;
    }
    DivModUnique(n, 256, x + y * d + product / 256, product % 256);
    SplitRemainder(n, p);
  }

  lemma SplitRemainder(n: nat, p: nat)
    requires p > 0
    ensures n % (256 * p) == n / 256 % p * 256 + n % 256
  {
    var x := n / 256;
    var q, r := x / p, x % p;
    assert q * p + r == x;
    assert q * (256 * p) + (r * 256 + n % 256) == n;
    DivModUnique(n, 256 * p, q, r * 256 + n % 256);
  }

  lemma NoDigit(a: nat, b: Word, digits: nat, sum: nat)
    requires 0 < digits <= 32 && (a == 0 || b[digits - 1] == 0)
    ensures Misplaced(a, b, digits, sum) == Misplaced(a / 256, b, digits - 1, sum)
  {
    assert a * b[digits - 1] == 0;
    NothingAddedLow(sum, Pow256(digits));
  }

  /** Without further digits, or with nothing left of the first factor, the sum stays. */
  lemma {:induction false} NothingMoreAdded(a: nat, b: Word, digits: nat, sum: nat)
    requires digits <= 32 && (a == 0 || forall k | 0 <= k < digits :: b[k] == 0)
    ensures Misplaced(a, b, digits, sum) == sum
    decreases digits
  {
    if digits > 0 {
      NoDigit(a, b, digits, sum);
      NothingMoreAdded(a / 256, b, digits - 1, sum);
    }
  }

  /** Only the last digit ever meets the whole first factor. */
  lemma FirstDigit(a: nat, b: Word, product: nat)
    requires product == a * b[|b| - 1]
    ensures Misplaced(a, b, |b|, 0) == Misplaced(a / 256, b, |b| - 1, product % Modulus(b))
  {
    DivModUnique(0, Modulus(b), 0, 0);
    assert AddLow(0, product, Pow256(|b|)) == product % Modulus(b);
  }

  // ---------------------------------------------------------------- when the product is right

  /** The multiplication is right for every first factor exactly when the second is a single byte. */
  lemma MulCorrectExactly(b: Word)
    ensures (forall a: Word :: Value(MulWord(a, b)) == Value(a) * Value(b) % Modulus(a)) <==> Value(b) < 256
  {
    if Value(b) < 256 {
      forall a: Word ensures Value(MulWord(a, b)) == Value(a) * Value(b) % Modulus(a) {
        MulByByte(a, b);
      }
    } else {
      OneValue();
      MulOfOne(ONE, b);
      OneTimes(Value(ONE), Value(b));
      ValueBound(b);
      SmallMod(Value(b), Modulus(b));
    }
  }

  /** One times anything is its last byte. */
  lemma MulOfOne(one: Word, b: Word)
    requires Value(one) == 1
    ensures Value(MulWord(one, b)) == b[31]
  {
    ProductIsMisplaced(one, b);
    OnlyLastDigit(Value(one), b);
  }

  lemma OnlyLastDigit(x: nat, b: Word)
    requires x == 1
    ensures Misplaced(x, b, |b|, 0) == b[31]
  {
    OneLeavesDigit(x, b, 0, b[31]);
    NothingMoreAdded(0, b, |b| - 1, b[31]);
  }

  lemma OneLeavesDigit(x: nat, b: Word, y: nat, d: nat)
    requires x == 1 && y == x / 256 && d == b[|b| - 1]
    ensures Misplaced(x, b, |b|, 0) == Misplaced(y, b, |b| - 1, d)
  {
    OneTimes(x, d);
    FirstDigit(x, b, d);
    ByteIsSmall(d as byte, b);
  }

  lemma OneTimes(x: nat, y: nat)
    requires x == 1
    ensures x * y == y
  {
  }

  lemma ByteIsSmall(d: byte, w: Word)
    ensures d % Modulus(w) == d
  {
    Pow256Big(|w|);
    SmallMod(d, Modulus(w));
  }

  lemma MulByByte(a: Word, b: Word)
    requires Value(b) < 256
    ensures Value(MulWord(a, b)) == Value(a) * Value(b) % Modulus(a)
  {
    HighBytesZero(b);
    ProductIsMisplaced(a, b);
    NonNegative(Value(a), b[31]);
    FirstDigit(Value(a), b, Value(a) * b[31]);
    NothingMoreAdded(Value(a) / 256, b, |b| - 1, Value(a) * b[31] % Modulus(b));
  }

  lemma HighBytesZero(b: Word)
    requires Value(b) < 256
    ensures Value(b) == b[31] && forall i | 0 <= i < 31 :: b[i] == 0
  {
    assert Value(b[..31]) == 0;
    forall i | 0 <= i < 31 ensures b[i] == 0 {
      ZeroPrefix(b[..31], i);
    }
  }

  lemma {:induction false} ZeroPrefix(s: Bytes, i: nat)
    requires i < |s| && Value(s) == 0
    ensures s[i] == 0
    decreases |s|
  {
    if i < |s| - 1 {
      ZeroPrefix(s[..|s| - 1], i);
    }
  }
}
