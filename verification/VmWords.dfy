/** Words as the machine makes them: from numbers, from flags, and byte by byte. */
module VmWords {
  import opened Arithmetic
  import opened Bytes
  import opened Ordered
  import opened Word256
  import opened WordShift

  /** The word that spells `n` modulo 2^256. */
  function ToWord(n: nat): Word {
    BigEndian(n, |ZERO_DIGEST|)
  }

  function Flag(b: bool): Word {
    if b then ToWord(1) else ToWord(0)
  }

  lemma {:induction false} SpelledNumber(n: nat, len: nat)
    ensures Value(BigEndian(n, len)) == n % Pow256(len)
    decreases len
  {
    if len > 0 {
      SpelledNumber(n / 256, len - 1);
      assert BigEndian(n, len)[..len - 1] == BigEndian(n / 256, len - 1);
      SplitRemainder(n, Pow256(len - 1));
    }
  }

  lemma {:induction false} NumberSpelled(s: Bytes)
    ensures BigEndian(Value(s), |s|) == s
    decreases |s|
  {
    if s != [] {
      NumberSpelled(s[..|s| - 1]);
      DivModUnique(Value(s), 256, Value(s[..|s| - 1]), s[|s| - 1]);
    }
  }

  /** A word is the only one with its value. */
  lemma Spelled(w: Word, n: nat)
    requires Value(w) == n % Modulus(w)
    ensures w == ToWord(n)
  {
    SpelledNumber(n, |ZERO_DIGEST|);
    NumberSpelled(w);
    NumberSpelled(ToWord(n));
  }

  lemma SpelledBelow(n: nat, m: nat)
    requires m == Pow256(|ZERO_DIGEST|) && n < m
    ensures Value(ToWord(n)) == n
  {
    SpelledNumber(n, |ZERO_DIGEST|);
    DivModUnique(n, m, 0, n);
  }

  lemma SpelledExactly(w: Word, n: nat)
    requires Value(w) == n
    ensures w == ToWord(n)
  {
    ValueBound(w);
    DivModUnique(n, Modulus(w), 0, n);
    Spelled(w, n);
  }

  /** The eight low bytes, taken off a 64-bit number one at a time. */
  method ToUint256(value: nat) returns (result: Word)
    requires value < TWO_64
    ensures result == ToWord(value)
  {
    result := ZERO_DIGEST;
    var rest: nat := value;
    NothingTakenOff(value);
    for i: nat := 0 to 8
      invariant TakenOff(value, rest, i, result)
    {
      result := TakeByte(value, rest, i, result);
      rest := rest / 256;
    }
    AllTakenOff(value, rest, 8, result);
  }

  /** The `i` low bytes are in place, and `rest` is what the bytes before them are to hold. */
  ghost predicate TakenOff(value: nat, rest: nat, i: nat, result: Word) {
    && i <= 8 && rest * Pow256(i) < TWO_64
    && (forall k | 0 <= k < 32 - i :: result[k] == 0)
    && ToWord(value) == BigEndian(rest, 32 - i) + result[32 - i..]
  }

  lemma NothingTakenOff(value: nat)
    requires value < TWO_64
    ensures TakenOff(value, value, 0, ZERO_DIGEST)
  {
  }

  lemma AllTakenOff(value: nat, rest: nat, i: nat, result: Word)
    requires i == 8 && TakenOff(value, rest, i, result)
    ensures result == ToWord(value)
  {
    NothingLeft(rest, i);
    ZeroSpelled(32 - i);
  }

  method TakeByte(ghost value: nat, rest: nat, i: nat, result: Word) returns (r: Word)
    requires i < 8 && TakenOff(value, rest, i, result)
    ensures r == result[31 - i := rest % 256] && TakenOff(value, rest / 256, i + 1, r)
  {
    LowByte(rest, Pow256(i));
    r := result[31 - i := rest % 256];
    assert r[31 - i..] == [rest % 256] + result[32 - i..];
  }

  lemma LowByte(rest: nat, p: nat)
    requires p > 0 && rest * p < TWO_64
    ensures rest / 256 * (256 * p) < TWO_64
  {
    LessMono(rest / 256 * 256, rest, p);
    assert rest / 256 * (256 * p) == rest / 256 * 256 * p;
  }

  lemma NothingLeft(rest: nat, i: nat)
    requires i == 8 && rest * Pow256(i) < TWO_64
    ensures rest == 0
  {
    assert Pow256(8) == TWO_64;
  }

  lemma {:induction false} ZeroSpelled(len: nat)
    ensures forall k | 0 <= k < len :: BigEndian(0, len)[k] == 0
  {
    if len > 0 {
      ZeroSpelled(len - 1);
    }
  }

  // ---------------------------------------------------------------- bytewise logic

  function ByteAnd(x: byte, y: byte): byte { ((x as bv8) & (y as bv8)) as byte }

  function ByteOr(x: byte, y: byte): byte { ((x as bv8) | (y as bv8)) as byte }

  function ByteXor(x: byte, y: byte): byte { ((x as bv8) ^ (y as bv8)) as byte }

  function Bytewise(f: (byte, byte) -> byte, a: Word, b: Word): (r: Word)
    ensures forall i | 0 <= i < 32 :: r[i] == f(a[i], b[i])
  {
    seq(32, i requires 0 <= i < 32 => f(a[i], b[i]))
  }

  method BytewiseLoop(f: (byte, byte) -> byte, a: Word, b: Word) returns (r: Word)
    ensures r == Bytewise(f, a, b)
  {
    r := ZERO_DIGEST;
    for i := 0 to 32
      invariant forall k | 0 <= k < i :: r[k] == f(a[k], b[k])
    {
      r := r[i := f(a[i], b[i])];
    }
  }

  function Complement(x: byte): byte { 255 - x }

  /** The number whose bits are those of the word turned over. */
  function ComplementOf(a: Word): nat {
    ValueBound(a);
    Modulus(a) - 1 - Value(a)
  }

  method Not(a: Word) returns (r: Word)
    ensures Value(r) == ComplementOf(a)
  {
    r := ZERO_DIGEST;
    for i := 0 to 32
      invariant forall k | 0 <= k < i :: r[k] == Complement(a[k])
    {
      r := r[i := Complement(a[i])];
    }
    ComplementValue(a, r);
  }

  lemma {:induction false} ComplementValue(s: Bytes, t: Bytes)
    requires |s| == |t| && forall k | 0 <= k < |s| :: t[k] == Complement(s[k])
    ensures Value(t) + Value(s) == Pow256(|s|) - 1
    decreases |s|
  {
    if s != [] {
      ComplementValue(s[..|s| - 1], t[..|s| - 1]);
    }
  }
}
