/** Destination tags: the strict UTF-8 check on memos, and the byte form of a tag. */
module Utf8Memo {
  import opened Bytes
  import opened Ordered

  const MAX_MEMO_SIZE: nat := 256

  // ---------------------------------------------------------------- RFC 3629, section 4

  /** A Unicode scalar value: a code point that is not a surrogate. */
  predicate Scalar(cp: nat) {
    cp < 0xD800 || 0xE000 <= cp <= 0x10FFFF
  }

  function Encoding(cp: nat): (r: Bytes)
    requires cp <= 0x10FFFF
    ensures 1 <= |r| <= 4
  {
    if cp < 0x80 then [cp]
    else if cp < 0x800 then [0xC0 + cp / 64, 0x80 + cp % 64]
    else if cp < 0x10000 then [0xE0 + cp / 4096, 0x80 + cp / 64 % 64, 0x80 + cp % 64]
    else [0xF0 + cp / 262144, 0x80 + cp / 4096 % 64, 0x80 + cp / 64 % 64, 0x80 + cp % 64]
  }

  predicate Scalars(cps: seq<nat>) {
    forall i | 0 <= i < |cps| :: Scalar(cps[i])
  }

  function Utf8(cps: seq<nat>): Bytes
    requires Scalars(cps)
  {
    if cps == [] then [] else Encoding(cps[0]) + Utf8(cps[1..])
  }

  /** A concatenation of encodings of scalar values. */
  ghost predicate WellFormed(s: Bytes) {
    exists cps :: Scalars(cps) && Utf8(cps) == s
  }

  // ---------------------------------------------------------------- the check of one character

  /** Length announced by a lead byte above 0x7F; zero for a byte that is none. */
  function Length(c: byte): (n: nat)
    ensures n == 0 || 2 <= n <= 4
  {
    if 0xC0 <= c < 0xE0 then 2 else if 0xE0 <= c < 0xF0 then 3 else if 0xF0 <= c < 0xF8 then 4 else 0
  }

  /** The payload bits of a lead byte. */
  function LeadBits(c: byte): nat {
    if Length(c) == 2 then c % 32 else if Length(c) == 3 then c % 16 else c % 8
  }

  predicate Continuation(c: byte) {
    0x80 <= c < 0xC0
  }

  /** The code point gathered from the first `j` bytes, each continuation adding six bits. */
  function Gathered(s: Bytes, j: nat): nat
    requires 1 <= j <= |s|
  {
    if j == 1 then LeadBits(s[0]) else Gathered(s, j - 1) * 64 + s[j - 1] % 64
  }

  predicate Acceptable(len: nat, cp: nat) {
    && !(len == 2 && cp < 0x80) && !(len == 3 && cp < 0x800) && !(len == 4 && cp < 0x10000)
    && cp <= 0x10FFFF && !(0xD800 <= cp <= 0xDFFF)
  }

  /** Bytes taken by the character at the front, or zero when it is refused. */
  function Step(s: Bytes): (n: nat)
    requires s != []
    ensures n <= |s|
  {
    if s[0] <= 0x7F then 1
    else
      var len := Length(s[0]);
      if len == 0 || (len == 2 && LeadBits(s[0]) == 0) || len > |s| then 0
      else if exists j | 1 <= j < len :: !Continuation(s[j]) then 0
      else if !Acceptable(len, Gathered(s, len)) then 0
      else len
  }

  function Decoded(s: Bytes): nat
    requires s != [] && Step(s) > 0
  {
    if s[0] <= 0x7F then s[0] else Gathered(s, Step(s))
  }

  lemma GatheredTwo(s: Bytes)
    requires |s| >= 2 && Length(s[0]) == 2
    ensures Gathered(s, 2) == TwoBytes(s[0], s[1])
  {
  }

  lemma GatheredThree(s: Bytes)
    requires |s| >= 3 && Length(s[0]) == 3
    ensures Gathered(s, 3) == ThreeBytes(s[0], s[1], s[2])
  {
    assert Gathered(s, 2) == LeadBits(s[0]) * 64 + s[1] % 64;
  }

  lemma GatheredFour(s: Bytes)
    requires |s| >= 4 && Length(s[0]) == 4
    ensures Gathered(s, 4) == FourBytes(s[0], s[1], s[2], s[3])
  {
    assert Gathered(s, 2) == LeadBits(s[0]) * 64 + s[1] % 64;
    assert Gathered(s, 3) == Gathered(s, 2) * 64 + s[2] % 64;
  }

  function TwoBytes(a: nat, b: nat): nat { a % 32 * 64 + b % 64 }

  function ThreeBytes(a: nat, b: nat, c: nat): nat { (a % 16 * 64 + b % 64) * 64 + c % 64 }

  function FourBytes(a: nat, b: nat, c: nat, d: nat): nat { ((a % 8 * 64 + b % 64) * 64 + c % 64) * 64 + d % 64 }

  lemma TwoBytesEncode(a: byte, b: byte)
    requires 0xC0 <= a < 0xE0 && Continuation(b) && TwoBytes(a, b) >= 0x80
    ensures TwoBytes(a, b) < 0x800 && Encoding(TwoBytes(a, b)) == [a, b]
  {
  }

  lemma ThreeBytesEncode(a: byte, b: byte, c: byte)
    requires 0xE0 <= a < 0xF0 && Continuation(b) && Continuation(c) && ThreeBytes(a, b, c) >= 0x800
    ensures ThreeBytes(a, b, c) < 0x10000 && Encoding(ThreeBytes(a, b, c)) == [a, b, c]
  {
    PayloadBits(a, b);
    PayloadBits(a, c);
    EncodesThree(ThreeBytes(a, b, c), a - 0xE0, b - 0x80, c - 0x80);
  }

  /** What the masks leave of a lead and of a continuation byte. */
  lemma PayloadBits(a: byte, c: byte)
    requires Continuation(c)
    ensures c % 64 == c - 0x80
    ensures 0xE0 <= a < 0xF0 ==> a % 16 == a - 0xE0
    ensures 0xF0 <= a < 0xF8 ==> a % 8 == a - 0xF0
  {
  }

  lemma EncodesThree(n: nat, a: nat, b: nat, c: nat)
    requires a < 16 && b < 64 && c < 64 && n == (a * 64 + b) * 64 + c && n >= 0x800
    ensures n < 0x10000 && Encoding(n) == [0xE0 + a, 0x80 + b, 0x80 + c]
  {
    SixBits(n, a * 64 + b, c);
    SixBits(a * 64 + b, a, b);
    HigherBits(n);
  }

  lemma HigherBits(n: nat)
    ensures n / 4096 == n / 64 / 64 && n / 262144 == n / 64 / 64 / 64
  {
  }

  lemma SixBits(n: nat, x: nat, r: nat)
    requires n == x * 64 + r && r < 64
    ensures n / 64 == x && n % 64 == r
  {
  }

  lemma FourBytesEncode(a: byte, b: byte, c: byte, d: byte)
    requires 0xF0 <= a < 0xF8 && Continuation(b) && Continuation(c) && Continuation(d)
    requires 0x10000 <= FourBytes(a, b, c, d) <= 0x10FFFF
    ensures Encoding(FourBytes(a, b, c, d)) == [a, b, c, d]
  {
    PayloadBits(a, b);
    PayloadBits(a, c);
    PayloadBits(a, d);
    EncodesFour(FourBytes(a, b, c, d), a - 0xF0, b - 0x80, c - 0x80, d - 0x80);
  }

  lemma EncodesFour(n: nat, a: nat, b: nat, c: nat, d: nat)
    requires a < 8 && b < 64 && c < 64 && d < 64 && n == ((a * 64 + b) * 64 + c) * 64 + d
    requires 0x10000 <= n <= 0x10FFFF
    ensures Encoding(n) == [0xF0 + a, 0x80 + b, 0x80 + c, 0x80 + d]
  {
    SixBits(n, (a * 64 + b) * 64 + c, d);
    SixBits((a * 64 + b) * 64 + c, a * 64 + b, c);
    SixBits(a * 64 + b, a, b);
    HigherBits(n);
  }

  lemma EncodedTwo(cp: nat)
    requires 0x80 <= cp < 0x800
    ensures var e := Encoding(cp);
            |e| == 2 && 0xC2 <= e[0] < 0xE0 && Continuation(e[1]) && TwoBytes(e[0], e[1]) == cp
  {
  }

  lemma EncodedThree(cp: nat)
    requires 0x800 <= cp < 0x10000
    ensures var e := Encoding(cp);
            && |e| == 3 && 0xE0 <= e[0] < 0xF0 && Continuation(e[1]) && Continuation(e[2])
            && ThreeBytes(e[0], e[1], e[2]) == cp
  {
    assert cp / 64 / 64 == cp / 4096;
  }

  lemma EncodedFour(cp: nat)
    requires 0x10000 <= cp <= 0x10FFFF
    ensures var e := Encoding(cp);
            && |e| == 4 && 0xF0 <= e[0] < 0xF8 && Continuation(e[1]) && Continuation(e[2]) && Continuation(e[3])
            && FourBytes(e[0], e[1], e[2], e[3]) == cp
  {
    var e := Encoding(cp);
    PayloadBits(e[0], e[1]);
    PayloadBits(e[0], e[2]);
    PayloadBits(e[0], e[3]);
    Regathered(cp);
  }

  lemma Regathered(n: nat)
    ensures ((n / 262144 * 64 + n / 4096 % 64) * 64 + n / 64 % 64) * 64 + n % 64 == n
  {
    HigherBits(n);
  }

  /** An accepted character is the encoding of a scalar value. */
  lemma StepSound(s: Bytes)
    requires s != [] && Step(s) > 0
    ensures Scalar(Decoded(s)) && Encoding(Decoded(s)) == s[..Step(s)]
  {
    var n := Step(s);
    assert forall j | 1 <= j < n :: Continuation(s[j]);
    if n == 2 {
      GatheredTwo(s);
      TwoBytesEncode(s[0], s[1]);
    } else if n == 3 {
      GatheredThree(s);
      ThreeBytesEncode(s[0], s[1], s[2]);
    } else if n == 4 {
      GatheredFour(s);
      FourBytesEncode(s[0], s[1], s[2], s[3]);
    }
  }

  /** The encoding of a scalar value is accepted whatever follows it. */
  lemma StepComplete(s: Bytes, cp: nat, rest: Bytes)
    requires Scalar(cp) && s == Encoding(cp) + rest
    ensures s != [] && Step(s) == |Encoding(cp)|
  {
    var e := Encoding(cp);
    assert forall j | 0 <= j < |e| :: s[j] == e[j];
    if 0x80 <= cp < 0x800 {
      EncodedTwo(cp);
      GatheredTwo(s);
    } else if 0x800 <= cp < 0x10000 {
      EncodedThree(cp);
      GatheredThree(s);
    } else if 0x10000 <= cp {
      EncodedFour(cp);
      GatheredFour(s);
    }
  }

  // ---------------------------------------------------------------- the whole memo

  lemma RefusedIsIllFormed(s: Bytes)
    requires s != [] && Step(s) == 0
    ensures !WellFormed(s)
  {
    if WellFormed(s) {
      var cps :| Scalars(cps) && Utf8(cps) == s;
      StepComplete(s, cps[0], Utf8(cps[1..]));
      assert false;
    }
  }

  lemma AcceptedPeels(s: Bytes)
    requires s != [] && Step(s) > 0
    ensures WellFormed(s) <==> WellFormed(s[Step(s)..])
  {
    if WellFormed(s) {
      var cps :| Scalars(cps) && Utf8(cps) == s;
      StepComplete(s, cps[0], Utf8(cps[1..]));
      assert Scalars(cps[1..]) && Utf8(cps[1..]) == s[Step(s)..];
    }
    if WellFormed(s[Step(s)..]) {
      var cps :| Scalars(cps) && Utf8(cps) == s[Step(s)..];
      StepSound(s);
      PutInFront(s, Decoded(s), cps, Step(s));
    }
  }

  lemma PutInFront(s: Bytes, cp: nat, cps: seq<nat>, n: nat)
    requires Scalar(cp) && n <= |s| && Encoding(cp) == s[..n] && Scalars(cps) && Utf8(cps) == s[n..]
    ensures WellFormed(s)
  {
    var all := [cp] + cps;
    assert all[1..] == cps;
    assert Scalars(all) && Utf8(all) == s;
  }

  /** A memo passes exactly when it has at most 256 bytes and is UTF-8. */
  method ValidateMemo(memo: Bytes) returns (ok: bool)
    ensures ok <==> |memo| <= MAX_MEMO_SIZE && WellFormed(memo)
  {
    if |memo| > MAX_MEMO_SIZE {
      return false;
    }
    var i: nat := 0;
    assert memo[0..] == memo;
    while i < |memo|
      invariant i <= |memo| && (WellFormed(memo) <==> WellFormed(memo[i..]))
    {
      var n := CheckCharacter(memo, i);
      if n == 0 {
        RefusedIsIllFormed(memo[i..]);
        return false;
      }
      AcceptedPeels(memo[i..]);
      assert memo[i..][n..] == memo[i + n..];
      i := i + n;
    }
    assert Scalars([]) && Utf8([]) == memo[i..];
    return true;
  }

  method CheckCharacter(memo: Bytes, i: nat) returns (n: nat)
    requires i < |memo|
    ensures n == Step(memo[i..])
  {
    ghost var s := memo[i..];
    var c := memo[i];
    if c <= 0x7F {
      return 1;
    }
    var len, codepoint: nat := 0, 0;
    if 0xC0 <= c < 0xE0 {
      len, codepoint := 2, c % 32;
      if codepoint == 0 {
        return 0;
      }
    } else if 0xE0 <= c < 0xF0 {
      len, codepoint := 3, c % 16;
    } else if 0xF0 <= c < 0xF8 {
      len, codepoint := 4, c % 8;
    } else {
      return 0;
    }
    if i + len > |memo| {
      return 0;
    }
    for j := 1 to len
      invariant codepoint == Gathered(s, j)
      invariant forall k | 1 <= k < j :: Continuation(s[k])
    {
      var cont := memo[i + j];
      assert cont == s[j];
      if !(0x80 <= cont < 0xC0) {
        assert !Continuation(s[j]);
        return 0;
      }
      codepoint := codepoint * 64 + cont % 64;
    }
    if (len == 2 && codepoint < 0x80) || (len == 3 && codepoint < 0x800) || (len == 4 && codepoint < 0x10000)
       || codepoint > 0x10FFFF || (codepoint >= 0xD800 && codepoint <= 0xDFFF) {
      return 0;
    }
    return len;
  }

  // ---------------------------------------------------------------- the byte form

  datatype DestinationTag = DestinationTag(tag: nat, memo: Bytes)

  /** The length field has two bytes: a longer memo's length is cut to them. */
  function Serialize(t: DestinationTag): Bytes {
    LittleEndian(t.tag, 4) + LittleEndian(|t.memo| % 0x1_0000, 2) + t.memo
  }

  /** The tag read at `pos` and the position after it; an empty tag when the data ends too soon. */
  function Deserialize(data: Bytes, pos: nat): (DestinationTag, nat) {
    if pos + 6 > |data| then (DestinationTag(0, []), pos)
    else
      var memo := FromLittleEndian(data[pos + 4..pos + 6]);
      if pos + 6 + memo > |data| then (DestinationTag(0, []), pos + 6)
      else
        (DestinationTag(FromLittleEndian(data[pos..pos + 4]), data[pos + 6..pos + 6 + memo]), pos + 6 + memo)
  }

  /** A tag embedded anywhere is read back, with the position just behind it, exactly when the length
      of its memo fits the two-byte field. */
  lemma ReadBackExactly(t: DestinationTag, before: Bytes, after: Bytes)
    requires t.tag < 0x1_0000_0000
    ensures Deserialize(before + Serialize(t) + after, |before|) == (t, |before| + |Serialize(t)|)
            <==> |t.memo| < 0x1_0000
  {
    var data, pos := before + Serialize(t) + after, |before|;
    HeaderReadBack(t, before, after, data, pos);
    if |t.memo| < 0x1_0000 {
      assert data[pos + 6..pos + 6 + |t.memo|] == t.memo;
    }
  }

  lemma HeaderReadBack(t: DestinationTag, before: Bytes, after: Bytes, data: Bytes, pos: nat)
    requires t.tag < 0x1_0000_0000 && data == before + Serialize(t) + after && pos == |before|
    ensures |data| >= pos + 6 + |t.memo|
    ensures FromLittleEndian(data[pos..pos + 4]) == t.tag
    ensures FromLittleEndian(data[pos + 4..pos + 6]) == |t.memo| % 0x1_0000
  {
    var len := |t.memo| % 0x1_0000;
    assert data[pos..pos + 4] == LittleEndian(t.tag, 4);
    assert data[pos + 4..pos + 6] == LittleEndian(len, 2);
    assert Pow256(4) == 0x1_0000_0000 && Pow256(2) == 0x1_0000;
    LittleEndianReadBack(t.tag, 4, Pow256(4));
    LittleEndianReadBack(len, 2, Pow256(2));
  }
}
