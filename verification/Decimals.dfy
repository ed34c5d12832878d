/** Decimal numbers as text: printing, and parsing the way the C++ library does. */
module Decimals {
  import opened Bytes

  predicate IsDigit(c: char) {
    '0' <= c <= '9'
  }

  function Digit(d: nat): (c: char)
    requires d < 10
    ensures IsDigit(c) && c as int - '0' as int == d
  {
    ('0' as int + d) as char
  }

  function Decimal(n: nat): (s: string)
    ensures s != ""
  {
    (if n < 10 then "" else Decimal(n / 10)) + [Digit(n % 10)]
  }

  /** The longest prefix of digits. */
  function DigitPrefix(s: string): string {
    if s == "" || !IsDigit(s[0]) then "" else [s[0]] + DigitPrefix(s[1..])
  }

  function Number(digits: string): nat
    requires forall i | 0 <= i < |digits| :: IsDigit(digits[i])
  {
    if digits == "" then 0
    else
      assert IsDigit(digits[|digits| - 1]);
      10 * Number(digits[..|digits| - 1]) + (digits[|digits| - 1] as int - '0' as int)
  }

  predicate IsSpace(c: char) {
    c == ' ' || 9 as char <= c <= 13 as char
  }

  function SkipSpaces(s: string): string {
    if s != "" && IsSpace(s[0]) then SkipSpaces(s[1..]) else s
  }

  lemma {:induction false} PrefixDigits(s: string)
    ensures forall i | 0 <= i < |DigitPrefix(s)| :: IsDigit(DigitPrefix(s)[i])
  {
    if s != "" && IsDigit(s[0]) {
      PrefixDigits(s[1..]);
    }
  }

  /** `std::stoull`: leading space, an optional sign, digits, the rest ignored. No digits or a
      magnitude over 64 bits is an exception; a minus sign negates in 64 bits. */
  function Stoull(s: string): Option<uint64> {
    var t := SkipSpaces(s);
    var signed := t != "" && (t[0] == '+' || t[0] == '-');
    var digits := DigitPrefix(if signed then t[1..] else t);
    PrefixDigits(if signed then t[1..] else t);
    if digits == "" || Number(digits) > MAX_U64 then None
    else if signed && t[0] == '-' then Some((0 - Number(digits)) % TWO_64)
    else Some(Number(digits))
  }

  lemma {:induction false} DecimalDigits(n: nat)
    ensures forall i | 0 <= i < |Decimal(n)| :: IsDigit(Decimal(n)[i])
    ensures Number(Decimal(n)) == n
  {
    if n >= 10 {
      DecimalDigits(n / 10);
      assert Decimal(n)[..|Decimal(n)| - 1] == Decimal(n / 10);
    } else {
      assert Decimal(n)[..|Decimal(n)| - 1] == "";
    }
  }

  lemma {:induction false} AllDigitsPrefix(s: string)
    requires forall i | 0 <= i < |s| :: IsDigit(s[i])
    ensures DigitPrefix(s) == s
  {
    if s != "" {
      AllDigitsPrefix(s[1..]);
    }
  }

  lemma StoullDecimal(n: uint64)
    ensures Stoull(Decimal(n)) == Some(n)
  {
    DecimalDigits(n);
    AllDigitsPrefix(Decimal(n));
    DigitIsPlain(Decimal(n)[0]);
  }

  lemma DigitIsPlain(c: char)
    requires IsDigit(c)
    ensures !IsSpace(c) && c != '+' && c != '-'
  {
    assert 48 <= c as int <= 57;
  }
}
