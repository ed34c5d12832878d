/** Which commitments survive being written out and read back: exactly the clean, valid ones. */
module CommitmentRoundTrip {
  import opened Bytes
  import opened Commitments
  import opened CommitmentCodec
  import opened Decimals

  /** No delimiter where it would be taken for one. A signature may hold bars: it comes last. */
  predicate CleanSignature(s: FinalitySignature) {
    && ':' !in s.validator && ',' !in s.validator && '|' !in s.validator
    && ':' !in s.signature && ',' !in s.signature
  }

  predicate Clean(sigs: seq<FinalitySignature>) {
    forall i | 0 <= i < |sigs| :: CleanSignature(sigs[i])
  }

  // ---------------------------------------------------------------- reading back what was written

  lemma TakeOneField(text: string, rest: string, k: nat)
    requires NoColon(text) && k > 0
    ensures TakeFields(text + ":" + rest, k) == Prepend([text], TakeFields(rest, k - 1))
  {
    var s := text + ":" + rest;
    assert s[..|text|] == text && s[|text| + 1..] == rest;
    FirstColon(s, |text|);
    TakeOne(s, |text|, k);
  }

  predicate NoColon(text: string) {
    ':' !in text
  }

  predicate NoColons(texts: seq<string>) {
    forall i | 0 <= i < |texts| :: NoColon(texts[i])
  }

  /** `s` is the texts, each with a colon behind it, and then `rest`. */
  predicate Spells(s: string, texts: seq<string>, rest: string) {
    if texts == [] then s == rest
    else
      var n := |texts[0]|;
      n < |s| && s[..n] == texts[0] && s[n] == ':' && Spells(s[n + 1..], texts[1..], rest)
  }

  lemma {:induction false} SpellsOneMore(s: string, texts: seq<string>, rest: string)
    requires texts != [] && Spells(s, texts[..|texts| - 1], texts[|texts| - 1] + ":" + rest)
    ensures Spells(s, texts, rest)
    decreases |texts|
  {
    var n := |texts[0]|;
    if |texts| == 1 {
      assert s[n + 1..] == rest;
    } else {
      assert texts[1..][..|texts| - 2] == texts[..|texts| - 1][1..];
      SpellsOneMore(s[n + 1..], texts[1..], rest);
    }
  }

  lemma {:induction false} ColonsSpell(texts: seq<string>, rest: string)
    ensures Spells(Colons(texts) + rest, texts, rest)
    decreases |texts|
  {
    if texts == [] {
      assert "" + rest == rest;
    } else {
      var tail := texts[|texts| - 1] + ":" + rest;
      ColonsSpell(texts[..|texts| - 1], tail);
      assert Colons(texts) + rest == Colons(texts[..|texts| - 1]) + tail;
      SpellsOneMore(Colons(texts) + rest, texts, rest);
    }
  }

  lemma FirstColon(s: string, n: nat)
    requires n < |s| && NoColon(s[..n]) && s[n] == ':'
    ensures Find(s, ':') == n
  {
    FindFirst(s[..n], ':', s[n + 1..]);
    assert s == s[..n] + ":" + s[n + 1..];
  }

  lemma TakeOne(s: string, n: nat, k: nat)
    requires n < |s| && Find(s, ':') == n && k > 0
    ensures TakeFields(s, k) == Prepend([s[..n]], TakeFields(s[n + 1..], k - 1))
  {
  }

  lemma {:induction false} TakeSpelled(s: string, texts: seq<string>, rest: string, k: nat,
                                       r: Fields)
    requires |texts| <= k && NoColons(texts) && Spells(s, texts, rest)
    requires r == TakeFields(rest, k - |texts|)
    ensures TakeFields(s, k) == Prepend(texts, r)
    decreases |texts|
  {
    if texts == [] {
      NothingPrepended(r);
    } else {
      var n := |texts[0]|;
      assert NoColon(texts[0]);
      FirstColon(s, n);
      TakeOne(s, n, k);
      TakeSpelled(s[n + 1..], texts[1..], rest, k - 1, r);
      FirstPrepended(texts, r);
    }
  }

  lemma FirstPrepended(texts: seq<string>, r: Fields)
    requires texts != []
    ensures Prepend([texts[0]], Prepend(texts[1..], r)) == Prepend(texts, r)
  {
    match r
    case TooFew =>
    case Fields(more, left) => assert [texts[0]] + (texts[1..] + more) == texts + more;
  }

  lemma DigitsHaveNoDelimiter(n: nat)
    ensures ':' !in Decimal(n) && ',' !in Decimal(n) && '|' !in Decimal(n)
  {
    DecimalDigits(n);
  }

  lemma HashHasNoColon(s: string)
    requires IsHash(s)
    ensures ':' !in s
  {
  }

  lemma HeaderHasNoColon(c: Commitment)
    requires ValidPayload(c)
    ensures NoColons(Header(c))
  {
    DigitsHaveNoDelimiter(c.epoch);
    DigitsHaveNoDelimiter(c.height);
    HashHasNoColon(c.blockHash);
    HashHasNoColon(c.stateRoot);
    HashHasNoColon(c.validatorSetHash);
    if c.upstream != "" {
      HashHasNoColon(c.upstream);
    }
  }

  lemma SignatureReadBack(s: FinalitySignature)
    requires CleanSignature(s)
    ensures var t := SignatureText(s);
            ',' !in t && ':' !in t && t != "" && ParseItem(t) == Some([s])
  {
    var t := SignatureText(s);
    DigitsHaveNoDelimiter(s.stake);
    var tail := Decimal(s.stake) + "|" + s.signature;
    assert t == s.validator + "|" + tail;
    FindFirst(s.validator, '|', tail);
    assert t[..|s.validator|] == s.validator && t[|s.validator| + 1..] == tail;
    StakeReadBack(s, tail);
  }

  lemma StakeReadBack(s: FinalitySignature, tail: string)
    requires tail == Decimal(s.stake) + "|" + s.signature
    ensures var second := Find(tail, '|');
            second < |tail| && Stoull(tail[..second]) == Some(s.stake) && tail[second + 1..] == s.signature
  {
    DigitsHaveNoDelimiter(s.stake);
    StoullDecimal(s.stake);
    FindFirst(Decimal(s.stake), '|', s.signature);
    assert tail[..|Decimal(s.stake)|] == Decimal(s.stake) && tail[|Decimal(s.stake)| + 1..] == s.signature;
  }

  lemma LastItem(s: FinalitySignature)
    requires CleanSignature(s)
    ensures ParseList(SignatureText(s)) == Some([s])
  {
    SignatureReadBack(s);
    FindFirst(SignatureText(s), ',', "");
    assert SignatureText(s)[..|SignatureText(s)|] == SignatureText(s);
  }

  lemma ItemBefore(s: FinalitySignature, rest: string)
    requires CleanSignature(s)
    ensures ParseList(SignatureText(s) + "," + rest) == After([s], ParseList(rest))
  {
    SignatureReadBack(s);
    var t := SignatureText(s) + "," + rest;
    FindFirst(SignatureText(s), ',', rest);
    assert t[..|SignatureText(s)|] == SignatureText(s) && t[|SignatureText(s)| + 1..] == rest;
  }

  lemma {:induction false} ListHasNoColon(sigs: seq<FinalitySignature>)
    requires Clean(sigs)
    ensures ':' !in SignatureList(sigs)
    decreases |sigs|
  {
    if sigs != [] {
      ListHasNoColon(sigs[..|sigs| - 1]);
      SignatureReadBack(sigs[|sigs| - 1]);
    }
  }

  lemma {:induction false} ListBefore(sigs: seq<FinalitySignature>, rest: string, r: Option<seq<FinalitySignature>>)
    requires sigs != [] && Clean(sigs) && r == ParseList(rest)
    ensures ParseList(SignatureList(sigs) + "," + rest) == After(sigs, r)
    decreases |sigs|
  {
    var init, last := sigs[..|sigs| - 1], sigs[|sigs| - 1];
    assert init + [last] == sigs;
    ItemBefore(last, rest);
    if init != [] {
      var tail := SignatureText(last) + "," + rest;
      ListBefore(init, tail, After([last], r));
      LastBehind(sigs, rest);
      AfterTwice(init, [last], r);
    }
  }

  lemma LastBehind(sigs: seq<FinalitySignature>, rest: string)
    requires |sigs| > 1
    ensures SignatureList(sigs) + "," + rest
         == SignatureList(sigs[..|sigs| - 1]) + "," + (SignatureText(sigs[|sigs| - 1]) + "," + rest)
  {
  }

  lemma ListReadBack(sigs: seq<FinalitySignature>)
    requires sigs != [] && Clean(sigs)
    ensures ParseList(SignatureList(sigs)) == Some(sigs)
  {
    var init, last := sigs[..|sigs| - 1], sigs[|sigs| - 1];
    assert init + [last] == sigs;
    LastItem(last);
    if init != [] {
      ListBefore(init, SignatureText(last), Some([last]));
    }
  }

  lemma NumbersReadBack(c: Commitment)
    ensures ParseChain(ChainName(c.chain)) == Some(c.chain)
    ensures Stoull(Decimal(c.epoch)) == Some(c.epoch) && Stoull(Decimal(c.height)) == Some(c.height)
  {
    StoullDecimal(c.epoch);
    StoullDecimal(c.height);
  }

  lemma FieldsReadBack(c: Commitment, fields: seq<string>)
    requires ValidPayload(c) && Clean(c.signatures)
    requires fields == Header(c) + [SignatureList(c.signatures)]
    ensures FromFields(fields) == Some(c)
  {
    var sigs := SignatureList(c.signatures);
    assert fields == [ChainName(c.chain), Decimal(c.epoch), Decimal(c.height), c.blockHash, c.stateRoot,
                      c.validatorSetHash, c.upstream, sigs];
    NumbersReadBack(c);
    ListReadBack(c.signatures);
    assert fields[3] == c.blockHash && fields[4] == c.stateRoot && fields[5] == c.validatorSetHash
           && fields[6] == c.upstream;
  }

  /** Whatever follows the header, the eighth field and what is left behind it decide. */
  lemma HeaderThen(c: Commitment, tail: string, left: string)
    requires ValidPayload(c) && Clean(c.signatures)
    requires TakeFields(tail, 1) == Fields([SignatureList(c.signatures)], left)
    ensures Decode(Colons(Header(c)) + tail) == if left == "" then Some(c) else None
  {
    HeaderHasNoColon(c);
    ColonsSpell(Header(c), tail);
    TakeSpelled(Colons(Header(c)) + tail, Header(c), tail, |Header(c)| + 1, TakeFields(tail, 1));
    FieldsReadBack(c, Header(c) + [SignatureList(c.signatures)]);
  }

  lemma CleanRoundTrip(c: Commitment)
    requires ValidPayload(c) && Clean(c.signatures)
    ensures Decode(Encode(c)) == Some(c)
  {
    var list := SignatureList(c.signatures);
    ListHasNoColon(c.signatures);
    FindFirst(list, ':', "");
    HeaderThen(c, list, "");
  }

  // ---------------------------------------------------------------- what reading can yield

  lemma {:induction false} FieldsHaveNoColon(s: string, k: nat)
    requires TakeFields(s, k).Fields?
    ensures forall i | 0 <= i < |TakeFields(s, k).texts| :: ':' !in TakeFields(s, k).texts[i]
    decreases k
  {
    if k > 0 {
      var d := Find(s, ':');
      FindIsFirst(s, ':');
      if d < |s| {
        FieldsHaveNoColon(s[d + 1..], k - 1);
      } else {
        assert s[..d] == s;
      }
    }
  }

  lemma ItemIsClean(item: string)
    requires ':' !in item && ',' !in item && ParseItem(item).Some?
    ensures Clean(ParseItem(item).value)
  {
    if item != "" {
      FindIsFirst(item, '|');
    }
  }

  lemma {:induction false} ListIsClean(s: string)
    requires ':' !in s && ParseList(s).Some?
    ensures Clean(ParseList(s).value)
    decreases |s|
  {
    var d := Find(s, ',');
    FindIsFirst(s, ',');
    ItemIsClean(s[..d]);
    if d < |s| {
      ListIsClean(s[d + 1..]);
    }
  }

  lemma DecodedIsClean(s: string)
    requires Decode(s).Some?
    ensures ValidPayload(Decode(s).value) && Clean(Decode(s).value.signatures)
  {
    FieldsHaveNoColon(s, 8);
    ListIsClean(TakeFields(s, 8).texts[7]);
  }

  /** Over all commitments: reading back what was written gives the same commitment exactly when it
      passes the payload checks and none of its free texts holds a delimiter. */
  lemma RoundTripExactly(c: Commitment)
    ensures Decode(Encode(c)) == Some(c) <==> ValidPayload(c) && Clean(c.signatures)
  {
    if ValidPayload(c) && Clean(c.signatures) {
      CleanRoundTrip(c);
    }
    if Decode(Encode(c)) == Some(c) {
      DecodedIsClean(Encode(c));
    }
  }

  /** The text is not unique: one more colon at the end is accepted and ignored. */
  lemma TrailingColonAccepted(c: Commitment)
    requires ValidPayload(c) && Clean(c.signatures)
    ensures Decode(Encode(c) + ":") == Some(c)
  {
    var list := SignatureList(c.signatures);
    ListHasNoColon(c.signatures);
    assert list + ":" == list + ":" + "" && Encode(c) + ":" == Colons(Header(c)) + (list + ":");
    TakeOneField(list, "", 1);
    assert [list] + [] == [list];
    HeaderThen(c, list + ":", "");
  }
}
