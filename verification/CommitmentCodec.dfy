/** The colon-delimited text form of a commitment. */
module CommitmentCodec {
  import opened Bytes
  import opened Commitments
  import opened Decimals

  // ---------------------------------------------------------------- searching

  /** Where `c` first occurs, or the length of the string. */
  function Find(s: string, c: char): (r: nat)
    ensures r <= |s|
  {
    if s == "" || s[0] == c then 0 else 1 + Find(s[1..], c)
  }

  lemma {:induction false} FindIsFirst(s: string, c: char)
    ensures var r := Find(s, c); c !in s[..r] && (r < |s| ==> s[r] == c)
  {
    if s != "" && s[0] != c {
      FindIsFirst(s[1..], c);
      var r := Find(s, c);
      assert s[..r] == [s[0]] + s[1..][..r - 1];
    }
  }

  lemma {:induction false} FindFirst(s: string, c: char, rest: string)
    requires c !in s
    ensures Find(s + [c] + rest, c) == |s| && Find(s, c) == |s|
  {
    if s == "" {
      assert s + [c] + rest == [c] + rest;
    } else {
      FindFirst(s[1..], c, rest);
      assert (s + [c] + rest)[1..] == s[1..] + [c] + rest;
    }
  }

  // ---------------------------------------------------------------- encoding

  function ChainName(chain: SourceChain): string {
    if chain == Drachma then "DRACHMA" else "OBOLOS"
  }

  /** Texts each followed by a colon. */
  function Colons(texts: seq<string>): string {
    if texts == [] then "" else Colons(texts[..|texts| - 1]) + texts[|texts| - 1] + ":"
  }

  function Header(c: Commitment): seq<string> {
    [ChainName(c.chain), Decimal(c.epoch), Decimal(c.height), c.blockHash, c.stateRoot, c.validatorSetHash, c.upstream]
  }

  function SignatureText(s: FinalitySignature): string {
    s.validator + "|" + Decimal(s.stake) + "|" + s.signature
  }

  function SignatureList(sigs: seq<FinalitySignature>): string {
    if sigs == [] then ""
    else if |sigs| == 1 then SignatureText(sigs[0])
    else SignatureList(sigs[..|sigs| - 1]) + "," + SignatureText(sigs[|sigs| - 1])
  }

  function Encode(c: Commitment): string {
    Colons(Header(c)) + SignatureList(c.signatures)
  }

  method Field(stream: string, text: string, ghost header: seq<string>, ghost i: nat) returns (longer: string)
    requires i < |header| && text == header[i] && stream == Colons(header[..i])
    ensures longer == Colons(header[..i + 1])
  {
    assert header[..i + 1][..i] == header[..i];
    longer := stream + text + ":";
  }

  method EncodeHeader(c: Commitment) returns (stream: string)
    ensures stream == Colons(Header(c))
  {
    ghost var header := Header(c);
    stream := Field("", ChainName(c.chain), header, 0);
    stream := Field(stream, Decimal(c.epoch), header, 1);
    stream := Field(stream, Decimal(c.height), header, 2);
    stream := Field(stream, c.blockHash, header, 3);
    stream := Field(stream, c.stateRoot, header, 4);
    stream := Field(stream, c.validatorSetHash, header, 5);
    stream := Field(stream, c.upstream, header, 6);
    assert header[..7] == header;
  }

  method EncodeCommitment(c: Commitment) returns (stream: string)
    ensures stream == Encode(c)
  {
    stream := EncodeHeader(c);
    ghost var header := stream;
    for i := 0 to |c.signatures|
      invariant stream == header + SignatureList(c.signatures[..i])
    {
      assert c.signatures[..i + 1][..i] == c.signatures[..i];
      if i != 0 {
        stream := stream + ",";
      }
      stream := stream + SignatureText(c.signatures[i]);
    }
    assert c.signatures[..|c.signatures|] == c.signatures;
  }

  // ---------------------------------------------------------------- decoding

  datatype Fields = TooFew | Fields(texts: seq<string>, left: string)

  /** The first `k` fields and what is left behind them; only the last field may lack its colon. */
  function TakeFields(s: string, k: nat): Fields {
    if k == 0 then Fields([], s)
    else
      var d := Find(s, ':');
      if d == |s| then
        if k == 1 then Fields([s], "") else TooFew
      else Prepend([s[..d]], TakeFields(s[d + 1..], k - 1))
  }

  function Prepend(done: seq<string>, r: Fields): Fields {
    match r
    case TooFew => TooFew
    case Fields(texts, left) => Fields(done + texts, left)
  }

  function ParseChain(name: string): Option<SourceChain> {
    if name == "DRACHMA" then Some(Drachma) else if name == "OBOLOS" then Some(Obolos) else None
  }

  /** One tuple; an empty item stands for none. */
  function ParseItem(item: string): Option<seq<FinalitySignature>> {
    if item == "" then Some([])
    else
      var first := Find(item, '|');
      if first == |item| then None
      else
        var tail := item[first + 1..];
        var second := Find(tail, '|');
        if second == |tail| then None
        else
          match Stoull(tail[..second])
          case None => None
          case Some(stake) => Some([FinalitySignature(item[..first], stake, tail[second + 1..])])
  }

  function ParseList(s: string): Option<seq<FinalitySignature>> {
    var d := Find(s, ',');
    match ParseItem(s[..d])
    case None => None
    case Some(one) =>
      if d == |s| then Some(one) else After(one, ParseList(s[d + 1..]))
  }

  function After(done: seq<FinalitySignature>, r: Option<seq<FinalitySignature>>): Option<seq<FinalitySignature>> {
    match r
    case None => None
    case Some(more) => Some(done + more)
  }

  /** A decoded commitment, or a refusal. */
  function Decode(s: string): Option<Commitment> {
    match TakeFields(s, 8)
    case TooFew => None
    case Fields(texts, left) => if left != "" || |texts| != 8 then None else FromFields(texts)
  }

  function FromFields(f: seq<string>): Option<Commitment>
    requires |f| == 8
  {
    var chain, epoch, height := ParseChain(f[0]), Stoull(f[1]), Stoull(f[2]);
    var sigs := ParseList(f[7]);
    if chain.None? || epoch.None? || height.None? || sigs.None? then None
    else
      var c := Commitment(chain.value, epoch.value, height.value, f[3], f[4], f[5], f[6], sigs.value);
      if ValidPayload(c) then Some(c) else None
  }

  // ---------------------------------------------------------------- the decoding loops

  method DecodeCommitment(encoded: string) returns (r: Option<Commitment>)
    ensures r == Decode(encoded)
  {
    var fields: seq<string> := [];
    var offset: nat := 0;
    ghost var n := 8;
    assert encoded[0..] == encoded;
    NothingPrepended(TakeFields(encoded, n));
    var i: nat := 0;
    while i < 8
      invariant i <= 8 && n == 8 && |fields| == i && Taken(encoded, n, fields, offset, n - i)
    {
      var ok: bool;
      ok, fields, offset := DecodeField(encoded, n, fields, offset, 8 - i);
      if !ok {
        return None;
      }
      i := i + 1;
    }
    if offset != |encoded| {
      return None;
    }
    r := DecodeFields(fields);
  }

  lemma NothingPrepended(r: Fields)
    ensures Prepend([], r) == r
  {
    match r
    case TooFew =>
    case Fields(texts, left) => assert [] + texts == texts;
  }

  /** The fields read so far, with `k` more to come from `offset` on, are those of the whole text. */
  ghost predicate Taken(encoded: string, n: nat, fields: seq<string>, offset: nat, k: nat) {
    offset <= |encoded| && TakeFields(encoded, n) == Prepend(fields, TakeFields(encoded[offset..], k))
  }

  method DecodeField(encoded: string, ghost n: nat, fields: seq<string>, offset: nat, k: nat)
    returns (ok: bool, fields': seq<string>, offset': nat)
    requires k > 0 && Taken(encoded, n, fields, offset, k)
    ensures if ok then |fields'| == |fields| + 1 && Taken(encoded, n, fields', offset', k - 1)
            else TakeFields(encoded, n) == TooFew
  {
    var rest := encoded[offset..];
    var d := Find(rest, ':');
    fields', offset' := fields, offset;
    if d == |rest| {
      if k != 1 {
        return false, fields, offset;
      }
      fields' := fields + [rest];
      offset' := |encoded|;
      assert encoded[offset'..] == "";
    } else {
      fields' := fields + [rest[..d]];
      offset' := offset + d + 1;
      assert encoded[offset'..] == rest[d + 1..];
    }
    ok := true;
    TakenStep(fields, rest, k, d);
  }

  lemma TakenStep(fields: seq<string>, rest: string, k: nat, d: nat)
    requires k > 0 && d == Find(rest, ':') && (d == |rest| ==> k == 1)
    ensures Prepend(fields, TakeFields(rest, k))
         == if d == |rest| then Prepend(fields + [rest], TakeFields("", k - 1))
            else Prepend(fields + [rest[..d]], TakeFields(rest[d + 1..], k - 1))
  {
    if d == |rest| {
      assert fields + [rest] + [] == fields + [rest];
    } else {
      match TakeFields(rest[d + 1..], k - 1)
      case TooFew =>
      case Fields(more, left) => assert fields + ([rest[..d]] + more) == fields + [rest[..d]] + more;
    }
  }

  method DecodeFields(f: seq<string>) returns (r: Option<Commitment>)
    requires |f| == 8
    ensures r == FromFields(f)
  {
    var chain := ParseChain(f[0]);
    if chain == None {
      return None;
    }
    var epoch := Stoull(f[1]);
    var height := Stoull(f[2]);
    if epoch == None || height == None {
      return None;
    }
    var sigs := DecodeList(f[7]);
    if sigs == None {
      return None;
    }
    var c := Commitment(chain.value, epoch.value, height.value, f[3], f[4], f[5], f[6], sigs.value);
    var valid := ValidatePayloadEncoding(c);
    return if valid then Some(c) else None;
  }

  method DecodeList(text: string) returns (r: Option<seq<FinalitySignature>>)
    ensures r == ParseList(text)
  {
    var sigs: seq<FinalitySignature> := [];
    var cursor: nat := 0;
    ghost var whole := ParseList(text);
    assert text[0..] == text;
    NothingBefore(whole);
    while cursor <= |text|
      invariant cursor <= |text| && whole == After(sigs, ParseList(text[cursor..]))
      decreases |text| - cursor
    {
      var rest := text[cursor..];
      var d := Find(rest, ',');
      var one := ParseItem(rest[..d]);
      ListEnd(rest, d, one, sigs, whole);
      if one == None {
        return None;
      }
      if d == |rest| {
        return Some(sigs + one.value);
      }
      ListOn(rest, d, one.value, sigs, whole);
      assert rest[d + 1..] == text[cursor + d + 1..];
      sigs := sigs + one.value;
      cursor := cursor + d + 1;
    }
    assert false;
  }

  lemma ListEnd(rest: string, d: nat, one: Option<seq<FinalitySignature>>, sigs: seq<FinalitySignature>,
                whole: Option<seq<FinalitySignature>>)
    requires d == Find(rest, ',') <= |rest| && one == ParseItem(rest[..d]) && whole == After(sigs, ParseList(rest))
    ensures one == None ==> whole == None
    ensures one.Some? && d == |rest| ==> whole == Some(sigs + one.value)
  {
  }

  lemma ListOn(rest: string, d: nat, one: seq<FinalitySignature>, sigs: seq<FinalitySignature>,
               whole: Option<seq<FinalitySignature>>)
    requires d == Find(rest, ',') < |rest| && ParseItem(rest[..d]) == Some(one) && whole == After(sigs, ParseList(rest))
    ensures whole == After(sigs + one, ParseList(rest[d + 1..]))
  {
    ListStep(rest, d, one);
    AfterTwice(sigs, one, ParseList(rest[d + 1..]));
  }

  lemma NothingBefore(r: Option<seq<FinalitySignature>>)
    ensures After([], r) == r
  {
    match r
    case None =>
    case Some(more) => assert [] + more == more;
  }

  lemma ListStep(rest: string, d: nat, one: seq<FinalitySignature>)
    requires d == Find(rest, ',') < |rest| && ParseItem(rest[..d]) == Some(one)
    ensures ParseList(rest) == After(one, ParseList(rest[d + 1..]))
  {
  }

  lemma AfterTwice(done: seq<FinalitySignature>, one: seq<FinalitySignature>, r: Option<seq<FinalitySignature>>)
    ensures After(done, After(one, r)) == After(done + one, r)
  {
    match r
    case None =>
    case Some(more) => assert done + (one + more) == done + one + more;
  }
}
