/** Checkpoint commitments: payload checks and the stake quorum. */
module Commitments {
  import opened Arithmetic
  import opened Bytes
  import opened Sums

  datatype SourceChain = Drachma | Obolos

  datatype FinalitySignature = FinalitySignature(validator: string, stake: uint64, signature: string)

  datatype Commitment = Commitment(
    chain: SourceChain,
    epoch: uint64,
    height: uint64,
    blockHash: string,
    stateRoot: string,
    validatorSetHash: string,
    upstream: string,
    signatures: seq<FinalitySignature>)

  // ---------------------------------------------------------------- payload checks

  predicate IsHexDigit(c: char) {
    '0' <= c <= '9' || 'a' <= c <= 'f' || 'A' <= c <= 'F'
  }

  predicate IsHash(s: string) {
    |s| == 64 && forall i | 0 <= i < |s| :: IsHexDigit(s[i])
  }

  predicate ValidPayload(c: Commitment) {
    && c.height != 0
    && IsHash(c.blockHash) && IsHash(c.stateRoot) && IsHash(c.validatorSetHash)
    && c.signatures != []
    && (c.chain == Drachma ==> c.upstream != "")
    && (c.upstream != "" ==> IsHash(c.upstream))
    && forall i | 0 <= i < |c.signatures| :: c.signatures[i].validator != "" && c.signatures[i].signature != ""
  }

  method ValidatePayloadEncoding(c: Commitment) returns (valid: bool)
    ensures valid == ValidPayload(c)
  {
    if c.height == 0 || !IsHash(c.blockHash) || !IsHash(c.stateRoot) || !IsHash(c.validatorSetHash) {
      return false;
    }
    if c.signatures == [] || (c.chain == Drachma && c.upstream == "") {
      return false;
    }
    if c.upstream != "" && !IsHash(c.upstream) {
      return false;
    }
    for i := 0 to |c.signatures|
      invariant forall k | 0 <= k < i :: c.signatures[k].validator != "" && c.signatures[k].signature != ""
    {
      if c.signatures[i].validator == "" || c.signatures[i].signature == "" {
        return false;
      }
    }
    return true;
  }

  /** The value of a hexadecimal digit, in either case. */
  function DigitValue(c: char): Option<nat> {
    if '0' <= c <= '9' then Some((c - '0') as nat)
    else if 'a' <= c <= 'f' then Some((c - 'a') as nat + 10)
    else if 'A' <= c <= 'F' then Some((c - 'A') as nat + 10)
    else None
  }

  /** The text writes the bytes down, two digits each. */
  predicate Writes(s: string, bytes: Bytes) {
    && |s| == 2 * |bytes|
    && forall i | 0 <= i < |bytes| :: ByteAt(s, i, bytes[i])
  }

  predicate ByteAt(s: string, i: nat, b: byte)
    requires 2 * i + 1 < |s|
  {
    DigitValue(s[2 * i]) == Some(b / 16) && DigitValue(s[2 * i + 1]) == Some(b % 16)
  }

  /** The byte two digits stand for. */
  function ReadByte(s: string, i: nat): (b: byte)
    requires 2 * i + 1 < |s| && DigitValue(s[2 * i]).Some? && DigitValue(s[2 * i + 1]).Some?
    ensures ByteAt(s, i, b)
  {
    TwoDigits(DigitValue(s[2 * i]).value, DigitValue(s[2 * i + 1]).value);
    DigitValue(s[2 * i]).value * 16 + DigitValue(s[2 * i + 1]).value
  }

  lemma TwoDigits(high: nat, low: nat)
    requires high < 16 && low < 16
    ensures (high * 16 + low) / 16 == high && (high * 16 + low) % 16 == low
  {
  }

  lemma {:induction false} ReadBytes(s: string, n: nat) returns (bytes: Bytes)
    requires 2 * n <= |s| && forall i | 0 <= i < |s| :: IsHexDigit(s[i])
    ensures |bytes| == n && forall i | 0 <= i < n :: ByteAt(s, i, bytes[i])
  {
    bytes := [];
    for k := 0 to n
      invariant |bytes| == k && forall i | 0 <= i < k :: ByteAt(s, i, bytes[i])
    {
      bytes := bytes + [ReadByte(s, k)];
    }
  }

  ghost predicate WritesHash(s: string) {
    exists bytes: Bytes :: |bytes| == 32 && Writes(s, bytes)
  }

  /** A text passes as a hash if and only if it writes 32 bytes down. */
  lemma {:induction false} IsHashExactly(s: string)
    ensures IsHash(s) <==> WritesHash(s)
  {
    if IsHash(s) {
      var bytes := ReadBytes(s, 32);
    }
    forall bytes: Bytes | |bytes| == 32 && Writes(s, bytes) ensures IsHash(s) {
      forall k | 0 <= k < |s| ensures IsHexDigit(s[k]) {
        assert ByteAt(s, k / 2, bytes[k / 2]);
        assert k == 2 * (k / 2) || k == 2 * (k / 2) + 1;
      }
    }
  }

  /** A payload is valid if and only if it has a height, three hashes, an upstream hash where it comes from Drachma and
      no other text in its place, and signatures, each with a validator and a signature. */
  lemma {:induction false} PayloadExactly(c: Commitment)
    ensures ValidPayload(c)
            <==> && c.height > 0
                 && WritesHash(c.blockHash) && WritesHash(c.stateRoot) && WritesHash(c.validatorSetHash)
                 && (WritesHash(c.upstream) || (c.upstream == "" && c.chain != Drachma))
                 && c.signatures != []
                 && forall s | s in c.signatures :: s.validator != "" && s.signature != ""
  {
    IsHashExactly(c.blockHash);
    IsHashExactly(c.stateRoot);
    IsHashExactly(c.validatorSetHash);
    IsHashExactly(c.upstream);
  }

  // ---------------------------------------------------------------- signed weight

  function Signers(sigs: seq<FinalitySignature>): set<string> {
    set s | s in sigs :: s.validator
  }

  /** The weight the loop adds up: each validator once, at its first stake, in 64 bits. */
  function WeightOf(sigs: seq<FinalitySignature>): nat {
    if sigs == [] then 0
    else
      var init, last := sigs[..|sigs| - 1], sigs[|sigs| - 1];
      if last.validator in Signers(init) then WeightOf(init) else (WeightOf(init) + last.stake) % TWO_64
  }

  lemma SignersStep(sigs: seq<FinalitySignature>)
    requires sigs != []
    ensures Signers(sigs) == Signers(sigs[..|sigs| - 1]) + {sigs[|sigs| - 1].validator}
  {
    assert sigs == sigs[..|sigs| - 1] + [sigs[|sigs| - 1]];
  }

  method SignedStakeWeight(c: Commitment) returns (total: nat)
    ensures total == WeightOf(c.signatures)
  {
    total := 0;
    var seen: set<string> := {};
    for i := 0 to |c.signatures|
      invariant seen == Signers(c.signatures[..i]) && total == WeightOf(c.signatures[..i])
    {
      assert c.signatures[..i + 1][..i] == c.signatures[..i];
      SignersStep(c.signatures[..i + 1]);
      if c.signatures[i].validator !in seen {
        seen := seen + {c.signatures[i].validator};
        total := (total + c.signatures[i].stake) % TWO_64;
      }
    }
    assert c.signatures[..|c.signatures|] == c.signatures;
  }

  ghost predicate TrueStakes(stakes: map<string, nat>, sigs: seq<FinalitySignature>) {
    forall i | 0 <= i < |sigs| :: sigs[i].validator in stakes && sigs[i].stake == stakes[sigs[i].validator]
  }

  /** When the listed stakes are true and the set's total fits 64 bits, the weight is the stake of the
      distinct signers: repeats add nothing and nothing wraps. */
  lemma {:induction false} WeightIsStake(stakes: map<string, nat>, sigs: seq<FinalitySignature>)
    requires TrueStakes(stakes, sigs) && Sum(stakes, stakes.Keys) <= MAX_U64
    ensures Signers(sigs) <= stakes.Keys && WeightOf(sigs) == Sum(stakes, Signers(sigs))
    decreases |sigs|
  {
    if sigs != [] {
      var init, last := sigs[..|sigs| - 1], sigs[|sigs| - 1];
      WeightIsStake(stakes, init);
      SignersStep(sigs);
      if last.validator !in Signers(init) {
        SumAdd(stakes, Signers(init), last.validator);
        SumSubset(stakes, Signers(sigs), stakes.Keys);
      } else {
        assert Signers(sigs) == Signers(init);
      }
    }
  }

  // ---------------------------------------------------------------- the quorum test

  function Saturated(a: nat, b: nat): (p: nat)
    ensures p == if a * b <= MAX_U64 then a * b else MAX_U64
  {
    SaturationGuard(a, b);
    if b == 0 || a <= MAX_U64 / b then a * b else MAX_U64
  }

  lemma SaturationGuard(a: nat, b: nat)
    ensures a * b >= 0 && (a * b <= MAX_U64 <==> b == 0 || a <= MAX_U64 / b)
  {
    if b > 0 {
      var q := MAX_U64 / b;
      assert q * b <= MAX_U64 < (q + 1) * b;
      if a <= q {
        LessMono(a, q, b);
      } else {
        LessMono(q + 1, a, b);
      }
    }
  }

  /** The verdict: a threshold that is one, some active stake, and the saturated comparison. */
  predicate QuorumReached(weight: nat, active: nat, num: nat, den: nat) {
    den != 0 && num <= den && active != 0 && Saturated(weight, den) >= Saturated(active, num)
  }

  /** The threshold is a fraction, some stake is active, and the weight's product reaches the required one or the end of
      64 bits. */
  lemma QuorumExactly(weight: nat, active: nat, num: nat, den: nat)
    ensures QuorumReached(weight, active, num, den)
            <==> && 0 < den && num <= den && 0 < active
                 && (weight * den >= active * num || weight * den >= MAX_U64)
  {
  }

  method ValidateFinalityQuorum(c: Commitment, active: uint64, num: uint64, den: uint64) returns (valid: bool)
    ensures valid == QuorumReached(WeightOf(c.signatures), active, num, den)
    ensures var weight := WeightOf(c.signatures);
            valid <==> && 0 < den && num <= den && 0 < active
                       && (weight * den >= active * num || weight * den >= MAX_U64)
  {
    QuorumExactly(WeightOf(c.signatures), active, num, den);
    if den == 0 || num > den {
      return false;
    }
    if active == 0 {
      return false;
    }
    var weight := SignedStakeWeight(c);
    SaturationGuard(weight, den);
    SaturationGuard(active, num);
    var lhs := if weight <= MAX_U64 / den then weight * den else MAX_U64;
    var rhs := if num == 0 || active <= MAX_U64 / num then active * num else MAX_U64;
    return lhs >= rhs;
  }

  /** For which active stakes and thresholds saturation never spoils a verdict: exactly when the
      required product fits 64 bits, or the largest product short of it stays below saturation. */
  lemma SaturationHarmlessExactly(active: nat, num: nat, den: nat)
    requires 0 < num <= den && 0 < active
    ensures (forall w: nat | w <= active :: QuorumReached(w, active, num, den) <==> w * den >= active * num)
            <==> active * num <= MAX_U64 || (active * num - 1) / den * den < MAX_U64
  {
    var need := active * num;
    NeedPositive(active, num);
    var best: nat := (need - 1) / den;
    assert best * den <= need - 1 < best * den + den;
    BestAtMostActive(best, active, num, den);
    if need <= MAX_U64 || best * den < MAX_U64 {
      forall w: nat | w <= active ensures QuorumReached(w, active, num, den) <==> w * den >= need {
        BelowNeed(w, best, need, den);
      }
    } else {
      assert best <= active && best * den < need && QuorumReached(best, active, num, den);
    }
  }

  lemma NeedPositive(active: nat, num: nat)
    requires active > 0 && num > 0
    ensures active * num > 0
  {
  }

  lemma BestAtMostActive(best: nat, active: nat, num: nat, den: nat)
    requires num <= den && best * den < active * num
    ensures best <= active
  {
    LessMono(num, den, active);
    assert active * num <= active * den;
    if best > active {
      LessMono(active, best, den);
      assert false;
    }
  }

  /** A product short of what is needed is at most the best such product. */
  lemma BelowNeed(w: nat, best: nat, need: nat, den: nat)
    requires den > 0 && best * den < need <= best * den + den
    ensures w * den < need ==> w * den <= best * den
    ensures w * den >= 0
  {
    if w > best {
      LessMono(best + 1, w, den);
    } else {
      LessMono(w, best, den);
    }
  }

  // ---------------------------------------------------------------- quorum intersection

  /** Two commitments that pass the same test over one validator set share signers holding at least
      the overlap the threshold forces; for two thirds that is a third of the stake. */
  lemma QuorumsIntersect(stakes: map<string, nat>, a: Commitment, b: Commitment, num: nat, den: nat)
    requires TrueStakes(stakes, a.signatures) && TrueStakes(stakes, b.signatures)
    requires Sum(stakes, stakes.Keys) * num <= MAX_U64 && Sum(stakes, stakes.Keys) <= MAX_U64
    requires QuorumReached(WeightOf(a.signatures), Sum(stakes, stakes.Keys), num, den)
    requires QuorumReached(WeightOf(b.signatures), Sum(stakes, stakes.Keys), num, den)
    ensures Signers(a.signatures) <= stakes.Keys
    ensures Sum(stakes, Signers(a.signatures) * Signers(b.signatures)) * den
            >= Sum(stakes, stakes.Keys) * (2 * num - den)
  {
    WeightIsStake(stakes, a.signatures);
    WeightIsStake(stakes, b.signatures);
    var p, q := Signers(a.signatures), Signers(b.signatures);
    SumUnion(stakes, p, q);
    SumSubset(stakes, p + q, stakes.Keys);
    Overlap(Sum(stakes, p), Sum(stakes, q), Sum(stakes, p + q), Sum(stakes, p * q),
            Sum(stakes, stakes.Keys), num, den);
  }

  lemma Overlap(p: nat, q: nat, union: nat, shared: nat, total: nat, num: nat, den: nat)
    requires union + shared == p + q && union <= total
    requires p * den >= total * num && q * den >= total * num
    ensures shared * den >= total * (2 * num - den)
  {
    LessMono(union, total, den);
    assert shared * den + union * den == p * den + q * den by {
      assert (union + shared) * den == (p + q) * den;
    }
    assert total * (2 * num - den) == 2 * (total * num) - total * den;
  }

  /** With less than a third of the stake faulty, two commitments passing the two-thirds test have an
      honest signer in common. */
  lemma {:induction false} HonestSignerInBoth(stakes: map<string, nat>, a: Commitment, b: Commitment,
                                              faulty: set<string>)
    requires TrueStakes(stakes, a.signatures) && TrueStakes(stakes, b.signatures) && faulty <= stakes.Keys
    requires Sum(stakes, stakes.Keys) * 2 <= MAX_U64
    requires QuorumReached(WeightOf(a.signatures), Sum(stakes, stakes.Keys), 2, 3)
    requires QuorumReached(WeightOf(b.signatures), Sum(stakes, stakes.Keys), 2, 3)
    requires Sum(stakes, faulty) * 3 < Sum(stakes, stakes.Keys)
    ensures exists id :: id in Signers(a.signatures) && id in Signers(b.signatures) && id !in faulty
  {
    QuorumsIntersect(stakes, a, b, 2, 3);
    var id := HonestOne(stakes, Signers(a.signatures) * Signers(b.signatures), faulty);
  }

  lemma HonestOne(stakes: map<string, nat>, shared: set<string>, faulty: set<string>) returns (id: string)
    requires shared <= stakes.Keys && faulty <= stakes.Keys && Sum(stakes, faulty) < Sum(stakes, shared)
    ensures id in shared && id !in faulty
  {
    if shared <= faulty {
      SumSubset(stakes, shared, faulty);
      assert false;
    }
    id :| id in shared && id !in faulty;
  }
}
