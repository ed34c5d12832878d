/** What a message must show to take effect, said of the message and the bridge alone. */
module BridgeChecks {
  import opened Arithmetic
  import opened Bytes
  import opened Decimals
  import opened Ordered
  import opened BridgeModel

  // ---------------------------------------------------------------- what is signed

  lemma NumbersDetermine(a: nat, b: nat, len: nat, bound: nat)
    requires LittleEndian(a, len) == LittleEndian(b, len) && a < bound && b < bound && bound == Pow256(len)
    ensures a == b
  {
    LittleEndianReadBack(a, len, bound);
    LittleEndianReadBack(b, len, bound);
  }

  lemma Widths()
    ensures Pow256(4) == 0x1_0000_0000 && Pow256(8) == TWO_64
  {
  }

  /** The signed bytes determine the chains, the nonce, the payload hash and the state root of a message. */
  lemma SignedBytesDetermine(m: Message, n: Message)
    requires SignedBytes(m) == SignedBytes(n)
    ensures m.origin % 0x1_0000_0000 == n.origin % 0x1_0000_0000
    ensures m.destination % 0x1_0000_0000 == n.destination % 0x1_0000_0000
    ensures m.nonce == n.nonce && m.payloadHash == n.payloadHash && m.stateRoot == n.stateRoot
  {
    var o, d, k := LittleEndian(m.origin % 0x1_0000_0000, 4), LittleEndian(m.destination % 0x1_0000_0000, 4),
                   LittleEndian(m.nonce, 8);
    var o', d', k' := LittleEndian(n.origin % 0x1_0000_0000, 4), LittleEndian(n.destination % 0x1_0000_0000, 4),
                      LittleEndian(n.nonce, 8);
    SplitConcat(o + d + k + m.payloadHash, m.stateRoot, o' + d' + k' + n.payloadHash, n.stateRoot);
    SplitConcat(o + d + k, m.payloadHash, o' + d' + k', n.payloadHash);
    SplitConcat(o + d, k, o' + d', k');
    SplitConcat(o, d, o', d');
    Widths();
    NumbersDetermine(m.origin % 0x1_0000_0000, n.origin % 0x1_0000_0000, 4, Pow256(4));
    NumbersDetermine(m.destination % 0x1_0000_0000, n.destination % 0x1_0000_0000, 4, Pow256(4));
    NumbersDetermine(m.nonce, n.nonce, 8, Pow256(8));
  }

  // ---------------------------------------------------------------- listings that check

  /** Listing `i` is by a trusted key, behind its prefix byte, whose signature of the commitment checks. */
  predicate ChecksAt(c: Crypto, trusted: set<Bytes>, commit: Digest, sigs: seq<Signature>, i: int) {
    0 <= i < |sigs| && |sigs[i].key| > 0
    && sigs[i].key[1..] in trusted && c.check(sigs[i].key[1..], commit, sigs[i].bytes)
  }

  function Checked(c: Crypto, trusted: set<Bytes>, commit: Digest, sigs: seq<Signature>): set<int> {
    set i | 0 <= i < |sigs| && ChecksAt(c, trusted, commit, sigs, i)
  }

  lemma {:induction false} ListingsAreChecked(c: Crypto, trusted: set<Bytes>, commit: Digest, sigs: seq<Signature>)
    ensures Listings(c, trusted, commit, sigs) == |Checked(c, trusted, commit, sigs)|
    decreases |sigs|
  {
    if sigs != [] {
      var last := |sigs| - 1;
      ListingsAreChecked(c, trusted, commit, sigs[..last]);
      var before := Checked(c, trusted, commit, sigs[..last]);
      assert forall i | 0 <= i < last :: sigs[..last][i] == sigs[i];
      assert forall i :: i in before <==> i in Checked(c, trusted, commit, sigs) && i != last;
      assert Checked(c, trusted, commit, sigs)
          == before + if ChecksAt(c, trusted, commit, sigs, last) then {last} else {};
    }
  }

  // ---------------------------------------------------------------- the Merkle path

  /** Hashing the siblings in order onto the first digest gives the last. */
  ghost predicate Path(h: Hash, digests: seq<Digest>, first: Digest, nodes: seq<Bytes>, last: Digest) {
    && |digests| == |nodes| + 1 && digests[0] == first && digests[|nodes|] == last
    && forall i | 0 <= i < |nodes| :: digests[i + 1] == h(digests[i] + nodes[i])
  }

  lemma {:induction false} PathEnds(h: Hash, digests: seq<Digest>, first: Digest, nodes: seq<Bytes>, last: Digest)
    requires Path(h, digests, first, nodes, last)
    ensures Folded(h, first, nodes) == last
    decreases |nodes|
  {
    if nodes != [] {
      var n := |nodes| - 1;
      PathEnds(h, digests[..n + 1], first, nodes[..n], digests[n]);
    }
  }

  lemma {:induction false} PathThere(h: Hash, first: Digest, nodes: seq<Bytes>) returns (digests: seq<Digest>)
    ensures Path(h, digests, first, nodes, Folded(h, first, nodes))
    decreases |nodes|
  {
    if nodes == [] {
      digests := [first];
    } else {
      var n := |nodes| - 1;
      var before := PathThere(h, first, nodes[..n]);
      digests := before + [Folded(h, first, nodes)];
      assert forall i | 0 <= i < n :: nodes[..n][i] == nodes[i];
    }
  }

  // ---------------------------------------------------------------- accepted messages

  /** Everything a message must show: the two chains of the direction, the confirmations, a nonce not used yet, as
      many listings that check as are asked for, in the 32-bit count, and a path from its payload hash to its
      state root. */
  ghost predicate Authorized(c: Crypto, b: Bridge, m: Message, origin: nat, destination: nat, now: nat, height: nat) {
    && m.origin == origin && m.destination == destination
    && now >= (height + 6) % TWO_64
    && Decimal(origin) + ":" + Decimal(m.nonce) !in b.keys
    && |Checked(c, b.trusted, Commitment(c, m), m.signatures)| % 0x1_0000_0000 >= b.minimum
    && exists digests :: Path(c.h, digests, m.payloadHash, m.proof, m.stateRoot)
  }

  lemma PassesExactly(c: Crypto, b: Bridge, m: Message, origin: nat, destination: nat, now: nat, height: nat)
    ensures Refusal(c, b, m, origin, destination, now, height) == OK
            <==> Authorized(c, b, m, origin, destination, now, height)
  {
    CounterWraps(c, b.trusted, Commitment(c, m), m.signatures);
    ListingsAreChecked(c, b.trusted, Commitment(c, m), m.signatures);
    var digests := PathThere(c.h, m.payloadHash, m.proof);
    if ds :| Path(c.h, ds, m.payloadHash, m.proof, m.stateRoot) {
      PathEnds(c.h, ds, m.payloadHash, m.proof, m.stateRoot);
    }
  }

  /** A mint is accepted if and only if its message is authorized and its amount is nothing, or within what is locked
      and not minted and within 64 bits of supply; it then uses up the nonce and mints that amount, and otherwise
      changes nothing. */
  lemma MintAcceptedExactly(c: Crypto, b: Bridge, m: Message, now: nat, height: nat, amount: nat)
    requires amount == Amount(m.payload)
    ensures var (b', result) := ProcessMint(c, b, m, now, height);
            && (result == OK
                <==> Authorized(c, b, m, TALANTON, DRACHMA, now, height) && SupplyAllows(b, amount))
            && b' == if result != OK then b
                     else b.(keys := b.keys + {Decimal(TALANTON) + ":" + Decimal(m.nonce)}, minted := b.minted + amount)
  {
    PassesExactly(c, b, m, TALANTON, DRACHMA, now, height);
    MintAmountExactly(b, m.origin, m.nonce, amount);
  }

  /** The check is in 64-bit arithmetic; where less is minted than is locked it is that of their difference. */
  predicate SupplyAllows(b: Bridge, amount: nat) {
    amount == 0 || (amount <= (b.locked - b.minted) % TWO_64 && b.minted + amount <= MAX_U64)
  }

  lemma MintAmountExactly(b: Bridge, chain: nat, nonce: nat, amount: nat)
    ensures MintAmount(b, chain, nonce, amount)
            == if SupplyAllows(b, amount)
               then (b.(keys := b.keys + {Decimal(chain) + ":" + Decimal(nonce)}, minted := b.minted + amount), OK)
               else (b, ErrSupplyOverflow)
  {
  }

  /** An unlock is accepted if and only if its message is authorized; it then uses up the nonce and unlocks its
      amount if that much is locked, and otherwise changes nothing. */
  lemma UnlockAcceptedExactly(c: Crypto, b: Bridge, m: Message, now: nat, height: nat)
    ensures var (b', result) := ProcessUnlock(c, b, m, now, height);
            && (result == OK <==> Authorized(c, b, m, DRACHMA, TALANTON, now, height))
            && b' == if result != OK then b
                     else b.(keys := b.keys + {Decimal(DRACHMA) + ":" + Decimal(m.nonce)},
                             locked := if Amount(m.payload) <= b.locked then b.locked - Amount(m.payload) else b.locked)
  {
    PassesExactly(c, b, m, DRACHMA, TALANTON, now, height);
  }

  /** The amount is the number the first eight bytes of the payload spell, the low byte first; a shorter payload
      stands for nothing. */
  lemma AmountSpelled(n: uint64, rest: Bytes, len: nat, short: Bytes)
    requires len == 8 && |short| < 8
    ensures Amount(LittleEndian(n, len) + rest) == n && Amount(short) == 0
  {
    EightByteAmount(n, LittleEndian(n, len), len);
    assert (LittleEndian(n, len) + rest)[..8] == LittleEndian(n, len)[..8];
  }

  // ---------------------------------------------------------------- recorded intents

  lemma LockAcceptedExactly(b: Bridge, i: Intent)
    requires b.locked <= MAX_U64
    ensures var (b', result) := RecordLock(b, i);
            var key := i.sender + ":" + Decimal(i.nonce);
            && (result == OK
                <==> i.origin == TALANTON && i.destination == DRACHMA && i.amount > 0 && b.locked + i.amount <= MAX_U64
                     && key !in b.keys)
            && b' == if result != OK then b else b.(keys := b.keys + {key}, locked := b.locked + i.amount)
  {
  }

  lemma BurnAcceptedExactly(b: Bridge, i: Intent)
    ensures var (b', result) := RecordBurn(b, i);
            var key := i.sender + ":" + Decimal(i.nonce);
            && (result == OK
                <==> i.origin == DRACHMA && i.destination == TALANTON && i.amount > 0 && key !in b.keys)
            && b' == if result != OK then b
                     else b.(keys := b.keys + {key},
                             minted := if i.amount <= b.minted then b.minted - i.amount else b.minted)
  {
  }

  /** A sender's nonce records one transfer at most, in either direction and however the run goes on. */
  lemma NoSecondIntent(c: Crypto, w: World, e: Event, events: seq<Event>, i: Intent, again: Intent)
    requires (e.Lock? || e.Burn?) && e.intent == i && again.sender == i.sender && again.nonce == i.nonce
    requires if e.Lock? then RecordLock(w.b, i).1 == OK else RecordBurn(w.b, i).1 == OK
    ensures var b := Run(c, After(c, w, e), events).b;
            RecordLock(b, again).1 != OK && RecordBurn(b, again).1 != OK
  {
    KeysKept(c, After(c, w, e), events);
  }
}
