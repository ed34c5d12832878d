/** The bridge state object, with the loops that check messages. */
module BridgeClass {
  import opened Bytes
  import opened Decimals
  import opened BridgeModel

  class BridgeState {
    const c: Crypto
    var keys: set<string>
    var locked: nat
    var minted: nat
    var trusted: set<Bytes>
    var minimum: nat

    ghost function View(): Bridge
      reads this
    {
      Bridge(keys, locked, minted, trusted, minimum)
    }

    constructor (c: Crypto, trusted: set<Bytes>, minimum: nat)
      ensures this.c == c && View() == Empty(trusted, minimum).b
    {
      this.c := c;
      keys, locked, minted := {}, 0, 0;
      this.trusted, this.minimum := trusted, minimum;
    }

    method VerifyMerkleProof(leaf: Digest, nodes: seq<Bytes>, expected: Digest) returns (ok: bool)
      ensures ok == (Folded(c.h, leaf, nodes) == expected)
    {
      var current: Digest := leaf;
      for i := 0 to |nodes|
        invariant current == Folded(c.h, leaf, nodes[..i])
      {
        assert nodes[..i + 1][..i] == nodes[..i];
        current := c.h(current + nodes[i]);
      }
      assert nodes[..|nodes|] == nodes;
      return current == expected;
    }

    method VerifyValidatorQuorum(m: Message) returns (ok: bool)
      ensures ok == QuorumMet(c, View(), m)
    {
      var count := CountValid(Commitment(c, m), m.signatures);
      return count >= minimum;
    }

    method CountValid(commit: Digest, sigs: seq<Signature>) returns (count: nat)
      ensures count == ValidCount(c, trusted, commit, sigs)
    {
      count := 0;
      for i := 0 to |sigs|
        invariant count == ValidCount(c, trusted, commit, sigs[..i])
      {
        CountsOne(c, trusted, commit, sigs[..i + 1], sigs[..i], sigs[i]);
        var s := sigs[i];
        if s.key != [] && s.key[1..] in trusted && c.check(s.key[1..], commit, s.bytes) {
          count := (count + 1) % 0x1_0000_0000;
        }
      }
      assert sigs[..|sigs|] == sigs;
    }

    method RecordLock(i: Intent) returns (r: BridgeResult)
      modifies this
      ensures (View(), r) == BridgeModel.RecordLock(old(View()), i)
    {
      if i.origin != TALANTON || i.destination != DRACHMA {
        return ErrInvalidChain;
      }
      if i.amount == 0 {
        return ErrAmountZero;
      }
      if i.amount > MAX_U64 - locked {
        return ErrSupplyOverflow;
      }
      var key := NonceKey(i.sender, i.nonce);
      if key in keys {
        return ErrReplay;
      }
      keys := keys + {key};
      locked := locked + i.amount;
      return OK;
    }

    method CheckMessage(m: Message, origin: nat, destination: nat, now: nat, height: nat) returns (r: BridgeResult)
      ensures r == Refusal(c, View(), m, origin, destination, now, height)
    {
      if m.origin != origin || m.destination != destination {
        return ErrInvalidChain;
      }
      if now < (height + MIN_L1_CONFIRMATIONS) % TWO_64 {
        return ErrInsufficientConf;
      }
      if NonceKey(Decimal(m.origin), m.nonce) in keys {
        return ErrReplay;
      }
      var ok := VerifyValidatorQuorum(m);
      if !ok {
        return ErrInsufficientSignatures;
      }
      ok := VerifyMerkleProof(m.payloadHash, m.proof, m.stateRoot);
      if !ok {
        return ErrInvalidProof;
      }
      return OK;
    }

    method ProcessMint(m: Message, now: nat, height: nat) returns (r: BridgeResult)
      modifies this
      ensures (View(), r) == BridgeModel.ProcessMint(c, old(View()), m, now, height)
    {
      r := CheckMessage(m, TALANTON, DRACHMA, now, height);
      if r != OK {
        return;
      }
      r := MintAmount(m.origin, m.nonce, Amount(m.payload));
    }

    method MintAmount(chain: nat, nonce: nat, amount: nat) returns (r: BridgeResult)
      modifies this
      ensures (View(), r) == BridgeModel.MintAmount(old(View()), chain, nonce, amount)
    {
      if amount > 0 {
        if amount > (locked - minted) % TWO_64 {
          return ErrSupplyOverflow;
        }
        if amount > MAX_U64 - minted {
          return ErrSupplyOverflow;
        }
        minted := minted + amount;
      }
      keys := keys + {NonceKey(Decimal(chain), nonce)};
      return OK;
    }

    method RecordBurn(i: Intent) returns (r: BridgeResult)
      modifies this
      ensures (View(), r) == BridgeModel.RecordBurn(old(View()), i)
    {
      if i.origin != DRACHMA || i.destination != TALANTON {
        return ErrInvalidChain;
      }
      if i.amount == 0 {
        return ErrAmountZero;
      }
      var key := NonceKey(i.sender, i.nonce);
      if key in keys {
        return ErrReplay;
      }
      if i.amount <= minted {
        minted := minted - i.amount;
      }
      keys := keys + {key};
      return OK;
    }

    method ProcessUnlock(m: Message, now: nat, height: nat) returns (r: BridgeResult)
      modifies this
      ensures (View(), r) == BridgeModel.ProcessUnlock(c, old(View()), m, now, height)
    {
      r := CheckMessage(m, DRACHMA, TALANTON, now, height);
      if r != OK {
        return;
      }
      var amount := Amount(m.payload);
      if amount > 0 && amount <= locked {
        locked := locked - amount;
      }
      keys := keys + {NonceKey(Decimal(m.origin), m.nonce)};
    }
  }

  /** One more listing goes through the counter. */
  lemma CountsOne(c: Crypto, trusted: set<Bytes>, commit: Digest, sigs: seq<Signature>, init: seq<Signature>,
                  last: Signature)
    requires sigs == init + [last]
    ensures ValidCount(c, trusted, commit, sigs)
            == if Counts(c, trusted, commit, last) then (ValidCount(c, trusted, commit, init) + 1) % 0x1_0000_0000
               else ValidCount(c, trusted, commit, init)
  {
    assert sigs[..|sigs| - 1] == init;
  }
}
