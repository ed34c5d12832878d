/** The rollup contract object, the sequencer and the verifier, with their re-execution loops. */
module RollupClass {
  import opened Bytes
  import opened RollupModel

  class OptimisticRollup {
    const h: Hash
    var current: nat
    var period: nat
    var height: nat
    var root: Digest
    var batches: map<nat, Info>
    var pending: seq<Tx>

    ghost function View(): Rollup
      reads this
    {
      Rollup(current, root, height, period, batches, pending)
    }

    constructor (h: Hash)
      ensures this.h == h && View() == INITIAL
    {
      this.h := h;
      current, period, height := 0, 100, 0;
      root, batches, pending := ZERO_DIGEST, map[], [];
    }

    method SubmitBatch(b: Batch) returns (ok: bool)
      modifies this
      ensures (View(), ok) == RollupModel.SubmitBatch(old(View()), b)
    {
      if b.id != (current + 1) % TWO_64 {
        return false;
      }
      if current > 0 && b.before != root {
        return false;
      }
      var info := Info(b, height, false, false);
      batches := batches[b.id := info];
      current := b.id;
      root := b.after;
      return true;
    }

    method AddTransaction(tx: Tx) returns (ok: bool)
      modifies this
      ensures (View(), ok) == RollupModel.AddTransaction(old(View()), tx)
    {
      if tx.sender == [] || tx.receiver == [] {
        return false;
      }
      if tx.signature == [] {
        return false;
      }
      pending := pending + [tx];
      return true;
    }

    method CreateBatch() returns (b: Batch)
      modifies this
      ensures (View(), b) == RollupModel.CreateBatch(old(View()))
    {
      var txs: seq<Digest> := [];
      for i := 0 to |pending|
        invariant txs == Hashes(pending[..i])
      {
        assert pending[..i + 1][..i] == pending[..i];
        txs := txs + [pending[i].digest];
      }
      assert pending[..|pending|] == pending;
      b := Batch((current + 1) % TWO_64, root, ZERO_DIGEST, txs, height, []);
      pending := [];
    }

    method SubmitFraudProof(p: FraudProof) returns (ok: bool)
      modifies this
      ensures (View(), ok) == RollupModel.SubmitFraudProof(h, old(View()), p)
    {
      if p.id !in batches {
        return false;
      }
      var info := batches[p.id];
      if info.finalized {
        return false;
      }
      ok := VerifyFraudProof(p);
      if !ok {
        return;
      }
      batches := batches[p.id := info.(challenged := true)];
      if info.batch.id == current {
        root := info.batch.before;
        current := (current - 1) % TWO_64;
      }
    }

    method VerifyFraudProof(p: FraudProof) returns (ok: bool)
      ensures ok == RollupModel.VerifyFraudProof(h, View(), p)
    {
      if p.id !in batches {
        return false;
      }
      var b := batches[p.id].batch;
      if p.index >= |b.txs| || p.claimed == p.correct || p.evidence == [] {
        return false;
      }
      if p.stateBefore == [] || p.stateAfter == [] {
        return false;
      }
      var state: Digest := ReExecute(h, b.before, b.txs[..p.index]);
      assert b.txs[..p.index + 1][..p.index] == b.txs[..p.index];
      var computed := h(state + b.txs[p.index]);
      return computed != p.claimed && computed == p.correct;
    }

    method FinalizeBatch(id: nat) returns (ok: bool)
      modifies this
      ensures (View(), ok) == RollupModel.FinalizeBatch(old(View()), id)
    {
      if id !in batches {
        return false;
      }
      var info := batches[id];
      if height < (info.submitted + period) % TWO_64 {
        return false;
      }
      if info.challenged {
        return false;
      }
      batches := batches[id := info.(finalized := true)];
      return true;
    }
  }

  /** Replay the transactions one hash at a time. */
  method ReExecute(h: Hash, root: Digest, txs: seq<Digest>) returns (state: Digest)
    ensures state == Execute(h, root, txs)
  {
    state := root;
    for i := 0 to |txs|
      invariant state == Execute(h, root, txs[..i])
    {
      assert txs[..i + 1][..i] == txs[..i];
      state := h(state + txs[i]);
    }
    assert txs[..|txs|] == txs;
  }

  class RollupVerifier {
    const rollup: OptimisticRollup

    constructor (rollup: OptimisticRollup)
      ensures this.rollup == rollup
    {
      this.rollup := rollup;
    }

    method VerifyBatch(b: Batch) returns (ok: bool)
      ensures ok == RollupModel.VerifyBatch(rollup.h, b)
    {
      if b.txs == [] {
        return false;
      }
      if b.signature == [] {
        return false;
      }
      var state := ReExecute(rollup.h, b.before, b.txs);
      return state == b.after;
    }

    method GenerateFraudProof(id: nat) returns (g: Generated)
      ensures g == RollupModel.GenerateFraudProof(rollup.h, rollup.View(), id)
    {
      if id !in rollup.batches {
        return NoProof;
      }
      var b := rollup.batches[id].batch;
      var ok := VerifyBatch(b);
      if ok {
        return NoProof;
      }
      var running: Digest, before: Digest, disputed: nat := b.before, b.before, 0;
      for i := 0 to |b.txs|
        invariant running == Execute(rollup.h, b.before, b.txs[..i])
        invariant i > 0 ==> disputed == i - 1 && before == Execute(rollup.h, b.before, b.txs[..i - 1])
      {
        assert b.txs[..i + 1][..i] == b.txs[..i];
        before := running;
        running := rollup.h(running + b.txs[i]);
        disputed := i;
      }
      assert b.txs[..|b.txs|] == b.txs;
      if b.txs == [] {
        return Undefined;
      }
      return Proof(FraudProof(id, disputed % 0x1_0000_0000, b.after, running, before, running, b.txs[disputed]));
    }
  }
}
