/** Gas, memory, stack and storage over whole runs of the interpreter. */
module VmAccounting {
  import opened Bytes
  import opened Word256
  import opened WordShift
  import opened VmRun

  /** Gas below this leaves room for one more charge in 64 bits. */
  const GAS_CEILING: nat := 0xE000_0000_0000_0000

  /** The gas of a run stays below that, because of its limit or because the program is too short to be
      charged more: each opcode costs at most 32000, and memory fits a vector. */
  predicate GasFits(ctx: Context, code: Bytes) {
    ctx.gasLimit < GAS_CEILING || |code| < 0x1_0000_0000_0000
  }

  /** Three units of gas for every 32-byte word the memory occupies. */
  function MemoryGas(m: Machine): nat {
    3 * ((|m.memory| + 31) / 32)
  }

  ghost predicate WithinLimits(limit: nat, m: Machine) {
    m.gas <= limit && |m.stack| <= MAX_STACK_SIZE && |m.memory| <= MAX_VECTOR
  }

  /** Gas went up exactly with the memory. */
  predicate PaidFor(m: Machine, n: Machine) {
    n.gas - MemoryGas(n) == m.gas - MemoryGas(m)
  }

  /** The gas is `due` and the charge for growing to a size no vector can have. */
  ghost predicate Overcharged(due: nat, have: nat, gas: nat) {
    exists size :: MAX_VECTOR < size < TWO_64 && gas == (due + ExpansionCost(have, size)) % TWO_64
  }

  /** What one opcode may do: its own charge apart, gas goes up exactly with the memory; only the
      exception for an allocation that is too large comes after a charge of its own. */
  ghost predicate Keeps(limit: nat, m: Machine, r: (Machine, Outcome)) {
    && WithinLimits(limit, r.0)
    && (PaidFor(m, r.0)
        || (r.1 == Thrown && |r.0.memory| == |m.memory| && Overcharged(m.gas, |m.memory|, r.0.gas)))
  }

  lemma WordsOf(size: nat)
    requires size <= MAX_VECTOR
    ensures Words(size) == (size + 31) / 32
  {
  }

  lemma ExpandKeeps(limit: nat, m: Machine, size: nat)
    requires m.gas < GAS_CEILING && WithinLimits(limit, m) && size < TWO_64
    ensures var (e, ok) := Expand(limit, m, size);
            && WithinLimits(limit, e) && e.stack == m.stack && e.world == m.world
            && (ok ==> |e.memory| == Max(|m.memory|, size) && PaidFor(m, e))
            && (!ok ==> e.memory == m.memory && (e.gas == m.gas || Overcharged(m.gas, |m.memory|, e.gas)))
  {
    if size > MAX_VECTOR {
      assert Spent(m, ExpansionCost(|m.memory|, size)) == (m.gas + ExpansionCost(|m.memory|, size)) % TWO_64;
    } else if |m.memory| < size {
      WordsOf(size);
      WordsOf(|m.memory|);
      ChargeIsExact(m.gas, (|m.memory| + 31) / 32, (size + 31) / 32);
    }
  }

  lemma ChargeIsExact(gas: nat, have: nat, want: nat)
    requires gas < GAS_CEILING && have <= want <= 0x0400_0000_0000_0000
    ensures (gas + (want - have) % TWO_64 * 3 % TWO_64) % TWO_64 == gas + 3 * (want - have)
  {
  }

  function Max(a: nat, b: nat): nat { if a < b then b else a }

  /** An expansion lowers the gas used in two cases: its size rounds up past 2^64, so that it is charged
      as if it needed no memory at all and the charge for the memory already held is handed back before
      the allocation fails; or the gas itself passes 2^64. */
  lemma WrappedExpansionRefunds(limit: uint64, m: Machine, size: nat)
    requires WithinLimits(limit, m) && MemoryGas(m) <= m.gas && size < TWO_64
    ensures Expand(limit, m, size).0.gas < m.gas
            <==> if size >= TWO_64 - 31 then m.memory != []
                 else m.gas + 3 * ((Max(|m.memory|, size) + 31) / 32) - MemoryGas(m) >= TWO_64
    ensures size >= TWO_64 - 31 ==> Expand(limit, m, size) == (m.(gas := m.gas - MemoryGas(m)), false)
  {
    if size >= TWO_64 - 31 {
      WrappedExpansion(limit, m, size);
    } else if size > |m.memory| {
      UnwrappedExpansion(limit, m, size);
    }
  }

  lemma WrappedExpansion(limit: uint64, m: Machine, size: nat)
    requires WithinLimits(limit, m) && MemoryGas(m) <= m.gas && TWO_64 - 31 <= size < TWO_64
    ensures Expand(limit, m, size) == (m.(gas := m.gas - MemoryGas(m)), false)
  {
    WordsOf(|m.memory|);
    assert Words(size) == 0;
    WrappedCharge(m.gas, (|m.memory| + 31) / 32);
  }

  lemma UnwrappedExpansion(limit: uint64, m: Machine, size: nat)
    requires WithinLimits(limit, m) && MemoryGas(m) <= m.gas && |m.memory| < size < TWO_64 - 31
    ensures Expand(limit, m, size).0.gas < m.gas <==> m.gas + 3 * ((size + 31) / 32) - MemoryGas(m) >= TWO_64
  {
    WordsOf(|m.memory|);
    assert Words(size) == (size + 31) / 32;
    UnwrappedCharge(m.gas, (|m.memory| + 31) / 32, (size + 31) / 32);
  }

  lemma WrappedCharge(gas: uint64, have: nat)
    requires 3 * have <= gas && have <= 0x0400_0000_0000_0000
    ensures (gas + (0 - have) % TWO_64 * 3 % TWO_64) % TWO_64 == gas - 3 * have
  {
    if have > 0 {
      assert (0 - have) % TWO_64 == TWO_64 - have;
      assert (TWO_64 - have) * 3 % TWO_64 == TWO_64 - 3 * have;
    }
  }

  lemma UnwrappedCharge(gas: uint64, have: nat, want: nat)
    requires have <= want <= 0x0800_0000_0000_0000
    ensures (gas + (want - have) % TWO_64 * 3 % TWO_64) % TWO_64
            == if gas + 3 * (want - have) < TWO_64 then gas + 3 * (want - have) else gas + 3 * (want - have) - TWO_64
  {
  }

  // ---------------------------------------------------------------- one opcode

  lemma LoadKeeps(limit: nat, m: Machine, pc: nat)
    requires m.gas < GAS_CEILING && WithinLimits(limit, m)
    ensures Keeps(limit, m, LoadStep(limit, m, pc)) && LoadStep(limit, m, pc).0.world == m.world
  {
    if |m.stack| >= 1 {
      ExpandKeeps(limit, Drop(m, 1), (Low64(Top(m, 0)) + 32) % TWO_64);
    }
  }

  lemma StoreKeeps(op: byte, limit: nat, m: Machine, pc: nat)
    requires m.gas < GAS_CEILING && WithinLimits(limit, m)
    ensures Keeps(limit, m, StoreStep(op, limit, m, pc)) && StoreStep(op, limit, m, pc).0.world == m.world
  {
    if |m.stack| >= 2 {
      var data := if op == MSTORE then Top(m, 1) else [Low64(Top(m, 1)) % 256];
      StoreBytesKeeps(limit, Drop(m, 2), Low64(Top(m, 0)), data, pc);
    }
  }

  lemma StoreBytesKeeps(limit: nat, m: Machine, offset: nat, data: Bytes, pc: nat)
    requires m.gas < GAS_CEILING && WithinLimits(limit, m)
    ensures Keeps(limit, m, StoreBytes(limit, m, offset, data, pc))
    ensures StoreBytes(limit, m, offset, data, pc).0.world == m.world
  {
    ExpandKeeps(limit, m, (offset + |data|) % TWO_64);
  }

  lemma ReturnKeeps(op: byte, limit: nat, m: Machine)
    requires m.gas < GAS_CEILING && WithinLimits(limit, m)
    ensures Keeps(limit, m, ReturnStep(op, limit, m)) && ReturnStep(op, limit, m).0.world == m.world
  {
    if |m.stack| >= 2 {
      ExpandKeeps(limit, Drop(m, 2), (Low64(Top(m, 0)) + Low64(Top(m, 1))) % TWO_64);
    }
  }

  lemma StackStepKeeps(ctx: Context, code: Bytes, m: Machine, pc: nat)
    requires pc < |code| && WithinLimits(ctx.gasLimit, m)
    ensures Keeps(ctx.gasLimit, m, StackStep(ctx, code, m, pc)) && StackStep(ctx, code, m, pc).0.world == m.world
  {
    var op := code[pc];
    if IsBinary(op) {
    } else if IsUnary(op) {
    } else if op == POP {
    } else if IsPush(op) {
    } else if IsDup(op) {
    } else if IsSwap(op) {
    }
  }

  lemma StepKeeps(ctx: Context, code: Bytes, m: Machine, pc: nat)
    requires pc < |code| && m.gas < GAS_CEILING && WithinLimits(ctx.gasLimit, m)
    ensures Keeps(ctx.gasLimit, m, Step(ctx, code, m, pc))
    ensures ctx.isStatic ==> Step(ctx, code, m, pc).0.world == m.world
  {
    var op := code[pc];
    if op == STOP || op == JUMPDEST {
    } else if op == MLOAD {
      LoadKeeps(ctx.gasLimit, m, pc);
    } else if op == MSTORE || op == MSTORE8 {
      StoreKeeps(op, ctx.gasLimit, m, pc);
    } else if op == SLOAD {
    } else if op == SSTORE {
    } else if op == RETURN || op == REVERT {
      ReturnKeeps(op, ctx.gasLimit, m);
    } else {
      StackStepKeeps(ctx, code, m, pc);
    }
  }

  lemma StepAdvances(ctx: Context, code: Bytes, m: Machine, pc: nat)
    requires pc < |code|
    ensures Step(ctx, code, m, pc).1.Next? ==> Step(ctx, code, m, pc).1.pc > pc
  {
  }

  // ---------------------------------------------------------------- whole runs

  ghost predicate Accounted(ctx: Context, code: Bytes, world: WorldStateModel.State, c: Config) {
    && WithinLimits(ctx.gasLimit, c.m)
    && (var due := Costs(c.charged) + MemoryGas(c.m);
        c.m.gas == due
        || (c.status == Ended(InvalidOpcode) && Overcharged(due, |c.m.memory|, c.m.gas)))
    && |c.charged| <= |code|
    && (ctx.isStatic ==> c.m.world == world)
  }

  lemma TurnAccounted(ctx: Context, code: Bytes, world: WorldStateModel.State, c: Config)
    requires GasFits(ctx, code)
    requires Accounted(ctx, code, world, c) && (c.status.Running? ==> |c.charged| <= c.pc)
    ensures var c' := Turn(ctx, code, c);
            Accounted(ctx, code, world, c') && (c'.status.Running? ==> |c'.charged| <= c'.pc)
  {
    if c.status.Running? && c.pc < |code| {
      var op := code[c.pc];
      RoomForCharge(ctx, code, world, c);
      var m := c.m.(gas := Spent(c.m, Cost(op)));
      if m.gas <= ctx.gasLimit {
        StepKeeps(ctx, code, m, c.pc);
        StepAdvances(ctx, code, m, c.pc);
        SettleAccounted(ctx, code, world, c, m, Step(ctx, code, m, c.pc));
      }
    }
  }

  lemma RoomForCharge(ctx: Context, code: Bytes, world: WorldStateModel.State, c: Config)
    requires GasFits(ctx, code) && Accounted(ctx, code, world, c)
    requires c.status.Running? && |c.charged| <= c.pc < |code|
    ensures c.m.gas + Cost(code[c.pc]) < TWO_64
    ensures c.m.gas + Cost(code[c.pc]) <= ctx.gasLimit ==> c.m.gas + Cost(code[c.pc]) < GAS_CEILING
  {
    if ctx.gasLimit >= GAS_CEILING {
      CostsBound(c.charged);
    }
  }

  lemma {:induction false} CostsBound(ops: seq<byte>)
    ensures Costs(ops) <= 32000 * |ops|
    decreases |ops|
  {
    if ops != [] {
      CostsBound(ops[..|ops| - 1]);
    }
  }

  lemma SettleAccounted(ctx: Context, code: Bytes, world: WorldStateModel.State, c: Config, m: Machine,
                        r: (Machine, Outcome))
    requires Accounted(ctx, code, world, c)
    requires c.status.Running? && |c.charged| <= c.pc < |code| && c.m.gas + Cost(code[c.pc]) < TWO_64
    requires m == c.m.(gas := Spent(c.m, Cost(code[c.pc]))) && Keeps(ctx.gasLimit, m, r)
    requires (r.1.Next? ==> r.1.pc > c.pc) && (ctx.isStatic ==> r.0.world == m.world)
    ensures var c' := Settle(c, code[c.pc], r);
            Accounted(ctx, code, world, c') && (c'.status.Running? ==> |c'.charged| <= c'.pc)
  {
    SettleGas(c, code[c.pc], m, r);
  }

  lemma SettleGas(c: Config, op: byte, m: Machine, r: (Machine, Outcome))
    requires c.m.gas == Costs(c.charged) + MemoryGas(c.m)
    requires m.memory == c.m.memory && m.gas == c.m.gas + Cost(op)
    requires PaidFor(m, r.0)
             || (r.1 == Thrown && |r.0.memory| == |m.memory| && Overcharged(m.gas, |m.memory|, r.0.gas))
    ensures var due := Costs(c.charged + [op]) + MemoryGas(r.0);
            r.0.gas == due || (r.1 == Thrown && Overcharged(due, |r.0.memory|, r.0.gas))
  {
    assert (c.charged + [op])[..|c.charged|] == c.charged;
  }

  lemma {:induction false} TurnsAccounted(ctx: Context, code: Bytes, world: WorldStateModel.State, c: Config, n: nat)
    requires GasFits(ctx, code)
    requires Accounted(ctx, code, world, c) && (c.status.Running? ==> |c.charged| <= c.pc)
    ensures Accounted(ctx, code, world, Turns(ctx, code, c, n))
    decreases n
  {
    if n > 0 {
      TurnAccounted(ctx, code, world, c);
      TurnsAccounted(ctx, code, world, Turn(ctx, code, c), n - 1);
    }
  }

  /** After any number of opcodes of any program: the gas used is the cost of the opcodes charged plus
      three per word of memory, unless the run ended on an allocation that is too large and was
      charged for; it is never above the limit, the stack is within its bound, no more opcodes ran
      than the program has bytes, and a static run has left the world as it was. */
  lemma EveryRunAccounted(ctx: Context, code: Bytes, world: WorldStateModel.State, n: nat)
    requires GasFits(ctx, code)
    ensures Accounted(ctx, code, world, Turns(ctx, code, Start(world), n))
  {
    TurnsAccounted(ctx, code, world, Start(world), n);
  }

  lemma {:induction false} EndedStays(ctx: Context, code: Bytes, c: Config, n: nat)
    requires c.status.Ended?
    ensures Turns(ctx, code, c, n) == c
    decreases n
  {
    if n > 0 {
      EndedStays(ctx, code, c, n - 1);
    }
  }

  lemma TurnAdvances(ctx: Context, code: Bytes, c: Config)
    ensures var c' := Turn(ctx, code, c);
            c'.status.Running? ==> c.status.Running? && c.pc < |code| && c'.pc > c.pc
  {
    if c.status.Running? && c.pc < |code| {
      StepAdvances(ctx, code, c.m.(gas := Spent(c.m, Cost(code[c.pc]))), c.pc);
    }
  }

  /** Every run ends: each turn moves the program counter on, and past the program there is no more. */
  lemma {:induction false} RunEnds(ctx: Context, code: Bytes, c: Config, n: nat)
    requires c.pc + n > |code|
    ensures Turns(ctx, code, c, n + 1).status.Ended?
    decreases n
  {
    TurnAdvances(ctx, code, c);
    if Turn(ctx, code, c).status.Ended? {
      EndedStays(ctx, code, Turn(ctx, code, c), n);
    } else {
      RunEnds(ctx, code, Turn(ctx, code, c), n - 1);
    }
  }

  // ---------------------------------------------------------------- memory as a store

  /** A word stored is the word loaded from the same place, and loading it charges nothing more. */
  lemma LoadAfterStore(limit: nat, m: Machine, offset: nat, w: Word, pc: nat)
    requires StoreBytes(limit, m, offset, w, pc).1.Next? && |m.stack| < MAX_STACK_SIZE
    ensures var stored := StoreBytes(limit, m, offset, w, pc).0;
            LoadWord(limit, stored, offset, pc) == (stored.(stack := stored.stack + [w]), Next(pc + 1))
  {
    var (e, ok) := Expand(limit, m, (offset + |w|) % TWO_64);
    var stored := WriteAt(e.memory, offset, w);
    assert stored[offset..offset + 32] == w;
  }
}
