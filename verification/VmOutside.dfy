/** When the interpreter reads or writes past its memory vector, which the C++ leaves undefined. */
module VmOutside {
  import opened Bytes
  import opened Word256
  import opened WordShift
  import opened VmRun
  import opened VmRefund

  // ---------------------------------------------------------------- one access

  lemma ExpandReaches(limit: nat, m: Machine, size: nat)
    requires |m.memory| <= MAX_VECTOR && Expand(limit, m, size).1
    ensures var e := Expand(limit, m, size).0;
            && |e.memory| <= MAX_VECTOR
            && |e.memory| == if size <= |m.memory| then |m.memory| else size
  {
  }

  /** `length` bytes from `offset` end past the memory although it was expanded for them, because the end
      passes 2^64: the expansion is then for what remains of it, and succeeds. */
  predicate Outside(limit: nat, m: Machine, offset: nat, length: nat) {
    offset + length >= TWO_64 && Expand(limit, m, (offset + length) % TWO_64).1
  }

  lemma OutsideExactly(limit: nat, m: Machine, offset: uint64, length: uint64)
    requires |m.memory| <= MAX_VECTOR
    ensures var (e, ok) := Expand(limit, m, (offset + length) % TWO_64);
            ok && offset + length > |e.memory| <==> Outside(limit, m, offset, length)
  {
    var size := (offset + length) % TWO_64;
    if Expand(limit, m, size).1 {
      ExpandReaches(limit, m, size);
    }
  }

  lemma LoadOutsideExactly(limit: nat, m: Machine, offset: uint64, pc: nat)
    requires |m.memory| <= MAX_VECTOR
    ensures LoadWord(limit, m, offset, pc).1 == Stop(OutsideMemory) <==> Outside(limit, m, offset, 32)
  {
    OutsideExactly(limit, m, offset, 32);
  }

  lemma StoreOutsideExactly(limit: nat, m: Machine, offset: uint64, data: Bytes, pc: nat)
    requires |m.memory| <= MAX_VECTOR && |data| <= MAX_U64
    ensures StoreBytes(limit, m, offset, data, pc).1 == Stop(OutsideMemory) <==> Outside(limit, m, offset, |data|)
  {
    OutsideExactly(limit, m, offset, |data|);
  }

  lemma ReturnOutsideExactly(limit: nat, m: Machine, offset: uint64, length: uint64, result: ExecResult)
    requires |m.memory| <= MAX_VECTOR && result != OutsideMemory
    ensures GiveBack(limit, m, offset, length, result).1 == Stop(OutsideMemory) <==> Outside(limit, m, offset, length)
  {
    OutsideExactly(limit, m, offset, length);
  }

  // ---------------------------------------------------------------- one opcode

  /** The opcode accesses memory, has its operands, and the access ends past 2^64. */
  predicate LeavesMemory(limit: nat, op: byte, m: Machine) {
    if op == MLOAD then |m.stack| >= 1 && Outside(limit, Drop(m, 1), Low64(Top(m, 0)), 32)
    else if op == MSTORE || op == MSTORE8 then
      |m.stack| >= 2 && Outside(limit, Drop(m, 2), Low64(Top(m, 0)), if op == MSTORE then 32 else 1)
    else
      && (op == RETURN || op == REVERT)
      && |m.stack| >= 2 && Outside(limit, Drop(m, 2), Low64(Top(m, 0)), Low64(Top(m, 1)))
  }

  lemma LowFits(w: Word)
    ensures Low64(w) <= MAX_U64
  {
    EightBytes(|w| - 24);
  }

  lemma StepOutsideExactly(ctx: Context, code: Bytes, m: Machine, pc: nat)
    requires pc < |code| && |m.memory| <= MAX_VECTOR
    ensures Step(ctx, code, m, pc).1 == Stop(OutsideMemory) <==> LeavesMemory(ctx.gasLimit, code[pc], m)
  {
    var op := code[pc];
    if op == MLOAD {
      if |m.stack| >= 1 {
        LowFits(Top(m, 0));
        LoadOutsideExactly(ctx.gasLimit, Drop(m, 1), Low64(Top(m, 0)), pc);
      }
    } else if op == MSTORE || op == MSTORE8 {
      if |m.stack| >= 2 {
        LowFits(Top(m, 0));
        var data := if op == MSTORE then Top(m, 1) else [Low64(Top(m, 1)) % 256];
        StoreOutsideExactly(ctx.gasLimit, Drop(m, 2), Low64(Top(m, 0)), data, pc);
      }
    } else if op == RETURN || op == REVERT {
      if |m.stack| >= 2 {
        LowFits(Top(m, 0));
        LowFits(Top(m, 1));
        ReturnOutsideExactly(ctx.gasLimit, Drop(m, 2), Low64(Top(m, 0)), Low64(Top(m, 1)),
                             if op == RETURN then Returned else Reverted);
      }
    } else {
      OthersStayInside(ctx, code, m, pc);
    }
  }

  lemma OthersStayInside(ctx: Context, code: Bytes, m: Machine, pc: nat)
    requires pc < |code| && code[pc] !in {MLOAD, MSTORE, MSTORE8, RETURN, REVERT}
    ensures Step(ctx, code, m, pc).1 != Stop(OutsideMemory) && Step(ctx, code, m, pc).0.memory == m.memory
  {
    var op := code[pc];
    if op == STOP || op == JUMPDEST || op == SLOAD || op == SSTORE {
    } else {
      StackStaysInside(ctx, code, m, pc);
    }
  }

  lemma StackStaysInside(ctx: Context, code: Bytes, m: Machine, pc: nat)
    requires pc < |code|
    ensures var r := StackStep(ctx, code, m, pc); r.1 != Stop(OutsideMemory) && r.0.memory == m.memory
  {
    var op := code[pc];
    if IsBinary(op) {
    } else if IsUnary(op) {
    } else if op == POP {
    } else if IsPush(op) {
    } else if IsDup(op) {
    } else if IsSwap(op) {
    }
  }

  lemma ExpandFits(limit: nat, m: Machine, size: nat)
    requires |m.memory| <= MAX_VECTOR
    ensures |Expand(limit, m, size).0.memory| <= MAX_VECTOR
  {
  }

  lemma StepMemoryFits(ctx: Context, code: Bytes, m: Machine, pc: nat)
    requires pc < |code| && |m.memory| <= MAX_VECTOR
    ensures |Step(ctx, code, m, pc).0.memory| <= MAX_VECTOR
  {
    var op := code[pc];
    if op == MLOAD {
      if |m.stack| >= 1 {
        ExpandFits(ctx.gasLimit, Drop(m, 1), (Low64(Top(m, 0)) + 32) % TWO_64);
      }
    } else if op == MSTORE || op == MSTORE8 {
      if |m.stack| >= 2 {
        var data := if op == MSTORE then Top(m, 1) else [Low64(Top(m, 1)) % 256];
        ExpandFits(ctx.gasLimit, Drop(m, 2), (Low64(Top(m, 0)) + |data|) % TWO_64);
      }
    } else if op == RETURN || op == REVERT {
      if |m.stack| >= 2 {
        ExpandFits(ctx.gasLimit, Drop(m, 2), (Low64(Top(m, 0)) + Low64(Top(m, 1))) % TWO_64);
      }
    } else {
      OthersStayInside(ctx, code, m, pc);
    }
  }

  // ---------------------------------------------------------------- whole runs

  /** The run is at an opcode that it can pay for and that leaves the memory. */
  predicate AtTheEdge(ctx: Context, code: Bytes, c: Config) {
    && c.status.Running? && c.pc < |code|
    && var m := c.m.(gas := Spent(c.m, Cost(code[c.pc])));
       m.gas <= ctx.gasLimit && LeavesMemory(ctx.gasLimit, code[c.pc], m)
  }

  lemma TurnOutsideExactly(ctx: Context, code: Bytes, c: Config)
    requires |c.m.memory| <= MAX_VECTOR
    ensures Turn(ctx, code, c).status == Ended(OutsideMemory)
            <==> c.status == Ended(OutsideMemory) || AtTheEdge(ctx, code, c)
    ensures |Turn(ctx, code, c).m.memory| <= MAX_VECTOR
  {
    if c.status.Running? && c.pc < |code| {
      var m := c.m.(gas := Spent(c.m, Cost(code[c.pc])));
      if m.gas <= ctx.gasLimit {
        TurnBy(ctx, code, c, m);
        StepOutsideExactly(ctx, code, m, c.pc);
        StepMemoryFits(ctx, code, m, c.pc);
      }
    }
  }

  /** Within `n` turns the run comes to a configuration of some kind. */
  ghost predicate Comes(kind: Config -> bool, ctx: Context, code: Bytes, c: Config, n: nat)
    decreases n
  {
    n > 0 && (kind(c) || Comes(kind, ctx, code, Turn(ctx, code, c), n - 1))
  }

  lemma {:induction false} ComesAt(kind: Config -> bool, ctx: Context, code: Bytes, c: Config, n: nat) returns (k: nat)
    requires Comes(kind, ctx, code, c, n)
    ensures k < n && kind(Turns(ctx, code, c, k))
    decreases n
  {
    k := 0;
    if !kind(c) {
      k := ComesAt(kind, ctx, code, Turn(ctx, code, c), n - 1);
      k := k + 1;
    }
  }

  lemma {:induction false} AtMeansComes(kind: Config -> bool, ctx: Context, code: Bytes, c: Config, n: nat, k: nat)
    requires k < n && kind(Turns(ctx, code, c, k))
    ensures Comes(kind, ctx, code, c, n)
    decreases n
  {
    if k > 0 {
      AtMeansComes(kind, ctx, code, Turn(ctx, code, c), n - 1, k - 1);
    }
  }

  lemma ComesExactly(kind: Config -> bool, ctx: Context, code: Bytes, c: Config, n: nat)
    ensures Comes(kind, ctx, code, c, n) <==> exists k: nat :: k < n && kind(Turns(ctx, code, c, k))
  {
    if Comes(kind, ctx, code, c, n) {
      var k := ComesAt(kind, ctx, code, c, n);
    }
    if k: nat :| k < n && kind(Turns(ctx, code, c, k)) {
      AtMeansComes(kind, ctx, code, c, n, k);
    }
  }

  lemma {:induction false} TurnsOutsideExactly(kind: Config -> bool, ctx: Context, code: Bytes, c: Config, n: nat)
    requires |c.m.memory| <= MAX_VECTOR && forall x :: kind(x) <==> AtTheEdge(ctx, code, x)
    ensures Turns(ctx, code, c, n).status == Ended(OutsideMemory)
            <==> c.status == Ended(OutsideMemory) || Comes(kind, ctx, code, c, n)
    decreases n
  {
    if n > 0 {
      TurnOutsideExactly(ctx, code, c);
      TurnsOutsideExactly(kind, ctx, code, Turn(ctx, code, c), n - 1);
    }
  }

  /** Every run of every program: it ends on an access outside its memory if and only if it came to an opcode
      whose access ends past 2^64 while the expansion for what remains of that end succeeds. */
  lemma RunLeavesMemoryExactly(ctx: Context, code: Bytes, world: WorldStateModel.State, n: nat)
    ensures Turns(ctx, code, Start(world), n).status == Ended(OutsideMemory)
            <==> exists k: nat :: k < n && AtTheEdge(ctx, code, Turns(ctx, code, Start(world), k))
  {
    EndsAtTheEdge(c => AtTheEdge(ctx, code, c), ctx, code, Start(world), n);
  }

  lemma EndsAtTheEdge(kind: Config -> bool, ctx: Context, code: Bytes, c: Config, n: nat)
    requires |c.m.memory| <= MAX_VECTOR && c.status.Running? && forall x :: kind(x) <==> AtTheEdge(ctx, code, x)
    ensures Turns(ctx, code, c, n).status == Ended(OutsideMemory)
            <==> exists k: nat :: k < n && kind(Turns(ctx, code, c, k))
  {
    TurnsOutsideExactly(kind, ctx, code, c, n);
    ComesExactly(kind, ctx, code, c, n);
  }

  // ---------------------------------------------------------------- a run that does

  /** Store 0 at the complement of 0. */
  const OUTSIDE_CODE: Bytes := [0x60, 0, 0x60, 0, NOT, MSTORE]

  /** Its fourth opcode expands the memory to 31 bytes and then writes 32 from 2^64 - 1 on. */
  lemma OutsideReached(ctx: Context, world: WorldStateModel.State, code: Bytes, n: nat)
    requires ctx.gasLimit >= 15 && code == OUTSIDE_CODE && n == 3
    ensures AtTheEdge(ctx, code, Turns(ctx, code, Start(world), n))
    ensures Turns(ctx, code, Start(world), n + 1).status == Ended(OutsideMemory)
    ensures |Turns(ctx, code, Start(world), n + 1).m.memory| == 31
  {
    var c := Start(world);
    var c3 := ThreeOpcodes(ctx, code, c);
    StoreFar(ctx, code, c3);
    assert Turns(ctx, code, Turn(ctx, code, c), n - 1) == c3;
    assert Turns(ctx, code, Turn(ctx, code, c), n) == Turn(ctx, code, c3);
  }

  lemma ThreeOpcodes(ctx: Context, code: Bytes, c: Config) returns (c3: Config)
    requires |code| == 6 && code[0] == 0x60 && code[1] == 0 && code[2] == 0x60 && code[3] == 0 && code[4] == NOT
    requires c.status.Running? && c.pc == 0 && c.m.gas == 0 && c.m.stack == [] && c.m.memory == []
    requires ctx.gasLimit >= 15
    ensures c3 == Turn(ctx, code, Turn(ctx, code, Turn(ctx, code, c)))
    ensures forall k: nat | k >= 2 :: Turns(ctx, code, Turn(ctx, code, c), k) == Turns(ctx, code, c3, k - 2)
    ensures c3.status.Running? && c3.pc == 5 && c3.m.gas == 9 && c3.m.memory == []
    ensures |c3.m.stack| == 2 && Low64(c3.m.stack[1]) == MAX_U64
  {
    PushZero(ctx, code, c);
    var c1 := Turn(ctx, code, c);
    PushZero(ctx, code, c1);
    var c2 := Turn(ctx, code, c1);
    ComplementZero(ctx, code, c2);
    c3 := Turn(ctx, code, c2);
    forall k: nat | k >= 2 ensures Turns(ctx, code, c1, k) == Turns(ctx, code, c3, k - 2) {
      assert Turns(ctx, code, c1, k) == Turns(ctx, code, c2, k - 1);
    }
  }

  lemma StoreFar(ctx: Context, code: Bytes, c: Config)
    requires c.status.Running? && c.pc < |code| && code[c.pc] == MSTORE && c.m.gas + 6 <= ctx.gasLimit
    requires c.m.memory == [] && |c.m.stack| == 2 && Low64(c.m.stack[1]) == MAX_U64
    ensures AtTheEdge(ctx, code, c) && Turn(ctx, code, c).status == Ended(OutsideMemory)
    ensures |Turn(ctx, code, c).m.memory| == 31
  {
    Prices();
    var m := c.m.(gas := c.m.gas + 3);
    TurnBy(ctx, code, c, m);
    StoreBy(ctx, code, m, c.pc, Drop(m, 2));
    FarStore(ctx.gasLimit, Drop(m, 2), m.stack[0], c.pc);
  }

  lemma FarStore(limit: nat, m: Machine, w: Word, pc: nat)
    requires m.memory == [] && m.gas + 3 <= limit <= MAX_U64
    ensures Outside(limit, m, MAX_U64, 32)
    ensures var r := StoreBytes(limit, m, MAX_U64, w, pc); r.1 == Stop(OutsideMemory) && |r.0.memory| == 31
  {
    assert ExpansionCost(0, 31) == 3;
  }

  lemma StoreBy(ctx: Context, code: Bytes, m: Machine, pc: nat, rest: Machine)
    requires pc < |code| && code[pc] == MSTORE && |m.stack| == 2 && Low64(m.stack[1]) == MAX_U64 && rest == Drop(m, 2)
    ensures Step(ctx, code, m, pc) == StoreBytes(ctx.gasLimit, rest, MAX_U64, m.stack[0], pc)
  {
  }

  // ---------------------------------------------------------------- STOP

  /** STOP does not stop: a run that comes to it goes on behind it, with nothing charged or changed. */
  lemma StopGoesOn(ctx: Context, code: Bytes, c: Config)
    requires c.status.Running? && c.pc < |code| && code[c.pc] == STOP && c.m.gas <= ctx.gasLimit
    ensures Turn(ctx, code, c) == c.(pc := c.pc + 1, charged := c.charged + [STOP])
  {
    TurnBy(ctx, code, c, c.m);
  }

  /** From the start of a program over its STOP and on to what is pushed behind it. */
  lemma RunPastStop(ctx: Context, world: WorldStateModel.State, code: Bytes, n: nat)
    requires ctx.gasLimit >= 3 && code == [STOP, 0x60, 0] && n == 2
    ensures var c := Turns(ctx, code, Start(world), n);
            c.status.Running? && c.pc == 3 && |c.m.stack| == 1 && c.m.gas == 3
  {
    var c1 := Turn(ctx, code, Start(world));
    StopGoesOn(ctx, code, Start(world));
    PushZero(ctx, code, c1);
    assert Turns(ctx, code, c1, n - 1) == Turns(ctx, code, Turn(ctx, code, c1), n - 2);
  }
}
