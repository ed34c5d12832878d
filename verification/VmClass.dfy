/** The virtual machine object: byte loops, a stack and a memory that change in place. */
module VmClass {
  import opened Bytes
  import opened Word256
  import opened VmWords
  import opened WordPower
  import opened VmRun
  import VmAccounting
  import WordDivision
  import opened WordShift
  import WorldStateClass

  class VM {
    const state: WorldStateClass.WorldState
    const ctx: Context
    var stack: seq<Word>
    var memory: Bytes
    var returned: Bytes
    var gasUsed: nat

    ghost function View(): Machine
      reads this, state
    {
      Machine(state.View(), stack, memory, gasUsed, returned)
    }

    constructor (state: WorldStateClass.WorldState, ctx: Context)
      ensures this.state == state && this.ctx == ctx
      ensures View() == Start(state.View()).m
    {
      this.state, this.ctx := state, ctx;
      stack, memory, returned, gasUsed := [], [], [], 0;
    }

    // -------------------------------------------------------------- stack

    /** Push, or the exception for a full stack. */
    method Push(value: Word, pc: nat) returns (outcome: Outcome)
      modifies `stack
      ensures (View(), outcome) == PushWord(old(View()), value, pc)
    {
      if |stack| >= MAX_STACK_SIZE {
        return Thrown;
      }
      stack := stack + [value];
      return Next(pc + 1);
    }

    method Pop() returns (ok: bool, value: Word)
      modifies `stack
      ensures ok == (|old(View()).stack| > 0)
      ensures if ok then value == Top(old(View()), 0) && View() == Drop(old(View()), 1)
              else View() == old(View())
    {
      if |stack| == 0 {
        return false, ZERO_DIGEST;
      }
      value := stack[|stack| - 1];
      stack := stack[..|stack| - 1];
      ok := true;
    }

    /** Two pops, the second value first. */
    method PopTwo() returns (ok: bool, deep: Word, top: Word)
      modifies `stack
      ensures ok == (|old(View()).stack| >= 2)
      ensures if ok then top == Top(old(View()), 0) && deep == Top(old(View()), 1) && View() == Drop(old(View()), 2)
              else (View(), Thrown) == Underflow(old(View()))
    {
      deep := ZERO_DIGEST;
      ok, top := Pop();
      if ok {
        ok, deep := Pop();
      }
    }

    method Dup(op: byte, pc: nat) returns (outcome: Outcome)
      requires IsDup(op)
      modifies `stack
      ensures (View(), outcome) == DupStep(op, old(View()), pc)
    {
      var depth := op - 0x7f;
      if depth > |stack| {
        return Thrown;
      }
      outcome := Push(stack[|stack| - 1 - (depth - 1)], pc);
    }

    method Swap(op: byte, pc: nat) returns (outcome: Outcome)
      requires IsSwap(op)
      modifies `stack
      ensures (View(), outcome) == SwapStep(op, old(View()), pc)
    {
      var depth := op - 0x8f;
      if depth >= |stack| {
        return Thrown;
      }
      var top := |stack| - 1;
      var other := |stack| - 1 - depth;
      stack := stack[top := stack[other]][other := stack[top]];
      return Next(pc + 1);
    }

    // -------------------------------------------------------------- gas and memory

    method UseGas(amount: nat) returns (ok: bool)
      modifies `gasUsed
      ensures ok == (Spent(old(View()), amount) <= ctx.gasLimit)
      ensures View() == if ok then old(View()).(gas := Spent(old(View()), amount)) else old(View())
    {
      var sum := (gasUsed + amount) % TWO_64;
      if sum > ctx.gasLimit {
        return false;
      }
      gasUsed := sum;
      return true;
    }

    method ExpandMemory(size: nat) returns (ok: bool)
      modifies `gasUsed, `memory
      ensures (View(), ok) == Expand(ctx.gasLimit, old(View()), size)
    {
      ok := true;
      if size > |memory| {
        var oldWords := (|memory| + 31) % TWO_64 / 32;
        var newWords := (size + 31) % TWO_64 / 32;
        ok := UseGas((newWords - oldWords) % TWO_64 * 3 % TWO_64);
        if ok && size > MAX_VECTOR {
          ok := false;
        } else if ok {
          memory := memory + ZeroBytes(size - |memory|);
        }
      }
    }

    method MemoryStore(offset: nat, data: Bytes, pc: nat) returns (outcome: Outcome)
      modifies `gasUsed, `memory
      ensures (View(), outcome) == StoreBytes(ctx.gasLimit, old(View()), offset, data, pc)
    {
      var ok := ExpandMemory((offset + |data|) % TWO_64);
      if !ok {
        return Thrown;
      }
      if offset + |data| > |memory| {
        return Stop(OutsideMemory);
      }
      memory := memory[..offset] + data + memory[offset + |data|..];
      return Next(pc + 1);
    }

    method MemoryLoad(offset: nat, pc: nat) returns (outcome: Outcome)
      modifies `gasUsed, `memory, `stack
      ensures (View(), outcome) == LoadWord(ctx.gasLimit, old(View()), offset, pc)
    {
      var ok := ExpandMemory((offset + 32) % TWO_64);
      if !ok {
        return Thrown;
      }
      if offset + 32 > |memory| {
        return Stop(OutsideMemory);
      }
      outcome := Push(memory[offset..offset + 32], pc);
    }

    // -------------------------------------------------------------- arithmetic

    method Arithmetic(op: byte, a: Word, b: Word) returns (r: Word)
      requires IsBinary(op) && op < LT
      ensures r == ArithmeticWord(op, a, b)
    {
      if op == ADD {
        r := Add(a, b);
        Spelled(r, Value(a) + Value(b));
      } else if op == MUL {
        r := WordShift.Mul(a, b);
      } else if op == SUB {
        r := Difference(a, b);
      } else if op == DIV {
        r := Divide(a, b);
      } else if op == MOD {
        r := Modulo(a, b);
      } else {
        r := Exp(a, b);
      }
    }

    method Difference(a: Word, b: Word) returns (r: Word)
      ensures r == ToWord((Value(a) - Value(b)) % Modulus(a))
    {
      r := Sub(a, b);
      SpelledExactly(r, (Value(a) - Value(b)) % Modulus(a));
    }

    method Divide(a: Word, b: Word) returns (r: Word)
      ensures r == ToWord(Quotient(Value(a), Value(b)))
    {
      r := WordDivision.Div(a, b);
      SpelledExactly(r, Quotient(Value(a), Value(b)));
    }

    method Modulo(a: Word, b: Word) returns (r: Word)
      ensures r == ToWord(Remainder(Value(a), Value(b)))
    {
      r := WordDivision.Mod(a, b);
      SpelledExactly(r, Remainder(Value(a), Value(b)));
    }

    method Comparison(op: byte, a: Word, b: Word) returns (r: Word)
      requires op == LT || op == GT || op == EQ
      ensures r == Flag(Compare(op, Value(a), Value(b)))
    {
      var holds: bool;
      if op == LT {
        holds := Lt(a, b);
      } else if op == GT {
        holds := Lt(b, a);
      } else {
        holds := a == b;
        NumberSpelled(a);
        NumberSpelled(b);
      }
      r := FlagWord(holds);
    }

    method FlagWord(holds: bool) returns (r: Word)
      ensures r == Flag(holds)
    {
      r := ToUint256(if holds then 1 else 0);
    }

    method Shift(op: byte, shift: Word, value: Word) returns (r: Word)
      requires op == SHL || op == SHR
      ensures r == ToWord(if op == SHL then ShiftedLeft(Value(value), Low64(shift))
                          else ShiftedRight(Value(value), Low64(shift)))
    {
      if op == SHL {
        r := WordShift.Shl(shift, value);
        ZeroIsItself(Modulus(r));
        Spelled(r, ShiftedLeft(Value(value), Low64(shift)));
      } else {
        r := WordShift.Shr(shift, value);
        SpelledExactly(r, ShiftedRight(Value(value), Low64(shift)));
      }
    }

    lemma ZeroIsItself(m: nat)
      requires m > 0
      ensures 0 % m == 0
    {
    }

    method Binary(op: byte, a: Word, b: Word) returns (r: Word)
      requires IsBinary(op)
      ensures r == BinaryWord(op, a, b)
    {
      if op < LT {
        r := Arithmetic(op, a, b);
      } else if op < AND {
        r := Comparison(op, a, b);
      } else if op == AND {
        r := BytewiseLoop(ByteAnd, a, b);
      } else if op == OR {
        r := BytewiseLoop(ByteOr, a, b);
      } else if op == XOR {
        r := BytewiseLoop(ByteXor, a, b);
      } else {
        r := Shift(op, a, b);
      }
    }

    method Unary(op: byte, a: Word) returns (r: Word)
      requires IsUnary(op)
      ensures r == UnaryWord(op, a)
    {
      if op == ISZERO {
        var zero := IsZero(a);
        r := FlagWord(zero);
      } else {
        r := Negation(a);
      }
    }

    method Negation(a: Word) returns (r: Word)
      ensures r == ToWord(ComplementOf(a))
    {
      r := Not(a);
      SpelledExactly(r, ComplementOf(a));
    }

    // -------------------------------------------------------------- opcodes

    method ExecuteBinary(op: byte, pc: nat) returns (outcome: Outcome)
      requires IsBinary(op)
      modifies `stack
      ensures (View(), outcome) == BinaryStep(op, old(View()), pc)
    {
      var ok, a, b := PopTwo();
      if !ok {
        return Thrown;
      }
      var r := Binary(op, a, b);
      outcome := Push(r, pc);
    }

    method ExecuteUnary(op: byte, pc: nat) returns (outcome: Outcome)
      requires IsUnary(op)
      modifies `stack
      ensures (View(), outcome) == UnaryStep(op, old(View()), pc)
    {
      var ok, a := Pop();
      if !ok {
        return Thrown;
      }
      var r := Unary(op, a);
      outcome := Push(r, pc);
    }

    method ExecuteLoad(pc: nat) returns (outcome: Outcome)
      modifies `gasUsed, `memory, `stack
      ensures (View(), outcome) == LoadStep(ctx.gasLimit, old(View()), pc)
    {
      var ok, offset := Pop();
      if !ok {
        return Thrown;
      }
      var at := WordShift.ToUint64(offset);
      outcome := MemoryLoad(at, pc);
    }

    method ExecuteStore(op: byte, pc: nat) returns (outcome: Outcome)
      modifies `gasUsed, `memory, `stack
      ensures (View(), outcome) == StoreStep(op, ctx.gasLimit, old(View()), pc)
    {
      var ok, value, offset := PopTwo();
      if !ok {
        return Thrown;
      }
      var at := WordShift.ToUint64(offset);
      if op == MSTORE {
        outcome := MemoryStore(at, value, pc);
      } else {
        var low := WordShift.ToUint64(value);
        outcome := MemoryStore(at, [low % 256], pc);
      }
    }

    method ExecuteStorageLoad(pc: nat) returns (outcome: Outcome)
      modifies `stack
      ensures (View(), outcome) == StorageLoadStep(ctx, old(View()), pc)
    {
      var ok, key := Pop();
      if !ok {
        return Thrown;
      }
      var value := state.GetStorage(ctx.address, Value(key));
      outcome := Push(ToWord(value), pc);
    }

    method ExecuteStorageStore(pc: nat) returns (outcome: Outcome)
      modifies `stack, state
      ensures (View(), outcome) == StorageStoreStep(ctx, old(View()), pc)
    {
      if ctx.isStatic {
        return Stop(StaticCallViolation);
      }
      var ok, value, key := PopTwo();
      if !ok {
        return Thrown;
      }
      state.SetStorage(ctx.address, Value(key), Value(value));
      return Next(pc + 1);
    }

    method ExecutePop(pc: nat) returns (outcome: Outcome)
      modifies `stack
      ensures (View(), outcome) == PopStep(old(View()), pc)
    {
      var ok, value := Pop();
      return if ok then Next(pc + 1) else Thrown;
    }

    /** The bytes after the opcode are copied to the low end of a zero word. */
    method ExecutePush(op: byte, code: Bytes, pc: nat) returns (outcome: Outcome)
      requires IsPush(op) && pc < |code|
      modifies `stack
      ensures (View(), outcome) == PushStep(op, code, old(View()), pc)
    {
      var size := op - 0x5f;
      var value := CopyPushed(code, pc, size);
      outcome := Push(value, pc + size);
    }

    method CopyPushed(code: Bytes, pc: nat, size: nat) returns (value: Word)
      requires pc < |code| && 1 <= size <= 32
      ensures value == PushData(code, pc, size)
    {
      value := ZERO_DIGEST;
      var i := 0;
      while i < size && pc + 1 + i < |code|
        invariant i <= size && pc + 1 + i <= |code|
        invariant value == ZeroBytes(32 - size) + code[pc + 1..pc + 1 + i] + ZeroBytes(size - i)
      {
        value := value[32 - size + i := code[pc + 1 + i]];
        i := i + 1;
      }
    }

    method ExecuteContext(op: byte, pc: nat) returns (outcome: Outcome)
      requires IsContext(op)
      modifies `stack
      ensures (View(), outcome) == PushWord(old(View()), ContextWord(op, ctx, old(View()).gas), pc)
    {
      var value := Lookup(op);
      outcome := Push(value, pc);
    }

    method Lookup(op: byte) returns (value: Word)
      requires IsContext(op)
      ensures value == ContextWord(op, ctx, gasUsed)
    {
      if op == ADDRESS {
        return ToWord(ctx.address);
      } else if op == CALLER {
        return ToWord(ctx.caller);
      } else if op == CALLVALUE {
        return ctx.value;
      } else if op == GAS {
        value := ToUint256((ctx.gasLimit - gasUsed) % TWO_64);
      } else {
        value := ToUint256(
          if op == GASPRICE then ctx.gasPrice else if op == TIMESTAMP then ctx.timestamp
          else if op == NUMBER then ctx.blockNumber else if op == DIFFICULTY then ctx.difficulty
          else if op == GASLIMIT then ctx.gasLimitBlock else if op == CHAINID then ctx.chainId else ctx.baseFee);
      }
    }

    method ExecuteReturn(op: byte) returns (outcome: Outcome)
      modifies `gasUsed, `memory, `stack, `returned
      ensures (View(), outcome) == ReturnStep(op, ctx.gasLimit, old(View()))
    {
      var ok, lengthWord, offsetWord := PopTwo();
      if !ok {
        return Thrown;
      }
      var offset := WordShift.ToUint64(offsetWord);
      var length := WordShift.ToUint64(lengthWord);
      ok := ExpandMemory((offset + length) % TWO_64);
      if !ok {
        return Thrown;
      }
      if offset + length > |memory| {
        return Stop(OutsideMemory);
      }
      returned := memory[offset..offset + length];
      return Stop(if op == RETURN then Returned else Reverted);
    }

    method ExecuteStackOpcode(op: byte, code: Bytes, pc: nat) returns (outcome: Outcome)
      requires pc < |code| && op == code[pc]
      modifies `stack
      ensures (View(), outcome) == StackStep(ctx, code, old(View()), pc)
    {
      if IsBinary(op) {
        outcome := ExecuteBinary(op, pc);
      } else if IsUnary(op) {
        outcome := ExecuteUnary(op, pc);
      } else if op == POP {
        outcome := ExecutePop(pc);
      } else if IsPush(op) {
        outcome := ExecutePush(op, code, pc);
      } else if IsDup(op) {
        outcome := Dup(op, pc);
      } else if IsSwap(op) {
        outcome := Swap(op, pc);
      } else if IsContext(op) {
        outcome := ExecuteContext(op, pc);
      } else {
        return Stop(InvalidOpcode);
      }
    }

    method ExecuteOpcode(op: byte, code: Bytes, pc: nat) returns (outcome: Outcome)
      requires pc < |code| && op == code[pc]
      modifies this, state
      ensures (View(), outcome) == Step(ctx, code, old(View()), pc)
    {
      if op == STOP || op == JUMPDEST {
        return Next(pc + 1);
      } else if op == MLOAD {
        outcome := ExecuteLoad(pc);
      } else if op == MSTORE || op == MSTORE8 {
        outcome := ExecuteStore(op, pc);
      } else if op == SLOAD {
        outcome := ExecuteStorageLoad(pc);
      } else if op == SSTORE {
        outcome := ExecuteStorageStore(pc);
      } else if op == RETURN || op == REVERT {
        outcome := ExecuteReturn(op);
      } else {
        outcome := ExecuteStackOpcode(op, code, pc);
      }
    }

    /** The loop runs the program to its end, as `Turns` says, and terminates. */
    method Execute(code: Bytes) returns (result: ExecResult, ghost end: Config)
      modifies this, state
      ensures end == Turns(ctx, code, Config(old(View()), 0, [], Running), |code| + 1)
      ensures end.m == View() && end.status == Ended(result)
    {
      var pc: nat := 0;
      ghost var c := Config(View(), 0, [], Running);
      ghost var left: nat := |code| + 1;
      while pc < |code|
        invariant c.m == View() && c.pc == pc && c.status == Running && pc + left > |code| && left > 0
        invariant Turns(ctx, code, c, left) == Turns(ctx, code, Config(old(View()), 0, [], Running), |code| + 1)
        decreases |code| - pc
      {
        ghost var c' := Turn(ctx, code, c);
        VmAccounting.TurnAdvances(ctx, code, c);
        left := left - 1;
        var outcome: Outcome;
        result, pc, outcome := ExecuteOne(code, pc, c);
        c := c';
        if !outcome.Next? {
          VmAccounting.EndedStays(ctx, code, c, left);
          return result, c;
        }
      }
      end := c.(status := Ended(Success));
      VmAccounting.EndedStays(ctx, code, end, left - 1);
      return Success, end;
    }

    /** One turn: charge the opcode, execute it, move on or give the result. */
    method ExecuteOne(code: Bytes, pc: nat, ghost c: Config)
      returns (result: ExecResult, pc': nat, outcome: Outcome)
      requires pc < |code| && c.m == View() && c.pc == pc && c.status == Running
      modifies this, state
      ensures var c' := Turn(ctx, code, c);
              && c'.m == View() && c'.pc == pc'
              && c'.status == if outcome.Next? then Running else Ended(result)
    {
      var op := code[pc];
      result, pc' := Success, pc;
      var ok := UseGas(Cost(op));
      if !ok {
        return OutOfGas, pc, Stop(OutOfGas);
      }
      outcome := ExecuteOpcode(op, code, pc);
      match outcome
      case Next(next) => pc' := next;
      case Stop(r) => result := r;
      case Thrown => result := InvalidOpcode;
    }
  }
}
