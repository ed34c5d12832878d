/** What the bytecode interpreter does, one opcode at a time, and what every run of it keeps. */
module VmRun {
  import opened Bytes
  import opened Word256
  import opened VmWords
  import opened WordPower
  import opened WordShift
  import WorldStateModel

  const MAX_STACK_SIZE: nat := 1024

  /** The longest byte vector the C++ library allocates. */
  const MAX_VECTOR: nat := 0x7FFF_FFFF_FFFF_FFFF

  datatype Context = Context(
    address: nat, caller: nat, value: Word, gasLimit: uint64, gasPrice: uint64, timestamp: uint64,
    blockNumber: uint64, difficulty: uint64, gasLimitBlock: uint64, chainId: uint64, baseFee: uint64,
    isStatic: bool)

  datatype Machine = Machine(
    world: WorldStateModel.State, stack: seq<Word>, memory: Bytes, gas: nat, returned: Bytes)

  /** `OutsideMemory` stands for an access past the end of the memory vector, which the C++ leaves
      undefined; `VmOutside` says exactly when a run comes to one. */
  datatype ExecResult =
    | Success | Returned | Reverted | OutOfGas | InvalidOpcode | StaticCallViolation | OutsideMemory

  /** How an opcode ends: at the next program counter, with a result, or by an exception. */
  datatype Outcome = Next(pc: nat) | Stop(result: ExecResult) | Thrown

  // ---------------------------------------------------------------- opcodes and their costs

  const STOP: byte := 0x00
  const ADD: byte := 0x01
  const MUL: byte := 0x02
  const SUB: byte := 0x03
  const DIV: byte := 0x04
  const MOD: byte := 0x06
  const EXP: byte := 0x0a
  const LT: byte := 0x10
  const GT: byte := 0x11
  const EQ: byte := 0x14
  const ISZERO: byte := 0x15
  const AND: byte := 0x16
  const OR: byte := 0x17
  const XOR: byte := 0x18
  const NOT: byte := 0x19
  const SHL: byte := 0x1b
  const SHR: byte := 0x1c
  const ADDRESS: byte := 0x30
  const CALLER: byte := 0x33
  const CALLVALUE: byte := 0x34
  const GASPRICE: byte := 0x3a
  const TIMESTAMP: byte := 0x42
  const NUMBER: byte := 0x43
  const DIFFICULTY: byte := 0x44
  const GASLIMIT: byte := 0x45
  const CHAINID: byte := 0x46
  const BASEFEE: byte := 0x48
  const POP: byte := 0x50
  const MLOAD: byte := 0x51
  const MSTORE: byte := 0x52
  const MSTORE8: byte := 0x53
  const SLOAD: byte := 0x54
  const SSTORE: byte := 0x55
  const GAS: byte := 0x5a
  const JUMPDEST: byte := 0x5b
  const RETURN: byte := 0xf3
  const REVERT: byte := 0xfd

  predicate IsBinary(op: byte) {
    ADD <= op <= DIV || op == MOD || op == EXP || op == LT || op == GT || op == EQ || AND <= op <= XOR
    || op == SHL || op == SHR
  }

  predicate IsUnary(op: byte) { op == ISZERO || op == NOT }

  predicate IsPush(op: byte) { 0x60 <= op <= 0x7f }

  predicate IsDup(op: byte) { 0x80 <= op <= 0x8f }

  predicate IsSwap(op: byte) { 0x90 <= op <= 0x9f }

  predicate IsContext(op: byte) {
    op == ADDRESS || op == CALLER || op == CALLVALUE || op == GASPRICE || TIMESTAMP <= op <= CHAINID
    || op == BASEFEE || op == GAS
  }

  /** The gas schedule, unimplemented opcodes included: they are charged before they are refused. */
  function Cost(op: byte): (c: nat)
    ensures c <= 32000
  {
    if 0x30 <= op <= 0x3f then EnvironmentCost(op)
    else if 0x40 <= op <= 0x48 then if op == 0x40 then 20 else 2
    else if 0x50 <= op <= 0x5b then StorageAndFlowCost(op)
    else if 0x60 <= op <= 0x9f then 3
    else if 0xa0 <= op <= 0xa4 then 375
    else if op == 0xf0 || op == 0xf5 then 32000
    else if op == 0xf1 || op == 0xf2 || op == 0xf4 || op == 0xfa then 700
    else if op == 0xff then 5000
    else if op == 0x20 then 30
    else if op == ADD || op == SUB || 0x10 <= op <= 0x1d then 3
    else if op == MUL || 0x04 <= op <= 0x07 || op == 0x0b then 5
    else if op == 0x08 || op == 0x09 then 8
    else if op == EXP then 10
    else 0
  }

  function EnvironmentCost(op: byte): (c: nat)
    ensures c <= 700
  {
    if op == 0x31 || op == 0x3b || op == 0x3c || op == 0x3f then 700
    else if op == 0x35 || op == 0x37 || op == 0x39 || op == 0x3e then 3
    else 2
  }

  function StorageAndFlowCost(op: byte): (c: nat)
    ensures c <= 20000
  {
    if op == SLOAD then 800
    else if op == SSTORE then 20000
    else if op == 0x56 then 8
    else if op == 0x57 then 10
    else if op == 0x58 || op == 0x59 || op == GAS then 2
    else 3
  }

  function Costs(ops: seq<byte>): nat {
    if ops == [] then 0 else Costs(ops[..|ops| - 1]) + Cost(ops[|ops| - 1])
  }

  // ---------------------------------------------------------------- gas and memory

  /** 32-byte words needed for `size` bytes, in 64-bit arithmetic. */
  function Words(size: nat): nat {
    (size + 31) % TWO_64 / 32
  }

  function ExpansionCost(have: nat, want: nat): nat {
    (Words(want) - Words(have)) % TWO_64 * 3 % TWO_64
  }

  /** Gas after spending, in 64-bit arithmetic; the caller compares it with the limit. */
  function Spent(m: Machine, amount: nat): nat {
    (m.gas + amount) % TWO_64
  }

  function ZeroBytes(k: nat): Bytes {
    seq(k, _ => 0)
  }

  /** Growing the memory, or the exception that stops it: no gas left, or a vector too long. */
  function Expand(limit: nat, m: Machine, size: nat): (Machine, bool) {
    if size <= |m.memory| then (m, true)
    else
      var gas := Spent(m, ExpansionCost(|m.memory|, size));
      if gas > limit then (m, false)
      else if size > MAX_VECTOR then (m.(gas := gas), false)
      else (m.(gas := gas, memory := m.memory + ZeroBytes(size - |m.memory|)), true)
  }

  function WriteAt(memory: Bytes, offset: nat, data: Bytes): (r: Bytes)
    requires offset + |data| <= |memory|
    ensures |r| == |memory|
  {
    memory[..offset] + data + memory[offset + |data|..]
  }

  /** Expand the memory to hold `len` bytes from `offset`, then write into it. */
  function StoreBytes(limit: nat, m: Machine, offset: nat, data: Bytes, pc: nat): (Machine, Outcome) {
    var (e, ok) := Expand(limit, m, (offset + |data|) % TWO_64);
    if !ok then (e, Thrown)
    else if offset + |data| > |e.memory| then (e, Stop(OutsideMemory))
    else (e.(memory := WriteAt(e.memory, offset, data)), Next(pc + 1))
  }

  function LoadWord(limit: nat, m: Machine, offset: nat, pc: nat): (Machine, Outcome) {
    var (e, ok) := Expand(limit, m, (offset + 32) % TWO_64);
    if !ok then (e, Thrown)
    else if offset + 32 > |e.memory| then (e, Stop(OutsideMemory))
    else PushWord(e, e.memory[offset..offset + 32], pc)
  }

  function GiveBack(limit: nat, m: Machine, offset: nat, length: nat, result: ExecResult): (Machine, Outcome) {
    var (e, ok) := Expand(limit, m, (offset + length) % TWO_64);
    if !ok then (e, Thrown)
    else if offset + length > |e.memory| then (e, Stop(OutsideMemory))
    else (e.(returned := e.memory[offset..offset + length]), Stop(result))
  }

  // ---------------------------------------------------------------- opcodes

  function PushWord(m: Machine, w: Word, pc: nat): (Machine, Outcome) {
    if |m.stack| >= MAX_STACK_SIZE then (m, Thrown) else (m.(stack := m.stack + [w]), Next(pc + 1))
  }

  /** The words from the top, `k` of them taken off. */
  function Top(m: Machine, k: nat): Word
    requires k < |m.stack|
  {
    m.stack[|m.stack| - 1 - k]
  }

  function Drop(m: Machine, k: nat): Machine
    requires k <= |m.stack|
  {
    m.(stack := m.stack[..|m.stack| - k])
  }

  /** A pop that finds the stack empty throws, after the pops before it have emptied it. */
  function Underflow(m: Machine): (Machine, Outcome) {
    (m.(stack := []), Thrown)
  }

  /** `b` was on top of `a`. */
  function BinaryWord(op: byte, a: Word, b: Word): Word
    requires IsBinary(op)
  {
    if op < LT then ArithmeticWord(op, a, b)
    else if op < AND then Flag(Compare(op, Value(a), Value(b)))
    else if op < SHL then Bytewise(if op == AND then ByteAnd else if op == OR then ByteOr else ByteXor, a, b)
    else ToWord(if op == SHL then ShiftedLeft(Value(b), Low64(a)) else ShiftedRight(Value(b), Low64(a)))
  }

  function ArithmeticWord(op: byte, a: Word, b: Word): Word
    requires IsBinary(op) && op < LT
  {
    if op == ADD then ToWord(Value(a) + Value(b))
    else if op == MUL then MulWord(a, b)
    else if op == SUB then ToWord((Value(a) - Value(b)) % Modulus(a))
    else if op == DIV then ToWord(Quotient(Value(a), Value(b)))
    else if op == MOD then ToWord(Remainder(Value(a), Value(b)))
    else ExpWord(a, b)
  }

  function Quotient(x: nat, y: nat): nat { if y == 0 then 0 else x / y }

  function Remainder(x: nat, y: nat): nat { if y == 0 then 0 else x % y }

  predicate Compare(op: byte, x: nat, y: nat) {
    if op == LT then x < y else if op == GT then x > y else x == y
  }

  function UnaryWord(op: byte, a: Word): Word
    requires IsUnary(op)
  {
    if op == ISZERO then Flag(Value(a) == 0) else ToWord(ComplementOf(a))
  }

  function ContextWord(op: byte, ctx: Context, gas: nat): Word
    requires IsContext(op)
  {
    if op == ADDRESS then ToWord(ctx.address)
    else if op == CALLER then ToWord(ctx.caller)
    else if op == CALLVALUE then ctx.value
    else if op == GASPRICE then ToWord(ctx.gasPrice)
    else if op == TIMESTAMP then ToWord(ctx.timestamp)
    else if op == NUMBER then ToWord(ctx.blockNumber)
    else if op == DIFFICULTY then ToWord(ctx.difficulty)
    else if op == GASLIMIT then ToWord(ctx.gasLimitBlock)
    else if op == CHAINID then ToWord(ctx.chainId)
    else if op == BASEFEE then ToWord(ctx.baseFee)
    else ToWord((ctx.gasLimit - gas) % TWO_64)
  }

  /** The bytes after the opcode, as many as the code still has, zeros standing for the rest. */
  function PushData(code: Bytes, pc: nat, size: nat): (w: Word)
    requires pc < |code| && 1 <= size <= 32
  {
    var have := if pc + 1 + size <= |code| then size else |code| - pc - 1;
    ZeroBytes(32 - size) + code[pc + 1..pc + 1 + have] + ZeroBytes(size - have)
  }

  function BinaryStep(op: byte, m: Machine, pc: nat): (Machine, Outcome)
    requires IsBinary(op)
  {
    if |m.stack| < 2 then Underflow(m)
    else PushWord(Drop(m, 2), BinaryWord(op, Top(m, 1), Top(m, 0)), pc)
  }

  function UnaryStep(op: byte, m: Machine, pc: nat): (Machine, Outcome)
    requires IsUnary(op)
  {
    if |m.stack| < 1 then Underflow(m) else PushWord(Drop(m, 1), UnaryWord(op, Top(m, 0)), pc)
  }

  function LoadStep(limit: nat, m: Machine, pc: nat): (Machine, Outcome) {
    if |m.stack| < 1 then Underflow(m) else LoadWord(limit, Drop(m, 1), Low64(Top(m, 0)), pc)
  }

  function StoreStep(op: byte, limit: nat, m: Machine, pc: nat): (Machine, Outcome) {
    if |m.stack| < 2 then Underflow(m)
    else
      var data := if op == MSTORE then Top(m, 1) else [Low64(Top(m, 1)) % 256];
      StoreBytes(limit, Drop(m, 2), Low64(Top(m, 0)), data, pc)
  }

  function StorageLoadStep(ctx: Context, m: Machine, pc: nat): (Machine, Outcome) {
    if |m.stack| < 1 then Underflow(m)
    else
      PushWord(Drop(m, 1), ToWord(WorldStateModel.GetStorage(m.world, ctx.address, Value(Top(m, 0)))), pc)
  }

  function StorageStoreStep(ctx: Context, m: Machine, pc: nat): (Machine, Outcome) {
    if ctx.isStatic then (m, Stop(StaticCallViolation))
    else if |m.stack| < 2 then Underflow(m)
    else
      var world := WorldStateModel.SetStorage(m.world, ctx.address, Value(Top(m, 0)), Value(Top(m, 1)));
      (Drop(m, 2).(world := world), Next(pc + 1))
  }

  function PopStep(m: Machine, pc: nat): (Machine, Outcome) {
    if |m.stack| < 1 then Underflow(m) else (Drop(m, 1), Next(pc + 1))
  }

  function PushStep(op: byte, code: Bytes, m: Machine, pc: nat): (Machine, Outcome)
    requires IsPush(op) && pc < |code|
  {
    PushWord(m, PushData(code, pc, op - 0x5f), pc + (op - 0x5f))
  }

  function DupStep(op: byte, m: Machine, pc: nat): (Machine, Outcome)
    requires IsDup(op)
  {
    if op - 0x7f > |m.stack| then (m, Thrown) else PushWord(m, Top(m, op - 0x80), pc)
  }

  function SwapStep(op: byte, m: Machine, pc: nat): (Machine, Outcome)
    requires IsSwap(op)
  {
    if op - 0x8f >= |m.stack| then (m, Thrown)
    else
      var (top, deep) := (|m.stack| - 1, |m.stack| - 1 - (op - 0x8f));
      (m.(stack := m.stack[top := m.stack[deep]][deep := m.stack[top]]), Next(pc + 1))
  }

  function ReturnStep(op: byte, limit: nat, m: Machine): (Machine, Outcome) {
    if |m.stack| < 2 then Underflow(m)
    else
      GiveBack(limit, Drop(m, 2), Low64(Top(m, 0)), Low64(Top(m, 1)), if op == RETURN then Returned else Reverted)
  }

  /** Opcodes that only look at the stack, the code and the context. */
  function StackStep(ctx: Context, code: Bytes, m: Machine, pc: nat): (Machine, Outcome)
    requires pc < |code|
  {
    var op := code[pc];
    if IsBinary(op) then BinaryStep(op, m, pc)
    else if IsUnary(op) then UnaryStep(op, m, pc)
    else if op == POP then PopStep(m, pc)
    else if IsPush(op) then PushStep(op, code, m, pc)
    else if IsDup(op) then DupStep(op, m, pc)
    else if IsSwap(op) then SwapStep(op, m, pc)
    else if IsContext(op) then PushWord(m, ContextWord(op, ctx, m.gas), pc)
    else (m, Stop(InvalidOpcode))
  }

  /** One opcode, its gas already charged. */
  function Step(ctx: Context, code: Bytes, m: Machine, pc: nat): (Machine, Outcome)
    requires pc < |code|
  {
    var op := code[pc];
    if op == STOP || op == JUMPDEST then (m, Next(pc + 1))
    else if op == MLOAD then LoadStep(ctx.gasLimit, m, pc)
    else if op == MSTORE || op == MSTORE8 then StoreStep(op, ctx.gasLimit, m, pc)
    else if op == SLOAD then StorageLoadStep(ctx, m, pc)
    else if op == SSTORE then StorageStoreStep(ctx, m, pc)
    else if op == RETURN || op == REVERT then ReturnStep(op, ctx.gasLimit, m)
    else StackStep(ctx, code, m, pc)
  }

  // ---------------------------------------------------------------- runs

  datatype Status = Running | Ended(result: ExecResult)

  /** The machine between two opcodes, with the opcodes charged so far. */
  datatype Config = Config(m: Machine, pc: nat, charged: seq<byte>, status: Status)

  /** One turn of the loop: charge, execute, advance. */
  function Turn(ctx: Context, code: Bytes, c: Config): Config {
    if c.status.Ended? then c
    else if c.pc >= |code| then c.(status := Ended(Success))
    else
      var op := code[c.pc];
      var gas := Spent(c.m, Cost(op));
      if gas > ctx.gasLimit then c.(status := Ended(OutOfGas))
      else
        Settle(c, op, Step(ctx, code, c.m.(gas := gas), c.pc))
  }

  function Settle(c: Config, op: byte, r: (Machine, Outcome)): Config {
    match r.1
    case Next(pc) => Config(r.0, pc, c.charged + [op], Running)
    case Stop(result) => Config(r.0, c.pc, c.charged + [op], Ended(result))
    case Thrown => Config(r.0, c.pc, c.charged + [op], Ended(InvalidOpcode))
  }

  function Turns(ctx: Context, code: Bytes, c: Config, n: nat): Config
    decreases n
  {
    if n == 0 then c else Turns(ctx, code, Turn(ctx, code, c), n - 1)
  }

  function Start(world: WorldStateModel.State): Config {
    Config(Machine(world, [], [], 0, []), 0, [], Running)
  }
}
