/** What the opcodes do to storage and to memory, key by key and byte by byte. */
module VmMemoryLaws {
  import opened Arithmetic
  import opened Bytes
  import opened Ordered
  import opened Word256
  import opened WordShift
  import opened VmWords
  import opened VmRun
  import opened VmLaws
  import VmRefund
  import W = WorldStateModel

  // ---------------------------------------------------------------- storage

  /** With the key above the value: that key of this account holds the value from now on, and everything else in the
      world and in the machine is as it was, gas and operands apart. */
  lemma StorageStoreLaw(ctx: Context, code: Bytes, c: Config, op: byte, below: seq<Word>, value: Word, key: Word)
    requires At(ctx, code, c, op) && c.m.stack == below + [value, key] && op == SSTORE && !ctx.isStatic
    ensures var d := Turn(ctx, code, c);
            && d == Config(c.m.(gas := c.m.gas + Cost(op), stack := below, world := d.m.world), c.pc + 1,
                           c.charged + [op], Running)
            && d.m.world.accounts == c.m.world.accounts
            && forall a, k :: W.GetStorage(d.m.world, a, k)
                              == if a == ctx.address && k == Value(key) then Value(value)
                                 else W.GetStorage(c.m.world, a, k)
  {
    var m := c.m.(gas := c.m.gas + Cost(op));
    TurnIs(ctx, code, c, op, m);
    LastTwo(below, value, key);
    StoreByStep(ctx, code, m, c.pc, op);
  }

  lemma StoreByStep(ctx: Context, code: Bytes, m: Machine, pc: nat, op: byte)
    requires pc < |code| && code[pc] == op && op == SSTORE
    ensures Step(ctx, code, m, pc) == StorageStoreStep(ctx, m, pc)
  {
  }

  /** The word under the key on top is pushed in its place. */
  lemma StorageLoadLaw(ctx: Context, code: Bytes, c: Config, op: byte, below: seq<Word>, key: Word) returns (r: Word)
    requires At(ctx, code, c, op) && c.m.stack == below + [key] && op == SLOAD && |c.m.stack| <= MAX_STACK_SIZE
    ensures Turn(ctx, code, c) == Onward(c, op, below + [r], c.pc + 1)
    ensures Value(r) == W.GetStorage(c.m.world, ctx.address, Value(key)) % Modulus(r)
  {
    r := StorageLoadTurn(ctx, code, c, op, below, key, W.GetStorage(c.m.world, ctx.address, Value(key)));
    AnyValue(W.GetStorage(c.m.world, ctx.address, Value(key)), r);
  }

  lemma StorageLoadTurn(ctx: Context, code: Bytes, c: Config, op: byte, below: seq<Word>, key: Word, held: nat)
    returns (r: Word)
    requires At(ctx, code, c, op) && c.m.stack == below + [key] && op == SLOAD && |c.m.stack| <= MAX_STACK_SIZE
    requires held == W.GetStorage(c.m.world, ctx.address, Value(key))
    ensures r == ToWord(held) && Turn(ctx, code, c) == Onward(c, op, below + [r], c.pc + 1)
  {
    var m := c.m.(gas := c.m.gas + Cost(op));
    r := ToWord(held);
    TurnIs(ctx, code, c, op, m);
    LastOne(below, key);
    LoadByStep(ctx, code, m, c.pc, op);
    LoadPushes(ctx, m, below, key, held, c.pc);
  }

  lemma LoadPushes(ctx: Context, m: Machine, below: seq<Word>, key: Word, held: nat, pc: nat)
    requires m.stack == below + [key] && |m.stack| <= MAX_STACK_SIZE
    requires held == W.GetStorage(m.world, ctx.address, Value(key))
    ensures StorageLoadStep(ctx, m, pc) == (m.(stack := below + [ToWord(held)]), Next(pc + 1))
  {
    LastOne(below, key);
  }

  lemma LoadByStep(ctx: Context, code: Bytes, m: Machine, pc: nat, op: byte)
    requires pc < |code| && code[pc] == op && op == SLOAD
    ensures Step(ctx, code, m, pc) == StorageLoadStep(ctx, m, pc)
  {
  }

  /** After a store, a load of the same key pushes the word stored, and a load of any other key pushes what it would
      have pushed before. */
  lemma LoadAfterStorageStore(ctx: Context, code: Bytes, c: Config, d: Config, below: seq<Word>, value: Word, key: Word,
                              rest: seq<Word>, asked: Word) returns (r: Word)
    requires At(ctx, code, c, SSTORE) && c.m.stack == below + [value, key] && !ctx.isStatic
    requires At(ctx, code, d, SLOAD) && d.m.stack == rest + [asked] && |d.m.stack| <= MAX_STACK_SIZE
    requires d.m.world == Turn(ctx, code, c).m.world
    ensures Turn(ctx, code, d) == Onward(d, SLOAD, rest + [r], d.pc + 1)
    ensures asked == key ==> r == value
    ensures asked != key ==> r == ToWord(W.GetStorage(c.m.world, ctx.address, Value(asked)))
  {
    StorageStoreLaw(ctx, code, c, SSTORE, below, value, key);
    r := StorageLoadLaw(ctx, code, d, SLOAD, rest, asked);
    var held := W.GetStorage(d.m.world, ctx.address, Value(asked));
    Spelled(r, held);
    if asked == key {
      SpelledExactly(value, held);
    } else {
      ValuesDiffer(asked, key);
    }
  }

  lemma ValuesDiffer(a: Word, b: Word)
    requires a != b
    ensures Value(a) != Value(b)
  {
    NumberSpelled(a);
    NumberSpelled(b);
  }

  // ---------------------------------------------------------------- room in memory

  /** 32-byte words that hold `size` bytes. */
  function WordCount(size: nat): nat {
    (size + 31) / 32
  }

  /** Three units of gas for every word the memory grows by. */
  function Growth(have: nat, want: nat): nat {
    if want <= have then 0 else 3 * (WordCount(want) - WordCount(have))
  }

  /** The memory can be as long as `end`, and the opcode and the growth can be paid for. */
  predicate Roomy(ctx: Context, c: Config, op: byte, end: nat) {
    && |c.m.memory| <= MAX_VECTOR && end <= MAX_VECTOR
    && c.m.gas + Cost(op) + Growth(|c.m.memory|, end) <= ctx.gasLimit
  }

  /** What the machine is after growing its memory to `end` bytes, zeros behind the old ones. */
  ghost predicate Grown(m: Machine, e: Machine, end: nat) {
    && e == m.(gas := m.gas + Growth(|m.memory|, end), memory := e.memory)
    && |e.memory| == (if end <= |m.memory| then |m.memory| else end)
    && forall i | 0 <= i < |e.memory| :: e.memory[i] == ByteAt(m.memory, i)
  }

  lemma Growing(limit: nat, m: Machine, end: nat) returns (e: Machine)
    requires |m.memory| <= MAX_VECTOR && end <= MAX_VECTOR
    requires m.gas + Growth(|m.memory|, end) <= limit < TWO_64
    ensures Expand(limit, m, end) == (e, true) && Grown(m, e, end)
  {
    e := Expand(limit, m, end).0;
    if |m.memory| < end {
      ChargedFor(m, end, limit);
    }
  }

  lemma ChargedFor(m: Machine, end: nat, limit: nat)
    requires |m.memory| < end <= MAX_VECTOR && m.gas + Growth(|m.memory|, end) <= limit < TWO_64
    ensures Spent(m, ExpansionCost(|m.memory|, end)) == m.gas + Growth(|m.memory|, end)
  {
    CountedWords(end);
    CountedWords(|m.memory|);
    ExactCharge(m.gas, WordCount(|m.memory|), WordCount(end), limit);
  }

  lemma CountedWords(size: nat)
    requires size <= MAX_VECTOR
    ensures Words(size) == WordCount(size) < TWO_64
  {
  }

  lemma ExactCharge(gas: nat, have: nat, want: nat, limit: nat)
    requires have <= want < TWO_64 && gas + 3 * (want - have) <= limit < TWO_64
    ensures (gas + (want - have) % TWO_64 * 3 % TWO_64) % TWO_64 == gas + 3 * (want - have)
  {
    NoWrap(want - have, limit);
    NoWrap(3 * (want - have), limit);
    NoWrap(gas + 3 * (want - have), limit);
  }

  // ---------------------------------------------------------------- memory

  /** The word or the byte is in its place, the memory reaches at least to its end, and every other byte is as it
      was. */
  ghost predicate Written(before: Bytes, after: Bytes, offset: nat, data: Bytes) {
    && |after| == (if offset + |data| <= |before| then |before| else offset + |data|)
    && (forall i | 0 <= i < |data| :: after[offset + i] == data[i])
    && (forall i | 0 <= i < |after| && !(offset <= i < offset + |data|) :: after[i] == ByteAt(before, i))
  }

  /** With the offset above what is stored: MSTORE writes the whole word there, MSTORE8 its last byte. */
  lemma StoreLaw(ctx: Context, code: Bytes, c: Config, op: byte, below: seq<Word>, w: Word, at: Word, data: Bytes,
                 offset: nat, end: nat)
    requires At(ctx, code, c, op) && c.m.stack == below + [w, at] && op in {MSTORE, MSTORE8}
    requires data == if op == MSTORE then w else [Value(w) % 256]
    requires offset == Value(at) && end == offset + |data| < TWO_64 && Roomy(ctx, c, op, end)
    ensures Stored(c, Turn(ctx, code, c), op, below, data, offset, end)
  {
    var m := c.m.(gas := c.m.gas + Cost(op), stack := below);
    StoreTurn(ctx, code, c, op, below, w, at, data, m, offset);
    StoreSettled(c, op, below, m, ctx.gasLimit, offset, data, end);
  }

  /** The operands are gone, the growth is paid, and the data is in memory. */
  ghost predicate Stored(c: Config, d: Config, op: byte, below: seq<Word>, data: Bytes, offset: nat, end: nat) {
    && d == Config(c.m.(gas := c.m.gas + Cost(op) + Growth(|c.m.memory|, end), stack := below, memory := d.m.memory),
                   c.pc + 1, c.charged + [op], Running)
    && Written(c.m.memory, d.m.memory, offset, data)
  }

  lemma StoreTurn(ctx: Context, code: Bytes, c: Config, op: byte, below: seq<Word>, w: Word, at: Word, data: Bytes,
                  m: Machine, offset: nat)
    requires At(ctx, code, c, op) && c.m.stack == below + [w, at] && op in {MSTORE, MSTORE8}
    requires data == if op == MSTORE then w else [Value(w) % 256]
    requires m == c.m.(gas := c.m.gas + Cost(op), stack := below) && offset == Value(at) < TWO_64
    ensures Turn(ctx, code, c) == Settle(c, op, StoreBytes(ctx.gasLimit, m, offset, data, c.pc))
  {
    TurnIs(ctx, code, c, op, c.m.(gas := c.m.gas + Cost(op)));
    Offset(at);
    LowByteOf(w);
    MemoryStoreByStep(ctx, code, c.m.(gas := c.m.gas + Cost(op)), c.pc, op, below, w, at, data);
  }

  lemma StoreSettled(c: Config, op: byte, below: seq<Word>, m: Machine, limit: nat, offset: nat, data: Bytes, end: nat)
    requires m == c.m.(gas := c.m.gas + Cost(op), stack := below)
    requires |m.memory| <= MAX_VECTOR && end == offset + |data| <= MAX_VECTOR
    requires m.gas + Growth(|m.memory|, end) <= limit < TWO_64
    ensures Stored(c, Settle(c, op, StoreBytes(limit, m, offset, data, c.pc)), op, below, data, offset, end)
  {
    StoreBytesLaw(limit, m, offset, data, end, c.pc);
  }

  lemma MemoryStoreByStep(ctx: Context, code: Bytes, m: Machine, pc: nat, op: byte, below: seq<Word>, w: Word, at: Word,
                          data: Bytes)
    requires pc < |code| && code[pc] == op && op in {MSTORE, MSTORE8} && m.stack == below + [w, at]
    requires data == if op == MSTORE then w else [Low64(w) % 256]
    ensures Step(ctx, code, m, pc) == StoreBytes(ctx.gasLimit, m.(stack := below), Low64(at), data, pc)
  {
    LastTwo(below, w, at);
  }

  /** An offset of at most 64 bits is taken as it is. */
  lemma Offset(at: Word)
    requires Value(at) < TWO_64
    ensures Low64(at) == Value(at)
  {
    var n := LowValue(at);
  }

  lemma LowByteOf(w: Word)
    ensures Low64(w) % 256 == Value(w) % 256
  {
    var n := LowValue(w);
    Twice(Value(w));
  }

  lemma Twice(n: nat)
    ensures n % TWO_64 % 256 == n % 256
  {
  }

  lemma StoreBytesLaw(limit: nat, m: Machine, offset: nat, data: Bytes, end: nat, pc: nat)
    requires |m.memory| <= MAX_VECTOR && end == offset + |data| <= MAX_VECTOR
    requires m.gas + Growth(|m.memory|, end) <= limit < TWO_64
    ensures var (e, r) := StoreBytes(limit, m, offset, data, pc);
            && r == Next(pc + 1)
            && e == m.(gas := m.gas + Growth(|m.memory|, end), memory := e.memory)
            && Written(m.memory, e.memory, offset, data)
  {
    var e := Growing(limit, m, end);
    NoWrap(end, MAX_VECTOR);
    assert StoreBytes(limit, m, offset, data, pc) == (e.(memory := WriteAt(e.memory, offset, data)), Next(pc + 1));
    WrittenAt(m.memory, e.memory, offset, data, end);
  }

  lemma WrittenAt(before: Bytes, grown: Bytes, offset: nat, data: Bytes, end: nat)
    requires end == offset + |data| <= |grown| && |grown| == (if end <= |before| then |before| else end)
    requires forall i | 0 <= i < |grown| :: grown[i] == ByteAt(before, i)
    ensures Written(before, WriteAt(grown, offset, data), offset, data)
  {
  }

  /** The bytes are those of the memory from the offset on, zeros behind its end. */
  ghost predicate GivenBack(memory: Bytes, returned: Bytes, offset: nat, length: nat) {
    |returned| == length && forall i | 0 <= i < length :: returned[i] == ByteAt(memory, offset + i)
  }

  /** MLOAD pushes the 32 bytes from the offset on; behind the end of the memory they are zero. */
  lemma LoadLaw(ctx: Context, code: Bytes, c: Config, op: byte, below: seq<Word>, at: Word, offset: nat, end: nat)
    returns (r: Word)
    requires At(ctx, code, c, op) && c.m.stack == below + [at] && op == MLOAD && |c.m.stack| <= MAX_STACK_SIZE
    requires offset == Value(at) && end == offset + 32 < TWO_64 && Roomy(ctx, c, op, end)
    ensures GivenBack(c.m.memory, r, offset, 32)
    ensures Loaded(c, Turn(ctx, code, c), op, below + [r], end)
  {
    var m := c.m.(gas := c.m.gas + Cost(op));
    LoadTurn(ctx, code, c, op, below, at, m, offset);
    r := LoadSettled(c, op, below, m, ctx.gasLimit, offset, end);
  }

  /** The memory reaches to the end, the growth is paid, and the run goes on with that stack. */
  ghost predicate Loaded(c: Config, d: Config, op: byte, stack: seq<Word>, end: nat) {
    && d == Config(d.m, c.pc + 1, c.charged + [op], Running) && d.m.stack == stack
    && Grown(c.m.(gas := c.m.gas + Cost(op)), d.m.(stack := c.m.stack), end)
  }

  lemma LoadSettled(c: Config, op: byte, below: seq<Word>, m: Machine, limit: nat, offset: nat, end: nat)
    returns (r: Word)
    requires m == c.m.(gas := c.m.gas + Cost(op)) && |below| < MAX_STACK_SIZE
    requires |m.memory| <= MAX_VECTOR && end == offset + 32 <= MAX_VECTOR
    requires m.gas + Growth(|m.memory|, end) <= limit < TWO_64
    ensures GivenBack(m.memory, r, offset, 32)
    ensures Loaded(c, Settle(c, op, LoadWord(limit, m.(stack := below), offset, c.pc)), op, below + [r], end)
  {
    var e := Growing(limit, m, end);
    r := WordFrom(m.memory, e.memory, offset, end);
    LoadWordLaw(limit, m, e, below, offset, end, c.pc, r);
    assert e.(stack := below + [r]).(stack := c.m.stack) == e;
  }

  lemma LoadTurn(ctx: Context, code: Bytes, c: Config, op: byte, below: seq<Word>, at: Word, m: Machine, offset: nat)
    requires At(ctx, code, c, op) && c.m.stack == below + [at] && op == MLOAD
    requires offset == Value(at) < TWO_64 && m == c.m.(gas := c.m.gas + Cost(op))
    ensures Turn(ctx, code, c) == Settle(c, op, LoadWord(ctx.gasLimit, m.(stack := below), offset, c.pc))
  {
    TurnIs(ctx, code, c, op, m);
    Offset(at);
    MemoryLoadByStep(ctx, code, m, c.pc, op, below, at);
  }

  lemma WordFrom(before: Bytes, grown: Bytes, offset: nat, end: nat) returns (r: Word)
    requires end == offset + 32 <= |grown| && forall i | 0 <= i < |grown| :: grown[i] == ByteAt(before, i)
    ensures r == grown[offset..end] && GivenBack(before, r, offset, 32)
  {
    r := grown[offset..end];
  }

  lemma MemoryLoadByStep(ctx: Context, code: Bytes, m: Machine, pc: nat, op: byte, below: seq<Word>, at: Word)
    requires pc < |code| && code[pc] == op && op == MLOAD && m.stack == below + [at]
    ensures Step(ctx, code, m, pc) == LoadWord(ctx.gasLimit, m.(stack := below), Low64(at), pc)
  {
    LastOne(below, at);
  }

  lemma LoadWordLaw(limit: nat, m: Machine, e: Machine, below: seq<Word>, offset: nat, end: nat, pc: nat, r: Word)
    requires Expand(limit, m, end) == (e, true) && end == offset + 32 <= |e.memory| && end < TWO_64
    requires r == e.memory[offset..end] && |below| < MAX_STACK_SIZE
    ensures LoadWord(limit, m.(stack := below), offset, pc) == (e.(stack := below + [r]), Next(pc + 1))
  {
    NoWrap(end, TWO_64 - 1);
    var e' := e.(stack := below);
    assert Expand(limit, m.(stack := below), end) == (e', true);
    assert PushWord(e', r, pc) == (e.(stack := below + [r]), Next(pc + 1));
  }

  /** With the offset above the length: RETURN and REVERT end the run and give back that many bytes from there on. */
  lemma ReturnLaw(ctx: Context, code: Bytes, c: Config, op: byte, below: seq<Word>, length: Word, at: Word,
                  offset: nat, end: nat)
    requires At(ctx, code, c, op) && c.m.stack == below + [length, at] && op in {RETURN, REVERT}
    requires offset == Value(at) && end == offset + Value(length) < TWO_64 && Roomy(ctx, c, op, end)
    ensures Given(c, Turn(ctx, code, c), op, offset, end, if op == RETURN then Returned else Reverted)
  {
    var m := c.m.(gas := c.m.gas + Cost(op), stack := below);
    var result := if op == RETURN then Returned else Reverted;
    ReturnTurn(ctx, code, c, op, below, length, at, m, result);
    GiveBackSettled(c, op, below, m, ctx.gasLimit, offset, end, result);
  }

  /** The run has ended with the result, the growth is paid, and the bytes between the two places are given back. */
  ghost predicate Given(c: Config, d: Config, op: byte, offset: nat, end: nat, result: ExecResult)
    requires offset <= end
  {
    && d.status == Ended(result) && GivenBack(c.m.memory, d.m.returned, offset, end - offset)
    && d.m.world == c.m.world && d.m.gas == c.m.gas + Cost(op) + Growth(|c.m.memory|, end)
  }

  lemma ReturnTurn(ctx: Context, code: Bytes, c: Config, op: byte, below: seq<Word>, length: Word, at: Word, m: Machine,
                   result: ExecResult)
    requires At(ctx, code, c, op) && c.m.stack == below + [length, at] && op in {RETURN, REVERT}
    requires Value(at) < TWO_64 && Value(length) < TWO_64
    requires m == c.m.(gas := c.m.gas + Cost(op), stack := below)
    requires result == if op == RETURN then Returned else Reverted
    ensures Turn(ctx, code, c) == Settle(c, op, GiveBack(ctx.gasLimit, m, Value(at), Value(length), result))
  {
    TurnIs(ctx, code, c, op, c.m.(gas := c.m.gas + Cost(op)));
    Offset(at);
    Offset(length);
    ReturnByStep(ctx, code, c.m.(gas := c.m.gas + Cost(op)), c.pc, op, below, length, at);
  }

  lemma GiveBackSettled(c: Config, op: byte, below: seq<Word>, m: Machine, limit: nat, offset: nat, end: nat,
                        result: ExecResult)
    requires m == c.m.(gas := c.m.gas + Cost(op), stack := below)
    requires |m.memory| <= MAX_VECTOR && offset <= end <= MAX_VECTOR
    requires m.gas + Growth(|m.memory|, end) <= limit < TWO_64
    ensures Given(c, Settle(c, op, GiveBack(limit, m, offset, end - offset, result)), op, offset, end, result)
  {
    GiveBackLaw(limit, m, offset, end - offset, end, result);
  }

  lemma GiveBackLaw(limit: nat, m: Machine, offset: nat, length: nat, end: nat, result: ExecResult)
    requires |m.memory| <= MAX_VECTOR && end == offset + length <= MAX_VECTOR
    requires m.gas + Growth(|m.memory|, end) <= limit < TWO_64
    ensures var (e, r) := GiveBack(limit, m, offset, length, result);
            && r == Stop(result) && GivenBack(m.memory, e.returned, offset, length)
            && e.world == m.world && e.gas == m.gas + Growth(|m.memory|, end)
  {
    var e := Growing(limit, m, end);
    NoWrap(end, MAX_VECTOR);
    assert GiveBack(limit, m, offset, length, result) == (e.(returned := e.memory[offset..end]), Stop(result));
  }

  lemma ReturnByStep(ctx: Context, code: Bytes, m: Machine, pc: nat, op: byte, below: seq<Word>, length: Word, at: Word)
    requires pc < |code| && code[pc] == op && op in {RETURN, REVERT} && m.stack == below + [length, at]
    ensures Step(ctx, code, m, pc)
            == GiveBack(ctx.gasLimit, m.(stack := below), Low64(at), Low64(length),
                        if op == RETURN then Returned else Reverted)
  {
    LastTwo(below, length, at);
  }

  // ---------------------------------------------------------------- memory that cannot be had

  /** Too few words: they are taken off, and the run ends as with an unknown opcode. */
  lemma UnderflowLaw(ctx: Context, code: Bytes, c: Config, op: byte)
    requires At(ctx, code, c, op) && UsesMemory(op) && |c.m.stack| < Needs(op)
    ensures Turn(ctx, code, c)
            == Config(c.m.(gas := c.m.gas + Cost(op), stack := []), c.pc, c.charged + [op], Ended(InvalidOpcode))
  {
    TurnIs(ctx, code, c, op, c.m.(gas := c.m.gas + Cost(op)));
  }

  /** Where the access of a memory opcode ends. */
  function AccessEnd(op: byte, stack: seq<Word>): nat
    requires UsesMemory(op) && Needs(op) <= |stack|
  {
    Value(stack[|stack| - 1])
    + if op == MSTORE8 then 1 else if op in {MSTORE, MLOAD} then 32 else Value(stack[|stack| - 2])
  }

  /** Growing to `end` costs more gas than is left, or is more than a vector can hold. */
  predicate NoRoom(limit: nat, m: Machine, end: nat) {
    && |m.memory| < end && |m.memory| <= MAX_VECTOR
    && (end > MAX_VECTOR || limit < m.gas + Growth(|m.memory|, end) < TWO_64)
  }

  /** The run ends as with an unknown opcode, and nothing is written or given back. */
  lemma NoRoomLaw(ctx: Context, code: Bytes, c: Config, op: byte)
    requires At(ctx, code, c, op) && UsesMemory(op) && Needs(op) <= |c.m.stack|
    requires AccessEnd(op, c.m.stack) < TWO_64
    requires NoRoom(ctx.gasLimit, c.m.(gas := c.m.gas + Cost(op)), AccessEnd(op, c.m.stack))
    ensures var d := Turn(ctx, code, c);
            && d.status == Ended(InvalidOpcode)
            && d.m.memory == c.m.memory && d.m.returned == c.m.returned && d.m.world == c.m.world
  {
    var m := c.m.(gas := c.m.gas + Cost(op));
    TurnIs(ctx, code, c, op, m);
    var (offset, end) := (Value(m.stack[|m.stack| - 1]), AccessEnd(op, m.stack));
    Offset(m.stack[|m.stack| - 1]);
    if op == MLOAD {
      CannotGrow(ctx.gasLimit, Drop(m, 1), end);
      LoadRefused(ctx.gasLimit, Drop(m, 1), offset, end, c.pc);
    } else {
      CannotGrow(ctx.gasLimit, Drop(m, 2), end);
      if op in {MSTORE, MSTORE8} {
        StoreRefused(ctx, code, m, c.pc, op, offset, end);
      } else {
        Offset(m.stack[|m.stack| - 2]);
        ReturnRefused(ctx, code, m, c.pc, op, offset, end);
      }
    }
  }

  lemma CannotGrow(limit: nat, m: Machine, end: nat)
    requires NoRoom(limit, m, end) && limit < TWO_64
    ensures var (e, ok) := Expand(limit, m, end); !ok && e == m.(gas := e.gas)
  {
    if end <= MAX_VECTOR {
      ChargedFor(m, end, TWO_64 - 1);
    }
  }

  lemma LoadRefused(limit: nat, m: Machine, offset: nat, end: nat, pc: nat)
    requires end == offset + 32 < TWO_64 && !Expand(limit, m, end).1
    ensures LoadWord(limit, m, offset, pc) == (Expand(limit, m, end).0, Thrown)
  {
    NoWrap(end, TWO_64 - 1);
  }

  lemma StoreRefused(ctx: Context, code: Bytes, m: Machine, pc: nat, op: byte, offset: nat, end: nat)
    requires pc < |code| && code[pc] == op && op in {MSTORE, MSTORE8} && |m.stack| >= 2
    requires offset == Low64(m.stack[|m.stack| - 1]) && end == offset + (if op == MSTORE then 32 else 1) < TWO_64
    requires !Expand(ctx.gasLimit, Drop(m, 2), end).1
    ensures Step(ctx, code, m, pc) == (Expand(ctx.gasLimit, Drop(m, 2), end).0, Thrown)
  {
    NoWrap(end, TWO_64 - 1);
  }

  lemma ReturnRefused(ctx: Context, code: Bytes, m: Machine, pc: nat, op: byte, offset: nat, end: nat)
    requires pc < |code| && code[pc] == op && op in {RETURN, REVERT} && |m.stack| >= 2
    requires offset == Low64(m.stack[|m.stack| - 1])
    requires end == offset + Low64(m.stack[|m.stack| - 2]) < TWO_64
    requires !Expand(ctx.gasLimit, Drop(m, 2), end).1
    ensures Step(ctx, code, m, pc) == (Expand(ctx.gasLimit, Drop(m, 2), end).0, Thrown)
  {
    NoWrap(end, TWO_64 - 1);
  }
}
