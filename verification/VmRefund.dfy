/** A program that is given gas back. */
module VmRefund {
  import opened Arithmetic
  import opened Bytes
  import opened Ordered
  import opened Word256
  import opened WordShift
  import opened VmWords
  import opened VmRun
  import opened VmAccounting

  /** Load from 0, which grows the memory; then return no bytes from the complement of 0. */
  const REFUND_CODE: Bytes := [0x60, 0, MLOAD, 0x60, 0, NOT, RETURN]

  /** After four opcodes it has spent 15, after the fifth 12. */
  lemma RefundReached(ctx: Context, world: WorldStateModel.State, code: Bytes, n: nat)
    requires ctx.gasLimit >= 15 && code == REFUND_CODE && n == 4
    ensures var c := Turns(ctx, code, Start(world), n);
            c.status.Running? && c.m.gas == 15 && |c.m.memory| == 32
    ensures var c := Turns(ctx, code, Start(world), n + 1);
            c.status == Ended(InvalidOpcode) && c.m.gas == 12 && |c.m.memory| == 32
  {
    var c := Start(world);
    var c2 := FirstHalf(ctx, code, c);
    var c4 := SecondHalf(ctx, code, c2);
    FiveTurns(ctx, code, c, Turn(ctx, code, c), c2, Turn(ctx, code, c2), c4, n);
  }

  lemma FiveTurns(ctx: Context, code: Bytes, c: Config, c1: Config, c2: Config, c3: Config, c4: Config, n: nat)
    requires c1 == Turn(ctx, code, c) && c2 == Turn(ctx, code, c1) && c3 == Turn(ctx, code, c2) && c4 == Turn(ctx, code, c3)
    requires n == 4
    ensures Turns(ctx, code, c, n) == c4 && Turns(ctx, code, c, n + 1) == Turn(ctx, code, c4)
  {
    assert Turns(ctx, code, c4, n - 3) == Turn(ctx, code, c4);
    assert Turns(ctx, code, c3, n - 3) == c4 && Turns(ctx, code, c3, n - 2) == Turns(ctx, code, c4, n - 3);
    assert Turns(ctx, code, c2, n - 2) == c4 && Turns(ctx, code, c2, n - 1) == Turns(ctx, code, c3, n - 2);
    assert Turns(ctx, code, c1, n - 1) == c4 && Turns(ctx, code, c1, n) == Turns(ctx, code, c2, n - 1);
  }

  lemma FirstHalf(ctx: Context, code: Bytes, c: Config) returns (c2: Config)
    requires |code| == 7 && code[0] == 0x60 && code[1] == 0 && code[2] == MLOAD && ctx.gasLimit >= 15
    requires c.status.Running? && c.pc == 0 && c.m.gas == 0 && c.m.stack == [] && c.m.memory == []
    ensures c2 == Turn(ctx, code, Turn(ctx, code, c))
    ensures c2.status.Running? && c2.pc == 3 && c2.m.gas == 9 && |c2.m.memory| == 32
    ensures |c2.m.stack| == 1 && Value(c2.m.stack[0]) == 0
  {
    PushZero(ctx, code, c);
    LoadZero(ctx, code, Turn(ctx, code, c));
    c2 := Turn(ctx, code, Turn(ctx, code, c));
  }

  lemma SecondHalf(ctx: Context, code: Bytes, c: Config) returns (c4: Config)
    requires |code| == 7 && code[3] == 0x60 && code[4] == 0 && code[5] == NOT && code[6] == RETURN && ctx.gasLimit >= 15
    requires c.status.Running? && c.pc == 3 && c.m.gas == 9 && |c.m.memory| == 32
    requires |c.m.stack| == 1 && Value(c.m.stack[0]) == 0
    ensures c4 == Turn(ctx, code, Turn(ctx, code, c))
    ensures c4.status.Running? && c4.m.gas == 15 && |c4.m.memory| == 32
    ensures var c5 := Turn(ctx, code, c4); c5.status == Ended(InvalidOpcode) && c5.m.gas == 12 && |c5.m.memory| == 32
  {
    PushZero(ctx, code, c);
    ComplementZero(ctx, code, Turn(ctx, code, c));
    c4 := Turn(ctx, code, Turn(ctx, code, c));
    ReturnFar(ctx, code, c4);
  }

  // ---------------------------------------------------------------- the opcodes of the program

  lemma TurnBy(ctx: Context, code: Bytes, c: Config, m: Machine)
    requires c.status.Running? && c.pc < |code|
    requires m == c.m.(gas := Spent(c.m, Cost(code[c.pc]))) && m.gas <= ctx.gasLimit
    ensures Turn(ctx, code, c) == Settle(c, code[c.pc], Step(ctx, code, m, c.pc))
  {
  }

  lemma Prices()
    ensures Cost(0x60) == 3 && Cost(MLOAD) == 3 && Cost(NOT) == 3 && Cost(RETURN) == 0
  {
  }

  lemma PushZero(ctx: Context, code: Bytes, c: Config)
    requires c.status.Running? && c.pc + 1 < |code| && code[c.pc] == 0x60 && code[c.pc + 1] == 0
    requires c.m.gas + 3 <= ctx.gasLimit && |c.m.stack| < MAX_STACK_SIZE
    ensures var (d, w) := (Turn(ctx, code, c), PushData(code, c.pc, 1));
            && d.status.Running? && d.pc == c.pc + 2 && Value(w) == 0
            && d.m == c.m.(gas := c.m.gas + 3, stack := c.m.stack + [w])
  {
    Prices();
    var m := c.m.(gas := c.m.gas + 3);
    TurnBy(ctx, code, c, m);
    PushBy(ctx, code, m, c.pc);
    ZeroPushed(code, c.pc);
  }

  lemma ZeroPushed(code: Bytes, pc: nat)
    requires pc + 1 < |code| && code[pc + 1] == 0
    ensures Value(PushData(code, pc, 1)) == 0
  {
    ZeroValue(PushData(code, pc, 1));
  }

  lemma PushBy(ctx: Context, code: Bytes, m: Machine, pc: nat)
    requires pc < |code| && code[pc] == 0x60 && |m.stack| < MAX_STACK_SIZE
    ensures Step(ctx, code, m, pc) == (m.(stack := m.stack + [PushData(code, pc, 1)]), Next(pc + 2))
  {
  }

  lemma LowOfZero(w: Word)
    requires Value(w) == 0
    ensures Low64(w) == 0
  {
    SmallMod(0, Pow256(|w| - 24));
  }

  lemma LoadZero(ctx: Context, code: Bytes, c: Config)
    requires c.status.Running? && c.pc < |code| && code[c.pc] == MLOAD && c.m.gas + 6 <= ctx.gasLimit
    requires |c.m.stack| == 1 && Value(c.m.stack[0]) == 0 && c.m.memory == []
    ensures var d := Turn(ctx, code, c);
            && d.status.Running? && d.pc == c.pc + 1 && d.m.gas == c.m.gas + 6 && |d.m.memory| == 32
            && |d.m.stack| == 1 && Value(d.m.stack[0]) == 0
  {
    Prices();
    var m := c.m.(gas := c.m.gas + 3);
    TurnBy(ctx, code, c, m);
    LowOfZero(c.m.stack[0]);
    LoadBy(ctx, code, m, c.pc, Drop(m, 1));
    FirstWord(ctx.gasLimit, Drop(m, 1), c.pc);
  }

  lemma LoadBy(ctx: Context, code: Bytes, m: Machine, pc: nat, rest: Machine)
    requires pc < |code| && code[pc] == MLOAD && |m.stack| == 1 && Low64(m.stack[0]) == 0 && rest == Drop(m, 1)
    ensures Step(ctx, code, m, pc) == LoadWord(ctx.gasLimit, rest, 0, pc)
  {
  }

  lemma FirstWord(limit: uint64, m: Machine, pc: nat)
    requires m.memory == [] && m.stack == [] && m.gas + 3 <= limit
    ensures var r := LoadWord(limit, m, 0, pc);
            && r.1 == Next(pc + 1) && r.0.gas == m.gas + 3 && |r.0.memory| == 32
            && |r.0.stack| == 1 && Value(r.0.stack[0]) == 0
  {
    assert ExpansionCost(0, 32) == 3;
    var (e, ok) := Expand(limit, m, 32);
    assert ok && e.gas == m.gas + 3 && e.memory == [] + ZeroBytes(32);
    ZeroValue(e.memory[0..32]);
  }

  lemma ComplementZero(ctx: Context, code: Bytes, c: Config)
    requires c.status.Running? && c.pc < |code| && code[c.pc] == NOT && c.m.gas + 3 <= ctx.gasLimit
    requires |c.m.stack| == 2 && Value(c.m.stack[1]) == 0
    ensures var d := Turn(ctx, code, c);
            && d.status.Running? && d.pc == c.pc + 1 && d.m.memory == c.m.memory && d.m.gas == c.m.gas + 3
            && |d.m.stack| == 2 && d.m.stack[0] == c.m.stack[0] && Low64(d.m.stack[1]) == MAX_U64
  {
    Prices();
    var m := c.m.(gas := c.m.gas + 3);
    TurnBy(ctx, code, c, m);
    var w := ComplementOfZero(c.m.stack[1]);
    TwoWords(m.stack);
    ComplementBy(ctx, code, m, c.pc, m.stack[0], m.stack[1], w);
  }

  lemma TwoWords(s: seq<Word>)
    requires |s| == 2
    ensures s == [s[0], s[1]]
  {
  }

  lemma ComplementBy(ctx: Context, code: Bytes, m: Machine, pc: nat, a: Word, b: Word, w: Word)
    requires pc < |code| && code[pc] == NOT && m.stack == [a, b] && w == ToWord(ComplementOf(b))
    ensures Step(ctx, code, m, pc) == (m.(stack := [a, w]), Next(pc + 1))
  {
    assert Drop(m, 1).stack == [a];
    assert UnaryWord(NOT, b) == w;
    assert [a] + [w] == [a, w];
    assert PushWord(Drop(m, 1), w, pc) == (m.(stack := [a, w]), Next(pc + 1));
  }

  lemma ComplementOfZero(w: Word) returns (r: Word)
    requires Value(w) == 0
    ensures r == ToWord(ComplementOf(w)) && Low64(r) == MAX_U64
  {
    var m := Modulus(w);
    var n := AllOnes(w, m);
    r := ToWord(n);
    LowOfSpelled(r, n, m);
  }

  lemma AllOnes(w: Word, m: nat) returns (n: nat)
    requires Value(w) == 0 && m == Modulus(w)
    ensures n == ComplementOf(w) == m - 1
  {
    n := ComplementOf(w);
  }

  lemma LowOfSpelled(r: Word, n: nat, m: nat)
    requires m == Modulus(r) && n == m - 1 && r == ToWord(n)
    ensures Low64(r) == MAX_U64
  {
    SpelledBelow(n, m);
    LowOfOnesIn(r, m);
  }

  lemma LowOfOnesIn(w: Word, m: nat)
    requires m == Pow256(|w|)
    ensures (m - 1) % Pow256(|w| - 24) == MAX_U64
  {
    Pow256Add(24, |w| - 24);
    EightBytes(|w| - 24);
    LowOfOnes(m, Pow256(24));
  }

  lemma EightBytes(n: nat)
    requires n == 8
    ensures Pow256(n) == TWO_64
  {
    assert Pow256(8) == TWO_64;
  }

  lemma LowOfOnes(m: nat, q: nat)
    requires m == q * TWO_64 && q > 0
    ensures (m - 1) % TWO_64 == MAX_U64
  {
    DivModUnique(m - 1, TWO_64, q - 1, MAX_U64);
  }

  lemma ReturnFar(ctx: Context, code: Bytes, c: Config)
    requires c.status.Running? && c.pc < |code| && code[c.pc] == RETURN && 3 <= c.m.gas <= ctx.gasLimit
    requires |c.m.memory| == 32
    requires |c.m.stack| == 2 && Value(c.m.stack[0]) == 0 && Low64(c.m.stack[1]) == MAX_U64
    ensures var d := Turn(ctx, code, c);
            d.status == Ended(InvalidOpcode) && d.m.gas == c.m.gas - 3 && d.m.memory == c.m.memory
  {
    Prices();
    TurnBy(ctx, code, c, c.m);
    LowOfZero(c.m.stack[0]);
    ReturnBy(ctx, code, c.m, c.pc, Drop(c.m, 2));
    WrappedExpansionRefunds(ctx.gasLimit, Drop(c.m, 2), MAX_U64);
  }

  lemma ReturnBy(ctx: Context, code: Bytes, m: Machine, pc: nat, rest: Machine)
    requires pc < |code| && code[pc] == RETURN && |m.stack| == 2 && rest == Drop(m, 2)
    requires Low64(m.stack[1]) == MAX_U64 && Low64(m.stack[0]) == 0
    ensures Step(ctx, code, m, pc) == GiveBack(ctx.gasLimit, rest, MAX_U64, 0, Returned)
  {
  }
}
