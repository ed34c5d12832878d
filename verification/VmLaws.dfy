/** What each opcode leaves behind, in values: on the stack, in memory and in storage. */
module VmLaws {
  import opened Arithmetic
  import opened Bytes
  import opened Ordered
  import opened Word256
  import opened WordPower
  import opened WordShift
  import opened VmWords
  import opened VmRun
  import VmRefund
  import WorldStateModel

  /** The run is at the opcode and can pay for it. */
  predicate At(ctx: Context, code: Bytes, c: Config, op: byte) {
    c.status.Running? && c.pc < |code| && code[c.pc] == op && c.m.gas + Cost(op) <= ctx.gasLimit
  }

  /** The opcode is paid, the stack and the counter are these, and all else is as it was. */
  function Onward(c: Config, op: byte, stack: seq<Word>, pc: nat): Config {
    Config(c.m.(gas := c.m.gas + Cost(op), stack := stack), pc, c.charged + [op], Running)
  }

  lemma TurnIs(ctx: Context, code: Bytes, c: Config, op: byte, m: Machine)
    requires At(ctx, code, c, op) && m == c.m.(gas := c.m.gas + Cost(op))
    ensures Turn(ctx, code, c) == Settle(c, op, Step(ctx, code, m, c.pc))
  {
    NoWrap(c.m.gas + Cost(op), ctx.gasLimit);
    VmRefund.TurnBy(ctx, code, c, m);
  }

  lemma NoWrap(n: nat, limit: uint64)
    requires n <= limit
    ensures n % TWO_64 == n
  {
  }

  lemma LastTwo(below: seq<Word>, a: Word, b: Word)
    ensures var s := below + [a, b];
            s[|s| - 1] == b && s[|s| - 2] == a && s[..|s| - 2] == below
  {
  }

  lemma LastOne(below: seq<Word>, a: Word)
    ensures var s := below + [a]; s[|s| - 1] == a && s[..|s| - 1] == below
  {
  }

  lemma SmallValue(n: nat, w: Word)
    requires n < Modulus(w)
    ensures Value(ToWord(n)) == n
  {
    SpelledBelow(n, Modulus(w));
  }

  lemma AnyValue(n: nat, w: Word)
    ensures Value(ToWord(n)) == n % Modulus(w)
  {
    SpelledNumber(n, |w|);
  }

  // ---------------------------------------------------------------- two operands

  lemma BinaryTurn(ctx: Context, code: Bytes, c: Config, op: byte, below: seq<Word>, a: Word, b: Word)
    requires At(ctx, code, c, op) && IsBinary(op) && c.m.stack == below + [a, b] && |c.m.stack| <= MAX_STACK_SIZE
    ensures Turn(ctx, code, c) == Onward(c, op, below + [BinaryWord(op, a, b)], c.pc + 1)
  {
    var m := c.m.(gas := c.m.gas + Cost(op));
    TurnIs(ctx, code, c, op, m);
    LastTwo(below, a, b);
    BinaryByStep(ctx, code, m, c.pc, op);
  }

  lemma BinaryByStep(ctx: Context, code: Bytes, m: Machine, pc: nat, op: byte)
    requires pc < |code| && code[pc] == op && IsBinary(op)
    ensures Step(ctx, code, m, pc) == BinaryStep(op, m, pc)
  {
  }

  /** With `a` below `b`: their sum and difference modulo 2^256, their quotient and remainder, zero for a zero
      divisor. */
  lemma ArithmeticLaw(ctx: Context, code: Bytes, c: Config, op: byte, below: seq<Word>, a: Word, b: Word, m: nat)
    returns (r: Word)
    requires At(ctx, code, c, op) && c.m.stack == below + [a, b] && |c.m.stack| <= MAX_STACK_SIZE
    requires op in {ADD, SUB, DIV, MOD} && m == Modulus(a)
    ensures Turn(ctx, code, c) == Onward(c, op, below + [r], c.pc + 1)
    ensures op == ADD ==> Value(r) == (Value(a) + Value(b)) % m
    ensures op == SUB ==> Value(r) == (Value(a) - Value(b)) % m
    ensures op == DIV ==> Value(r) == if Value(b) == 0 then 0 else Value(a) / Value(b)
    ensures op == MOD ==> Value(r) == if Value(b) == 0 then 0 else Value(a) % Value(b)
  {
    BinaryTurn(ctx, code, c, op, below, a, b);
    r := BinaryWord(op, a, b);
    if op == ADD {
      SumWord(op, a, b, Value(a) + Value(b), m, r);
    } else if op == SUB {
      DifferenceWord(op, a, b, Value(a) - Value(b), m, r);
    } else if op == DIV {
      QuotientWord(op, a, b, Value(a), Value(b), r);
    } else {
      RemainderWord(op, a, b, Value(a), Value(b), r);
    }
  }

  lemma SumWord(op: byte, a: Word, b: Word, n: nat, m: nat, r: Word)
    requires op == ADD && n == Value(a) + Value(b) && m == Modulus(a) && r == BinaryWord(op, a, b)
    ensures Value(r) == n % m
  {
    SumIs(op, a, b, n);
    AnyValue(n, a);
  }

  lemma SumIs(op: byte, a: Word, b: Word, n: nat)
    requires op == ADD && n == Value(a) + Value(b)
    ensures BinaryWord(op, a, b) == ToWord(n)
  {
  }

  lemma DifferenceWord(op: byte, a: Word, b: Word, n: int, m: nat, r: Word)
    requires op == SUB && n == Value(a) - Value(b) && m == Modulus(a) && r == BinaryWord(op, a, b)
    ensures Value(r) == n % m
  {
    DifferenceIs(op, a, b, n, m);
    DifferenceValue(a, n, m);
  }

  lemma DifferenceIs(op: byte, a: Word, b: Word, n: int, m: nat)
    requires op == SUB && n == Value(a) - Value(b) && m == Modulus(a)
    ensures BinaryWord(op, a, b) == ToWord(n % m)
  {
  }

  lemma QuotientWord(op: byte, a: Word, b: Word, n: nat, d: nat, r: Word)
    requires op == DIV && n == Value(a) && d == Value(b) && r == BinaryWord(op, a, b)
    ensures Value(r) == Quotient(n, d)
  {
    QuotientIs(op, a, b, n, d);
    QuotientValues(a, n, d, Modulus(a));
  }

  lemma QuotientIs(op: byte, a: Word, b: Word, n: nat, d: nat)
    requires op == DIV && n == Value(a) && d == Value(b)
    ensures BinaryWord(op, a, b) == ToWord(Quotient(n, d))
  {
  }

  lemma RemainderWord(op: byte, a: Word, b: Word, n: nat, d: nat, r: Word)
    requires op == MOD && n == Value(a) && d == Value(b) && r == BinaryWord(op, a, b)
    ensures Value(r) == Remainder(n, d)
  {
    RemainderIs(op, a, b, n, d);
    QuotientValues(a, n, d, Modulus(a));
  }

  lemma RemainderIs(op: byte, a: Word, b: Word, n: nat, d: nat)
    requires op == MOD && n == Value(a) && d == Value(b)
    ensures BinaryWord(op, a, b) == ToWord(Remainder(n, d))
  {
  }

  lemma DifferenceValue(w: Word, n: int, m: nat)
    requires m == Modulus(w)
    ensures Value(ToWord(n % m)) == n % m
  {
    SmallValue(n % m, w);
  }

  lemma QuotientValues(w: Word, n: nat, d: nat, m: nat)
    requires m == Modulus(w) && n == Value(w)
    ensures Value(ToWord(Quotient(n, d))) == Quotient(n, d) && Value(ToWord(Remainder(n, d))) == Remainder(n, d)
  {
    ValueBound(w);
    QuotientSmall(n, d, m);
    SmallValue(Quotient(n, d), w);
    SmallValue(Remainder(n, d), w);
  }

  lemma QuotientSmall(n: nat, d: nat, m: nat)
    requires n < m
    ensures Quotient(n, d) < m && Remainder(n, d) < m
  {
    if d > 0 {
      LessMono(1, d, n / d);
    }
  }

  /** With `a` below `b`: one if it is less, greater or equal, as the opcode asks, and else zero. */
  lemma ComparisonLaw(ctx: Context, code: Bytes, c: Config, op: byte, below: seq<Word>, a: Word, b: Word)
    returns (r: Word)
    requires At(ctx, code, c, op) && c.m.stack == below + [a, b] && |c.m.stack| <= MAX_STACK_SIZE
    requires op in {LT, GT, EQ}
    ensures Turn(ctx, code, c) == Onward(c, op, below + [r], c.pc + 1)
    ensures op == LT ==> Value(r) == if Value(a) < Value(b) then 1 else 0
    ensures op == GT ==> Value(r) == if Value(a) > Value(b) then 1 else 0
    ensures op == EQ ==> Value(r) == if Value(a) == Value(b) then 1 else 0
  {
    BinaryTurn(ctx, code, c, op, below, a, b);
    r := BinaryWord(op, a, b);
    FlagValue(Compare(op, Value(a), Value(b)));
  }

  lemma FlagValue(holds: bool)
    ensures Value(Flag(holds)) == if holds then 1 else 0
  {
    var w: Word := ZERO_DIGEST;
    OneFits(w);
    SmallValue(if holds then 1 else 0, w);
  }

  lemma OneFits(w: Word)
    ensures 1 < Modulus(w)
  {
    Pow256Big(|w|);
  }

  /** And, or and exclusive or, byte by byte. */
  lemma BitwiseLaw(ctx: Context, code: Bytes, c: Config, op: byte, below: seq<Word>, a: Word, b: Word)
    returns (r: Word)
    requires At(ctx, code, c, op) && c.m.stack == below + [a, b] && |c.m.stack| <= MAX_STACK_SIZE
    requires op in {AND, OR, XOR}
    ensures Turn(ctx, code, c) == Onward(c, op, below + [r], c.pc + 1)
    ensures op == AND ==> forall i | 0 <= i < 32 :: r[i] as bv8 == a[i] as bv8 & b[i] as bv8
    ensures op == OR ==> forall i | 0 <= i < 32 :: r[i] as bv8 == a[i] as bv8 | b[i] as bv8
    ensures op == XOR ==> forall i | 0 <= i < 32 :: r[i] as bv8 == a[i] as bv8 ^ b[i] as bv8
  {
    BinaryTurn(ctx, code, c, op, below, a, b);
    r := BinaryWord(op, a, b);
    BitwiseIs(op, a, b, if op == AND then ByteAnd else if op == OR then ByteOr else ByteXor);
  }

  lemma BitwiseIs(op: byte, a: Word, b: Word, f: (byte, byte) -> byte)
    requires op in {AND, OR, XOR} && f == if op == AND then ByteAnd else if op == OR then ByteOr else ByteXor
    ensures BinaryWord(op, a, b) == Bytewise(f, a, b)
  {
  }

  /** The shift lies below the value; 256 bits or more leave nothing. */
  lemma ShiftLaw(ctx: Context, code: Bytes, c: Config, op: byte, below: seq<Word>, shift: Word, w: Word)
    returns (r: Word)
    requires At(ctx, code, c, op) && c.m.stack == below + [shift, w] && |c.m.stack| <= MAX_STACK_SIZE
    requires op in {SHL, SHR}
    ensures Turn(ctx, code, c) == Onward(c, op, below + [r], c.pc + 1)
    ensures var n := Value(shift) % TWO_64;
            && (n >= 256 ==> Value(r) == 0)
            && (n < 256 && op == SHL ==> Value(r) == Value(w) * Pow2(n) % Modulus(w))
            && (n < 256 && op == SHR ==> Value(r) == Value(w) / Pow2(n))
  {
    BinaryTurn(ctx, code, c, op, below, shift, w);
    r := BinaryWord(op, shift, w);
    var n := LowValue(shift);
    if op == SHL {
      LeftIs(op, shift, w, n);
      AnyValue(ShiftedLeft(Value(w), n), w);
      if n >= 256 {
        SmallMod(0, Modulus(w));
      }
    } else {
      RightIs(op, shift, w, n);
      RightSmall(w, Value(w), n, Modulus(w));
    }
  }

  lemma LowValue(w: Word) returns (n: nat)
    ensures n == Low64(w) == Value(w) % TWO_64
  {
    n := Low64(w);
    VmRefund.EightBytes(|w| - 24);
  }

  lemma LeftIs(op: byte, shift: Word, w: Word, n: nat)
    requires op == SHL && n == Low64(shift)
    ensures BinaryWord(op, shift, w) == ToWord(ShiftedLeft(Value(w), n))
  {
  }

  lemma RightIs(op: byte, shift: Word, w: Word, n: nat)
    requires op == SHR && n == Low64(shift)
    ensures BinaryWord(op, shift, w) == ToWord(ShiftedRight(Value(w), n))
  {
  }

  lemma RightSmall(w: Word, v: nat, n: nat, m: nat)
    requires v == Value(w) && m == Modulus(w)
    ensures Value(ToWord(ShiftedRight(v, n))) == ShiftedRight(v, n)
  {
    ValueBound(w);
    if n < 256 {
      QuotientSmall(v, Pow2(n), m);
    }
    SmallValue(ShiftedRight(v, n), w);
  }

  /** The product is of the machine's own kind, with the lower word as its first factor; a power has its base below
      its exponent. */
  lemma ProductLaw(ctx: Context, code: Bytes, c: Config, op: byte, below: seq<Word>, a: Word, b: Word)
    requires At(ctx, code, c, op) && c.m.stack == below + [a, b] && |c.m.stack| <= MAX_STACK_SIZE
    requires op in {MUL, EXP}
    ensures var r := if op == MUL then MulWord(a, b) else ExpWord(a, b);
            Turn(ctx, code, c) == Onward(c, op, below + [r], c.pc + 1)
  {
    BinaryTurn(ctx, code, c, op, below, a, b);
    ProductIs(op, a, b);
  }

  lemma ProductIs(op: byte, a: Word, b: Word)
    requires op in {MUL, EXP}
    ensures BinaryWord(op, a, b) == if op == MUL then MulWord(a, b) else ExpWord(a, b)
  {
  }

  // ---------------------------------------------------------------- one operand or none

  lemma UnaryLaw(ctx: Context, code: Bytes, c: Config, op: byte, below: seq<Word>, a: Word)
    returns (r: Word)
    requires At(ctx, code, c, op) && c.m.stack == below + [a] && |c.m.stack| <= MAX_STACK_SIZE
    requires op in {ISZERO, NOT}
    ensures Turn(ctx, code, c) == Onward(c, op, below + [r], c.pc + 1)
    ensures op == ISZERO ==> Value(r) == if Value(a) == 0 then 1 else 0
    ensures op == NOT ==> Value(r) == Modulus(a) - 1 - Value(a)
  {
    var m := c.m.(gas := c.m.gas + Cost(op));
    TurnIs(ctx, code, c, op, m);
    LastOne(below, a);
    UnaryByStep(ctx, code, m, c.pc, op);
    r := UnaryWord(op, a);
    if op == ISZERO {
      FlagValue(Value(a) == 0);
    } else {
      ValueBound(a);
      SmallValue(ComplementOf(a), a);
    }
  }

  lemma UnaryByStep(ctx: Context, code: Bytes, m: Machine, pc: nat, op: byte)
    requires pc < |code| && code[pc] == op && IsUnary(op)
    ensures Step(ctx, code, m, pc) == UnaryStep(op, m, pc)
  {
  }

  lemma PopLaw(ctx: Context, code: Bytes, c: Config, op: byte, below: seq<Word>, a: Word)
    requires At(ctx, code, c, op) && c.m.stack == below + [a] && op == POP
    ensures Turn(ctx, code, c) == Onward(c, op, below, c.pc + 1)
  {
    TurnIs(ctx, code, c, op, c.m.(gas := c.m.gas + Cost(op)));
    LastOne(below, a);
  }

  /** STOP and JUMPDEST do nothing; the run goes on behind them. */
  lemma NothingLaw(ctx: Context, code: Bytes, c: Config, op: byte)
    requires At(ctx, code, c, op) && op in {STOP, JUMPDEST}
    ensures Turn(ctx, code, c) == Onward(c, op, c.m.stack, c.pc + 1)
  {
    TurnIs(ctx, code, c, op, c.m.(gas := c.m.gas + Cost(op)));
  }

  /** The byte at `i` of a code or of a memory; behind its end it reads as zero. */
  function ByteAt(s: Bytes, i: nat): byte {
    if i < |s| then s[i] else 0
  }

  /** PUSH1 to PUSH32 push the number their one to 32 following bytes spell, and the run goes on behind them. */
  lemma PushLaw(ctx: Context, code: Bytes, c: Config, op: byte, n: nat) returns (r: Word)
    requires At(ctx, code, c, op) && 1 <= n <= 32 && op == 0x60 + n - 1 && |c.m.stack| < MAX_STACK_SIZE
    ensures Turn(ctx, code, c) == Onward(c, op, c.m.stack + [r], c.pc + 1 + n)
    ensures forall i | 0 <= i < 32 :: r[i] == if i < 32 - n then 0 else ByteAt(code, c.pc + 1 + i - (32 - n))
    ensures c.pc + 1 + n <= |code| ==> Value(r) == Value(code[c.pc + 1..c.pc + 1 + n])
  {
    PushTurn(ctx, code, c, op, n);
    r := PushData(code, c.pc, n);
    DataPushed(code, c.pc, n, r);
  }

  lemma PushTurn(ctx: Context, code: Bytes, c: Config, op: byte, n: nat)
    requires At(ctx, code, c, op) && 1 <= n <= 32 && op == 0x60 + n - 1 && |c.m.stack| < MAX_STACK_SIZE
    ensures Turn(ctx, code, c) == Onward(c, op, c.m.stack + [PushData(code, c.pc, n)], c.pc + 1 + n)
  {
    var m := c.m.(gas := c.m.gas + Cost(op));
    TurnIs(ctx, code, c, op, m);
    PushByStep(ctx, code, m, c.pc, op, n);
  }

  lemma DataPushed(code: Bytes, pc: nat, n: nat, r: Word)
    requires pc < |code| && 1 <= n <= 32 && r == PushData(code, pc, n)
    ensures forall i | 0 <= i < 32 :: r[i] == if i < 32 - n then 0 else ByteAt(code, pc + 1 + i - (32 - n))
    ensures pc + 1 + n <= |code| ==> Value(r) == Value(code[pc + 1..pc + 1 + n])
  {
    if pc + 1 + n <= |code| {
      var data := code[pc + 1..pc + 1 + n];
      assert r == ZeroBytes(32 - n) + data;
      ZerosInFront(data, 32 - n);
    }
  }

  lemma PushByStep(ctx: Context, code: Bytes, m: Machine, pc: nat, op: byte, n: nat)
    requires pc < |code| && code[pc] == op && 1 <= n <= 32 && op == 0x60 + n - 1
    ensures Step(ctx, code, m, pc) == PushWord(m, PushData(code, pc, n), pc + n)
  {
  }

  lemma ZerosInFront(data: Bytes, k: nat)
    ensures Value(ZeroBytes(k) + data) == Value(data)
  {
    ZeroValue(ZeroBytes(k));
    ValueConcat(ZeroBytes(k), data);
  }

  /** DUP1 to DUP16 push the word that lies `n` deep, counting from one. */
  lemma DupLaw(ctx: Context, code: Bytes, c: Config, op: byte, n: nat, below: seq<Word>, w: Word, above: seq<Word>)
    requires At(ctx, code, c, op) && 1 <= n <= 16 && op == 0x80 + n - 1
    requires c.m.stack == below + [w] + above && |above| == n - 1 && |c.m.stack| < MAX_STACK_SIZE
    ensures Turn(ctx, code, c) == Onward(c, op, below + [w] + above + [w], c.pc + 1)
  {
    var m := c.m.(gas := c.m.gas + Cost(op));
    TurnIs(ctx, code, c, op, m);
    DupByStep(ctx, code, m, c.pc, op);
  }

  lemma DupByStep(ctx: Context, code: Bytes, m: Machine, pc: nat, op: byte)
    requires pc < |code| && code[pc] == op && IsDup(op)
    ensures Step(ctx, code, m, pc) == DupStep(op, m, pc)
  {
  }

  /** SWAP1 to SWAP16 exchange the top with the word `n` below it and leave those between. */
  lemma SwapLaw(ctx: Context, code: Bytes, c: Config, op: byte, n: nat, below: seq<Word>, deep: Word,
                between: seq<Word>, top: Word)
    requires At(ctx, code, c, op) && 1 <= n <= 16 && op == 0x90 + n - 1
    requires c.m.stack == below + [deep] + between + [top] && |between| == n - 1
    ensures Turn(ctx, code, c) == Onward(c, op, below + [top] + between + [deep], c.pc + 1)
  {
    var m := c.m.(gas := c.m.gas + Cost(op));
    TurnIs(ctx, code, c, op, m);
    SwapByStep(ctx, code, m, c.pc, op);
    Swapped(m.stack, below, deep, between, top, |m.stack| - 1, |below|);
  }

  lemma Swapped(s: seq<Word>, below: seq<Word>, deep: Word, between: seq<Word>, top: Word, last: nat, d: nat)
    requires s == below + [deep] + between + [top] && last == |s| - 1 && d == |below|
    ensures s[d] == deep && s[last] == top && s[last := deep][d := top] == below + [top] + between + [deep]
  {
  }

  lemma SwapByStep(ctx: Context, code: Bytes, m: Machine, pc: nat, op: byte)
    requires pc < |code| && code[pc] == op && IsSwap(op)
    ensures Step(ctx, code, m, pc) == SwapStep(op, m, pc)
  {
  }

  /** What the opcodes that ask the context are told; GAS says what is left once it is paid itself. */
  lemma ContextLaw(ctx: Context, code: Bytes, c: Config, op: byte) returns (r: Word)
    requires At(ctx, code, c, op) && IsContext(op) && |c.m.stack| < MAX_STACK_SIZE
    ensures Turn(ctx, code, c) == Onward(c, op, c.m.stack + [r], c.pc + 1)
    ensures op == ADDRESS ==> Value(r) == ctx.address % Modulus(r)
    ensures op == CALLER ==> Value(r) == ctx.caller % Modulus(r)
    ensures op == CALLVALUE ==> r == ctx.value
    ensures op == GASPRICE ==> Value(r) == ctx.gasPrice
    ensures op == TIMESTAMP ==> Value(r) == ctx.timestamp
    ensures op == NUMBER ==> Value(r) == ctx.blockNumber
    ensures op == DIFFICULTY ==> Value(r) == ctx.difficulty
    ensures op == GASLIMIT ==> Value(r) == ctx.gasLimitBlock
    ensures op == CHAINID ==> Value(r) == ctx.chainId
    ensures op == BASEFEE ==> Value(r) == ctx.baseFee
    ensures op == GAS ==> Value(r) == ctx.gasLimit - (c.m.gas + Cost(op))
  {
    var m := c.m.(gas := c.m.gas + Cost(op));
    TurnIs(ctx, code, c, op, m);
    ContextByStep(ctx, code, m, c.pc, op);
    r := ContextWord(op, ctx, m.gas);
    if op in {ADDRESS, CALLER} {
      AnyValue(if op == ADDRESS then ctx.address else ctx.caller, r);
    } else if op == GAS {
      NoWrap(ctx.gasLimit - m.gas, ctx.gasLimit);
      ShortValue(ctx.gasLimit - m.gas);
    } else if op != CALLVALUE {
      Asked(op, ctx, m.gas, r);
    }
  }

  lemma Asked(op: byte, ctx: Context, gas: nat, r: Word)
    requires IsContext(op) && op !in {ADDRESS, CALLER, CALLVALUE, GAS} && r == ContextWord(op, ctx, gas)
    ensures op == GASPRICE ==> Value(r) == ctx.gasPrice
    ensures op == TIMESTAMP ==> Value(r) == ctx.timestamp
    ensures op == NUMBER ==> Value(r) == ctx.blockNumber
    ensures op == DIFFICULTY ==> Value(r) == ctx.difficulty
    ensures op == GASLIMIT ==> Value(r) == ctx.gasLimitBlock
    ensures op == CHAINID ==> Value(r) == ctx.chainId
    ensures op == BASEFEE ==> Value(r) == ctx.baseFee
  {
    ShortValue(ctx.gasPrice);
    ShortValue(ctx.timestamp);
    ShortValue(ctx.blockNumber);
    ShortValue(ctx.difficulty);
    ShortValue(ctx.gasLimitBlock);
    ShortValue(ctx.chainId);
    ShortValue(ctx.baseFee);
  }

  lemma ContextByStep(ctx: Context, code: Bytes, m: Machine, pc: nat, op: byte)
    requires pc < |code| && code[pc] == op && IsContext(op)
    ensures Step(ctx, code, m, pc) == PushWord(m, ContextWord(op, ctx, m.gas), pc)
  {
  }

  /** A 64-bit number fits a word. */
  lemma ShortValue(n: uint64)
    ensures Value(ToWord(n)) == n
  {
    var w: Word := ZERO_DIGEST;
    LongerModulus(|w|);
    SmallValue(n, w);
  }

  lemma LongerModulus(k: nat)
    requires k == 32
    ensures TWO_64 <= Pow256(k)
  {
    VmRefund.EightBytes(k - 24);
    Pow256Add(24, k - 24);
    Scaled(Pow256(24), Pow256(k - 24));
  }

  lemma Scaled(p: nat, n: nat)
    requires p > 0
    ensures n <= p * n
  {
  }

  // ---------------------------------------------------------------- how an opcode ends a run

  predicate UsesMemory(op: byte) {
    op in {MLOAD, MSTORE, MSTORE8, RETURN, REVERT}
  }

  predicate Implemented(op: byte) {
    op in {STOP, ADD, MUL, SUB, DIV, MOD, EXP, LT, GT, EQ, ISZERO, AND, OR, XOR, NOT, SHL, SHR}
    || op in {ADDRESS, CALLER, CALLVALUE, GASPRICE, TIMESTAMP, NUMBER, DIFFICULTY, GASLIMIT, CHAINID, BASEFEE, GAS}
    || op in {POP, MLOAD, MSTORE, MSTORE8, SLOAD, SSTORE, JUMPDEST, RETURN, REVERT}
    || 0x60 <= op <= 0x9f
  }

  /** How many words the opcode must find. */
  function Needs(op: byte): nat {
    if op in {ISZERO, NOT, POP, SLOAD, MLOAD} then 1
    else if op in {ADD, MUL, SUB, DIV, MOD, EXP, LT, GT, EQ, AND, OR, XOR, SHL, SHR} then 2
    else if op in {SSTORE, MSTORE, MSTORE8, RETURN, REVERT} then 2
    else if 0x80 <= op <= 0x8f then op - 0x80 + 1
    else if 0x90 <= op <= 0x9f then op - 0x90 + 2
    else 0
  }

  /** Whether it leaves one word more than it found. */
  predicate Grows(op: byte) {
    op in {ADDRESS, CALLER, CALLVALUE, GASPRICE, TIMESTAMP, NUMBER, DIFFICULTY, GASLIMIT, CHAINID, BASEFEE, GAS}
    || 0x60 <= op <= 0x8f
  }

  predicate Forbidden(ctx: Context, op: byte) {
    op == SSTORE && ctx.isStatic
  }

  /** Memory apart, the run goes on behind an opcode exactly when there is such an opcode, it finds its words and room
      for one more, and it does not write in a static call. Whatever it leaves of the stack, it changes nothing else
      when it ends the run. */
  lemma GoesOnExactly(ctx: Context, code: Bytes, c: Config, op: byte)
    requires At(ctx, code, c, op) && |c.m.stack| <= MAX_STACK_SIZE && !UsesMemory(op)
    ensures var d := Turn(ctx, code, c);
            && (d.status.Running? <==>
                  && Implemented(op) && !Forbidden(ctx, op) && Needs(op) <= |c.m.stack|
                  && (Grows(op) ==> |c.m.stack| < MAX_STACK_SIZE))
            && (d.status.Ended? ==>
                  && d.status.result == (if Forbidden(ctx, op) then StaticCallViolation else InvalidOpcode)
                  && d.m == c.m.(gas := c.m.gas + Cost(op), stack := d.m.stack))
  {
    var m := c.m.(gas := c.m.gas + Cost(op));
    TurnIs(ctx, code, c, op, m);
    StepEnds(ctx, code, m, c.pc, op);
  }

  /** What an opcode's outcome says about its operands, and what of the machine it keeps when it ends the run. */
  ghost predicate Ends(ctx: Context, m: Machine, op: byte, r: (Machine, Outcome)) {
    && (r.1.Next? <==>
          && Implemented(op) && !Forbidden(ctx, op) && Needs(op) <= |m.stack|
          && (Grows(op) ==> |m.stack| < MAX_STACK_SIZE))
    && (r.1.Stop? ==> r.1.result == if Forbidden(ctx, op) then StaticCallViolation else InvalidOpcode)
    && (r.1.Thrown? ==> !Forbidden(ctx, op))
    && (!r.1.Next? ==> r.0 == m.(stack := r.0.stack))
  }

  lemma StepEnds(ctx: Context, code: Bytes, m: Machine, pc: nat, op: byte)
    requires pc < |code| && code[pc] == op && |m.stack| <= MAX_STACK_SIZE && !UsesMemory(op)
    ensures Ends(ctx, m, op, Step(ctx, code, m, pc))
  {
    if op in {STOP, JUMPDEST} {
      IdleEnds(ctx, code, m, pc, op);
    } else if op in {SLOAD, SSTORE} {
      StorageEnds(ctx, code, m, pc, op);
    } else {
      OthersByStep(ctx, code, m, pc, op);
      StackStepEnds(ctx, code, m, pc, op);
    }
  }

  lemma IdleEnds(ctx: Context, code: Bytes, m: Machine, pc: nat, op: byte)
    requires pc < |code| && code[pc] == op && op in {STOP, JUMPDEST}
    ensures Ends(ctx, m, op, Step(ctx, code, m, pc))
  {
  }

  lemma StorageEnds(ctx: Context, code: Bytes, m: Machine, pc: nat, op: byte)
    requires pc < |code| && code[pc] == op && op in {SLOAD, SSTORE} && |m.stack| <= MAX_STACK_SIZE
    ensures Ends(ctx, m, op, Step(ctx, code, m, pc))
  {
  }

  lemma OthersByStep(ctx: Context, code: Bytes, m: Machine, pc: nat, op: byte)
    requires pc < |code| && code[pc] == op && !UsesMemory(op) && op !in {STOP, JUMPDEST, SLOAD, SSTORE}
    ensures Step(ctx, code, m, pc) == StackStep(ctx, code, m, pc)
  {
  }

  lemma StackStepEnds(ctx: Context, code: Bytes, m: Machine, pc: nat, op: byte)
    requires pc < |code| && code[pc] == op && |m.stack| <= MAX_STACK_SIZE
    requires !UsesMemory(op) && op !in {STOP, JUMPDEST, SLOAD, SSTORE}
    ensures Ends(ctx, m, op, StackStep(ctx, code, m, pc))
  {
  }

  /** The prices of the opcodes there are. */
  lemma PriceLaw(op: byte)
    requires Implemented(op)
    ensures Cost(op) == if op in {STOP, RETURN, REVERT} then 0
                        else if IsContext(op) then 2
                        else if op in {MUL, DIV, MOD} then 5
                        else if op == EXP then 10
                        else if op == SLOAD then 800
                        else if op == SSTORE then 20000
                        else 3
  {
  }

  /** An opcode that cannot be paid for ends the run and leaves everything as it was. */
  lemma UnpaidLaw(ctx: Context, code: Bytes, c: Config)
    requires c.status.Running? && c.pc < |code|
    requires ctx.gasLimit < c.m.gas + Cost(code[c.pc]) < TWO_64
    ensures Turn(ctx, code, c) == c.(status := Ended(OutOfGas))
  {
    NoWrap(c.m.gas + Cost(code[c.pc]), TWO_64 - 1);
  }

  /** Running past the end of the code is success. */
  lemma EndOfCode(ctx: Context, code: Bytes, c: Config)
    requires c.status.Running? && |code| <= c.pc
    ensures Turn(ctx, code, c) == c.(status := Ended(Success))
  {
  }
}
