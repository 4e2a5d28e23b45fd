/** The recompiler's code generation for three-register instructions: which x86 sequence each
    choice of registers gets, and that running it computes the instruction set's value. */
module CodeGen {
  import opened Words
  import opened Wrappers
  import opened Isa
  import opened WordMasks
  import opened X86

  // ------------------------------------------------------------ guest registers

  const GUESTS := 13

  const TEMP: Reg := RCX

  /** The x86 register that holds a guest register: never rcx, rsp or r15. */
  function R(i: nat): (r: Reg)
    requires i < GUESTS
    ensures r != TEMP && r != R15 && r != 4 && GuestOf(r) == i
  {
    match i
    case 0 => RDI
    case 1 => RAX
    case 2 => RSI
    case 3 => RBX
    case 4 => RDX
    case 5 => RBP
    case _ => i + 2
  }

  /** The left inverse of `R`, so distinct guest registers live in distinct x86 registers. */
  function GuestOf(r: Reg): nat
  {
    if r == RDI then 0 else if r == RAX then 1 else if r == RSI then 2 else if r == RBX then 3
    else if r == RDX then 4 else if r == RBP then 5 else if r < 8 then 0 else r - 2
  }

  function Guest(c: Cpu): (g: seq<word>)
    ensures |g| == GUESTS
  {
    seq(GUESTS, i requires 0 <= i < GUESTS => Get(c, R(i)))
  }

  /** Everything a guest instruction must leave alone: the context pointer, the stack, host memory. */
  predicate SameContext(c: Cpu, c': Cpu)
  {
    c'.regs[R15] == c.regs[R15] && c'.regs[4] == c.regs[4] && c'.stack == c.stack && c'.host == c.host
  }

  lemma GuestSet(c: Cpu, rd: nat, v: word)
    requires rd < GUESTS
    ensures Guest(Set(c, R(rd), v)) == Guest(c)[rd := v]
    ensures SameContext(c, Set(c, R(rd), v))
  {
    var g := Guest(Set(c, R(rd), v));
    forall i | 0 <= i < GUESTS
      ensures g[i] == Guest(c)[rd := v][i]
    {
      assert GuestOf(R(i)) == i && GuestOf(R(rd)) == rd;
    }
  }

  lemma GuestAt(c: Cpu, i: nat)
    requires i < GUESTS
    ensures Guest(c)[i] == Get(c, R(i))
  {}

  lemma GuestTemp(c: Cpu, v: word)
    ensures Guest(Set(c, TEMP, v)) == Guest(c) && SameContext(c, Set(c, TEMP, v))
  {}

  lemma GuestOfRegs(c: Cpu, c': Cpu)
    requires c.regs == c'.regs
    ensures Guest(c) == Guest(c')
  {}

  /** The code ends normally, having put v in guest register rd and changed nothing else. */
  ghost predicate Yields(code: seq<Instr>, c: Cpu, rd: nat, v: nat)
    requires rd < GUESTS
  {
    var e := Run(code, 0, c);
    e.Fall? && v < TWO64 && Guest(e.c) == Guest(c)[rd := v] && SameContext(c, e.c)
  }

  // ------------------------------------------------------------ straight-line runs

  /** The states that code without jumps passes through from position pc. */
  ghost predicate PassesFrom(code: seq<Instr>, pc: nat, cs: seq<Cpu>)
  {
    0 < |cs| <= |code| - pc + 1
    && forall k :: 0 <= k < |cs| - 1 ==> StepsTo(code[pc + k], cs[k], cs[k + 1])
  }

  predicate StepsTo(i: Instr, c: Cpu, c': Cpu)
  {
    Straight(i) && Do(i, c) == Some(c')
  }

  ghost predicate Passes(code: seq<Instr>, cs: seq<Cpu>)
  {
    |cs| == |code| + 1 && PassesFrom(code, 0, cs)
  }

  lemma {:induction false} SegmentRun(code: seq<Instr>, pc: nat, cs: seq<Cpu>)
    requires PassesFrom(code, pc, cs)
    ensures Run(code, pc, cs[0]) == Run(code, pc + |cs| - 1, cs[|cs| - 1])
    decreases |cs|
  {
    hide Do;
    if |cs| > 1 {
      assert StepsTo(code[pc + 0], cs[0], cs[1]);
      RunStep(code, pc, cs[0], cs[1]);
      forall k | 0 <= k < |cs| - 2
        ensures StepsTo(code[pc + 1 + k], cs[1..][k], cs[1..][k + 1])
      {
        assert StepsTo(code[pc + (k + 1)], cs[k + 1], cs[k + 1 + 1]);
      }
      SegmentRun(code, pc + 1, cs[1..]);
    }
  }

  lemma RunEnd(code: seq<Instr>, c: Cpu)
    ensures Run(code, |code|, c) == Fall(c)
  {}

  lemma PassesRun(code: seq<Instr>, cs: seq<Cpu>)
    requires Passes(code, cs)
    ensures Run(code, 0, cs[0]) == Fall(cs[|code|])
  {
    SegmentRun(code, 0, cs);
  }

  /** Code run after code that ends normally. */
  lemma YieldsThen(a: seq<Instr>, b: seq<Instr>, c: Cpu, rd: nat, v: nat, w: nat)
    requires rd < GUESTS && Yields(a, c, rd, v) && Yields(b, Run(a, 0, c).c, rd, w)
    ensures Yields(a + b, c, rd, w)
  {
    hide Run, R, Guest;
    RunConcat(a, b, 0, c, Run(a, 0, c).c);
    assert Guest(c)[rd := v][rd := w] == Guest(c)[rd := w];
  }

  lemma OneStep(i: Instr, c: Cpu, rd: nat, v: word)
    requires rd < GUESTS && Straight(i) && Do(i, c).Some?
    requires Do(i, c).value.regs == Set(c, R(rd), v).regs && Do(i, c).value.stack == c.stack && Do(i, c).value.host == c.host
    ensures Yields([i], c, rd, v)
  {
    hide Run, Do;
    var c' := Do(i, c).value;
    assert Passes([i], [c, c']);
    PassesRun([i], [c, c']);
    GuestSet(c, rd, v);
    GuestOfRegs(Set(c, R(rd), v), c');
  }

  lemma SignExtends(a: seq<Instr>, c: Cpu, rd: nat, v: nat)
    requires rd < GUESTS && Yields(a, c, rd, v)
    ensures Yields(a + [MOVSXD(R(rd), R(rd))], c, rd, SX32(v))
  {
    hide Run, R, SX32;
    var c' := Run(a, 0, c).c;
    assert Guest(c')[rd] == v;
    OneStep(MOVSXD(R(rd), R(rd)), c', rd, SX32(v));
    YieldsThen(a, [MOVSXD(R(rd), R(rd))], c, rd, v, SX32(v));
  }

  // ------------------------------------------------------------ two-operand arithmetic

  /** Operations emitted on two registers whose order does not matter. */
  datatype Arith = AddOp(w: Width) | MulOp | LogicOp(op: BitOp)

  predicate Commutes(o: Arith) { o.LogicOp? ==> o.op == And || o.op == Or || o.op == Xor }

  function ArithInstr(o: Arith, dst: Reg, src: Reg): Instr
  {
    match o
    case AddOp(w) => ADD(w, dst, src)
    case MulOp => IMUL(dst, src)
    case LogicOp(op) => LOGIC(op, dst, src)
  }

  function ArithWidth(o: Arith): Width { if o.AddOp? then o.w else W64 }

  function ArithValue(o: Arith, a: word, b: word): word
  {
    match o
    case AddOp(w) => Truncate(a + b, w)
    case MulOp => LowProduct(a, b)
    case LogicOp(op) => Pow2Values(); Bitwise(op, a, b, 64)
  }

  lemma ArithStep(o: Arith, c: Cpu, rd: nat, rs: nat)
    requires rd < GUESTS && rs < GUESTS
    ensures Yields([ArithInstr(o, R(rd), R(rs))], c, rd, ArithValue(o, Guest(c)[rd], Guest(c)[rs]))
  {
    hide Run, R, Guest, Yields, Bitwise, Pow2;
    var a, b := Get(c, R(rd)), Get(c, R(rs));
    GuestAt(c, rd);
    GuestAt(c, rs);
    SignedProduct(S64(a), S64(b), a, b);
    OneStep(ArithInstr(o, R(rd), R(rs)), c, rd, ArithValue(o, a, b));
  }

  function CommuteCode(o: Arith, ra: nat, rb: nat, rd: nat): seq<Instr>
    requires ra < GUESTS && rb < GUESTS && rd < GUESTS
  {
    if rd == rb then [ArithInstr(o, R(rd), R(ra))]
    else if rd == ra then [ArithInstr(o, R(rd), R(rb))]
    else [MOV(ArithWidth(o), R(rd), R(ra))] + [ArithInstr(o, R(rd), R(rb))]
  }

  lemma ArithSymmetric(o: Arith, a: word, b: word)
    requires Commutes(o)
    ensures ArithValue(o, a, b) == ArithValue(o, b, a)
    ensures ArithValue(o, Part(a, ArithWidth(o)), b) == ArithValue(o, a, b)
  {
    hide Bitwise, Pow2;
    if o.LogicOp? {
      BitwiseSymmetric(o.op, a, b, 64);
    }
  }

  lemma {:induction false} BitwiseSymmetric(op: BitOp, a: nat, b: nat, n: nat)
    requires op == And || op == Or || op == Xor
    ensures Bitwise(op, a, b, n) == Bitwise(op, b, a, n)
  {
    if n > 0 {
      BitwiseSymmetric(op, a / 2, b / 2, n - 1);
    }
  }

  /** A register move into the destination, whole or its low half. */
  lemma MoveStep(w: Width, c: Cpu, rd: nat, rs: nat)
    requires rd < GUESTS && rs < GUESTS
    ensures Yields([MOV(w, R(rd), R(rs))], c, rd, Part(Guest(c)[rs], w))
  {
    hide Run, R, Guest, Yields;
    GuestAt(c, rs);
    OneStep(MOV(w, R(rd), R(rs)), c, rd, Part(Get(c, R(rs)), w));
  }

  lemma CommuteYields(o: Arith, ra: nat, rb: nat, rd: nat, c: Cpu)
    requires ra < GUESTS && rb < GUESTS && rd < GUESTS && Commutes(o)
    ensures Yields(CommuteCode(o, ra, rb, rd), c, rd, ArithValue(o, Guest(c)[ra], Guest(c)[rb]))
  {
    hide Run, R, Guest, ArithValue, ArithInstr, Part;
    var a, b := Guest(c)[ra], Guest(c)[rb];
    ArithSymmetric(o, a, b);
    if rd == rb {
      ArithStep(o, c, rd, ra);
    } else if rd == ra {
      ArithStep(o, c, rd, rb);
    } else {
      var w := ArithWidth(o);
      MoveStep(w, c, rd, ra);
      var c' := Run([MOV(w, R(rd), R(ra))], 0, c).c;
      assert Guest(c')[rb] == b;
      ArithStep(o, c', rd, rb);
      YieldsThen([MOV(w, R(rd), R(ra))], [ArithInstr(o, R(rd), R(rb))], c, rd, Part(a, w), ArithValue(o, a, b));
    }
  }

  // ------------------------------------------------------------ subtraction

  function SubCode(w: Width, ra: nat, rb: nat, rd: nat): seq<Instr>
    requires ra < GUESTS && rb < GUESTS && rd < GUESTS
  {
    if ra == rd then [SUB(w, R(rd), R(rb))]
    else if rb == rd then [NEG(w, R(rd))] + [ADD(w, R(rd), R(ra))]
    else [MOV(w, R(rd), R(ra))] + [SUB(w, R(rd), R(rb))]
  }

  lemma SubStep(w: Width, c: Cpu, rd: nat, rs: nat)
    requires rd < GUESTS && rs < GUESTS
    ensures Yields([SUB(w, R(rd), R(rs))], c, rd, Truncate(Guest(c)[rd] as int - Guest(c)[rs], w))
  {
    hide Run, R, Guest, Yields;
    GuestAt(c, rd);
    GuestAt(c, rs);
    OneStep(SUB(w, R(rd), R(rs)), c, rd, Truncate(Get(c, R(rd)) - Get(c, R(rs)), w));
  }

  lemma NegStep(w: Width, c: Cpu, rd: nat)
    requires rd < GUESTS
    ensures Yields([NEG(w, R(rd))], c, rd, Truncate(-(Guest(c)[rd] as int), w))
  {
    hide Run, R, Guest, Yields;
    GuestAt(c, rd);
    OneStep(NEG(w, R(rd)), c, rd, Truncate(-(Get(c, R(rd)) as int), w));
  }

  lemma SubArithmetic(w: Width, a: word, b: word)
    ensures ArithValue(AddOp(w), Truncate(-(b as int), w), a) == Truncate(a as int - b, w)
    ensures Truncate(Part(a, w) as int - b, w) == Truncate(a as int - b, w)
  {
    var m := if w == W32 then TWO32 else TWO64;
    ModSum(-(b as int), a, m);
    ModSum(a, -(b as int), m);
  }

  lemma ModSum(x: int, y: int, m: int)
    requires m > 0
    ensures (x % m + y) % m == (x + y) % m
  {
    ModMod(x + y, x % m + y, x / m, m);
  }

  lemma SubYields(w: Width, ra: nat, rb: nat, rd: nat, c: Cpu)
    requires ra < GUESTS && rb < GUESTS && rd < GUESTS
    ensures Yields(SubCode(w, ra, rb, rd), c, rd, Truncate(Guest(c)[ra] as int - Guest(c)[rb], w))
  {
    hide Run, R, Guest, Truncate, Part, ArithValue;
    var a, b := Guest(c)[ra], Guest(c)[rb];
    SubArithmetic(w, a, b);
    var v := Truncate(a as int - b, w);
    if ra == rd {
      SubStep(w, c, rd, rb);
    } else if rb == rd {
      NegStep(w, c, rd);
      var n := Truncate(-(b as int), w);
      var c' := Run([NEG(w, R(rd))], 0, c).c;
      assert Guest(c')[ra] == a && Guest(c')[rd] == n;
      ArithStep(AddOp(w), c', rd, ra);
      YieldsThen([NEG(w, R(rd))], [ADD(w, R(rd), R(ra))], c, rd, n, v);
    } else {
      MoveStep(w, c, rd, ra);
      var c' := Run([MOV(w, R(rd), R(ra))], 0, c).c;
      assert Guest(c')[rb] == b && Guest(c')[rd] == Part(a, w);
      SubStep(w, c', rd, rb);
      YieldsThen([MOV(w, R(rd), R(ra))], [SUB(w, R(rd), R(rb))], c, rd, Part(a, w), v);
    }
  }

  // ------------------------------------------------------------ shifts and rotates

  /** Brings the first operand into the destination and the second into the scratch register,
      in the order that survives the destination being the second operand. */
  function LoadCode(w: Width, ra: nat, rb: nat, rd: nat): seq<Instr>
    requires ra < GUESTS && rb < GUESTS && rd < GUESTS
  {
    if rb == rd && rb != ra then [MOV(W64, TEMP, R(rb)), MOV(w, R(rd), R(ra))]
    else [MOV(w, R(rd), R(ra)), MOV(W64, TEMP, R(rb))]
  }

  function Bits(w: Width): nat { if w == W32 then 32 else 64 }

  function ShiftCode(kind: ShiftKind, w: Width, ra: nat, rb: nat, rd: nat): seq<Instr>
    requires ra < GUESTS && rb < GUESTS && rd < GUESTS
  {
    LoadCode(w, ra, rb, rd) + [ANDI(TEMP, Bits(w) - 1), SHIFT(kind, w, R(rd))]
  }

  /** The state after both operands are loaded. */
  ghost predicate Loaded(w: Width, c: Cpu, c': Cpu, ra: nat, rb: nat, rd: nat)
    requires ra < GUESTS && rb < GUESTS && rd < GUESTS
  {
    Guest(c') == Guest(c)[rd := Part(Guest(c)[ra], w)] && SameContext(c, c')
    && c'.regs[TEMP] % TWO32 == Guest(c)[rb] % TWO32
    && (w == W64 ==> c'.regs[TEMP] == Guest(c)[rb])
  }

  lemma LoadRuns(w: Width, ra: nat, rb: nat, rd: nat, c: Cpu)
    requires ra < GUESTS && rb < GUESTS && rd < GUESTS
    ensures var e := Run(LoadCode(w, ra, rb, rd), 0, c);
            e.Fall? && Loaded(w, c, e.c, ra, rb, rd)
  {
    hide Run, R, Guest;
    var a, b := Get(c, R(ra)), Get(c, R(rb));
    GuestAt(c, ra);
    GuestAt(c, rb);
    var code := LoadCode(w, ra, rb, rd);
    if rb == rd && rb != ra {
      var c1 := Set(c, TEMP, b);
      var c2 := Set(c1, R(rd), Part(a, w));
      GuestTemp(c, b);
      GuestAt(c1, ra);
      GuestSet(c1, rd, Part(a, w));
      assert Passes(code, [c, c1, c2]);
      PassesRun(code, [c, c1, c2]);
    } else {
      var c1 := Set(c, R(rd), Part(a, w));
      GuestSet(c, rd, Part(a, w));
      GuestAt(c1, rb);
      var t := Get(c1, R(rb));
      assert t % TWO32 == b % TWO32 && (w == W64 ==> t == b);
      var c2 := Set(c1, TEMP, t);
      GuestTemp(c1, t);
      assert Passes(code, [c, c1, c2]);
      PassesRun(code, [c, c1, c2]);
    }
  }

  lemma CountMask(w: Width, t: word)
    ensures Bitwise(And, t, Bits(w) - 1, 64) == t % Bits(w)
  {
    hide Bitwise, Low;
    assert Pow2(5) == 32 && Pow2(6) == 64;
    MaskIsLow(t, if w == W32 then 5 else 6, 64);
    ShrIsDiv(t, if w == W32 then 5 else 6);
  }

  lemma BitsPower(w: Width)
    ensures Pow2(Bits(w)) == (if w == W32 then TWO32 else TWO64) && Bits(w) > 0
  {
    Pow2Values();
  }

  lemma ShiftTail(kind: ShiftKind, w: Width, rd: nat, c: Cpu)
    requires rd < GUESTS
    ensures Pow2(Bits(w)) == (if w == W32 then TWO32 else TWO64) && Bits(w) > 0
    ensures Yields([ANDI(TEMP, Bits(w) - 1), SHIFT(kind, w, R(rd))], c, rd,
                   Shifted(kind, Part(Guest(c)[rd], w), c.regs[TEMP] % Bits(w), Bits(w)))
  {
    hide Run, R, Guest, Bitwise, Shifted, Pow2, Do;
    BitsPower(w);
    var n := Bits(w);
    var k := c.regs[TEMP] % n;
    var v := Shifted(kind, Part(Guest(c)[rd], w), k, n);
    var c1 := SetClobber(c, TEMP, k);
    var c2 := SetClobber(c1, R(rd), v);
    var code := [ANDI(TEMP, n - 1), SHIFT(kind, w, R(rd))];
    GuestTemp(c, k);
    GuestOfRegs(c1, Set(c, TEMP, k));
    GuestSet(c1, rd, v);
    GuestOfRegs(c2, Set(c1, R(rd), v));
    MaskStep(w, c);
    ShiftStep(kind, w, rd, c1);
    RunStep(code, 0, c, c1);
    RunStep(code, 1, c1, c2);
    RunEnd(code, c2);
  }

  lemma MaskStep(w: Width, c: Cpu)
    ensures Do(ANDI(TEMP, Bits(w) - 1), c) == Some(SetClobber(c, TEMP, c.regs[TEMP] % Bits(w)))
  {
    hide Bitwise, Pow2;
    CountMask(w, c.regs[TEMP]);
  }

  lemma ShiftStep(kind: ShiftKind, w: Width, rd: nat, c: Cpu)
    requires rd < GUESTS && c.regs[TEMP] < Bits(w)
    ensures Pow2(Bits(w)) == (if w == W32 then TWO32 else TWO64) && Bits(w) > 0
    ensures Do(SHIFT(kind, w, R(rd)), c)
         == Some(SetClobber(c, R(rd), Shifted(kind, Part(Guest(c)[rd], w), c.regs[TEMP], Bits(w))))
  {
    hide Shifted, Pow2, Guest, R, Part;
    Pow2Values();
    GuestAt(c, rd);
    SmallAmount(c.regs[TEMP], w);
  }

  lemma SmallAmount(a: nat, w: Width)
    requires a < Bits(w)
    ensures a % 256 % Bits(w) == a
  {}

  lemma ShiftYields(kind: ShiftKind, w: Width, ra: nat, rb: nat, rd: nat, c: Cpu)
    requires ra < GUESTS && rb < GUESTS && rd < GUESTS
    ensures Pow2(Bits(w)) == (if w == W32 then TWO32 else TWO64) && Bits(w) > 0
    ensures Yields(ShiftCode(kind, w, ra, rb, rd), c, rd,
                   Shifted(kind, Part(Guest(c)[ra], w), Guest(c)[rb] % Bits(w), Bits(w)))
  {
    hide Run, R, Guest, Shifted, LoadCode, Pow2;
    Pow2Values();
    var n := Bits(w);
    LoadRuns(w, ra, rb, rd, c);
    var c' := Run(LoadCode(w, ra, rb, rd), 0, c).c;
    var tail := [ANDI(TEMP, n - 1), SHIFT(kind, w, R(rd))];
    assert c'.regs[TEMP] % n == Guest(c)[rb] % n by {
      SameCount(w, c'.regs[TEMP], Guest(c)[rb]);
    }
    var v := Shifted(kind, Part(Guest(c)[ra], w), Guest(c)[rb] % n, n);
    assert Guest(c')[rd] == Part(Guest(c)[ra], w);
    assert Part(Guest(c')[rd], w) == Part(Guest(c)[ra], w);
    ShiftTail(kind, w, rd, c');
    RunConcat(LoadCode(w, ra, rb, rd), tail, 0, c, c');
    assert Guest(c')[rd := v] == Guest(c)[rd := v];
  }

  lemma SameCount(w: Width, t: word, b: word)
    requires t % TWO32 == b % TWO32 && (w == W64 ==> t == b)
    ensures t % Bits(w) == b % Bits(w)
  {
    if w == W32 {
      ModMod(t, b, (t / TWO32 - b / TWO32) * 0x800_0000, 32);
    }
  }

  function ShiftValue(kind: ShiftKind, w: Width, a: word, b: word): nat
  {
    match kind
    case SHL => Value3(ShloL(w), a, b, 0)
    case SHR => Value3(ShloR(w), a, b, 0)
    case SAR => Value3(SharR(w), a, b, 0)
    case ROL => Value3(RotLeft(w), a, b, 0)
    case ROR => Value3(RotRight(w), a, b, 0)
  }

  /** A result of the given width as a register: 32-bit results are sign-extended. */
  function Widened(v: nat, w: Width): nat { if w == W32 then SX32(v) else v }

  function Masked(kind: ShiftKind, w: Width, a: word, b: word): nat
  {
    Pow2Values();
    Shifted(kind, Part(a, w), b % Bits(w), Bits(w))
  }

  /** Masked x86 shifts and rotates of the selected part are the instruction set's, once a
      32-bit result is sign-extended. */
  lemma ShiftedIsValue(kind: ShiftKind, w: Width, a: word, b: word)
    ensures ShiftValue(kind, w, a, b) == Widened(Masked(kind, w, a, b), w)
  {
    hide ShiftValue, Widened, Masked;
    match kind {
      case SHL => LeftIsValue(w, a, b);
      case SHR => RightIsValue(w, a, b);
      case SAR => ArithmeticIsValue(w, a, b);
      case ROL => RotateIsValue(w, a, b);
      case ROR => RotateIsValue(w, a, b);
    }
  }

  lemma LeftIsValue(w: Width, a: word, b: word)
    ensures ShiftValue(SHL, w, a, b) == Widened(Masked(SHL, w, a, b), w)
  {
    hide Pow2, Shl, Low, SX32, U64;
    if w == W32 {
      Pow2Values();
      LowOfShift(a, b % 32, 32);
      SameLow(Shl(a, b % 32), Low(Shl(a % TWO32, b % 32), 32));
    } else {
      LeftIsValue64(a, b % 64);
    }
  }

  lemma LeftIsValue64(a: word, k: nat)
    ensures Low(Shl(a, k), 64) == U64(Shl(a, k))
  {
    hide Pow2, Shl, Low;
    Pow2Values();
    ShrIsDiv(Shl(a, k), 64);
  }

  lemma SameLow(x: int, y: int)
    requires x % TWO32 == y
    ensures SX32(x) == SX32(y)
  {}

  lemma LowOfShift(a: nat, k: nat, n: nat)
    ensures Low(Shl(a % Pow2(n), k), n) == Shl(a, k) % Pow2(n)
  {
    hide Shl, Low, Pow2;
    LeftShiftLow(a, k, n);
    ShrIsDiv(Shl(a % Pow2(n), k), n);
  }

  lemma RightIsValue(w: Width, a: word, b: word)
    ensures ShiftValue(SHR, w, a, b) == Widened(Masked(SHR, w, a, b), w)
  {
    hide Pow2, Shr;
    Pow2Values();
  }

  lemma ArithmeticIsValue(w: Width, a: word, b: word)
    ensures ShiftValue(SAR, w, a, b) == Widened(Masked(SAR, w, a, b), w)
  {
    hide Pow2, Sar, LowOfInt, SX32, U64, S32;
    Pow2Values();
    if w == W32 {
      SarFits(a % TWO32, b % 32, W32);
      LowHalfSigned(a);
    } else {
      SarFits(a, b % 64, W64);
    }
  }

  lemma LowHalfSigned(a: word)
    ensures var x := a % TWO32;
            S32(x) == S32(a) && S32(x) == if x >= TWO31 then x - TWO32 else x
  {}

  lemma RotateIsValue(w: Width, a: word, b: word)
    ensures ShiftValue(ROL, w, a, b) == Widened(Masked(ROL, w, a, b), w)
    ensures ShiftValue(ROR, w, a, b) == Widened(Masked(ROR, w, a, b), w)
  {
    hide Pow2, RotL, RotR, RolTimes, RorTimes, Low, SX32;
    Pow2Values();
    var n, k := Bits(w), b % Bits(w);
    LowSmall(Part(a, w), n);
    ShrIsDiv(a, n);
    RolTimesIsRotL(Part(a, w), k, n);
    RorTimesIsRotR(Part(a, w), k, n);
  }

  lemma LeftShiftLow(a: nat, k: nat, n: nat)
    ensures Shl(a % Pow2(n), k) % Pow2(n) == Shl(a, k) % Pow2(n)
  {
    hide Shl, Pow2;
    ShlIsMul(a % Pow2(n), k);
    ShlIsMul(a, k);
    ScaledRemainder(a, Pow2(k), Pow2(n));
  }

  lemma ScaledRemainder(a: nat, p: nat, m: nat)
    requires m > 0
    ensures (a % m * p) % m == (a * p) % m
  {
    var r := a % m;
    DivModUnique(r, m, 0, r);
    ScaledCongruence(p, r, a, m);
    assert r * p == p * r && a * p == p * a;
  }

  lemma SarFits(x: nat, k: nat, w: Width)
    requires x < (if w == W32 then TWO32 else TWO64)
    ensures Pow2(Bits(w) - 1) == if w == W32 then TWO31 else TWO63
    ensures w == W32 ==> SX32(LowOfInt(Sar(S32(x), k), 32)) == U64(Sar(S32(x), k))
    ensures w == W64 ==> LowOfInt(Sar(S64(x), k), 64) == U64(Sar(S64(x), k))
  {
    Pow2Values();
    hide Pow2, Sar;
    if w == W32 {
      SarBounds(S32(x), k, TWO31);
    }
  }

  // ------------------------------------------------------------ inverted operands

  function InvertedCode(op: BitOp, ra: nat, rb: nat, rd: nat): seq<Instr>
    requires ra < GUESTS && rb < GUESTS && rd < GUESTS
  {
    if rb == rd && rb != ra then
      [MOV(W64, TEMP, R(rb)), NOT(TEMP), MOV(W64, R(rd), R(ra)), LOGIC(op, R(rd), TEMP)]
    else if ra == rd then
      [MOV(W64, TEMP, R(rb)), NOT(TEMP), LOGIC(op, R(rd), TEMP)]
    else
      [MOV(W64, R(rd), R(ra)), MOV(W64, TEMP, R(rb)), NOT(TEMP), LOGIC(op, R(rd), TEMP)]
  }

  /** Loads the second operand into the scratch register and inverts it. */
  lemma InvertRuns(code: seq<Instr>, pc: nat, c: Cpu, rb: nat)
    requires rb < GUESTS && pc + 2 <= |code| && code[pc] == MOV(W64, TEMP, R(rb)) && code[pc + 1] == NOT(TEMP)
    ensures var c' := Set(c, TEMP, ALL_ONES - Guest(c)[rb]);
            Run(code, pc, c) == Run(code, pc + 2, c') && Guest(c') == Guest(c) && SameContext(c, c')
  {
    hide Run, R, Guest;
    var b := Get(c, R(rb));
    GuestAt(c, rb);
    var c1, c2 := Set(c, TEMP, b), Set(c, TEMP, ALL_ONES - b);
    assert StepsTo(code[pc + 0], c, c1);
    assert c1.regs[TEMP := ALL_ONES - b] == c2.regs;
    assert StepsTo(code[pc + 1], c1, c2);
    assert PassesFrom(code, pc, [c, c1, c2]);
    SegmentRun(code, pc, [c, c1, c2]);
    GuestTemp(c, ALL_ONES - b);
  }

  lemma MoveRuns(code: seq<Instr>, pc: nat, c: Cpu, w: Width, rd: nat, rs: nat)
    requires rd < GUESTS && rs < GUESTS && pc < |code| && code[pc] == MOV(w, R(rd), R(rs))
    ensures var c' := Set(c, R(rd), Part(Guest(c)[rs], w));
            Run(code, pc, c) == Run(code, pc + 1, c') && Guest(c') == Guest(c)[rd := Part(Guest(c)[rs], w)]
            && SameContext(c, c') && c'.regs[TEMP] == c.regs[TEMP] && c'.flags == c.flags
  {
    hide Run, Guest;
    GuestAt(c, rs);
    GuestSet(c, rd, Part(Get(c, R(rs)), w));
    RunStep(code, pc, c, Set(c, R(rd), Part(Get(c, R(rs)), w)));
  }

  lemma LogicRuns(code: seq<Instr>, pc: nat, c: Cpu, op: BitOp, rd: nat)
    requires rd < GUESTS && pc < |code| && code[pc] == LOGIC(op, R(rd), TEMP)
    ensures Pow2(64) == TWO64
    ensures var v := Bitwise(op, Guest(c)[rd], c.regs[TEMP], 64);
            var c' := SetClobber(c, R(rd), v);
            Run(code, pc, c) == Run(code, pc + 1, c') && Guest(c') == Guest(c)[rd := v] && SameContext(c, c')
  {
    hide Run, Guest, Bitwise, Pow2;
    Pow2Values();
    GuestAt(c, rd);
    var v: word := Bitwise(op, Get(c, R(rd)), c.regs[TEMP], 64);
    GuestSet(c, rd, v);
    GuestOfRegs(SetClobber(c, R(rd), v), Set(c, R(rd), v));
    RunStep(code, pc, c, SetClobber(c, R(rd), v));
  }

  lemma SavedInvertedYields(op: BitOp, ra: nat, rb: nat, rd: nat, c: Cpu)
    requires ra < GUESTS && rb < GUESTS && rd < GUESTS && rb == rd && rb != ra
    ensures Yields(InvertedCode(op, ra, rb, rd), c, rd, Bitwise(op, Guest(c)[ra], ALL_ONES - Guest(c)[rb], 64))
  {
    hide R, Guest, Bitwise, Pow2, Run;
    Pow2Values();
    var code := InvertedCode(op, ra, rb, rd);
    var a, b := Guest(c)[ra], Guest(c)[rb];
    var v := Bitwise(op, a, ALL_ONES - b, 64);
    var t := Set(c, TEMP, ALL_ONES - b);
    InvertRuns(code, 0, c, rb);
    MoveRuns(code, 2, t, W64, rd, ra);
    LogicRuns(code, 3, Set(t, R(rd), a), op, rd);
    RunEnd(code, SetClobber(Set(t, R(rd), a), R(rd), v));
  }

  lemma PlainInvertedYields(op: BitOp, ra: nat, rb: nat, rd: nat, c: Cpu)
    requires ra < GUESTS && rb < GUESTS && rd < GUESTS && rb != rd && ra != rd
    ensures Yields(InvertedCode(op, ra, rb, rd), c, rd, Bitwise(op, Guest(c)[ra], ALL_ONES - Guest(c)[rb], 64))
  {
    hide R, Guest, Bitwise, Pow2, Run;
    Pow2Values();
    var code := InvertedCode(op, ra, rb, rd);
    var a, b := Guest(c)[ra], Guest(c)[rb];
    var v := Bitwise(op, a, ALL_ONES - b, 64);
    var m := Set(c, R(rd), a);
    MoveRuns(code, 0, c, W64, rd, ra);
    InvertRuns(code, 1, m, rb);
    LogicRuns(code, 3, Set(m, TEMP, ALL_ONES - b), op, rd);
    RunEnd(code, SetClobber(Set(m, TEMP, ALL_ONES - b), R(rd), v));
  }

  lemma InvertedYields(op: BitOp, ra: nat, rb: nat, rd: nat, c: Cpu)
    requires ra < GUESTS && rb < GUESTS && rd < GUESTS
    ensures Yields(InvertedCode(op, ra, rb, rd), c, rd, Bitwise(op, Guest(c)[ra], ALL_ONES - Guest(c)[rb], 64))
  {
    hide R, Guest, Bitwise, Pow2, Run;
    if rb == rd && rb != ra {
      SavedInvertedYields(op, ra, rb, rd, c);
    } else if ra == rd {
      Pow2Values();
      var code := InvertedCode(op, ra, rb, rd);
      var t := Set(c, TEMP, ALL_ONES - Guest(c)[rb]);
      InvertRuns(code, 0, c, rb);
      LogicRuns(code, 2, t, op, rd);
      RunEnd(code, SetClobber(t, R(rd), Bitwise(op, Guest(c)[ra], ALL_ONES - Guest(c)[rb], 64)));
    } else {
      PlainInvertedYields(op, ra, rb, rd, c);
    }
  }

  /** Inverting the second operand first gives the inverted forms. */
  lemma InvertedValue(a: word, b: word)
    ensures Bitwise(And, a, ALL_ONES - b, 64) == Bitwise(AndInv, a, b, 64)
    ensures Bitwise(Or, a, ALL_ONES - b, 64) == Bitwise(OrInv, a, b, 64)
    ensures Pow2(64) == TWO64 && ALL_ONES - Bitwise(Xor, a, b, 64) == Bitwise(Xnor, a, b, 64)
  {
    Pow2Values();
    InvertedBits(a, b, 64);
  }

  lemma {:induction false} InvertedBits(a: nat, b: nat, n: nat)
    requires a < Pow2(n) && b < Pow2(n)
    ensures Bitwise(And, a, Not(b, n), n) == Bitwise(AndInv, a, b, n)
    ensures Bitwise(Or, a, Not(b, n), n) == Bitwise(OrInv, a, b, n)
    ensures Not(Bitwise(Xor, a, b, n), n) == Bitwise(Xnor, a, b, n)
  {
    if n > 0 {
      assert Not(b, n) / 2 == Not(b / 2, n - 1) && Not(b, n) % 2 == 1 - b % 2;
      InvertedBits(a / 2, b / 2, n - 1);
    }
  }

  function XnorCode(ra: nat, rb: nat, rd: nat): seq<Instr>
    requires ra < GUESTS && rb < GUESTS && rd < GUESTS
  {
    CommuteCode(LogicOp(Xor), ra, rb, rd) + [NOT(R(rd))]
  }

  lemma XnorYields(ra: nat, rb: nat, rd: nat, c: Cpu)
    requires ra < GUESTS && rb < GUESTS && rd < GUESTS
    ensures Yields(XnorCode(ra, rb, rd), c, rd, Bitwise(Xnor, Guest(c)[ra], Guest(c)[rb], 64))
  {
    hide Run, R, Guest, Bitwise, Pow2, CommuteCode;
    var x := ArithValue(LogicOp(Xor), Guest(c)[ra], Guest(c)[rb]);
    var code := CommuteCode(LogicOp(Xor), ra, rb, rd);
    CommuteYields(LogicOp(Xor), ra, rb, rd, c);
    var c' := Run(code, 0, c).c;
    GuestAt(c', rd);
    assert Guest(c')[rd] == x;
    OneStep(NOT(R(rd)), c', rd, ALL_ONES - x);
    YieldsThen(code, [NOT(R(rd))], c, rd, x, ALL_ONES - x);
    InvertedValue(Guest(c)[ra], Guest(c)[rb]);
  }

  // ------------------------------------------------------------ comparisons and selections

  function SetLtSCode(ra: nat, rb: nat, rd: nat): seq<Instr>
    requires ra < GUESTS && rb < GUESTS && rd < GUESTS
  {
    [CMP(R(ra), R(rb)), MOVI(R(rd), 0), SETCC(Less, R(rd))]
  }

  function CmovCode(cond: Cond, ra: nat, rb: nat, rd: nat): seq<Instr>
    requires ra < GUESTS && rb < GUESTS && rd < GUESTS
  {
    [TEST(R(rb), R(rb)), CMOV(cond, R(rd), R(ra))]
  }

  function ExtremeCode(cond: Cond, ra: nat, rb: nat, rd: nat): seq<Instr>
    requires ra < GUESTS && rb < GUESTS && rd < GUESTS
  {
    if rb == rd && ra != rb then
      [MOV(W64, TEMP, R(rb)), CMP(R(ra), TEMP), MOV(W64, R(rd), R(ra)), CMOV(cond, R(rd), TEMP)]
    else
      [CMP(R(ra), R(rb)), MOV(W64, R(rd), R(ra)), CMOV(cond, R(rd), R(rb))]
  }

  /** What the conditions mean after comparing a with b. */
  lemma CompareMeans(a: word, b: word)
    ensures Holds(Less, CmpFlags(a, b)) <==> S64(a) < S64(b)
    ensures Holds(Greater, CmpFlags(a, b)) <==> S64(a) > S64(b)
    ensures Holds(Below, CmpFlags(a, b)) <==> a < b
    ensures Holds(Above, CmpFlags(a, b)) <==> a > b
    ensures Holds(Equal, CmpFlags(a, b)) <==> a == b
  {}

  lemma SetLtSYields(ra: nat, rb: nat, rd: nat, c: Cpu)
    requires ra < GUESTS && rb < GUESTS && rd < GUESTS
    ensures Yields(SetLtSCode(ra, rb, rd), c, rd, B2I(S64(Guest(c)[ra]) < S64(Guest(c)[rb])))
  {
    hide Run, R, Guest, CmpFlags, Holds;
    GuestAt(c, ra);
    GuestAt(c, rb);
    var a, b := Get(c, R(ra)), Get(c, R(rb));
    CompareMeans(a, b);
    var c1 := c.(flags := Some(CmpFlags(a, b)));
    var c2 := Set(c1, R(rd), 0);
    var c3 := Set(c1, R(rd), B2I(S64(a) < S64(b)));
    assert c2.regs[R(rd) := c3.regs[R(rd)]] == c3.regs;
    assert Passes(SetLtSCode(ra, rb, rd), [c, c1, c2, c3]);
    PassesRun(SetLtSCode(ra, rb, rd), [c, c1, c2, c3]);
    GuestSet(c1, rd, B2I(S64(a) < S64(b)));
    GuestOfRegs(c, c1);
  }

  lemma CmovYields(cond: Cond, ra: nat, rb: nat, rd: nat, c: Cpu)
    requires ra < GUESTS && rb < GUESTS && rd < GUESTS && (cond == Equal || cond == NotEqual)
    ensures Yields(CmovCode(cond, ra, rb, rd), c, rd,
                   if (Guest(c)[rb] == 0) == (cond == Equal) then Guest(c)[ra] else Guest(c)[rd])
  {
    hide Run, R, Guest, Bitwise, Pow2;
    GuestAt(c, ra);
    GuestAt(c, rb);
    GuestAt(c, rd);
    Pow2Values();
    var a, b := Get(c, R(ra)), Get(c, R(rb));
    AndSelf(b, 64);
    var c1 := c.(flags := Some(TestFlags(b)));
    var c2 := if Holds(cond, TestFlags(b)) then Set(c1, R(rd), a) else c1;
    assert Passes(CmovCode(cond, ra, rb, rd), [c, c1, c2]);
    PassesRun(CmovCode(cond, ra, rb, rd), [c, c1, c2]);
    GuestSet(c1, rd, a);
    GuestOfRegs(c, c1);
  }

  /** cmp's only effect. */
  function Compared(c: Cpu, a: word, b: word): Cpu { c.(flags := Some(CmpFlags(a, b))) }

  /** The three instructions of a minimum or maximum, from any state. */
  lemma SelectionSteps(c: Cpu, x: Reg, y: Reg, d: Reg)
    ensures StepsTo(CMP(x, y), c, Compared(c, Get(c, x), Get(c, y)))
    ensures StepsTo(MOV(W64, d, x), c, Set(c, d, Get(c, x)))
  {}

  lemma CmovStep(c: Cpu, cond: Cond, d: Reg, s: Reg)
    requires c.flags.Some?
    ensures StepsTo(CMOV(cond, d, s), c, if Holds(cond, c.flags.value) then Set(c, d, Get(c, s)) else c)
  {
    hide Holds;
  }

  lemma SavedExtremeYields(cond: Cond, ra: nat, rb: nat, rd: nat, c: Cpu)
    requires ra < GUESTS && rb < GUESTS && rd < GUESTS && rb == rd && ra != rb
    ensures Yields(ExtremeCode(cond, ra, rb, rd), c, rd,
                   if Holds(cond, CmpFlags(Guest(c)[ra], Guest(c)[rb])) then Guest(c)[rb] else Guest(c)[ra])
  {
    hide Run, R, Guest, CmpFlags, Holds, Do;
    GuestAt(c, ra);
    GuestAt(c, rb);
    var a, b := Get(c, R(ra)), Get(c, R(rb));
    var c1 := Set(c, TEMP, b);
    GuestTemp(c, b);
    GuestAt(c1, ra);
    var c2 := Compared(c1, a, b);
    GuestOfRegs(c1, c2);
    GuestAt(c2, ra);
    var c3 := Set(c2, R(rd), a);
    GuestSet(c2, rd, a);
    var c4 := if Holds(cond, CmpFlags(a, b)) then Set(c3, R(rd), b) else c3;
    GuestSet(c3, rd, b);
    SelectionSteps(c, R(rb), R(rb), TEMP);
    SelectionSteps(c1, R(ra), TEMP, R(rd));
    SelectionSteps(c2, R(ra), TEMP, R(rd));
    CmovStep(c3, cond, R(rd), TEMP);
    FourSteps(ExtremeCode(cond, ra, rb, rd), c, c1, c2, c3, c4);
  }

  lemma PlainExtremeYields(cond: Cond, ra: nat, rb: nat, rd: nat, c: Cpu)
    requires ra < GUESTS && rb < GUESTS && rd < GUESTS && !(rb == rd && ra != rb)
    ensures Yields(ExtremeCode(cond, ra, rb, rd), c, rd,
                   if Holds(cond, CmpFlags(Guest(c)[ra], Guest(c)[rb])) then Guest(c)[rb] else Guest(c)[ra])
  {
    hide Run, R, Guest, CmpFlags, Holds, Do;
    GuestAt(c, ra);
    GuestAt(c, rb);
    var a, b := Get(c, R(ra)), Get(c, R(rb));
    var c1 := Compared(c, a, b);
    GuestOfRegs(c, c1);
    var c2 := Set(c1, R(rd), a);
    GuestSet(c1, rd, a);
    GuestAt(c2, rb);
    assert Get(c2, R(rb)) == b;
    var c3 := if Holds(cond, CmpFlags(a, b)) then Set(c2, R(rd), b) else c2;
    GuestSet(c2, rd, b);
    SelectionSteps(c, R(ra), R(rb), R(rd));
    SelectionSteps(c1, R(ra), R(rb), R(rd));
    CmovStep(c2, cond, R(rd), R(rb));
    ThreeSteps(ExtremeCode(cond, ra, rb, rd), c, c1, c2, c3);
  }

  lemma ExtremeYields(cond: Cond, ra: nat, rb: nat, rd: nat, c: Cpu)
    requires ra < GUESTS && rb < GUESTS && rd < GUESTS
    ensures Yields(ExtremeCode(cond, ra, rb, rd), c, rd,
                   if Holds(cond, CmpFlags(Guest(c)[ra], Guest(c)[rb])) then Guest(c)[rb] else Guest(c)[ra])
  {
    hide Yields, ExtremeCode, Guest, CmpFlags, Holds;
    if rb == rd && ra != rb {
      SavedExtremeYields(cond, ra, rb, rd, c);
    } else {
      PlainExtremeYields(cond, ra, rb, rd, c);
    }
  }

  // ------------------------------------------------------------ mul_upper_s_u

  /** Signed by unsigned, high half, left in rdx; `pos` and `end` are its two labels. */
  function MixedProduct(ra: nat, rb: nat, pos: nat, end: nat): (code: seq<Instr>)
    requires ra < GUESTS && rb < GUESTS
    ensures |code| == 18
  {
    [PUSH(RAX), PUSH(RDX), PUSH(TEMP),
     MOV(W64, TEMP, R(ra)), MOV(W64, RAX, R(rb)), TEST(TEMP, TEMP), JCC(NotSign, pos),
     NEG(W64, TEMP), MUL(TEMP), MOVI(TEMP, 0), TEST(RAX, RAX), SETCC(NotEqual, TEMP),
     ADD(W64, RDX, TEMP), NEG(W64, RDX), JMP(end),
     LABEL(pos), MUL(TEMP), LABEL(end)]
  }

  /** Moves rdx to the destination and restores what was pushed. */
  function Restore(rd: nat): seq<Instr>
    requires rd < GUESTS
  {
    if rd == 1 then [MOV(W64, RAX, RDX), POP(TEMP), POP(RDX), DISCARD]
    else if rd == 2 then [MOV(W64, TEMP, RDX), DISCARD, POP(RDX), POP(RAX)]
    else if rd == 4 then [POP(TEMP), DISCARD, POP(RAX)]
    else (if rd != 0 then [MOV(W64, R(rd), RDX)] else []) + [POP(TEMP), POP(RDX), POP(RAX)]
  }

  function MulUpperSUCode(ra: nat, rb: nat, rd: nat, pos: nat, end: nat): seq<Instr>
    requires ra < GUESTS && rb < GUESTS && rd < GUESTS
  {
    MixedProduct(ra, rb, pos, end) + Restore(rd)
  }

  /** rdx holds v, the three pushed registers are on the stack, every other register is as it was. */
  ghost predicate Pushed(c: Cpu, c': Cpu)
  {
    c'.stack == [c.regs[TEMP], c.regs[RDX], c.regs[RAX]] + c.stack && c'.host == c.host
    && forall r: Reg :: r != RAX && r != RDX && r != TEMP ==> c'.regs[r] == c.regs[r]
  }

  /** For a negative first operand: the high half of the negated product is -(hi + (lo != 0)). */
  lemma NegatedHigh(m: nat, b: nat)
    ensures var hi, lo := m * b / TWO64, m * b % TWO64;
            (-(m as int) * b) / TWO64 == -(hi + (if lo != 0 then 1 else 0))
  {
    var p := m * b;
    assert -(m as int) * b == -p;
    var hi, lo := p / TWO64, p % TWO64;
    if lo == 0 {
      DivModUnique(-p, TWO64, -hi, 0);
    } else {
      DivModUnique(-p, TWO64, -(hi + 1), TWO64 - lo);
    }
  }

  lemma PushesRun(code: seq<Instr>, c: Cpu)
    requires |code| > 3 && code[0] == PUSH(RAX) && code[1] == PUSH(RDX) && code[2] == PUSH(TEMP)
    ensures Run(code, 0, c)
         == Run(code, 3, c.(stack := [c.regs[TEMP], c.regs[RDX], c.regs[RAX]] + c.stack))
  {
    hide Run;
    var c1 := c.(stack := [c.regs[RAX]] + c.stack);
    var c2 := c1.(stack := [c.regs[RDX]] + c1.stack);
    var c3 := c2.(stack := [c.regs[TEMP]] + c2.stack);
    RunStep(code, 0, c, c1);
    RunStep(code, 1, c1, c2);
    RunStep(code, 2, c2, c3);
    assert c3.stack == [c.regs[TEMP], c.regs[RDX], c.regs[RAX]] + c.stack;
  }

  /** The operands in rcx and rax, and the flags of testing the first. */
  function Operands(c: Cpu, a: word, b: word): Cpu
  {
    Set(Set(c, TEMP, a), RAX, b).(flags := Some(TestFlags(a)))
  }

  lemma OperandsRun(code: seq<Instr>, c: Cpu, ra: nat, rb: nat)
    requires ra < GUESTS && rb < GUESTS && |code| > 6
    requires code[3] == MOV(W64, TEMP, R(ra)) && code[4] == MOV(W64, RAX, R(rb)) && code[5] == TEST(TEMP, TEMP)
    ensures Run(code, 3, c) == Run(code, 6, Operands(c, Guest(c)[ra], Guest(c)[rb]))
  {
    hide Run, R, Guest, Bitwise, Pow2;
    Pow2Values();
    GuestAt(c, ra);
    GuestAt(c, rb);
    var a, b := Get(c, R(ra)), Get(c, R(rb));
    AndSelf(a, 64);
    var c1 := Set(c, TEMP, a);
    var c2 := Set(c1, RAX, b);
    var cs := [c, c1, c2, Operands(c, a, b)];
    assert PassesFrom(code, 3, cs);
    SegmentRun(code, 3, cs);
  }

  lemma {:induction false} FindLabelAt(code: seq<Instr>, pc: nat, k: nat, name: nat)
    requires pc <= k < |code| && code[k] == LABEL(name)
    requires forall i :: pc <= i < k ==> code[i] != LABEL(name)
    ensures FindLabel(code, pc, name) == k
    decreases k - pc
  {
    if pc < k {
      FindLabelAt(code, pc + 1, k, name);
    }
  }

  lemma JumpRuns(code: seq<Instr>, pc: nat, k: nat, c: Cpu)
    requires pc < k < |code|
    requires code[pc].JMP? || (code[pc].JCC? && c.flags.Some? && Holds(code[pc].cond, c.flags.value))
    requires code[k] == LABEL(code[pc].target)
    requires forall i :: pc < i < k ==> code[i] != LABEL(code[pc].target)
    ensures Run(code, pc, c) == Run(code, k + 1, c)
  {
    hide Holds, Do;
    FindLabelAt(code, pc + 1, k, code[pc].target);
    assert Run(code, pc, c) == Run(code, k, c);
    RunLabel(code, k, c);
  }

  lemma RunLabel(code: seq<Instr>, k: nat, c: Cpu)
    requires k < |code| && code[k].LABEL?
    ensures Run(code, k, c) == Run(code, k + 1, c)
  {
    hide Run;
    RunStep(code, k, c, c);
  }

  /** The negated high half, rounded away from zero when the low half is not zero, is the floor. */
  lemma NegatedIsFloor(a: word, b: word)
    requires a >= TWO63
    ensures var hi, lo := HighUU(b, TWO64 - a), U64(b as int * (TWO64 - a));
            U64(-(U64(hi + B2I(lo != 0)) as int)) == HighSU(a, b)
  {
    var m := TWO64 - a;
    var p := b as int * m;
    var hi, lo := p / TWO64, p % TWO64;
    HighBound(b, m);
    NegatedHigh(m, b);
    assert m * b == p by { MulCommutes(m, b); }
    assert S64(a) == -(m as int);
    WrapTwice(hi + B2I(lo != 0));
  }

  lemma MulCommutes(a: int, b: int)
    ensures a * b == b * a
  {}

  lemma WrapTwice(x: nat)
    ensures U64(-(U64(x) as int)) == U64(-(x as int))
  {}

  /** Only the scratch registers rax, rdx and rcx change. */
  ghost predicate OnlyScratch(c: Cpu, c': Cpu)
  {
    c'.stack == c.stack && c'.host == c.host
    && forall r: Reg :: r != RAX && r != RDX && r != TEMP ==> c'.regs[r] == c.regs[r]
  }

  lemma NegTemp(c: Cpu)
    requires c.regs[TEMP] >= TWO63
    ensures Do(NEG(W64, TEMP), c) == Some(SetClobber(c, TEMP, TWO64 - c.regs[TEMP]))
  {}

  lemma NegateAndMultiply(code: seq<Instr>, c: Cpu) returns (c': Cpu)
    requires |code| > 9 && code[7] == NEG(W64, TEMP) && code[8] == MUL(TEMP)
    requires c.regs[TEMP] >= TWO63
    ensures Run(code, 7, c) == Run(code, 9, c') && OnlyScratch(c, c')
    ensures var m := TWO64 - c.regs[TEMP];
            c'.regs[RAX] == U64(c.regs[RAX] as int * m) && c'.regs[RDX] == HighUU(c.regs[RAX], m)
  {
    hide Run, HighUU, U64;
    var m: word := TWO64 - c.regs[TEMP];
    var c1 := SetClobber(c, TEMP, m);
    NegTemp(c);
    hide Do;
    RunStep(code, 7, c, c1);
    c' := NextMul(code, 8, c1);
  }

  lemma NextMul(code: seq<Instr>, pc: nat, c: Cpu) returns (c': Cpu)
    requires pc < |code| && code[pc] == MUL(TEMP)
    ensures Run(code, pc, c) == Run(code, pc + 1, c') && OnlyScratch(c, c')
    ensures c'.regs[RAX] == U64(c.regs[RAX] as int * c.regs[TEMP])
    ensures c'.regs[RDX] == HighUU(c.regs[RAX], c.regs[TEMP])
  {
    hide Run, HighUU, U64;
    var a, b := c.regs[RAX], c.regs[TEMP];
    HighBound(a, b);
    c' := SetClobber(Set(c, RAX, U64(a as int * b)), RDX, HighUU(a, b));
    RunStep(code, pc, c, c');
  }

  lemma CarryAndNegate(code: seq<Instr>, c: Cpu) returns (c': Cpu)
    requires |code| > 14 && code[9] == MOVI(TEMP, 0) && code[10] == TEST(RAX, RAX)
    requires code[11] == SETCC(NotEqual, TEMP) && code[12] == ADD(W64, RDX, TEMP) && code[13] == NEG(W64, RDX)
    ensures Run(code, 9, c) == Run(code, 14, c') && OnlyScratch(c, c')
    ensures c'.regs[RDX] == U64(-(U64(c.regs[RDX] + B2I(c.regs[RAX] != 0)) as int))
  {
    hide Run, U64, Do;
    var lo, hi := c.regs[RAX], c.regs[RDX];
    var c1 := Set(c, TEMP, 0);
    var c2 := c1.(flags := Some(TestFlags(lo)));
    var c3 := Set(c2, TEMP, B2I(lo != 0));
    CarrySteps(c, c1, c2);
    RunStep(code, 9, c, c1);
    RunStep(code, 10, c1, c2);
    RunStep(code, 11, c2, c3);
    var c4 := SetClobber(c3, RDX, U64(hi as int + B2I(lo != 0)));
    c' := SetClobber(c4, RDX, U64(-(Get(c4, RDX) as int)));
    NegateSteps(c3, c4);
    RunStep(code, 12, c3, c4);
    RunStep(code, 13, c4, c');
  }

  lemma CarrySteps(c: Cpu, c1: Cpu, c2: Cpu)
    requires c1 == Set(c, TEMP, 0) && c2 == c1.(flags := Some(TestFlags(c.regs[RAX])))
    ensures Do(MOVI(TEMP, 0), c) == Some(c1) && Do(TEST(RAX, RAX), c1) == Some(c2)
    ensures Do(SETCC(NotEqual, TEMP), c2) == Some(Set(c2, TEMP, B2I(c.regs[RAX] != 0)))
  {
    hide Bitwise, Pow2;
    Pow2Values();
    AndSelf(c.regs[RAX], 64);
  }

  lemma NegateSteps(c3: Cpu, c4: Cpu)
    ensures Do(ADD(W64, RDX, TEMP), c3) == Some(SetClobber(c3, RDX, U64(Get(c3, RDX) + Get(c3, TEMP))))
    ensures Do(NEG(W64, RDX), c4) == Some(SetClobber(c4, RDX, U64(-(Get(c4, RDX) as int))))
  {}

  /** From the operands to the high product in rdx, when the first operand is negative. */
  lemma NegativeRuns(code: seq<Instr>, c: Cpu, ra: nat, rb: nat, pos: nat, end: nat) returns (c': Cpu)
    requires ra < GUESTS && rb < GUESTS && pos != end && code == MixedProduct(ra, rb, pos, end)
    requires c.regs[TEMP] >= TWO63
    ensures Run(code, 7, c) == Fall(c') && OnlyScratch(c, c')
    ensures c'.regs[RDX] == HighSU(c.regs[TEMP], c.regs[RAX])
  {
    hide Run, R, HighUU, HighSU, U64;
    NegatedIsFloor(c.regs[TEMP], c.regs[RAX]);
    var c1 := NegateAndMultiply(code, c);
    c' := CarryAndNegate(code, c1);
    JumpRuns(code, 14, 17, c');
    RunEnd(code, c');
  }

  lemma PositiveRuns(code: seq<Instr>, c: Cpu, ra: nat, rb: nat, pos: nat, end: nat) returns (c': Cpu)
    requires ra < GUESTS && rb < GUESTS && pos != end && code == MixedProduct(ra, rb, pos, end)
    requires c.regs[TEMP] < TWO63
    ensures Run(code, 16, c) == Fall(c') && OnlyScratch(c, c')
    ensures c'.regs[RDX] == HighSU(c.regs[TEMP], c.regs[RAX])
  {
    hide Run, R;
    var a, b := c.regs[TEMP], c.regs[RAX];
    c' := NextMul(code, 16, c);
    RunLabel(code, 17, c');
    RunEnd(code, c');
    HighBound(b, a);
    MulCommutes(a, b);
  }

  lemma MixedProductRuns(ra: nat, rb: nat, pos: nat, end: nat, c: Cpu) returns (c': Cpu)
    requires ra < GUESTS && rb < GUESTS && pos != end
    ensures Run(MixedProduct(ra, rb, pos, end), 0, c) == Fall(c') && Pushed(c, c')
    ensures c'.regs[RDX] == HighSU(Guest(c)[ra], Guest(c)[rb])
  {
    hide Run, R, Guest, HighSU;
    var code := MixedProduct(ra, rb, pos, end);
    var p := c.(stack := [c.regs[TEMP], c.regs[RDX], c.regs[RAX]] + c.stack);
    PushesRun(code, c);
    GuestOfRegs(c, p);
    OperandsRun(code, p, ra, rb);
    var o := Operands(p, Guest(c)[ra], Guest(c)[rb]);
    if Guest(c)[ra] >= TWO63 {
      RunNotTaken(code, 6, o);
      c' := NegativeRuns(code, o, ra, rb, pos, end);
    } else {
      JumpRuns(code, 6, 15, o);
      c' := PositiveRuns(code, o, ra, rb, pos, end);
    }
  }

  lemma RunNotTaken(code: seq<Instr>, pc: nat, c: Cpu)
    requires pc < |code| && code[pc].JCC? && c.flags.Some? && !Holds(code[pc].cond, c.flags.value)
    ensures Run(code, pc, c) == Run(code, pc + 1, c)
  {
    hide Do, Holds;
  }

  function Popped(c: Cpu, d: Reg): Cpu
    requires c.stack != []
  {
    Set(c, d, c.stack[0]).(stack := c.stack[1..])
  }

  function Dropped(c: Cpu): Cpu
    requires c.stack != []
  {
    c.(flags := None, stack := c.stack[1..])
  }

  /** The stack is as it was, and the destination, where it gets the result, holds it. */
  ghost predicate Restored(rd: nat, c: Cpu, c': Cpu, e: Cpu)
    requires rd < GUESTS
  {
    e.stack == c.stack && e.host == c.host
    && forall r: Reg :: r != TEMP ==>
         e.regs[r] == if rd != 0 && rd != 2 && r == R(rd) then c'.regs[RDX] else c.regs[r]
  }

  lemma MovStep(c: Cpu, d: Reg, s: Reg)
    ensures StepsTo(MOV(W64, d, s), c, Set(c, d, Get(c, s)))
  {}

  lemma PopStep(c: Cpu, d: Reg)
    requires c.stack != []
    ensures StepsTo(POP(d), c, Popped(c, d))
  {}

  lemma DropStep(c: Cpu)
    requires c.stack != []
    ensures StepsTo(DISCARD, c, Dropped(c))
  {}

  lemma RestoreToRax(rd: nat, c: Cpu, c': Cpu) returns (e: Cpu)
    requires rd == 1 && Pushed(c, c')
    ensures Run(Restore(rd), 0, c') == Fall(e) && Restored(rd, c, c', e)
  {
    hide Run, Do, StepsTo;
    var v := c'.regs[RDX];
    var code := Restore(rd);
    var c1 := Set(c', RAX, v);
    MovStep(c', RAX, RDX);
    var c2 := Popped(c1, TEMP);
    PopStep(c1, TEMP);
    var c3 := Popped(c2, RDX);
    PopStep(c2, RDX);
    e := Dropped(c3);
    DropStep(c3);
    FourSteps(code, c', c1, c2, c3, e);
  }

  lemma RestoreToRcx(rd: nat, c: Cpu, c': Cpu) returns (e: Cpu)
    requires rd == 2 && Pushed(c, c')
    ensures Run(Restore(rd), 0, c') == Fall(e) && Restored(rd, c, c', e)
  {
    hide Run, Do, StepsTo;
    var v := c'.regs[RDX];
    var code := Restore(rd);
    var c1 := Set(c', TEMP, v);
    MovStep(c', TEMP, RDX);
    var c2 := Dropped(c1);
    DropStep(c1);
    var c3 := Popped(c2, RDX);
    PopStep(c2, RDX);
    e := Popped(c3, RAX);
    PopStep(c3, RAX);
    FourSteps(code, c', c1, c2, c3, e);
  }

  lemma RestoreToRdx(rd: nat, c: Cpu, c': Cpu) returns (e: Cpu)
    requires rd == 4 && Pushed(c, c')
    ensures Run(Restore(rd), 0, c') == Fall(e) && Restored(rd, c, c', e)
  {
    hide Run, Do, StepsTo;
    var code := Restore(rd);
    var c1 := Popped(c', TEMP);
    PopStep(c', TEMP);
    var c2 := Dropped(c1);
    DropStep(c1);
    e := Popped(c2, RAX);
    PopStep(c2, RAX);
    ThreeSteps(code, c', c1, c2, e);
  }

  lemma RestoreNowhere(rd: nat, c: Cpu, c': Cpu) returns (e: Cpu)
    requires rd == 0 && Pushed(c, c')
    ensures Run(Restore(rd), 0, c') == Fall(e) && Restored(rd, c, c', e)
  {
    hide Run, Do, StepsTo;
    var code := Restore(rd);
    var c1 := Popped(c', TEMP);
    PopStep(c', TEMP);
    var c2 := Popped(c1, RDX);
    PopStep(c1, RDX);
    e := Popped(c2, RAX);
    PopStep(c2, RAX);
    assert code == [POP(TEMP), POP(RDX), POP(RAX)];
    ThreeSteps(code, c', c1, c2, e);
  }

  lemma RestoreElsewhere(rd: nat, c: Cpu, c': Cpu) returns (e: Cpu)
    requires (rd == 3 || 5 <= rd < GUESTS) && Pushed(c, c')
    ensures Run(Restore(rd), 0, c') == Fall(e) && Restored(rd, c, c', e)
  {
    hide Run, Do, StepsTo;
    var v := c'.regs[RDX];
    var code := Restore(rd);
    var c1 := Set(c', R(rd), v);
    MovStep(c', R(rd), RDX);
    var c2 := Popped(c1, TEMP);
    PopStep(c1, TEMP);
    var c3 := Popped(c2, RDX);
    PopStep(c2, RDX);
    e := Popped(c3, RAX);
    PopStep(c3, RAX);
    assert code == [MOV(W64, R(rd), RDX), POP(TEMP), POP(RDX), POP(RAX)];
    FourSteps(code, c', c1, c2, c3, e);
  }

  lemma RestoreStates(rd: nat, c: Cpu, c': Cpu) returns (e: Cpu)
    requires rd < GUESTS && Pushed(c, c')
    ensures Run(Restore(rd), 0, c') == Fall(e) && Restored(rd, c, c', e)
  {
    hide Run, Restore, Pushed, Restored;
    if rd == 1 {
      e := RestoreToRax(rd, c, c');
    } else if rd == 2 {
      e := RestoreToRcx(rd, c, c');
    } else if rd == 4 {
      e := RestoreToRdx(rd, c, c');
    } else if rd == 0 {
      e := RestoreNowhere(rd, c, c');
    } else {
      e := RestoreElsewhere(rd, c, c');
    }
  }

  lemma ThreeSteps(code: seq<Instr>, c0: Cpu, c1: Cpu, c2: Cpu, c3: Cpu)
    requires |code| == 3 && StepsTo(code[0], c0, c1) && StepsTo(code[1], c1, c2) && StepsTo(code[2], c2, c3)
    ensures Run(code, 0, c0) == Fall(c3)
  {
    hide Run, Do;
    RunStep(code, 0, c0, c1);
    RunStep(code, 1, c1, c2);
    RunStep(code, 2, c2, c3);
    RunEnd(code, c3);
  }

  lemma FourSteps(code: seq<Instr>, c0: Cpu, c1: Cpu, c2: Cpu, c3: Cpu, c4: Cpu)
    requires |code| == 4 && StepsTo(code[0], c0, c1) && StepsTo(code[1], c1, c2)
    requires StepsTo(code[2], c2, c3) && StepsTo(code[3], c3, c4)
    ensures Run(code, 0, c0) == Fall(c4)
  {
    hide Run, Do;
    RunStep(code, 0, c0, c1);
    RunStep(code, 1, c1, c2);
    RunStep(code, 2, c2, c3);
    RunStep(code, 3, c3, c4);
    RunEnd(code, c4);
  }

  /** What the mixed product leaves: the stack is balanced for every destination, and every
      destination except 0 and 2 receives the signed-by-unsigned high product. */
  lemma MulUpperSURuns(ra: nat, rb: nat, rd: nat, pos: nat, end: nat, c: Cpu)
    requires ra < GUESTS && rb < GUESTS && rd < GUESTS && pos != end
    ensures var e := Run(MulUpperSUCode(ra, rb, rd, pos, end), 0, c);
            e.Fall? && SameContext(c, e.c)
            && Guest(e.c) == if rd == 0 || rd == 2 then Guest(c)
                             else Guest(c)[rd := HighSU(Guest(c)[ra], Guest(c)[rb])]
  {
    hide Run, HighSU, MixedProduct, Restore;
    var c' := MixedProductRuns(ra, rb, pos, end, c);
    var e := RestoreStates(rd, c, c');
    RunConcat(MixedProduct(ra, rb, pos, end), Restore(rd), 0, c, c');
    GuestFrom(rd, c, c'.regs[RDX], e);
  }

  lemma GuestFrom(rd: nat, c: Cpu, v: word, e: Cpu)
    requires rd < GUESTS
    requires forall r: Reg :: r != TEMP ==>
              e.regs[r] == if rd != 0 && rd != 2 && r == R(rd) then v else c.regs[r]
    ensures e.regs[R15] == c.regs[R15] && e.regs[4] == c.regs[4]
    ensures Guest(e) == if rd == 0 || rd == 2 then Guest(c) else Guest(c)[rd := v]
  {
    forall i | 0 <= i < GUESTS
      ensures Guest(e)[i] == if i == rd && rd != 0 && rd != 2 then v else Guest(c)[i]
    {
      assert GuestOf(R(i)) == i && GuestOf(R(rd)) == rd;
    }
  }

  /** The destinations for which the mixed product is compiled correctly are all but 0 and 2. */
  lemma MulUpperSUExactly(ra: nat, rb: nat, rd: nat, pos: nat, end: nat)
    requires ra < GUESTS && rb < GUESTS && rd < GUESTS && pos != end
    ensures (forall c: Cpu :: Yields(MulUpperSUCode(ra, rb, rd, pos, end), c, rd, HighSU(Guest(c)[ra], Guest(c)[rb])))
         <==> rd != 0 && rd != 2
  {
    hide Run, HighSU, MulUpperSUCode, R, Guest;
    var code := MulUpperSUCode(ra, rb, rd, pos, end);
    if rd != 0 && rd != 2 {
      forall c: Cpu
        ensures Yields(code, c, rd, HighSU(Guest(c)[ra], Guest(c)[rb]))
      {
        MulUpperSURuns(ra, rb, rd, pos, end, c);
        HighFits(Guest(c)[ra], Guest(c)[rb]);
      }
    } else {
      var c := Witness();
      MulUpperSURuns(ra, rb, rd, pos, end, c);
      assert HighSU(TWO63 - 1, TWO63 - 1) == TWO63 / 2 - 1 by { MaxProduct(); }
      assert Guest(c)[rd] == TWO63 - 1;
      assert !Yields(code, c, rd, HighSU(Guest(c)[ra], Guest(c)[rb]));
    }
  }

  lemma HighFits(a: word, b: word)
    ensures HighSU(a, b) < TWO64
  {}

  lemma MaxProduct()
    ensures HighSU(TWO63 - 1, TWO63 - 1) == TWO63 / 2 - 1
  {}

  /** A state whose guest registers all hold 2^63 - 1. */
  lemma Witness() returns (c: Cpu)
    ensures forall i :: 0 <= i < GUESTS ==> Guest(c)[i] == TWO63 - 1
  {
    c := CpuData(seq(16, _ => TWO63 - 1), None, [], map[]);
  }

  // ------------------------------------------------------------ all compiled operations

  /** The operations compiled correctly for every choice of registers: opcodes 190-191, 197-202,
      207-212 and 217-230. */
  predicate Compiled(op: Op3)
  {
    match op
    case Mul(w) => w == W64
    case DivU(_) => false case DivS(_) => false case RemU(_) => false case RemS(_) => false
    case MulUpperSS => false case MulUpperUU => false case MulUpperSU => false
    case SetLtU => false
    case _ => true
  }

  function Extend(w: Width, rd: nat): seq<Instr>
    requires rd < GUESTS
  {
    if w == W32 then [MOVSXD(R(rd), R(rd))] else []
  }

  function CodeOf(op: Op3, ra: nat, rb: nat, rd: nat): seq<Instr>
    requires Compiled(op) && ra < GUESTS && rb < GUESTS && rd < GUESTS
  {
    match op
    case Add(w) => CommuteCode(AddOp(w), ra, rb, rd) + Extend(w, rd)
    case Sub(w) => SubCode(w, ra, rb, rd) + Extend(w, rd)
    case Mul(_) => CommuteCode(MulOp, ra, rb, rd)
    case ShloL(w) => ShiftCode(SHL, w, ra, rb, rd) + Extend(w, rd)
    case ShloR(w) => ShiftCode(SHR, w, ra, rb, rd) + Extend(w, rd)
    case SharR(w) => ShiftCode(SAR, w, ra, rb, rd) + Extend(w, rd)
    case RotLeft(w) => ShiftCode(ROL, w, ra, rb, rd) + Extend(w, rd)
    case RotRight(w) => ShiftCode(ROR, w, ra, rb, rd) + Extend(w, rd)
    case Logic(l) =>
      (match l
       case AndInv => InvertedCode(And, ra, rb, rd)
       case OrInv => InvertedCode(Or, ra, rb, rd)
       case Xnor => XnorCode(ra, rb, rd)
       case _ => CommuteCode(LogicOp(l), ra, rb, rd))
    case SetLtS => SetLtSCode(ra, rb, rd)
    case CmovIz => CmovCode(Equal, ra, rb, rd)
    case CmovNz => CmovCode(NotEqual, ra, rb, rd)
    case Max => ExtremeCode(Less, ra, rb, rd)
    case MaxU => ExtremeCode(Below, ra, rb, rd)
    case Min => ExtremeCode(Greater, ra, rb, rd)
    case MinU => ExtremeCode(Above, ra, rb, rd)
  }

  lemma ExtendYields(w: Width, code: seq<Instr>, c: Cpu, rd: nat, v: nat)
    requires rd < GUESTS && Yields(code, c, rd, v)
    ensures Yields(code + Extend(w, rd), c, rd, Widened(v, w))
  {
    hide Yields;
    if w == W32 {
      SignExtends(code, c, rd, v);
    } else {
      assert code + [] == code;
    }
  }

  lemma ArithmeticValue(w: Width, a: word, b: word)
    ensures Widened(Truncate(a as int + b, w), w) == Value3(Add(w), a, b, 0)
    ensures Widened(Truncate(a as int - b, w), w) == Value3(Sub(w), a, b, 0)
  {}

  lemma ArithmeticComputes(op: Op3, ra: nat, rb: nat, rd: nat, c: Cpu)
    requires (op.Add? || op.Sub? || op == Mul(W64)) && ra < GUESTS && rb < GUESTS && rd < GUESTS
    ensures Yields(CodeOf(op, ra, rb, rd), c, rd, Value3(op, Guest(c)[ra], Guest(c)[rb], Guest(c)[rd]))
  {
    hide Yields, Guest, CommuteCode, SubCode, Extend, Widened, Truncate, SX32, U64;
    var a, b := Guest(c)[ra], Guest(c)[rb];
    ArithmeticValue(op.w, a, b);
    match op {
      case Add(w) =>
        CommuteYields(AddOp(w), ra, rb, rd, c);
        ExtendYields(w, CommuteCode(AddOp(w), ra, rb, rd), c, rd, Truncate(a as int + b, w));
      case Sub(w) =>
        SubYields(w, ra, rb, rd, c);
        ExtendYields(w, SubCode(w, ra, rb, rd), c, rd, Truncate(a as int - b, w));
      case Mul(_) =>
        CommuteYields(MulOp, ra, rb, rd, c);
    }
  }

  function KindOf(op: Op3): Option<ShiftKind>
  {
    match op
    case ShloL(_) => Some(SHL)
    case ShloR(_) => Some(SHR)
    case SharR(_) => Some(SAR)
    case RotLeft(_) => Some(ROL)
    case RotRight(_) => Some(ROR)
    case _ => None
  }

  lemma ShiftComputes(op: Op3, ra: nat, rb: nat, rd: nat, c: Cpu)
    requires KindOf(op).Some? && ra < GUESTS && rb < GUESTS && rd < GUESTS
    ensures Yields(CodeOf(op, ra, rb, rd), c, rd, Value3(op, Guest(c)[ra], Guest(c)[rb], Guest(c)[rd]))
  {
    hide Yields, Guest, ShiftCode, Extend, Masked, Widened;
    var kind, w := KindOf(op).value, op.w;
    MaskedYields(kind, w, ra, rb, rd, c);
    ShiftedIsValue(kind, w, Guest(c)[ra], Guest(c)[rb]);
    ExtendYields(w, ShiftCode(kind, w, ra, rb, rd), c, rd, Masked(kind, w, Guest(c)[ra], Guest(c)[rb]));
  }

  lemma MaskedYields(kind: ShiftKind, w: Width, ra: nat, rb: nat, rd: nat, c: Cpu)
    requires ra < GUESTS && rb < GUESTS && rd < GUESTS
    ensures Yields(ShiftCode(kind, w, ra, rb, rd), c, rd, Masked(kind, w, Guest(c)[ra], Guest(c)[rb]))
  {
    hide Yields, Guest, ShiftCode, Shifted;
    ShiftYields(kind, w, ra, rb, rd, c);
  }

  lemma LogicComputes(l: BitOp, ra: nat, rb: nat, rd: nat, c: Cpu)
    requires ra < GUESTS && rb < GUESTS && rd < GUESTS
    ensures Yields(CodeOf(Logic(l), ra, rb, rd), c, rd, Bitwise(l, Guest(c)[ra], Guest(c)[rb], 64))
  {
    hide Yields, Guest, CommuteCode, InvertedCode, XnorCode, Bitwise;
    InvertedValue(Guest(c)[ra], Guest(c)[rb]);
    match l {
      case AndInv => InvertedYields(And, ra, rb, rd, c);
      case OrInv => InvertedYields(Or, ra, rb, rd, c);
      case Xnor => XnorYields(ra, rb, rd, c);
      case _ => CommuteYields(LogicOp(l), ra, rb, rd, c);
    }
  }

  lemma SelectionComputes(op: Op3, ra: nat, rb: nat, rd: nat, c: Cpu)
    requires op.SetLtS? || op.CmovIz? || op.CmovNz? || op.Max? || op.MaxU? || op.Min? || op.MinU?
    requires ra < GUESTS && rb < GUESTS && rd < GUESTS
    ensures Yields(CodeOf(op, ra, rb, rd), c, rd, Value3(op, Guest(c)[ra], Guest(c)[rb], Guest(c)[rd]))
  {
    hide Yields, Guest, CodeOf, Value3;
    if op.SetLtS? || op.CmovIz? || op.CmovNz? {
      ChoiceComputes(op, ra, rb, rd, c);
    } else {
      ExtremeComputes(op, ra, rb, rd, c);
    }
  }

  lemma ChoiceComputes(op: Op3, ra: nat, rb: nat, rd: nat, c: Cpu)
    requires op.SetLtS? || op.CmovIz? || op.CmovNz?
    requires ra < GUESTS && rb < GUESTS && rd < GUESTS
    ensures Yields(CodeOf(op, ra, rb, rd), c, rd, Value3(op, Guest(c)[ra], Guest(c)[rb], Guest(c)[rd]))
  {
    hide Yields, Guest, SetLtSCode, CmovCode, CmpFlags, Holds;
    match op {
      case SetLtS => SetLtSYields(ra, rb, rd, c);
      case CmovIz => CmovYields(Equal, ra, rb, rd, c);
      case CmovNz => CmovYields(NotEqual, ra, rb, rd, c);
    }
  }

  lemma ExtremeComputes(op: Op3, ra: nat, rb: nat, rd: nat, c: Cpu)
    requires op.Max? || op.MaxU? || op.Min? || op.MinU?
    requires ra < GUESTS && rb < GUESTS && rd < GUESTS
    ensures Yields(CodeOf(op, ra, rb, rd), c, rd, Value3(op, Guest(c)[ra], Guest(c)[rb], Guest(c)[rd]))
  {
    hide Yields, Guest, ExtremeCode, CmpFlags, Holds;
    CompareMeans(Guest(c)[ra], Guest(c)[rb]);
    match op {
      case Max => ExtremeYields(Less, ra, rb, rd, c);
      case MaxU => ExtremeYields(Below, ra, rb, rd, c);
      case Min => ExtremeYields(Greater, ra, rb, rd, c);
      case MinU => ExtremeYields(Above, ra, rb, rd, c);
    }
  }

  /** For every compiled operation and every choice of registers, equal ones included, the x86 code
      leaves the instruction set's value in rd and every other guest register unchanged. */
  lemma CompiledComputes(op: Op3, ra: nat, rb: nat, rd: nat, c: Cpu)
    requires Compiled(op) && ra < GUESTS && rb < GUESTS && rd < GUESTS
    ensures Yields(CodeOf(op, ra, rb, rd), c, rd, Value3(op, Guest(c)[ra], Guest(c)[rb], Guest(c)[rd]))
  {
    if op.Add? || op.Sub? || op.Mul? {
      ArithmeticComputes(op, ra, rb, rd, c);
    } else if KindOf(op).Some? {
      ShiftComputes(op, ra, rb, rd, c);
    } else if op.Logic? {
      LogicComputes(op.op, ra, rb, rd, c);
    } else {
      SelectionComputes(op, ra, rb, rd, c);
    }
  }

  // ------------------------------------------------------------ straight-line guest code

  /** A decoded three-register instruction. */
  datatype Inst3 = Inst3(op: Op3, ra: nat, rb: nat, rd: nat)

  predicate Translates(i: Inst3)
  {
    Compiled(i.op) && i.ra < GUESTS && i.rb < GUESTS && i.rd < GUESTS
  }

  /** Guest registers after running the instructions one by one. */
  ghost function Interpreted(prog: seq<Inst3>, g: seq<word>): (r: seq<word>)
    requires |g| == GUESTS && forall i <- prog :: Translates(i)
    ensures |r| == GUESTS
    decreases |prog|
  {
    if prog == [] then g
    else
      assert Translates(prog[0]);
      var i := prog[0];
      CompiledInRange(i.op, g[i.ra], g[i.rb], g[i.rd]);
      Interpreted(prog[1..], g[i.rd := Value3(i.op, g[i.ra], g[i.rb], g[i.rd])])
  }

  lemma CompiledInRange(op: Op3, a: word, b: word, d: word)
    requires Compiled(op)
    ensures !DivisionRaises(op, b) && Value3(op, a, b, d) < TWO64
  {
    Value3InRange(op, a, b, d);
  }

  // ------------------------------------------------------------ the assembler

  class Assembler {
    var code: seq<Instr>
    var labels: nat

    constructor ()
      ensures code == [] && labels == 0
    {
      code, labels := [], 0;
    }

    method ForwardDeclareLabel() returns (l: nat)
      modifies this`labels
      ensures l == old(labels) && labels == old(labels) + 1
    {
      l := labels;
      labels := labels + 1;
    }

    method Emit(i: Instr)
      modifies this`code
      ensures code == old(code) + [i]
    {
      code := code + [i];
    }

    /** add, mul_64, and, xor and or: the destination may already hold either operand. */
    method EmitCommuting(o: Arith, ra: nat, rb: nat, rd: nat)
      requires ra < GUESTS && rb < GUESTS && rd < GUESTS
      modifies this`code
      ensures code == old(code) + CommuteCode(o, ra, rb, rd)
    {
      if rd == rb {
        Emit(ArithInstr(o, R(rd), R(ra)));
      } else if rd == ra {
        Emit(ArithInstr(o, R(rd), R(rb)));
      } else {
        Emit(MOV(ArithWidth(o), R(rd), R(ra)));
        Emit(ArithInstr(o, R(rd), R(rb)));
      }
    }

    method EmitSub(w: Width, ra: nat, rb: nat, rd: nat)
      requires ra < GUESTS && rb < GUESTS && rd < GUESTS
      modifies this`code
      ensures code == old(code) + SubCode(w, ra, rb, rd)
    {
      if ra == rd {
        Emit(SUB(w, R(rd), R(rb)));
      } else if rb == rd {
        Emit(NEG(w, R(rd)));
        Emit(ADD(w, R(rd), R(ra)));
      } else {
        Emit(MOV(w, R(rd), R(ra)));
        Emit(SUB(w, R(rd), R(rb)));
      }
    }

    method EmitShift(kind: ShiftKind, w: Width, ra: nat, rb: nat, rd: nat)
      requires ra < GUESTS && rb < GUESTS && rd < GUESTS
      modifies this`code
      ensures code == old(code) + ShiftCode(kind, w, ra, rb, rd)
    {
      if rb == rd && rb != ra {
        Emit(MOV(W64, TEMP, R(rb)));
        Emit(MOV(w, R(rd), R(ra)));
      } else {
        Emit(MOV(w, R(rd), R(ra)));
        Emit(MOV(W64, TEMP, R(rb)));
      }
      Emit(ANDI(TEMP, if w == W32 then 0x1F else 0x3F));
      Emit(SHIFT(kind, w, R(rd)));
    }

    method EmitInverted(op: BitOp, ra: nat, rb: nat, rd: nat)
      requires ra < GUESTS && rb < GUESTS && rd < GUESTS
      modifies this`code
      ensures code == old(code) + InvertedCode(op, ra, rb, rd)
    {
      if rb == rd && rb != ra {
        Emit(MOV(W64, TEMP, R(rb)));
        Emit(NOT(TEMP));
        Emit(MOV(W64, R(rd), R(ra)));
      } else if ra == rd {
        Emit(MOV(W64, TEMP, R(rb)));
        Emit(NOT(TEMP));
      } else {
        Emit(MOV(W64, R(rd), R(ra)));
        Emit(MOV(W64, TEMP, R(rb)));
        Emit(NOT(TEMP));
      }
      Emit(LOGIC(op, R(rd), TEMP));
    }

    method EmitExtreme(cond: Cond, ra: nat, rb: nat, rd: nat)
      requires ra < GUESTS && rb < GUESTS && rd < GUESTS
      modifies this`code
      ensures code == old(code) + ExtremeCode(cond, ra, rb, rd)
    {
      if rb == rd && ra != rb {
        Emit(MOV(W64, TEMP, R(rb)));
        Emit(CMP(R(ra), TEMP));
        Emit(MOV(W64, R(rd), R(ra)));
        Emit(CMOV(cond, R(rd), TEMP));
      } else {
        Emit(CMP(R(ra), R(rb)));
        Emit(MOV(W64, R(rd), R(ra)));
        Emit(CMOV(cond, R(rd), R(rb)));
      }
    }

    method EmitExtension(w: Width, rd: nat)
      requires rd < GUESTS
      modifies this`code
      ensures code == old(code) + Extend(w, rd)
    {
      if w == W32 {
        Emit(MOVSXD(R(rd), R(rd)));
      }
    }

    method EmitLogic(l: BitOp, ra: nat, rb: nat, rd: nat)
      requires ra < GUESTS && rb < GUESTS && rd < GUESTS
      modifies this`code
      ensures code == old(code) + CodeOf(Logic(l), ra, rb, rd)
    {
      match l {
        case AndInv => EmitInverted(And, ra, rb, rd);
        case OrInv => EmitInverted(Or, ra, rb, rd);
        case Xnor =>
          EmitCommuting(LogicOp(Xor), ra, rb, rd);
          Emit(NOT(R(rd)));
        case _ => EmitCommuting(LogicOp(l), ra, rb, rd);
      }
    }

    method EmitShiftOp(op: Op3, ra: nat, rb: nat, rd: nat)
      requires KindOf(op).Some? && ra < GUESTS && rb < GUESTS && rd < GUESTS
      modifies this`code
      ensures code == old(code) + CodeOf(op, ra, rb, rd)
    {
      hide ShiftCode, Extend, R;
      EmitShift(KindOf(op).value, op.w, ra, rb, rd);
      EmitExtension(op.w, rd);
    }

    method EmitSelection(op: Op3, ra: nat, rb: nat, rd: nat)
      requires op.SetLtS? || op.CmovIz? || op.CmovNz? || op.Max? || op.MaxU? || op.Min? || op.MinU?
      requires ra < GUESTS && rb < GUESTS && rd < GUESTS
      modifies this`code
      ensures code == old(code) + CodeOf(op, ra, rb, rd)
    {
      hide ExtremeCode, R;
      match op {
        case SetLtS =>
          Emit(CMP(R(ra), R(rb)));
          Emit(MOVI(R(rd), 0));
          Emit(SETCC(Less, R(rd)));
        case CmovIz =>
          Emit(TEST(R(rb), R(rb)));
          Emit(CMOV(Equal, R(rd), R(ra)));
        case CmovNz =>
          Emit(TEST(R(rb), R(rb)));
          Emit(CMOV(NotEqual, R(rd), R(ra)));
        case Max => EmitExtreme(Less, ra, rb, rd);
        case MaxU => EmitExtreme(Below, ra, rb, rd);
        case Min => EmitExtreme(Greater, ra, rb, rd);
        case MinU => EmitExtreme(Above, ra, rb, rd);
      }
    }

    /** The code of one three-register instruction. */
    method EmitOp(op: Op3, ra: nat, rb: nat, rd: nat)
      requires Compiled(op) && ra < GUESTS && rb < GUESTS && rd < GUESTS
      modifies this`code
      ensures code == old(code) + CodeOf(op, ra, rb, rd)
    {
      hide CommuteCode, SubCode, Extend, R;
      if op.Add? {
        EmitCommuting(AddOp(op.w), ra, rb, rd);
        EmitExtension(op.w, rd);
      } else if op.Sub? {
        EmitSub(op.w, ra, rb, rd);
        EmitExtension(op.w, rd);
      } else if op.Mul? {
        EmitCommuting(MulOp, ra, rb, rd);
      } else if op.Logic? {
        EmitLogic(op.op, ra, rb, rd);
      } else if KindOf(op).Some? {
        EmitShiftOp(op, ra, rb, rd);
      } else {
        EmitSelection(op, ra, rb, rd);
      }
    }

    method EmitMulUpperSU(ra: nat, rb: nat, rd: nat)
      requires ra < GUESTS && rb < GUESTS && rd < GUESTS
      modifies this
      ensures labels == old(labels) + 2
      ensures code == old(code) + MulUpperSUCode(ra, rb, rd, old(labels), old(labels) + 1)
    {
      hide MixedProduct, Restore;
      var pos, end := EmitOperands(ra, rb);
      EmitNegative(ra, rb, pos, end);
      EmitPositive(ra, rb, pos, end);
      assert MixedProduct(ra, rb, pos, end)[..7] + MixedProduct(ra, rb, pos, end)[7..15] + MixedProduct(ra, rb, pos, end)[15..]
          == MixedProduct(ra, rb, pos, end);
      EmitRestore(rd);
    }

    method EmitOperands(ra: nat, rb: nat) returns (pos: nat, end: nat)
      requires ra < GUESTS && rb < GUESTS
      modifies this
      ensures pos == old(labels) && end == old(labels) + 1 && labels == old(labels) + 2
      ensures code == old(code) + MixedProduct(ra, rb, pos, end)[..7]
    {
      Emit(PUSH(RAX));
      Emit(PUSH(RDX));
      Emit(PUSH(TEMP));
      Emit(MOV(W64, TEMP, R(ra)));
      Emit(MOV(W64, RAX, R(rb)));
      pos := ForwardDeclareLabel();
      end := ForwardDeclareLabel();
      Emit(TEST(TEMP, TEMP));
      Emit(JCC(NotSign, pos));
    }

    method EmitNegative(ra: nat, rb: nat, pos: nat, end: nat)
      requires ra < GUESTS && rb < GUESTS
      modifies this`code
      ensures code == old(code) + MixedProduct(ra, rb, pos, end)[7..15]
    {
      Emit(NEG(W64, TEMP));
      Emit(MUL(TEMP));
      Emit(MOVI(TEMP, 0));
      Emit(TEST(RAX, RAX));
      Emit(SETCC(NotEqual, TEMP));
      Emit(ADD(W64, RDX, TEMP));
      Emit(NEG(W64, RDX));
      Emit(JMP(end));
    }

    method EmitPositive(ra: nat, rb: nat, pos: nat, end: nat)
      requires ra < GUESTS && rb < GUESTS
      modifies this`code
      ensures code == old(code) + MixedProduct(ra, rb, pos, end)[15..]
    {
      Emit(LABEL(pos));
      Emit(MUL(TEMP));
      Emit(LABEL(end));
    }

    method EmitRestore(rd: nat)
      requires rd < GUESTS
      modifies this`code
      ensures code == old(code) + Restore(rd)
    {
      if rd == 1 {
        Emit(MOV(W64, RAX, RDX));
        Emit(POP(TEMP));
        Emit(POP(RDX));
        Emit(DISCARD);
      } else if rd == 2 {
        Emit(MOV(W64, TEMP, RDX));
        Emit(DISCARD);
        Emit(POP(RDX));
        Emit(POP(RAX));
      } else if rd == 4 {
        Emit(POP(TEMP));
        Emit(DISCARD);
        Emit(POP(RAX));
      } else {
        if rd != 0 {
          Emit(MOV(W64, R(rd), RDX));
        }
        Emit(POP(TEMP));
        Emit(POP(RDX));
        Emit(POP(RAX));
      }
    }
  }
}
