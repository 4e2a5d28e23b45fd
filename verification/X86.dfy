/** The x86-64 instructions the recompiler emits, as the instruction set reference (Intel SDM,
    volume 2) defines them. Flags are modelled after `cmp` and `test` only; every other
    flag-changing instruction leaves them unknown, and using unknown flags is `Stuck`. */
module X86 {
  import opened Words
  import opened Wrappers
  import opened Isa

  const RAX := 0
  const RCX := 1
  const RDX := 2
  const RBX := 3
  const RBP := 5
  const RSI := 6
  const RDI := 7
  const R15 := 15

  type Reg = r: nat | r < 16

  type dword = x: nat | x < TWO32

  datatype Flags = Flags(zf: bool, sf: bool, cf: bool, of: bool)

  /** Registers, flags, the stack from the top, and the 32-bit words of host memory that are mapped. */
  datatype CpuData = CpuData(regs: seq<word>, flags: Option<Flags>, stack: seq<word>, host: map<int, dword>)

  type Cpu = c: CpuData | |c.regs| == 16 
    witness CpuData([0, 0, 0, 0, 0, 0, 0, 0, 0, 0, 0, 0, 0, 0, 0, 0], None, [], map[])

  datatype Cond = Equal | NotEqual | Below | AboveOrEqual | Above | Less | Greater | Sign | NotSign

  datatype ShiftKind = SHL | SHR | SAR | ROL | ROR

  datatype Instr =
    | MOV(w: Width, dst: Reg, src: Reg)
    | MOVI(dst: Reg, imm: word)
    | MOVSXD(dst: Reg, src: Reg)
    | ADD(w: Width, dst: Reg, src: Reg)
    | ADDI(dst: Reg, imm: word)
    | SUB(w: Width, dst: Reg, src: Reg)
    | SUBI(dst: Reg, imm: word)
    | SUBMEM32(base: Reg, disp: int, imm32: nat)
    | NEG(w: Width, dst: Reg)
    | DEC(dst: Reg)
    | IMUL(dst: Reg, src: Reg)
    | MUL(src: Reg)
    | LOGIC(op: BitOp, dst: Reg, src: Reg)
    | ANDI(dst: Reg, mask: nat)
    | NOT(dst: Reg)
    | SHIFT(kind: ShiftKind, w: Width, dst: Reg)
    | SHR1(dst: Reg)
    | CMP(a: Reg, b: Reg)
    | CMPI32(a: Reg, imm32: nat)
    | TEST(a: Reg, b: Reg)
    | TEST32(a: Reg, b: Reg)
    | TESTI32(a: Reg, imm32: nat)
    | CMOV(cond: Cond, dst: Reg, src: Reg)
    | SETCC(cond: Cond, dst: Reg)
    | PUSH(src: Reg)
    | POP(dst: Reg)
    | DISCARD
    | JCC(cond: Cond, target: nat)
    | JCCINTO(cond: Cond)
    | JMP(target: nat)
    | LABEL(name: nat)
    | JMPMEM(base: Reg, index: Reg, disp: int)

  function Holds(cond: Cond, f: Flags): bool
  {
    match cond
    case Equal => f.zf
    case NotEqual => !f.zf
    case Below => f.cf
    case AboveOrEqual => !f.cf
    case Above => !f.cf && !f.zf
    case Less => f.sf != f.of
    case Greater => !f.zf && f.sf == f.of
    case Sign => f.sf
    case NotSign => !f.sf
  }

  /** Flags of a - b on 64 bits. */
  function CmpFlags(a: word, b: word): Flags
  {
    var d := U64(a - b);
    var signed := S64(a) - S64(b);
    Flags(d == 0, d >= TWO63, a < b, !(-TWO63 <= signed < TWO63))
  }

  /** Flags of a - b on the low 32 bits. */
  function CmpFlags32(a: nat, b: nat): Flags
  {
    var x, y := a % TWO32, b % TWO32;
    var d := (x - y) % TWO32;
    var signed := S32(a) - S32(b);
    Flags(d == 0, d >= TWO31, x < y, !(-TWO31 <= signed < TWO31))
  }

  function TestFlags(v: word): Flags { Flags(v == 0, v >= TWO63, false, false) }

  function TestFlags32(v: nat): Flags { Flags(v == 0, v >= TWO31, false, false) }

  // ------------------------------------------------------------ rotates, one bit at a time

  /** Rotate left through one place, repeated: doubling brings the top bit round. */
  function RolTimes(v: nat, k: nat, n: nat): (r: nat)
    requires n > 0 && v < Pow2(n)
    ensures r < Pow2(n)
    decreases k
  {
    if k == 0 then v
    else
      var top := v >= Pow2(n - 1);
      RolTimes(if top then 2 * v - Pow2(n) + 1 else 2 * v, k - 1, n)
  }

  function RorTimes(v: nat, k: nat, n: nat): (r: nat)
    requires n > 0 && v < Pow2(n)
    ensures r < Pow2(n)
    decreases k
  {
    if k == 0 then v else RorTimes(v / 2 + (if v % 2 == 1 then Pow2(n - 1) else 0), k - 1, n)
  }

  /** A shift or rotate of an n-bit word by a count already masked. */
  function Shifted(kind: ShiftKind, v: nat, k: nat, n: nat): (r: nat)
    requires n > 0 && v < Pow2(n)
    ensures r < Pow2(n)
  {
    match kind
    case SHL => Low(Shl(v, k), n)
    case SHR => ShrSmaller(v, k); Shr(v, k)
    case SAR => LowOfInt(Sar(if v >= Pow2(n - 1) then v - Pow2(n) else v, k), n)
    case ROL => RolTimes(v, k, n)
    case ROR => RorTimes(v, k, n)
  }

  /** The low n bits of a signed value. */
  function LowOfInt(x: int, n: nat): (r: nat)
    ensures r < Pow2(n)
  {
    var p := Pow2(n);
    ModRange(x, p);
    x % p
  }

  lemma ModRange(x: int, p: int)
    requires p > 0
    ensures 0 <= x % p < p
  {}

  lemma {:induction false} RolTimesIsRotL(v: nat, k: nat, n: nat)
    requires k < n && v < Pow2(n)
    ensures RolTimes(v, k, n) == RotL(v, k, n)
    decreases k
  {
    if k == 0 {
      LowSmall(v, n);
    } else {
      var u := RolTimes(v, 1, n);
      assert RolTimes(v, k, n) == RolTimes(u, k - 1, n);
      RolTimesIsRotL(u, k - 1, n);
      OnePlaceLeft(v, n);
      RotLAdds(v, 1, k - 1, n);
    }
  }

  lemma OnePlaceLeft(v: nat, n: nat)
    requires n > 1 && v < Pow2(n)
    ensures RolTimes(v, 1, n) == RotL(v, 1, n)
  {
    var top, rest := Shr(v, n - 1), Low(v, n - 1);
    ShrLow(v, n - 1);
    ShrBound(v, n - 1, n);
    assert Shl(rest, 1) == 2 * rest;
    assert top == 0 || top == 1;
    assert v == top * Pow2(n - 1) + rest;
    if top == 1 {
      assert v == Pow2(n - 1) + rest;
    }
    assert RolTimes(v, 1, n) == RolTimes(if v >= Pow2(n - 1) then 2 * v - Pow2(n) + 1 else 2 * v, 0, n);
  }

  lemma {:induction false} RorTimesIsRotR(v: nat, k: nat, n: nat)
    requires k < n && v < Pow2(n)
    ensures RorTimes(v, k, n) == RotR(v, k, n)
    decreases k
  {
    if k == 0 {
      ShlIsMul(0, n);
    } else {
      var u := RorTimes(v, 1, n);
      assert RorTimes(v, k, n) == RorTimes(u, k - 1, n);
      RorTimesIsRotR(u, k - 1, n);
      OnePlaceRight(v, n);
      RotRAdds(v, 1, k - 1, n);
    }
  }

  lemma OnePlaceRight(v: nat, n: nat)
    requires n > 1 && v < Pow2(n)
    ensures RorTimes(v, 1, n) == RotR(v, 1, n)
  {
    var bit := v % 2;
    assert Low(v, 1) == bit && Shr(v, 1) == v / 2;
    ShlIsMul(bit, n - 1);
    assert RorTimes(v, 1, n) == RorTimes(v / 2 + (if v % 2 == 1 then Pow2(n - 1) else 0), 0, n);
  }

  lemma RotLAdds(v: nat, j: nat, k: nat, n: nat)
    requires j + k < n && v < Pow2(n)
    ensures RotL(RotL(v, j, n), k, n) == RotL(v, j + k, n)
  {
    hide RotL, Shr, Low, Shl, Bit;
    var u := RotL(v, j, n);
    forall p: nat | p < n
      ensures Bit(RotL(u, k, n), p) == Bit(RotL(v, j + k, n), p)
    {
      RotLPlace(v, j + k, n, p);
      RotLPlace(u, k, n, p);
      RotLPlace(v, j, n, if p >= k then p - k else p - k + n);
    }
    SameBits(RotL(u, k, n), RotL(v, j + k, n), n);
  }

  /** The bit that a left rotation brings to place p. */
  lemma RotLPlace(v: nat, k: nat, n: nat, p: nat)
    requires k < n && v < Pow2(n) && p < n
    ensures Bit(RotL(v, k, n), p) == Bit(v, if p >= k then p - k else p - k + n)
  {
    hide RotL, Shr, Low, Shl, Bit;
    var i := if p >= k then p - k else p - k + n;
    ModOnce(i + k, n);
    RotLBit(v, k, n, i);
  }

  lemma RotRAdds(v: nat, j: nat, k: nat, n: nat)
    requires j + k < n && v < Pow2(n)
    ensures RotR(RotR(v, j, n), k, n) == RotR(v, j + k, n)
  {
    hide RotR, Shr, Low, Shl, Bit;
    var u := RotR(v, j, n);
    forall p: nat | p < n
      ensures Bit(RotR(u, k, n), p) == Bit(RotR(v, j + k, n), p)
    {
      var q := if p + k < n then p + k else p + k - n;
      ModOnce(p + k, n);
      ModOnce(q + j, n);
      ModOnce(p + (j + k), n);
      RotRBit(u, k, n, p);
      RotRBit(v, j, n, q);
      RotRBit(v, j + k, n, p);
    }
    SameBits(RotR(u, k, n), RotR(v, j + k, n), n);
  }

  // ------------------------------------------------------------ one instruction

  function Get(c: Cpu, r: Reg): word { c.regs[r] }

  function Set(c: Cpu, r: Reg, v: word): Cpu { c.(regs := c.regs[r := v]) }

  /** Writes a result whose flags are not modelled. */
  function SetClobber(c: Cpu, r: Reg, v: word): Cpu { c.(regs := c.regs[r := v], flags := None) }

  /** The low part of a register that a width selects. */
  function Part(v: word, w: Width): word { if w == W32 then v % TWO32 else v }

  function Truncate(x: int, w: Width): word { if w == W32 then x % TWO32 else x % TWO64 }

  /** Instructions that pass control to the next one; None is stuck. */
  function Do(i: Instr, c: Cpu): Option<Cpu>
  {
    match i
    case MOV(w, d, s) => Some(Set(c, d, Part(Get(c, s), w)))
    case MOVI(d, v) => Some(Set(c, d, v))
    case MOVSXD(d, s) => Some(Set(c, d, SX32(Get(c, s))))
    case ADD(w, d, s) => Some(SetClobber(c, d, Truncate(Get(c, d) + Get(c, s), w)))
    case ADDI(d, v) => Some(SetClobber(c, d, Truncate(Get(c, d) + v, W64)))
    case SUB(w, d, s) => Some(SetClobber(c, d, Truncate(Get(c, d) - Get(c, s), w)))
    case SUBI(d, v) => Some(SetClobber(c, d, Truncate(Get(c, d) as int - v, W64)))
    case SUBMEM32(base, disp, v) =>
      var at := Get(c, base) + disp;
      if at !in c.host then None
      else Some(c.(flags := Some(CmpFlags32(c.host[at], v)), host := c.host[at := (c.host[at] - v) % TWO32]))
    case NEG(w, d) => Some(SetClobber(c, d, Truncate(-(Get(c, d) as int), w)))
    case DEC(d) => Some(SetClobber(c, d, Truncate(Get(c, d) - 1, W64)))
    case IMUL(d, s) => Some(SetClobber(c, d, U64(S64(Get(c, d)) * S64(Get(c, s)))))
    case MUL(s) =>
      var p := Get(c, RAX) * Get(c, s);
      HighBound(Get(c, RAX), Get(c, s));
      Some(SetClobber(Set(c, RAX, U64(p)), RDX, HighUU(Get(c, RAX), Get(c, s))))
    case LOGIC(op, d, s) =>
      Pow2Values();
      Some(SetClobber(c, d, Bitwise(op, Get(c, d), Get(c, s), 64)))
    case ANDI(d, mask) =>
      Pow2Values();
      Some(SetClobber(c, d, Bitwise(And, Get(c, d), mask, 64)))
    case NOT(d) => Some(Set(c, d, ALL_ONES - Get(c, d)))
    case SHIFT(kind, w, d) =>
      Pow2Values();
      var bits := if w == W32 then 32 else 64;
      Some(SetClobber(c, d, Shifted(kind, Part(Get(c, d), w), Get(c, RCX) % 256 % bits, bits)))
    case SHR1(d) => Some(SetClobber(c, d, Get(c, d) / 2))
    case CMP(a, b) => Some(c.(flags := Some(CmpFlags(Get(c, a), Get(c, b)))))
    case CMPI32(a, v) => Some(c.(flags := Some(CmpFlags32(Get(c, a), v))))
    case TEST(a, b) =>
      Pow2Values();
      Some(c.(flags := Some(TestFlags(Bitwise(And, Get(c, a), Get(c, b), 64)))))
    case TEST32(a, b) => Some(c.(flags := Some(TestFlags32(Bitwise(And, Get(c, a), Get(c, b), 32)))))
    case TESTI32(a, v) => Some(c.(flags := Some(TestFlags32(Bitwise(And, Get(c, a), v, 32)))))
    case CMOV(cond, d, s) =>
      if c.flags.None? then None
      else Some(if Holds(cond, c.flags.value) then Set(c, d, Get(c, s)) else c)
    case SETCC(cond, d) =>
      if c.flags.None? then None
      else Some(Set(c, d, Get(c, d) - Get(c, d) % 256 + B2I(Holds(cond, c.flags.value))))
    case PUSH(s) => Some(c.(stack := [Get(c, s)] + c.stack))
    case POP(d) => if c.stack == [] then None else Some(Set(c, d, c.stack[0]).(stack := c.stack[1..]))
    case DISCARD => if c.stack == [] then None else Some(c.(flags := None, stack := c.stack[1..]))
    case LABEL(_) => Some(c)
    case _ => None
  }

  // ------------------------------------------------------------ runs

  /** How a piece of code is left: off its end, by a jump to a label outside it, through memory, through
      bytes that are no instruction, or not. */
  datatype Exit = Fall(c: Cpu) | Leave(target: nat, c: Cpu) | Indirect(address: int, c: Cpu) | Illegal(c: Cpu) | Stuck

  /** The next definition of a label at or after pc. */
  function FindLabel(code: seq<Instr>, pc: nat, name: nat): (k: nat)
    ensures k <= |code| || k == pc
    ensures k < |code| ==> pc <= k && code[k] == LABEL(name)
    ensures k >= pc
    decreases |code| - pc
  {
    if pc >= |code| || code[pc] == LABEL(name) then pc else FindLabel(code, pc + 1, name)
  }

  /** Runs code from position pc. All jumps the recompiler emits go forward. */
  function Run(code: seq<Instr>, pc: nat, c: Cpu): Exit
    decreases |code| - pc
  {
    if pc >= |code| then Fall(c)
    else
      match code[pc]
      case JCC(cond, l) =>
        if c.flags.None? then Stuck
        else if Holds(cond, c.flags.value) then Goto(code, pc, l, c)
        else Run(code, pc + 1, c)
      case JCCINTO(cond) =>
        if c.flags.None? then Stuck
        else if Holds(cond, c.flags.value) then Illegal(c)
        else Run(code, pc + 1, c)
      case JMP(l) => Goto(code, pc, l, c)
      case JMPMEM(base, index, disp) => Indirect(Get(c, base) + 8 * Get(c, index) + disp, c)
      case _ =>
        match Do(code[pc], c)
        case None => Stuck
        case Some(c') => Run(code, pc + 1, c')
  }

  function Goto(code: seq<Instr>, pc: nat, l: nat, c: Cpu): Exit
    requires pc < |code|
    decreases |code| - pc, 0
  {
    var k := FindLabel(code, pc + 1, l);
    if k < |code| then Run(code, k, c) else Leave(l, c)
  }

  lemma {:induction false} FindLabelInPrefix(a: seq<Instr>, b: seq<Instr>, pc: nat, name: nat)
    requires pc <= |a|
    ensures FindLabel(a, pc, name) < |a| ==> FindLabel(a + b, pc, name) == FindLabel(a, pc, name)
    decreases |a| - pc
  {
    if pc < |a| && a[pc] != LABEL(name) {
      FindLabelInPrefix(a, b, pc + 1, name);
    }
  }

  lemma {:induction false} FindLabelInSuffix(a: seq<Instr>, b: seq<Instr>, pc: nat, name: nat)
    ensures FindLabel(a + b, |a| + pc, name) == |a| + FindLabel(b, pc, name)
    decreases |b| - pc
  {
    if pc < |b| && b[pc] != LABEL(name) {
      FindLabelInSuffix(a, b, pc + 1, name);
    }
  }

  lemma {:induction false} RunSuffix(a: seq<Instr>, b: seq<Instr>, pc: nat, c: Cpu)
    ensures Run(a + b, |a| + pc, c) == Run(b, pc, c)
    decreases |b| - pc
  {
    hide Do, Holds;
    if pc < |b| {
      var i := (a + b)[|a| + pc];
      assert i == b[pc];
      if i.JCC? || i.JMP? {
        GotoSuffix(a, b, pc, i.target, c);
        RunSuffix(a, b, pc + 1, c);
      } else if i.JCCINTO? {
        RunSuffix(a, b, pc + 1, c);
      } else if Do(i, c).Some? {
        RunSuffix(a, b, pc + 1, Do(i, c).value);
      }
    }
  }

  lemma {:induction false} GotoSuffix(a: seq<Instr>, b: seq<Instr>, pc: nat, l: nat, c: Cpu)
    requires pc < |b|
    ensures Goto(a + b, |a| + pc, l, c) == Goto(b, pc, l, c)
    decreases |b| - pc, 0
  {
    hide Do, Holds;
    FindLabelInSuffix(a, b, pc + 1, l);
    var k := FindLabel(b, pc + 1, l);
    if k < |b| {
      RunSuffix(a, b, k, c);
    }
  }

  /** Code that falls off its end runs on into whatever is placed after it. */
  lemma {:induction false} RunConcat(a: seq<Instr>, b: seq<Instr>, pc: nat, c: Cpu, c': Cpu)
    requires pc <= |a| && Run(a, pc, c) == Fall(c')
    ensures Run(a + b, pc, c) == Run(b, 0, c')
    decreases |a| - pc
  {
    hide Do;
    if pc == |a| {
      RunSuffix(a, b, 0, c);
    } else {
      var i := (a + b)[pc];
      assert i == a[pc];
      if i.JCC? || i.JMP? {
        var l := i.target;
        FindLabelInPrefix(a, b, pc + 1, l);
        if i.JMP? || Holds(i.cond, c.flags.value) {
          RunConcat(a, b, FindLabel(a, pc + 1, l), c, c');
        } else {
          RunConcat(a, b, pc + 1, c, c');
        }
      } else if i.JCCINTO? {
        RunConcat(a, b, pc + 1, c, c');
      } else {
        RunConcat(a, b, pc + 1, Do(i, c).value, c');
      }
    }
  }

  /** Code that leaves through illegal bytes does so whatever is placed after it. */
  lemma {:induction false} RunIllegal(a: seq<Instr>, b: seq<Instr>, pc: nat, c: Cpu, c': Cpu)
    requires pc <= |a| && Run(a, pc, c) == Illegal(c')
    ensures Run(a + b, pc, c) == Illegal(c')
    decreases |a| - pc
  {
    hide Do, Holds;
    if pc < |a| {
      var i := (a + b)[pc];
      assert i == a[pc];
      if i.JCC? || i.JMP? {
        var l := i.target;
        FindLabelInPrefix(a, b, pc + 1, l);
        if i.JMP? || Holds(i.cond, c.flags.value) {
          RunIllegal(a, b, FindLabel(a, pc + 1, l), c, c');
        } else {
          RunIllegal(a, b, pc + 1, c, c');
        }
      } else if i.JCCINTO? {
        if !Holds(i.cond, c.flags.value) {
          RunIllegal(a, b, pc + 1, c, c');
        }
      } else {
        RunIllegal(a, b, pc + 1, Do(i, c).value, c');
      }
    }
  }

  predicate Straight(i: Instr)
  {
    !i.JCC? && !i.JCCINTO? && !i.JMP? && !i.JMPMEM?
  }

  lemma RunStep(code: seq<Instr>, pc: nat, c: Cpu, c': Cpu)
    requires pc < |code| && Straight(code[pc]) && Do(code[pc], c) == Some(c')
    ensures Run(code, pc, c) == Run(code, pc + 1, c')
  {
    hide Do;
  }
}
