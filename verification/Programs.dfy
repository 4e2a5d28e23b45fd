/** A guest program: its bytecode, opcode bitmask and jump table; where instructions start, which
    positions begin a basic block, and how operands are decoded. */
module Programs {
  import opened Words
  import opened Wrappers
  import opened Isa

  datatype ProgramData = ProgramData(z: nat, jumpTable: seq<nat>, code: seq<byte>, bitmask: seq<bool>)

  /** The bitmask has one bit per code byte. */
  type Program = p: ProgramData | |p.bitmask| == |p.code| witness ProgramData(0, [], [], [])

  const PADDING := 1000
  const MAX_SKIP := 24
  const HALT_ADDRESS := TWO32 - TWO16

  function Size(p: Program): nat { |p.code| }

  /** Code followed by zero padding. */
  function Zeta(p: Program, i: nat): byte
    requires i < Size(p) + PADDING
  {
    if i < Size(p) then p.code[i] else 0
  }

  /** Bitmask followed by set bits. */
  predicate OpcodeAt(p: Program, i: nat)
  {
    i < Size(p) ==> p.bitmask[i]
  }

  // ------------------------------------------------------------ skip

  /** The first opcode position at or after i; the end of code counts as one. */
  function NextOpcode(p: Program, i: nat): (j: nat)
    requires i <= Size(p)
    ensures i <= j <= Size(p) && OpcodeAt(p, j)
    ensures forall k: nat :: i <= k < j ==> !OpcodeAt(p, k)
    decreases Size(p) - i
  {
    if OpcodeAt(p, i) then i else NextOpcode(p, i + 1)
  }

  function Skip(p: Program, pc: nat): (s: nat)
    ensures s <= MAX_SKIP
  {
    if pc >= Size(p) then 0
    else
      var d := NextOpcode(p, pc + 1) - pc - 1;
      if d < MAX_SKIP then d else MAX_SKIP
  }

  /** The interpreter's forward search fixed at its meaning: 24 or the distance to the next set bit. */
  lemma SkipMeaning(p: Program, pc: nat, next: nat)
    requires pc < next <= Size(p) && OpcodeAt(p, next)
    requires forall k: nat :: pc < k < next ==> !OpcodeAt(p, k)
    ensures Skip(p, pc) == if next - pc - 1 < 24 then next - pc - 1 else 24
  {
    var j := NextOpcode(p, pc + 1);
    assert j == next;
  }

  // ------------------------------------------------------------ the dispatch table

  datatype Cmp = Eq | Ne | Lt | Le | Gt | Ge

  predicate Compare(c: Cmp, a: int, b: int)
  {
    match c
    case Eq => a == b
    case Ne => a != b
    case Lt => a < b
    case Le => a <= b
    case Gt => a > b
    case Ge => a >= b
  }

  /** Operations on one source register; sizes are in bytes. */
  datatype Op2 =
    | Move | CountSetBits(size: nat) | LeadingZeroBits(size: nat) | TrailingZeroBits(size: nat)
    | SignExtend(size: nat) | ZeroExtend16 | ReverseBytes

  /** The handler behind an opcode; sizes are in bytes. In `AluImm`, `alt` puts the immediate first. */
  datatype Fn =
    | Trap | Fallthrough | Ecalli | LoadImm64
    | StoreImm(size: nat) | Jump | JumpInd | LoadImm
    | LoadU(size: nat) | LoadI(size: nat) | StoreU(size: nat) | StoreImmInd(size: nat)
    | LoadImmJump | BranchImm(cmp: Cmp, signed: bool)
    | Unary(op2: Op2) | Sbrk
    | StoreInd(size: nat) | LoadInd(size: nat, signed: bool) | AluImm(op: Op3, alt: bool)
    | Branch(cmp: Cmp, signed: bool) | LoadImmJumpInd | Alu(op: Op3)

  /** Instructions that end a block. */
  predicate Terminating(fn: Fn)
  {
    fn.Trap? || fn.Fallthrough? || fn.Jump? || fn.JumpInd? || fn.LoadImmJump? || fn.BranchImm?
    || fn.Branch? || fn.LoadImmJumpInd?
  }

  function Dispatch(op: byte): Option<Fn>
  {
    if op < 64 then DispatchLow(op)
    else if op < 120 then DispatchMid(op)
    else if op < 190 then DispatchImm(op)
    else DispatchReg(op)
  }

  function DispatchLow(op: byte): Option<Fn>
  {
    match op
    case 0 => Some(Trap) case 1 => Some(Fallthrough) case 10 => Some(Ecalli) case 20 => Some(LoadImm64)
    case 30 => Some(StoreImm(1)) case 31 => Some(StoreImm(2)) case 32 => Some(StoreImm(4)) case 33 => Some(StoreImm(8))
    case 40 => Some(Jump) case 50 => Some(JumpInd) case 51 => Some(LoadImm)
    case 52 => Some(LoadU(1)) case 53 => Some(LoadI(1)) case 54 => Some(LoadU(2)) case 55 => Some(LoadI(2))
    case 56 => Some(LoadU(4)) case 57 => Some(LoadI(4)) case 58 => Some(LoadU(8))
    case 59 => Some(StoreU(1)) case 60 => Some(StoreU(2)) case 61 => Some(StoreU(4)) case 62 => Some(StoreU(8))
    case _ => None
  }

  function DispatchMid(op: byte): Option<Fn>
  {
    match op
    case 70 => Some(StoreImmInd(1)) case 71 => Some(StoreImmInd(2)) case 72 => Some(StoreImmInd(4)) case 73 => Some(StoreImmInd(8))
    case 80 => Some(LoadImmJump)
    case 81 => Some(BranchImm(Eq, false)) case 82 => Some(BranchImm(Ne, false)) case 83 => Some(BranchImm(Lt, false))
    case 84 => Some(BranchImm(Le, false)) case 85 => Some(BranchImm(Ge, false)) case 86 => Some(BranchImm(Gt, false))
    case 87 => Some(BranchImm(Lt, true)) case 88 => Some(BranchImm(Le, true))
    case 89 => Some(BranchImm(Ge, true)) case 90 => Some(BranchImm(Gt, true))
    case 100 => Some(Unary(Move)) case 101 => Some(Sbrk)
    case 102 => Some(Unary(CountSetBits(8))) case 103 => Some(Unary(CountSetBits(4)))
    case 104 => Some(Unary(LeadingZeroBits(8))) case 105 => Some(Unary(LeadingZeroBits(4)))
    case 106 => Some(Unary(TrailingZeroBits(8))) case 107 => Some(Unary(TrailingZeroBits(4)))
    case 108 => Some(Unary(SignExtend(1))) case 109 => Some(Unary(SignExtend(2))) case 110 => Some(Unary(ZeroExtend16)) case 111 => Some(Unary(ReverseBytes))
    case _ => None
  }

  function DispatchImm(op: byte): Option<Fn>
  {
    match op
    case 120 => Some(StoreInd(1)) case 121 => Some(StoreInd(2)) case 122 => Some(StoreInd(4)) case 123 => Some(StoreInd(8))
    case 124 => Some(LoadInd(1, false)) case 125 => Some(LoadInd(1, true)) case 126 => Some(LoadInd(2, false))
    case 127 => Some(LoadInd(2, true)) case 128 => Some(LoadInd(4, false)) case 129 => Some(LoadInd(4, true))
    case 130 => Some(LoadInd(8, false))
    case 131 => Some(AluImm(Add(W32), false)) case 132 => Some(AluImm(Logic(And), false))
    case 133 => Some(AluImm(Logic(Xor), false)) case 134 => Some(AluImm(Logic(Or), false))
    case 135 => Some(AluImm(Mul(W32), false)) case 136 => Some(AluImm(SetLtU, false)) case 137 => Some(AluImm(SetLtS, false))
    case 138 => Some(AluImm(ShloL(W32), false)) case 139 => Some(AluImm(ShloR(W32), false)) case 140 => Some(AluImm(SharR(W32), false))
    case 141 => Some(AluImm(Sub(W32), true)) case 142 => Some(AluImm(SetLtU, true)) case 143 => Some(AluImm(SetLtS, true))
    case 144 => Some(AluImm(ShloL(W32), true)) case 145 => Some(AluImm(ShloR(W32), true)) case 146 => Some(AluImm(SharR(W32), true))
    case 147 => Some(AluImm(CmovIz, true)) case 148 => Some(AluImm(CmovNz, true))
    case 149 => Some(AluImm(Add(W64), false)) case 150 => Some(AluImm(Mul(W64), false))
    case 151 => Some(AluImm(ShloL(W64), false)) case 152 => Some(AluImm(ShloR(W64), false)) case 153 => Some(AluImm(SharR(W64), false))
    case 154 => Some(AluImm(Sub(W64), true))
    case 155 => Some(AluImm(ShloL(W64), true)) case 156 => Some(AluImm(ShloR(W64), true)) case 157 => Some(AluImm(SharR(W64), true))
    case 158 => Some(AluImm(RotRight(W64), false)) case 159 => Some(AluImm(RotRight(W64), true))
    case 160 => Some(AluImm(RotRight(W32), false)) case 161 => Some(AluImm(RotRight(W32), true))
    case 170 => Some(Branch(Eq, false)) case 171 => Some(Branch(Ne, false)) case 172 => Some(Branch(Lt, false))
    case 173 => Some(Branch(Lt, true)) case 174 => Some(Branch(Ge, false)) case 175 => Some(Branch(Ge, true))
    case 180 => Some(LoadImmJumpInd)
    case _ => None
  }

  function DispatchReg(op: byte): Option<Fn>
  {
    match op
    case 190 => Some(Alu(Add(W32))) case 191 => Some(Alu(Sub(W32))) case 192 => Some(Alu(Mul(W32)))
    case 193 => Some(Alu(DivU(W32))) case 194 => Some(Alu(DivS(W32))) case 195 => Some(Alu(RemU(W32))) case 196 => Some(Alu(RemS(W32)))
    case 197 => Some(Alu(ShloL(W32))) case 198 => Some(Alu(ShloR(W32))) case 199 => Some(Alu(SharR(W32)))
    case 200 => Some(Alu(Add(W64))) case 201 => Some(Alu(Sub(W64))) case 202 => Some(Alu(Mul(W64)))
    case 203 => Some(Alu(DivU(W64))) case 204 => Some(Alu(DivS(W64))) case 205 => Some(Alu(RemU(W64))) case 206 => Some(Alu(RemS(W64)))
    case 207 => Some(Alu(ShloL(W64))) case 208 => Some(Alu(ShloR(W64))) case 209 => Some(Alu(SharR(W64)))
    case 210 => Some(Alu(Logic(And))) case 211 => Some(Alu(Logic(Xor))) case 212 => Some(Alu(Logic(Or)))
    case 213 => Some(Alu(MulUpperSS)) case 214 => Some(Alu(MulUpperUU)) case 215 => Some(Alu(MulUpperSU))
    case 216 => Some(Alu(SetLtU)) case 217 => Some(Alu(SetLtS)) case 218 => Some(Alu(CmovIz)) case 219 => Some(Alu(CmovNz))
    case 220 => Some(Alu(RotLeft(W64))) case 221 => Some(Alu(RotLeft(W32)))
    case 222 => Some(Alu(RotRight(W64))) case 223 => Some(Alu(RotRight(W32)))
    case 224 => Some(Alu(Logic(AndInv))) case 225 => Some(Alu(Logic(OrInv))) case 226 => Some(Alu(Logic(Xnor)))
    case 227 => Some(Alu(Max)) case 228 => Some(Alu(MaxU)) case 229 => Some(Alu(Min)) case 230 => Some(Alu(MinU))
    case _ => None
  }

  /** The handler of the instruction at pc, if pc can be fetched and its opcode is known. */
  function FnAt(p: Program, pc: nat): Option<Fn>
  {
    if pc < Size(p) + PADDING then Dispatch(Zeta(p, pc)) else None
  }

  lemma PaddingTraps(p: Program, pc: nat)
    requires Size(p) <= pc < Size(p) + PADDING
    ensures FnAt(p, pc) == Some(Trap)
  {}

  // ------------------------------------------------------------ basic blocks

  /** Position n holds a known opcode that ends a block. */
  predicate IsBlockEnd(p: Program, n: nat)
  {
    n < Size(p) && p.bitmask[n] && Dispatch(p.code[n]).Some? && Terminating(Dispatch(p.code[n]).value)
  }

  /** Positions where a block may begin: zero, and whatever follows a block's last instruction. */
  function BasicBlocks(p: Program): set<int>
  {
    {0} + set n | 0 <= n < Size(p) && IsBlockEnd(p, n) :: n + 1 + Skip(p, n)
  }

  lemma BlockFollows(p: Program, n: nat)
    requires IsBlockEnd(p, n)
    ensures n + 1 + Skip(p, n) in BasicBlocks(p)
  {
    hide Skip, IsBlockEnd;
    assert n < Size(p) by {
      EndInCode(p, n);
    }
  }

  lemma EndInCode(p: Program, n: nat)
    requires IsBlockEnd(p, n)
    ensures n < Size(p)
  {}

  lemma BlockOrigin(p: Program, pc: int) returns (n: nat)
    requires pc in BasicBlocks(p) && pc != 0
    ensures IsBlockEnd(p, n) && pc == n + 1 + Skip(p, n)
  {
    hide Skip, IsBlockEnd;
    n :| 0 <= n < Size(p) && IsBlockEnd(p, n) && pc == n + 1 + Skip(p, n);
  }

  // ------------------------------------------------------------ operands

  function Clamp12(v: nat): RegIndex
  {
    if v <= 12 then v else 12
  }

  function Clamp4(v: int): (r: nat)
    ensures r <= 4
  {
    if v <= 0 then 0 else if v <= 4 then v else 4
  }

  /** Two's-complement reading of an n-byte value; the empty value reads as itself. */
  function Signed(v: nat, n: nat): int
  {
    if n == 0 || v < Pow2(8 * n - 1) then v else v - Pow2(8 * n)
  }

  function Window(p: Program, at: nat, n: nat): (s: seq<byte>)
    requires at + n <= Size(p) + PADDING
    ensures |s| == n && forall i: nat :: i < n ==> s[i] == Zeta(p, at + i)
    decreases n
  {
    if n == 0 then [] else [Zeta(p, at)] + Window(p, at + 1, n - 1)
  }

  /** n code bytes from `at` on, as a little-endian number. */
  function Imm(p: Program, at: nat, n: nat): (v: nat)
    requires at + n <= Size(p) + PADDING
    ensures v < Pow2(8 * n)
  {
    FromLe(Window(p, at, n))
  }

  /** An n-byte immediate, sign-extended to 64 bits. */
  function ImmX(p: Program, at: nat, n: nat): nat
    requires at + n <= Size(p) + PADDING
  {
    U64(Signed(Imm(p, at, n), n))
  }

  /** Register indices, immediates and branch target of an instruction. */
  datatype Args = Args(ra: RegIndex, rb: RegIndex, rd: RegIndex, vx: nat, vy: nat, target: int)

  type RegIndex = r: nat | r <= 12

  /** A decoded instruction. */
  datatype Inst = Inst(fn: Fn, counter: nat, skip: nat, args: Args)

  function Least(a: int, b: int): int { if a <= b then a else b }

  /** The thirteen instruction tables, by the operands they decode. */
  datatype Layout =
    | NoOperands | OneImm | RegImm64 | TwoImm | OneOffset | RegImm | RegTwoImm | RegImmOffset
    | TwoReg | TwoRegImm | TwoRegOffset | TwoRegTwoImm | ThreeReg

  function LayoutOf(fn: Fn): Layout
  {
    match fn
    case Trap => NoOperands case Fallthrough => NoOperands
    case Ecalli => OneImm
    case LoadImm64 => RegImm64
    case StoreImm(_) => TwoImm
    case Jump => OneOffset
    case JumpInd => RegImm case LoadImm => RegImm
    case LoadU(_) => RegImm case LoadI(_) => RegImm case StoreU(_) => RegImm
    case StoreImmInd(_) => RegTwoImm
    case LoadImmJump => RegImmOffset case BranchImm(_, _) => RegImmOffset
    case Unary(_) => TwoReg case Sbrk => TwoReg
    case StoreInd(_) => TwoRegImm case LoadInd(_, _) => TwoRegImm case AluImm(_, _) => TwoRegImm
    case Branch(_, _) => TwoRegOffset
    case LoadImmJumpInd => TwoRegTwoImm
    case Alu(_) => ThreeReg
  }

  /** Operands at pc. Two layouts cut the second operand short: `RegImmOffset` looks at seven code
      bytes and `TwoRegTwoImm` at nine. */
  function Operands(p: Program, pc: nat, layout: Layout, skip: nat): Args
    requires layout == NoOperands || pc < Size(p)
  {
    if layout == NoOperands then Args(0, 0, 0, 0, 0, 0)
    else
      var b1, b2 := Zeta(p, pc + 1), Zeta(p, pc + 2);
      var lo, hi := Clamp12(b1 % 16), Clamp12(b1 / 16);
      match layout
      case OneImm => Args(0, 0, 0, ImmX(p, pc + 1, Clamp4(skip)), 0, 0)
      case RegImm64 => Args(lo, 0, 0, Imm(p, pc + 2, 8), 0, 0)
      case TwoImm =>
        var lx := Clamp4(b1);
        Args(0, 0, 0, ImmX(p, pc + 2, lx), ImmX(p, pc + 2 + lx, Clamp4(skip - lx - 1)), 0)
      case OneOffset =>
        var lx := Clamp4(skip);
        Args(0, 0, 0, 0, 0, pc + Signed(Imm(p, pc + 1, lx), lx))
      case RegImm => Args(lo, 0, 0, ImmX(p, pc + 2, Clamp4(skip - 1)), 0, 0)
      case RegTwoImm =>
        var lx := Clamp4(b1 / 16 % 8);
        Args(lo, 0, 0, ImmX(p, pc + 2, lx), ImmX(p, pc + 2 + lx, Clamp4(skip - lx - 1)), 0)
      case RegImmOffset =>
        var lx := Clamp4(b1 / 16 % 8);
        var ly := Clamp4(skip - lx - 1);
        Args(lo, 0, 0, ImmX(p, pc + 2, lx), 0, pc + Signed(Imm(p, pc + 2 + lx, Least(ly, 6 - lx)), ly))
      case TwoReg => Args(hi, 0, lo, 0, 0, 0)
      case TwoRegImm => Args(lo, hi, 0, ImmX(p, pc + 2, Clamp4(skip - 1)), 0, 0)
      case TwoRegOffset =>
        var lx := Clamp4(skip - 1);
        Args(lo, hi, 0, 0, 0, pc + Signed(Imm(p, pc + 2, lx), lx))
      case TwoRegTwoImm =>
        var lx := Clamp4(b2 % 8);
        var ly := Clamp4(skip - lx - 2);
        Args(lo, hi, 0, ImmX(p, pc + 3, lx), U64(Signed(Imm(p, pc + 3 + lx, Least(ly, 7 - lx)), ly)), 0)
      case ThreeReg => Args(lo, hi, Clamp12(b2), 0, 0, 0)
  }

  /** The instruction at pc; None where fetching or dispatch raises. */
  function Decode(p: Program, pc: nat): (r: Option<Inst>)
    ensures r.Some? ==> r.value.counter == pc && r.value.skip == Skip(p, pc) && FnAt(p, pc) == Some(r.value.fn)
    ensures r.Some? <==> FnAt(p, pc).Some?
  {
    match FnAt(p, pc)
    case None => None
    case Some(fn) => Some(Inst(fn, pc, Skip(p, pc), Operands(p, pc, LayoutOf(fn), Skip(p, pc))))
  }
}
