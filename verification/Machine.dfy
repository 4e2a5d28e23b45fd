/** The PVM instruction set: what one decoded instruction does to registers and memory. The
    interpreter's handlers are proved against `Exec`, and `Pvm` hands it to the block engine. */
module Machine {
  import opened Words
  import opened Wrappers
  import opened Isa
  import opened Programs
  import opened Engine
  import FM = FlatMemory

  const REGISTERS := 13

  type Regs = r: seq<nat> | |r| == REGISTERS witness [0, 0, 0, 0, 0, 0, 0, 0, 0, 0, 0, 0, 0]

  type Mem = m: FM.Flat | FM.WellFormed(m)
    ghost witness FM.FlatMem(seq(TWO32, _ => 0), seq(FM.MAX_PAGES, _ => false), seq(FM.MAX_PAGES, _ => false), 0)

  datatype State = State(regs: Regs, mem: Mem)

  // ------------------------------------------------------------ jumps

  function Following(i: Inst): nat { i.counter + i.skip + 1 }

  /** Where control goes after a branch: a taken branch to its own position falls through, a taken
      branch to anything else must begin a block. */
  function BranchTarget(p: Program, i: Inst, taken: bool): (r: Option<nat>)
    ensures r.Some? ==> r.value == Following(i) || r.value in BasicBlocks(p)
  {
    var target := i.args.target;
    if !taken then Some(Following(i))
    else if target !in BasicBlocks(p) then None
    else if target == i.counter then Some(Following(i))
    else Some(target)
  }

  datatype Dynamic = ToHalt | ToPanic | ToPc(pc: nat)

  /** A dynamic jump goes through the jump table, two address units an entry. */
  function DynamicJump(p: Program, a: nat): Dynamic
  {
    if a == HALT_ADDRESS then ToHalt
    else if a == 0 || a / 2 - 1 >= |p.jumpTable| || a % 2 != 0 then ToPanic
    else if p.jumpTable[a / 2 - 1] !in BasicBlocks(p) then ToPanic
    else ToPc(p.jumpTable[a / 2 - 1])
  }

  // ------------------------------------------------------------ handlers

  ghost function Go(i: Inst, regs: Regs, mem: Mem): Outcome<State>
  {
    Next(Continue, Config(Following(i), State(regs, mem)))
  }

  ghost function Branching(p: Program, i: Inst, taken: bool, regs: Regs, mem: Mem): Outcome<State>
  {
    match BranchTarget(p, i, taken)
    case None => Raised(Panic, State(regs, mem))
    case Some(pc) => Next(Continue, Config(pc, State(regs, mem)))
  }

  ghost function Jumping(p: Program, i: Inst, a: nat, regs: Regs, mem: Mem): Outcome<State>
  {
    match DynamicJump(p, a)
    case ToHalt => Next(Halt, Config(i.counter, State(regs, mem)))
    case ToPanic => Raised(Panic, State(regs, mem))
    case ToPc(pc) => Next(Continue, Config(pc, State(regs, mem)))
  }

  ghost function Loading(i: Inst, rd: RegIndex, address: int, size: nat, signed: bool, regs: Regs, mem: Mem): Outcome<State>
  {
    match FM.Read(mem, address, size)
    case Fault(x) => Raised(PageFault(x), State(regs, mem))
    case Bytes(s) =>
      var v := FromLe(s);
      Go(i, regs[rd := if signed then U64(Signed(v, size)) else v], mem)
  }

  ghost function Storing(i: Inst, address: int, value: nat, size: nat, regs: Regs, mem: Mem): Outcome<State>
  {
    var (mem', fault) := FM.Write(mem, address, ToLe(value, size));
    if fault.Some? then Raised(PageFault(fault.value), State(regs, mem')) else Go(i, regs, mem')
  }

  /** Results of the one-operand register instructions. */
  function Value2(op: Op2, a: nat): nat
  {
    match op
    case Move => a
    case CountSetBits(n) => PopCount(a, 8 * n)
    case LeadingZeroBits(n) => LeadingZeros(Low(a, 8 * n), 8 * n)
    case TrailingZeroBits(n) => TrailingZeros(Low(a, 8 * n), 8 * n)
    case SignExtend(n) => U64(Signed(Low(a, 8 * n), n))
    case ZeroExtend16 => a % TWO16
    case ReverseBytes => FromLe(Reversed(ToLe(a, 8)))
  }

  function Reversed(s: seq<byte>): (r: seq<byte>)
    ensures |r| == |s|
  {
    if s == [] then [] else Reversed(s[1..]) + [s[0]]
  }

  ghost function Exec(p: Program, i: Inst, s: State): Outcome<State>
  {
    var x := i.args;
    var regs, mem := s.regs, s.mem;
    var ra, rb := regs[x.ra], regs[x.rb];
    match i.fn
    case Trap => Raised(Panic, s)
    case Fallthrough => Go(i, regs, mem)
    case Ecalli => Next(Host(x.vx), Config(Following(i), s))
    case LoadImm64 => Go(i, regs[x.ra := x.vx], mem)
    case LoadImm => Go(i, regs[x.ra := x.vx], mem)
    case StoreImm(n) => Storing(i, x.vx, x.vy, n, regs, mem)
    case StoreU(n) => Storing(i, x.vx, ra, n, regs, mem)
    case StoreImmInd(n) => Storing(i, ra + x.vx, x.vy, n, regs, mem)
    case StoreInd(n) => Storing(i, rb + x.vx, ra, n, regs, mem)
    case LoadU(n) => Loading(i, x.ra, x.vx, n, false, regs, mem)
    case LoadI(n) => Loading(i, x.ra, x.vx, n, true, regs, mem)
    case LoadInd(n, signed) => Loading(i, x.ra, rb + x.vx, n, signed, regs, mem)
    case Jump => Branching(p, i, true, regs, mem)
    case LoadImmJump => Branching(p, i, true, regs[x.ra := x.vx], mem)
    case BranchImm(c, signed) =>
      Branching(p, i, if signed then Compare(c, S64(ra), S64(x.vx)) else Compare(c, ra, x.vx), regs, mem)
    case Branch(c, signed) =>
      Branching(p, i, if signed then Compare(c, S64(ra), S64(rb)) else Compare(c, ra, rb), regs, mem)
    case JumpInd => Jumping(p, i, (ra + x.vx) % TWO32, regs, mem)
    case LoadImmJumpInd => Jumping(p, i, (rb + x.vy) % TWO32, regs[x.ra := x.vx], mem)
    case Sbrk =>
      var heap := mem.heapBreak + ra;
      Go(i, regs[x.rd := heap], FM.Alter(mem, mem.heapBreak, ra, FM.WRITE).(heapBreak := heap))
    case AluImm(op, alt) =>
      var (a, b) := if alt then (x.vx, rb) else (rb, x.vx);
      if DivisionRaises(op, b) then Raised(Crash, s)
      else Go(i, regs[x.ra := Value3(op, a, b, ra)], mem)
    case Alu(op) =>
      if DivisionRaises(op, rb) then Raised(Crash, s)
      else Go(i, regs[x.rd := Value3(op, ra, rb, regs[x.rd])], mem)
    case Unary(op) =>
      if op == ReverseBytes && ra >= TWO64 then Raised(Crash, s)
      else Go(i, regs[x.rd := Value2(op, ra)], mem)
  }

  /** The instruction set of program p, as the engine sees it. */
  ghost function Pvm(p: Program): Semantics<Inst, State>
  {
    Semantics(pc => Decode(p, pc), (i: Inst) => i.counter, (i: Inst) => Following(i), (i: Inst) => Terminating(i.fn),
              (i, s) => Exec(p, i, s), BasicBlocks(p), Size(p) + PADDING)
  }

  // ------------------------------------------------------------ what every instruction keeps

  /** After an instruction that does not end a block, control is at the next instruction; after one
      that does, it is there or at a basic-block start. Only ecalli calls the host. */
  lemma WhereControlGoes(p: Program, i: Inst, s: State)
    ensures match Exec(p, i, s)
            case Raised(_, _) => true
            case Next(status, c) =>
              && (status == Continue ==> c.pc == Following(i) || (Terminating(i.fn) && c.pc in BasicBlocks(p)))
              && (status == Halt ==> Terminating(i.fn))
              && (status.Host? <==> i.fn == Ecalli)
  {}

  lemma PvmLawful(p: Program)
    ensures Lawful(Pvm(p))
  {
    var m := Pvm(p);
    forall i, s
      ensures Lands(m, i, m.run(i, s))
    {
      WhereControlGoes(p, i, s);
      hide Exec;
    }
    hide Exec;
  }

  // ------------------------------------------------------------ registers stay 64-bit words

  /** All registers hold 64-bit words. */
  ghost predicate InRange(regs: Regs)
  {
    forall k :: 0 <= k < |regs| ==> regs[k] < TWO64
  }

  /** Sizes the dispatch table uses: at most eight bytes. */
  predicate KnownSizes(fn: Fn)
  {
    match fn
    case Unary(CountSetBits(n)) => n <= 8
    case Unary(LeadingZeroBits(n)) => n <= 8
    case Unary(TrailingZeroBits(n)) => n <= 8
    case Unary(SignExtend(n)) => n == 1 || n == 2
    case LoadU(n) => n <= 8
    case LoadI(n) => n <= 8
    case LoadInd(n, _) => n <= 8
    case _ => true
  }

  lemma DispatchedSizes(op: byte)
    ensures Dispatch(op).Some? ==> KnownSizes(Dispatch(op).value)
  {}

  lemma Value2InRange(op: Op2, a: word)
    requires KnownSizes(Unary(op))
    ensures Value2(op, a) < TWO64
  {
    Pow2Values();
    if op == ReverseBytes {
      assert |Reversed(ToLe(a, 8))| == 8;
    }
  }

  lemma LoadedInRange(mem: Mem, address: int, n: nat)
    requires n <= 8
    ensures FM.Read(mem, address, n).Bytes? ==> FromLe(FM.Read(mem, address, n).data) < TWO64
  {
    hide FromLe, Pow2, FM.Read;
    ReadLength(mem, address, n);
    Pow2Values();
    Pow2Mono(8 * n, 64);
  }

  lemma ReadLength(mem: Mem, address: int, n: nat)
    ensures FM.Read(mem, address, n).Bytes? ==> |FM.Read(mem, address, n).data| == n
  {
    hide FM.FirstFault;
    FM.FaultInRange(mem, address % TWO32, n, false);
  }

  /** Every instruction but sbrk keeps all registers 64-bit words, and none crashes on such registers. */
  lemma ExecKeepsRange(p: Program, i: Inst, s: State)
    requires InRange(s.regs)
    requires i.fn != Sbrk && i.args.vx < TWO64 && KnownSizes(i.fn)
    ensures match Exec(p, i, s)
            case Next(_, c) => InRange(c.state.regs)
            case Raised(e, s') => e != Crash && InRange(s'.regs)
  {
    hide Value3, Value2, BasicBlocks, FM.Read, FM.Write, FM.Alter, FromLe, ToLe, Signed, Compare;
    var x, regs := i.args, s.regs;
    match i.fn {
      case AluImm(op, alt) =>
        Value3InRange(op, if alt then x.vx else regs[x.rb], if alt then regs[x.rb] else x.vx, regs[x.ra]);
      case Alu(op) => Value3InRange(op, regs[x.ra], regs[x.rb], regs[x.rd]);
      case Unary(op) => Value2InRange(op, regs[x.ra]);
      case LoadU(n) => LoadedInRange(s.mem, x.vx, n);
      case LoadI(n) => LoadedInRange(s.mem, x.vx, n);
      case LoadInd(n, _) => LoadedInRange(s.mem, regs[x.rb] + x.vx, n);
      case _ =>
    }
  }

  /** sbrk keeps registers 64-bit words exactly when the new break is one. */
  lemma SbrkRange(p: Program, i: Inst, s: State)
    requires InRange(s.regs) && i.fn == Sbrk
    ensures var heap := s.mem.heapBreak + s.regs[i.args.ra];
            Exec(p, i, s).Next?
            && (InRange(Exec(p, i, s).config.state.regs) <==> heap < TWO64)
  {
    hide FM.Alter;
    var heap := s.mem.heapBreak + s.regs[i.args.ra];
    var regs' := Exec(p, i, s).config.state.regs;
    assert regs' == s.regs[i.args.rd := heap];
    assert regs'[i.args.rd] == heap;
  }

  /** A state where it does not: the largest request with a break of one page. */
  lemma SbrkOverflows(p: Program, mem: Mem)
    requires mem.heapBreak == FM.PAGE
    ensures var i := Inst(Sbrk, 0, 1, Args(1, 0, 0, 0, 0, 0));
            var s := State([0, TWO64 - 1, 0, 0, 0, 0, 0, 0, 0, 0, 0, 0, 0], mem);
            InRange(s.regs) && Exec(p, i, s).Next? && Exec(p, i, s).config.state.regs[0] == TWO64 + FM.PAGE - 1
  {
    hide FM.Alter;
  }
}
