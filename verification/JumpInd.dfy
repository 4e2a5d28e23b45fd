/** The compiled dynamic jump: address checks in the scratch register, then a jump through the table
    stored below guest memory, against the interpreter's dynamic jump. */
module JumpInd {
  import opened Words
  import opened Wrappers
  import opened Isa
  import opened WordMasks
  import opened X86
  import opened CodeGen
  import opened Programs
  import opened AddressIndex
  import CF = ControlFlow
  import E = Engine
  import V = VmContext
  import M = Machine

  /** The code of jump_ind for a table of `len` entries; `halt` and `panic` are labels elsewhere. */
  function JumpIndCode(ra: nat, vx: word, halt: nat, panic: nat, len: nat): seq<Instr>
    requires ra < GUESTS
  {
    (if vx != 0 then [MOV(W64, TEMP, R(ra)), ADDI(TEMP, vx)] else [MOV(W64, TEMP, R(ra))])
    + JumpChecks(halt, panic, len)
  }

  function JumpChecks(halt: nat, panic: nat, len: nat): (code: seq<Instr>)
    ensures |code| == 12
  {
    [MOV(W32, TEMP, TEMP), CMPI32(TEMP, HALT_ADDRESS), JCC(Equal, halt),
     TEST32(TEMP, TEMP), JCC(Equal, panic), TESTI32(TEMP, 1), JCC(NotEqual, panic),
     SHR1(TEMP), DEC(TEMP), CMPI32(TEMP, len), JCC(AboveOrEqual, panic),
     JMPMEM(R15, TEMP, -(V.CalculateSize(len) as int))]
  }

  /** Where control goes from the scratch register's value, before any table is read. */
  datatype Route = ToHalt | ToPanic | ToEntry(index: nat)

  function RouteOf(a: nat, len: nat): Route
  {
    if a == HALT_ADDRESS then ToHalt
    else if a == 0 || a % 2 != 0 || a / 2 - 1 >= len then ToPanic
    else ToEntry(a / 2 - 1)
  }

  /** The exit that takes a route: two are labels, the third reads the table entry's address. */
  ghost predicate Takes(e: Exit, route: Route, halt: nat, panic: nat, len: nat, c: Cpu)
  {
    match route
    case ToHalt => e.Leave? && e.target == halt && Kept(c, e.c)
    case ToPanic => e.Leave? && e.target == panic && Kept(c, e.c)
    case ToEntry(i) => e.Indirect? && e.address == c.regs[R15] - V.CalculateSize(len) + 8 * i && Kept(c, e.c)
  }

  /** Only the scratch register and the flags changed. */
  ghost predicate Kept(c: Cpu, c': Cpu)
  {
    Guest(c') == Guest(c) && SameContext(c, c')
  }

  lemma {:induction false} NoLabel(code: seq<Instr>, pc: nat, name: nat)
    requires pc <= |code| && forall i :: pc <= i < |code| ==> code[i] != LABEL(name)
    ensures FindLabel(code, pc, name) == |code|
    decreases |code| - pc
  {
    if pc < |code| {
      NoLabel(code, pc + 1, name);
    }
  }

  lemma TakenLeaves(code: seq<Instr>, pc: nat, c: Cpu)
    requires pc < |code| && code[pc].JCC? && c.flags.Some? && Holds(code[pc].cond, c.flags.value)
    requires forall i :: pc < i < |code| ==> code[i] != LABEL(code[pc].target)
    ensures Run(code, pc, c) == Leave(code[pc].target, c)
  {
    hide Holds, Do;
    NoLabel(code, pc + 1, code[pc].target);
  }

  /** The scratch register holding v, with some flags. */
  function Scratch(c: Cpu, v: word, f: Option<Flags>): Cpu
  {
    Set(c, TEMP, v).(flags := f)
  }

  lemma ScratchKept(c: Cpu, v: word, f: Option<Flags>)
    ensures Kept(c, Scratch(c, v, f))
  {
    GuestTemp(c, v);
    GuestOfRegs(Set(c, TEMP, v), Scratch(c, v, f));
  }

  /** What a state with only the scratch register and flags changed takes, the original takes. */
  lemma TakesBack(e: Exit, route: Route, halt: nat, panic: nat, len: nat, c: Cpu, c': Cpu)
    requires Kept(c, c') && Takes(e, route, halt, panic, len, c')
    ensures Takes(e, route, halt, panic, len, c)
  {
    hide Guest;
  }

  lemma LowSelf(a: nat)
    requires a < TWO32
    ensures Bitwise(And, a, a, 32) == a && Bitwise(And, a, 1, 32) == a % 2
  {
    Pow2Values();
    hide Bitwise;
    AndSelf(a, 32);
    assert Pow2(1) == 2;
    MaskIsLow(a, 1, 32);
    ShrIsDiv(a, 1);
  }

  lemma RunThroughMemory(code: seq<Instr>, pc: nat, c: Cpu)
    requires pc < |code| && code[pc].JMPMEM?
    ensures Run(code, pc, c) == Indirect(Get(c, code[pc].base) + 8 * Get(c, code[pc].index) + code[pc].disp, c)
  {}

  /** From the aligned address to the table index and the flags of its bounds check. */
  lemma IndexRuns(code: seq<Instr>, halt: nat, panic: nat, len: nat, c: Cpu, a: nat)
    requires code == JumpChecks(halt, panic, len) && 0 < a < TWO32 && a % 2 == 0 && c.regs[TEMP] == a
    ensures var i := a / 2 - 1;
            Run(code, 7, c) == Run(code, 10, Scratch(c, i, Some(CmpFlags32(i, len))))
  {
    hide Run, CmpFlags32;
    var i: word := a / 2 - 1;
    var c1 := Scratch(c, a / 2, None);
    var c2 := Scratch(c, i, None);
    assert c2.regs == c1.regs[TEMP := i];
    RunStep(code, 7, c, c1);
    RunStep(code, 8, c1, c2);
    RunStep(code, 9, c2, Scratch(c, i, Some(CmpFlags32(i, len))));
  }

  lemma BoundMeans(i: nat, len: nat)
    requires i < TWO32 && len < TWO32
    ensures Holds(AboveOrEqual, CmpFlags32(i, len)) <==> i >= len
  {}

  /** Bounds check, and the jump through memory. */
  lemma BoundsCheck(code: seq<Instr>, halt: nat, panic: nat, len: nat, c: Cpu, a: nat)
    requires code == JumpChecks(halt, panic, len) && 0 < a < TWO32 && a % 2 == 0 && c.regs[TEMP] == a
    requires len < TWO32
    ensures Takes(Run(code, 7, c), if a / 2 - 1 >= len then ToPanic else ToEntry(a / 2 - 1), halt, panic, len, c)
  {
    hide Run, Guest, Do, CmpFlags32, Holds;
    var i: word := a / 2 - 1;
    var f := Some(CmpFlags32(i, len));
    var c3 := Scratch(c, i, f);
    ScratchKept(c, i, f);
    IndexRuns(code, halt, panic, len, c, a);
    BoundMeans(i, len);
    if i >= len {
      TakenLeaves(code, 10, c3);
    } else {
      RunNotTaken(code, 10, c3);
      RunThroughMemory(code, 11, c3);
    }
  }

  lemma TestsMean(c: Cpu, a: nat)
    requires a < TWO32 && c.regs[TEMP] == a
    ensures Do(TEST32(TEMP, TEMP), c) == Some(c.(flags := Some(TestFlags32(a))))
    ensures Do(TESTI32(TEMP, 1), c) == Some(c.(flags := Some(TestFlags32(a % 2))))
    ensures Holds(Equal, TestFlags32(a)) <==> a == 0
    ensures Holds(NotEqual, TestFlags32(a % 2)) <==> a % 2 != 0
  {
    hide Bitwise, Pow2, TestFlags32;
    LowSelf(a);
    ZeroMeans(a);
    ZeroMeans(a % 2);
  }

  lemma ZeroMeans(a: nat)
    ensures Holds(Equal, TestFlags32(a)) <==> a == 0
    ensures Holds(NotEqual, TestFlags32(a)) <==> a != 0
  {}

  lemma FlagsKept(c: Cpu, f: Option<Flags>)
    ensures Kept(c, c.(flags := f))
  {
    GuestOfRegs(c, c.(flags := f));
  }

  lemma AlignmentCheck(code: seq<Instr>, halt: nat, panic: nat, len: nat, c: Cpu, a: nat)
    requires code == JumpChecks(halt, panic, len) && 0 < a < TWO32 && c.regs[TEMP] == a && len < TWO32
    ensures Takes(Run(code, 5, c), if a % 2 != 0 || a / 2 - 1 >= len then ToPanic else ToEntry(a / 2 - 1), halt, panic, len, c)
  {
    hide Run, Guest, Do, TestFlags32, Holds, SameContext;
    TestsMean(c, a);
    var f := Some(TestFlags32(a % 2));
    var c1 := c.(flags := f);
    FlagsKept(c, f);
    RunStep(code, 5, c, c1);
    if a % 2 != 0 {
      TakenLeaves(code, 6, c1);
    } else {
      RunNotTaken(code, 6, c1);
      BoundsCheck(code, halt, panic, len, c1, a);
      TakesBack(Run(code, 7, c1), if a / 2 - 1 >= len then ToPanic else ToEntry(a / 2 - 1), halt, panic, len, c, c1);
    }
  }

  lemma ZeroCheck(code: seq<Instr>, halt: nat, panic: nat, len: nat, c: Cpu, a: nat)
    requires code == JumpChecks(halt, panic, len) && a < TWO32 && c.regs[TEMP] == a && len < TWO32
    requires a != HALT_ADDRESS
    ensures Takes(Run(code, 3, c), RouteOf(a, len), halt, panic, len, c)
  {
    hide Run, Guest, Do, TestFlags32, Holds, SameContext;
    TestsMean(c, a);
    var f := Some(TestFlags32(a));
    var c1 := c.(flags := f);
    FlagsKept(c, f);
    RunStep(code, 3, c, c1);
    if a == 0 {
      TakenLeaves(code, 4, c1);
    } else {
      RunNotTaken(code, 4, c1);
      AlignmentCheck(code, halt, panic, len, c1, a);
      TakesBack(Run(code, 5, c1), RouteOf(a, len), halt, panic, len, c, c1);
    }
  }

  lemma HaltMeans(c: Cpu)
    ensures var a := c.regs[TEMP] % TWO32;
            && Do(MOV(W32, TEMP, TEMP), c) == Some(Scratch(c, a, c.flags))
            && Do(CMPI32(TEMP, HALT_ADDRESS), Scratch(c, a, c.flags)) == Some(Scratch(c, a, Some(CmpFlags32(a, HALT_ADDRESS))))
            && (Holds(Equal, CmpFlags32(a, HALT_ADDRESS)) <==> a == HALT_ADDRESS)
  {}

  lemma AtHaltCheck(code: seq<Instr>, halt: nat, panic: nat, len: nat, c: Cpu)
    requires code == JumpChecks(halt, panic, len)
    ensures var a := c.regs[TEMP] % TWO32;
            Run(code, 0, c) == Run(code, 2, Scratch(c, a, Some(CmpFlags32(a, HALT_ADDRESS))))
  {
    hide Run, Do, CmpFlags32, Holds, Scratch;
    var a := c.regs[TEMP] % TWO32;
    var c1 := Scratch(c, a, c.flags);
    HaltMeans(c);
    RunStep(code, 0, c, c1);
    RunStep(code, 1, c1, Scratch(c, a, Some(CmpFlags32(a, HALT_ADDRESS))));
  }

  lemma HaltLeaves(code: seq<Instr>, halt: nat, panic: nat, len: nat, c: Cpu)
    requires code == JumpChecks(halt, panic, len) && c.flags.Some? && Holds(Equal, c.flags.value)
    ensures Run(code, 2, c) == Leave(halt, c)
  {
    hide Run, Do, Holds;
    TakenLeaves(code, 2, c);
  }

  lemma HaltPasses(code: seq<Instr>, halt: nat, panic: nat, len: nat, c: Cpu)
    requires code == JumpChecks(halt, panic, len) && c.flags.Some? && !Holds(Equal, c.flags.value)
    ensures Run(code, 2, c) == Run(code, 3, c)
  {
    hide Run, Do, Holds;
    RunNotTaken(code, 2, c);
  }

  /** All checks: 32-bit truncation, the halt address, then the table index. */
  lemma ChecksRun(halt: nat, panic: nat, len: nat, c: Cpu)
    requires len < TWO32
    ensures Takes(Run(JumpChecks(halt, panic, len), 0, c), RouteOf(c.regs[TEMP] % TWO32, len), halt, panic, len, c)
  {
    hide Run, Guest, Kept, Do, CmpFlags32, Holds, JumpChecks, V.CalculateSize;
    var code := JumpChecks(halt, panic, len);
    var a := c.regs[TEMP] % TWO32;
    var f := Some(CmpFlags32(a, HALT_ADDRESS));
    var c2 := Scratch(c, a, f);
    HaltMeans(c);
    ScratchKept(c, a, f);
    AtHaltCheck(code, halt, panic, len, c);
    if a == HALT_ADDRESS {
      HaltLeaves(code, halt, panic, len, c2);
    } else {
      HaltPasses(code, halt, panic, len, c2);
      ZeroCheck(code, halt, panic, len, c2, a);
      TakesBack(Run(code, 3, c2), RouteOf(a, len), halt, panic, len, c, c2);
    }
  }

  /** The compiled jump routes exactly as the 32-bit address says, for every register and immediate. */
  lemma JumpIndRoutes(ra: nat, vx: word, halt: nat, panic: nat, len: nat, c: Cpu)
    requires ra < GUESTS && len < TWO32
    ensures Takes(Run(JumpIndCode(ra, vx, halt, panic, len), 0, c),
                  RouteOf((Guest(c)[ra] as int + vx) % TWO32, len), halt, panic, len, c)
  {
    hide Run, Guest, JumpChecks, R, SameContext, RouteOf;
    var x := Guest(c)[ra];
    GuestAt(c, ra);
    var c1 := Set(c, TEMP, x);
    GuestTemp(c, x);
    var head := if vx != 0 then [MOV(W64, TEMP, R(ra)), ADDI(TEMP, vx)] else [MOV(W64, TEMP, R(ra))];
    var c2 := if vx != 0 then Scratch(c, U64(x as int + vx), None) else c1;
    RunStep(head, 0, c, c1);
    if vx != 0 {
      assert c1.regs[TEMP := U64(x as int + vx)] == c2.regs;
      RunStep(head, 1, c1, c2);
      ScratchKept(c, U64(x as int + vx), None);
    }
    RunEnd(head, c2);
    RunConcat(head, JumpChecks(halt, panic, len), 0, c, c2);
    ChecksRun(halt, panic, len, c2);
    LowOfSum(x, vx);
    TakesBack(Run(JumpChecks(halt, panic, len), 0, c2), RouteOf(c2.regs[TEMP] % TWO32, len), halt, panic, len, c, c2);
  }

  lemma LowOfSum(x: word, v: word)
    ensures U64(x as int + v) % TWO32 == (x as int + v) % TWO32
    ensures v == 0 ==> x % TWO32 == (x as int + v) % TWO32
  {
    var s := x as int + v;
    ModMod(s, s % TWO64, s / TWO64 * TWO32, TWO32);
  }

  // ------------------------------------------------------------ landing

  /** The word at an address below guest memory, where `block` ends at address `top`. */
  function WordBelow(block: seq<byte>, top: int, address: int): Option<nat>
  {
    var at := address - (top - |block|);
    if 0 <= at && at + 8 <= |block| then Some(FromLe(block[at..at + 8])) else None
  }

  /** Where the code of all opcodes ends. The panic label stands there, the halt label one byte on. */
  function CodeEnd(p: Program, cost: seq<nat>, codePointer: nat): nat
    requires |cost| == Size(p)
  {
    codePointer + Address(p, cost, Size(p))
  }

  /** The machine address the compiled jump goes to, for code ending at `end` and the stored context
      block; None if it reads outside the block. */
  function Landed(e: Exit, halt: nat, panic: nat, end: nat, block: seq<byte>, top: int): Option<nat>
  {
    match e
    case Leave(l, _) => if l == halt then Some(end + 1) else if l == panic then Some(end) else None
    case Indirect(address, _) => WordBelow(block, top, address)
    case _ => None
  }

  /** The code for what the interpreter does after its dynamic jump to a: at an opcode position that
      opcode's code, at the end of the bytecode, where it panics, the panic label; None in operand bytes,
      where it runs instructions that no code was assembled for. */
  function Destination(p: Program, cost: seq<nat>, codePointer: nat, a: nat): Option<nat>
    requires |cost| == Size(p)
  {
    var end := CodeEnd(p, cost, codePointer);
    match M.DynamicJump(p, a)
    case ToHalt => Some(end + 1)
    case ToPanic => Some(end)
    case ToPc(pc) =>
      if IsOpcode(p, pc) then Some(codePointer + Address(p, cost, pc)) else if pc < Size(p) then None else Some(end)
  }

  /** A block start that is no position of the code is its very end, and there the interpreter panics
      without changing anything. */
  lemma PastTheCodePanics(p: Program, pc: nat, s: M.State)
    requires pc in BasicBlocks(p) && pc >= Size(p)
    ensures pc == Size(p) && E.Step(M.Pvm(p), E.Config(pc, s)) == E.Raised(E.Panic, s)
  {
    hide BasicBlocks, M.Exec, Dispatch;
    if pc != 0 {
      var n := BlockOrigin(p, pc);
      EndInCode(p, n);
    }
    CF.EndOfCodePanics(p, E.Config(pc, s));
  }

  /** The table the recompiler stores: the machine address of every jump-table entry. */
  function Entries(p: Program, cost: seq<nat>, codePointer: nat): (t: seq<nat>)
    requires |cost| == Size(p)
    ensures |t| == |p.jumpTable|
  {
    seq(|p.jumpTable|, i requires 0 <= i < |p.jumpTable| => codePointer + PvmToMsn(p, cost, p.jumpTable[i]))
  }

  /** A table entry that is a block start and an opcode position is served; any other block start in the
      code is not; for the rest, where the interpreter panics, it takes that nothing is emitted from the
      opcode at or below the entry on. */
  ghost predicate Served(p: Program, cost: seq<nat>, entry: nat)
    requires |cost| == Size(p)
  {
    if entry in BasicBlocks(p) && entry < Size(p) then IsOpcode(p, entry)
    else
      var below := OpcodeBelow(p, entry);
      NothingFrom(p, cost, if below.Some? then below.value else 0)
  }

  /** The table entry the address selects, if it selects one. */
  function Selected(p: Program, a: nat): Option<nat>
  {
    var route := RouteOf(a, |p.jumpTable|);
    if route.ToEntry? then Some(p.jumpTable[route.index]) else None
  }

  lemma EntryFound(x: V.Context, top: int, i: nat)
    requires i < |x.jumpTable|
    ensures WordBelow(V.Encode(x), top, top - V.CalculateSize(|x.jumpTable|) + 8 * i) == Some(x.jumpTable[i] % TWO64)
  {
    hide FromLe, V.Encode;
    V.FieldsFromTheEnd(x);
    var s := V.Encode(x);
    assert FromLe(s[8 * i..8 * i + 8]) == x.jumpTable[i] % TWO64;
  }

  /** What the table holds for an entry is the interpreter's destination exactly when it is served. */
  lemma EntryServed(p: Program, cost: seq<nat>, codePointer: nat, a: nat)
    requires |cost| == Size(p) && RouteOf(a, |p.jumpTable|).ToEntry?
    ensures var j := p.jumpTable[RouteOf(a, |p.jumpTable|).index];
            Some(codePointer + PvmToMsn(p, cost, j)) == Destination(p, cost, codePointer, a) <==> Served(p, cost, j)
  {
    hide BasicBlocks, Address, NothingFrom;
    var j := p.jumpTable[RouteOf(a, |p.jumpTable|).index];
    if IsOpcode(p, j) {
      assert OpcodeBelow(p, j) == Some(j);
    }
    AtTheEnd(p, cost, j);
  }

  /** For every table length the compiled jump goes where the interpreter's goes, exactly when the entry
      the address selects, if any, is served. */
  lemma JumpIndLands(p: Program, cost: seq<nat>, codePointer: nat, x: V.Context, ra: nat, vx: word,
                     halt: nat, panic: nat, c: Cpu)
    requires ra < GUESTS && halt != panic && |p.jumpTable| < TWO32 && |cost| == Size(p)
    requires x.jumpTable == Entries(p, cost, codePointer) && forall t <- x.jumpTable :: t < TWO64
    ensures var a := (Guest(c)[ra] as int + vx) % TWO32;
            var e := Run(JumpIndCode(ra, vx, halt, panic, |p.jumpTable|), 0, c);
            var landed := Landed(e, halt, panic, CodeEnd(p, cost, codePointer), V.Encode(x), c.regs[R15]);
            && landed.Some?
            && (landed == Destination(p, cost, codePointer, a)
                <==> (Selected(p, a).Some? ==> Served(p, cost, Selected(p, a).value)))
  {
    hide Run, Guest, JumpIndCode, BasicBlocks, PvmToMsn, V.Encode, WordBelow, Served, CodeEnd, Destination;
    var len := |p.jumpTable|;
    var a := (Guest(c)[ra] as int + vx) % TWO32;
    JumpIndRoutes(ra, vx, halt, panic, len, c);
    var route := RouteOf(a, len);
    if route.ToEntry? {
      EntryFound(x, c.regs[R15], route.index);
      assert x.jumpTable[route.index] in x.jumpTable;
      EntryServed(p, cost, codePointer, a);
    } else {
      NoEntry(p, cost, codePointer, a);
    }
  }

  lemma NoEntry(p: Program, cost: seq<nat>, codePointer: nat, a: nat)
    requires |cost| == Size(p) && !RouteOf(a, |p.jumpTable|).ToEntry?
    ensures var end := CodeEnd(p, cost, codePointer);
            Destination(p, cost, codePointer, a) == Some(if RouteOf(a, |p.jumpTable|).ToHalt? then end + 1 else end)
  {
    hide BasicBlocks, Address;
  }

  // ------------------------------------------------------------ with the gas check

  predicate BlockOpcode(p: Program, entry: nat)
  {
    entry in BasicBlocks(p) && IsOpcode(p, entry)
  }

  /** The bytecode has no opcode at all, so that the whole code is the panic label, and the interpreter
      does not start inside it. */
  ghost predicate Empty(p: Program, entry: nat)
  {
    (forall i: nat :: !IsOpcode(p, i)) && (entry in BasicBlocks(p) ==> entry >= Size(p))
  }

  /** When every opcode is given room by its gas check, served entries are the block starts at opcode
      positions, and any entry where there is no code at all. */
  lemma ServedWithGas(p: Program, prologue: nat, sizes: seq<Option<nat>>, entry: nat)
    requires |sizes| == Size(p) && prologue > 0
    ensures Served(p, Costs(prologue, sizes), entry) <==> BlockOpcode(p, entry) || Empty(p, entry)
  {
    hide BasicBlocks, Costs;
    var cost := Costs(prologue, sizes);
    var below := OpcodeBelow(p, entry);
    if below.Some? {
      assert !NothingFrom(p, cost, below.value);
    } else if i: nat :| IsOpcode(p, i) {
      assert cost[i] > 0;
      assert !NothingFrom(p, cost, 0);
    }
  }

  /** So the compiled jump of metered code is right exactly for such entries. */
  lemma JumpIndLandsWithGas(p: Program, prologue: nat, sizes: seq<Option<nat>>, codePointer: nat, x: V.Context,
                            ra: nat, vx: word, halt: nat, panic: nat, c: Cpu)
    requires ra < GUESTS && halt != panic && |p.jumpTable| < TWO32 && |sizes| == Size(p) && prologue > 0
    requires x.jumpTable == Entries(p, Costs(prologue, sizes), codePointer) && forall t <- x.jumpTable :: t < TWO64
    ensures var cost := Costs(prologue, sizes);
            var a := (Guest(c)[ra] as int + vx) % TWO32;
            var e := Run(JumpIndCode(ra, vx, halt, panic, |p.jumpTable|), 0, c);
            var landed := Landed(e, halt, panic, CodeEnd(p, cost, codePointer), V.Encode(x), c.regs[R15]);
            landed == Destination(p, cost, codePointer, a)
            <==> (Selected(p, a).Some? ==> BlockOpcode(p, Selected(p, a).value) || Empty(p, Selected(p, a).value))
  {
    hide Run, Guest, JumpIndCode, V.Encode, Landed, Served, BlockOpcode, Empty, Destination, CodeEnd, Entries, Costs;
    var cost := Costs(prologue, sizes);
    var a := (Guest(c)[ra] as int + vx) % TWO32;
    JumpIndLands(p, cost, codePointer, x, ra, vx, halt, panic, c);
    var route := RouteOf(a, |p.jumpTable|);
    if route.ToEntry? {
      ServedWithGas(p, prologue, sizes, p.jumpTable[route.index]);
    }
  }

  /** With set bits at most 25 apart these are the block starts other than the end of the bytecode. */
  lemma ServedWellSpaced(p: Program, prologue: nat, sizes: seq<Option<nat>>, entry: nat)
    requires CF.WellSpaced(p) && |sizes| == Size(p) && prologue > 0
    ensures Served(p, Costs(prologue, sizes), entry) <==> entry in BasicBlocks(p) && entry != Size(p)
  {
    hide BasicBlocks, Costs, Served;
    ServedWithGas(p, prologue, sizes, entry);
    assert IsOpcode(p, 0);
    if entry in BasicBlocks(p) {
      CF.BlocksAtOpcodes(p, entry);
    }
  }

  /** An input where they part: a table entry pointing at the operand byte of a move. The interpreter
      panics; the compiled jump lands on the code of the move before it. */
  lemma StrayEntryLands(codePointer: nat, x: V.Context, c: Cpu, halt: nat, panic: nat)
    requires codePointer < TWO63 && halt != panic && Guest(c)[0] == 2
    requires x.jumpTable == [codePointer]
    ensures var p := ProgramData(1, [1], [100, 0x12, 0], [true, false, true]);
            var cost := [3, 0, 1];
            var end := CodeEnd(p, cost, codePointer);
            && Entries(p, cost, codePointer) == x.jumpTable && end == codePointer + 4
            && M.DynamicJump(p, 2) == M.ToPanic && Destination(p, cost, codePointer, 2) == Some(end)
            && Landed(Run(JumpIndCode(0, 0, halt, panic, 1), 0, c), halt, panic, end, V.Encode(x), c.regs[R15])
            == Some(codePointer)
  {
    hide Run, Guest, JumpIndCode, V.Encode, WordBelow, BasicBlocks;
    var p := ProgramData(1, [1], [100, 0x12, 0], [true, false, true]);
    var cost: seq<nat> := [3, 0, 1];
    NotABlock(p);
    assert Address(p, cost, 1) == 3 && Address(p, cost, 2) == 3;
    assert RouteOf(2, 1) == ToEntry(0);
    JumpIndRoutes(0, 0, halt, panic, 1, c);
    EntryFound(x, c.regs[R15], 0);
  }

  lemma NotABlock(p: Program)
    requires p == ProgramData(1, [1], [100, 0x12, 0], [true, false, true])
    ensures 1 !in BasicBlocks(p)
  {
    if 1 in BasicBlocks(p) {
      var n := BlockOrigin(p, 1);
    }
  }

  /** Another: a block start at the end of the bytecode, which every program that ends in a terminating
      instruction has. The interpreter goes there and panics; the compiled jump, rounded down, lands on
      the jump itself. */
  lemma EndOfCodeLands(codePointer: nat, k: nat, x: V.Context, c: Cpu, halt: nat, panic: nat, s: M.State)
    requires codePointer < TWO63 && k > 0 && halt != panic && Guest(c)[0] == 2
    requires x.jumpTable == [codePointer]
    ensures var p := ProgramData(1, [2], [50, 0], [true, false]);
            var cost := [k, 0];
            var end := CodeEnd(p, cost, codePointer);
            && Entries(p, cost, codePointer) == x.jumpTable && end == codePointer + k
            && M.DynamicJump(p, 2) == M.ToPc(2) && E.Step(M.Pvm(p), E.Config(2, s)) == E.Raised(E.Panic, s)
            && Destination(p, cost, codePointer, 2) == Some(end)
            && Landed(Run(JumpIndCode(0, 0, halt, panic, 1), 0, c), halt, panic, end, V.Encode(x), c.regs[R15])
            == Some(codePointer)
  {
    hide Run, Guest, JumpIndCode, V.Encode, WordBelow, BasicBlocks, M.Exec, E.Step, M.Pvm;
    var p := ProgramData(1, [2], [50, 0], [true, false]);
    var cost: seq<nat> := [k, 0];
    EndIsABlock(p);
    PastTheCodePanics(p, 2, s);
    assert Address(p, cost, 1) == k;
    assert RouteOf(2, 1) == ToEntry(0);
    JumpIndRoutes(0, 0, halt, panic, 1, c);
    EntryFound(x, c.regs[R15], 0);
  }

  lemma EndIsABlock(p: Program)
    requires p == ProgramData(1, [2], [50, 0], [true, false])
    ensures 2 in BasicBlocks(p)
  {
    hide BasicBlocks;
    assert NextOpcode(p, 1) == 2;
    assert IsBlockEnd(p, 0);
    BlockFollows(p, 0);
  }

  /** When the entry selected is a block start at an opcode position, the compiled jump lands on the
      machine address recorded for the position the interpreter jumps to. */
  lemma JumpIndLandsOnRecorded(p: Program, cost: seq<nat>, codePointer: nat, x: V.Context, ra: nat, vx: word,
                               halt: nat, panic: nat, c: Cpu)
    requires ra < GUESTS && halt != panic && |p.jumpTable| < TWO32 && |cost| == Size(p)
    requires x.jumpTable == Entries(p, cost, codePointer) && forall t <- x.jumpTable :: t < TWO64
    requires var entry := Selected(p, (Guest(c)[ra] as int + vx) % TWO32); entry.Some? ==> BlockOpcode(p, entry.value)
    ensures var a := (Guest(c)[ra] as int + vx) % TWO32;
            var e := Run(JumpIndCode(ra, vx, halt, panic, |p.jumpTable|), 0, c);
            var end := CodeEnd(p, cost, codePointer);
            var landed := Landed(e, halt, panic, end, V.Encode(x), c.regs[R15]);
            match M.DynamicJump(p, a)
            case ToHalt => landed == Some(end + 1)
            case ToPanic => landed == Some(end)
            case ToPc(pc) => IsOpcode(p, pc) && landed == Some(codePointer + Address(p, cost, pc))
  {
    hide Run, Guest, JumpIndCode, BasicBlocks, V.Encode, WordBelow, Landed, Address, CodeEnd;
    JumpIndLands(p, cost, codePointer, x, ra, vx, halt, panic, c);
  }

  // ------------------------------------------------------------ emission

  method EmitJumpInd(asm: Assembler, ra: nat, vx: word, halt: nat, panic: nat, len: nat)
    requires ra < GUESTS
    modifies asm`code
    ensures asm.code == old(asm.code) + JumpIndCode(ra, vx, halt, panic, len)
  {
    hide JumpChecks, R;
    if vx != 0 {
      asm.Emit(MOV(W64, TEMP, R(ra)));
      asm.Emit(ADDI(TEMP, vx));
    } else {
      asm.Emit(MOV(W64, TEMP, R(ra)));
    }
    EmitChecks(asm, halt, panic, len);
  }

  method EmitChecks(asm: Assembler, halt: nat, panic: nat, len: nat)
    modifies asm`code
    ensures asm.code == old(asm.code) + JumpChecks(halt, panic, len)
  {
    ghost var head := asm.code;
    asm.Emit(MOV(W32, TEMP, TEMP));
    asm.Emit(CMPI32(TEMP, HALT_ADDRESS));
    asm.Emit(JCC(Equal, halt));
    asm.Emit(TEST32(TEMP, TEMP));
    asm.Emit(JCC(Equal, panic));
    asm.Emit(TESTI32(TEMP, 1));
    asm.Emit(JCC(NotEqual, panic));
    assert asm.code == head + JumpChecks(halt, panic, len)[..7];
    ghost var half := asm.code;
    asm.Emit(SHR1(TEMP));
    asm.Emit(DEC(TEMP));
    asm.Emit(CMPI32(TEMP, len));
    asm.Emit(JCC(AboveOrEqual, panic));
    asm.Emit(JMPMEM(R15, TEMP, -(V.CalculateSize(len) as int)));
    assert asm.code == half + JumpChecks(halt, panic, len)[7..];
  }
}
