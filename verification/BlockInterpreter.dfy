/** The imperative engine: a program object with its skip cache, basic-block set and block cache, the
    compile loop, the block run and the outer loop. It computes `Engine.Interp`. */
module BlockInterpreter {
  import opened Words
  import opened Wrappers
  import opened Isa
  import opened Programs
  import opened Engine
  import opened Machine
  import opened BitTricks
  import opened RegisterOps
  import opened Handlers
  import FM = FlatMemory
  import PM = PagedMemory

  /** A compiled block with pre-decoded instructions. */
  datatype Block = Block(totalGas: nat, instructions: seq<Inst>)

  ghost predicate IsCompiled(p: Program, pc: nat, b: Block)
  {
    Lawful(Pvm(p)) && Compile(Pvm(p), pc) == Some(b.instructions) && b.totalGas == |b.instructions| * GAS
  }

  /** The block a prefix and the rest make together. */
  ghost function Prepend(prefix: seq<Inst>, rest: Option<seq<Inst>>): Option<seq<Inst>>
  {
    match rest
    case None => None
    case Some(r) => Some(prefix + r)
  }

  lemma PrependLaws(a: seq<Inst>, b: seq<Inst>, rest: Option<seq<Inst>>)
    ensures Prepend([], rest) == rest
    ensures Prepend(a, Prepend(b, rest)) == Prepend(a + b, rest)
  {
    if rest.Some? {
      assert [] + rest.value == rest.value;
      assert a + (b + rest.value) == a + b + rest.value;
    }
  }

  class InterpreterProgram {
    const data: Program
    var skipCache: seq<nat>
    var basicBlocks: seq<nat>
    var basicBlocksSet: set<int>
    var execBlocks: map<nat, Block>

    /** The caches hold what they cache: skips and basic blocks of the program, and for every cached pc
        exactly what compiling it afresh would give. */
    ghost predicate Valid()
      reads this
      ensures Valid() ==> Lawful(Pvm(data))
    {
      && |skipCache| == Size(data) && (forall i :: 0 <= i < |skipCache| ==> skipCache[i] == Skip(data, i))
      && basicBlocksSet == BasicBlocks(data)
      && Lawful(Pvm(data))
      && (forall pc :: pc in execBlocks ==> IsCompiled(data, pc, execBlocks[pc]))
    }

    constructor (data: Program)
      ensures Valid() && this.data == data && execBlocks == map[]
    {
      this.data := data;
      skipCache := seq(Size(data), _ => 0);
      basicBlocks := [0];
      basicBlocksSet := {};
      execBlocks := map[];
      new;
      PvmLawful(data);
      FillSkipCache();
      FindBasicBlocks();
    }

    /** For every position, searches forward for the next set bit. */
    method FillSkipCache()
      requires |skipCache| == Size(data)
      modifies this`skipCache
      ensures |skipCache| == Size(data) && forall i :: 0 <= i < |skipCache| ==> skipCache[i] == Skip(data, i)
    {
      var bitmaskLen := Size(data);
      for i := 0 to bitmaskLen
        invariant |skipCache| == bitmaskLen
        invariant forall k :: 0 <= k < i ==> skipCache[k] == Skip(data, k)
      {
        var skipValue := bitmaskLen;
        ghost var found := false;
        for j := i + 1 to bitmaskLen + 1
          invariant !found && skipValue == bitmaskLen
          invariant forall k: nat :: i < k < j ==> !OpcodeAt(data, k)
        {
          if OpcodeAt(data, j) {
            skipValue := j - i - 1;
            found := true;
            SkipMeaning(data, i, j);
            break;
          }
        }
        if !found {
          assert OpcodeAt(data, bitmaskLen);
        }
        skipCache := skipCache[i := if skipValue < MAX_SKIP then skipValue else MAX_SKIP];
      }
    }

    method FindBasicBlocks()
      requires |skipCache| == Size(data) && forall i :: 0 <= i < |skipCache| ==> skipCache[i] == Skip(data, i)
      requires basicBlocks == [0]
      modifies this`basicBlocks, this`basicBlocksSet
      ensures basicBlocksSet == BasicBlocks(data)
    {
      hide Skip, IsBlockEnd;
      for n := 0 to Size(data)
        invariant forall x :: x in basicBlocks <==> x == 0 || exists k :: 0 <= k < n && IsBlockEnd(data, k) && x == k + 1 + Skip(data, k)
      {
        var ends := EndsBlockAt(n);
        if ends {
          basicBlocks := basicBlocks + [n + 1 + skipCache[n]];
        }
      }
      basicBlocksSet := set x | x in basicBlocks;
    }

    method EndsBlockAt(n: nat) returns (ends: bool)
      requires n < Size(data)
      ensures ends == IsBlockEnd(data, n)
    {
      var fn := Dispatch(data.code[n]);
      ends := data.bitmask[n] && fn.Some? && Terminating(fn.value);
    }

    /** The cached skip; past the end of code there is none. */
    function SkipAt(pc: nat): (s: nat)
      requires Valid()
      reads this
      ensures s == Skip(data, pc)
    {
      if pc < |skipCache| then skipCache[pc] else 0
    }

    // ---------------------------------------------------------------- control transfer

    /** Where a branch goes; None panics. */
    method Branch(i: Inst, taken: bool) returns (r: Option<nat>)
      requires Valid()
      ensures r == BranchTarget(data, i, taken)
    {
      var counter := i.counter;
      if taken {
        if i.args.target !in basicBlocksSet {
          return None;
        }
        counter := i.args.target;
      }
      if counter != i.counter {
        return Some(counter);
      }
      return Some(i.counter + i.skip + 1);
    }

    method Djump(a: nat) returns (r: Dynamic)
      requires Valid()
      ensures r == DynamicJump(data, a)
    {
      if a == TWO32 - TWO16 {
        return ToHalt;
      }
      var index := a / 2 - 1;
      if a == 0 || index >= |data.jumpTable| || a % 2 != 0 || data.jumpTable[index] !in basicBlocksSet {
        return ToPanic;
      }
      return ToPc(data.jumpTable[index]);
    }

    // ---------------------------------------------------------------- decoding

    /** chi of n code bytes at a width that the bytes may fall short of. */
    method Immediate(at: nat, n: nat, width: nat) returns (v: nat)
      requires at + n <= Size(data) + PADDING && n <= width <= 8
      ensures v == U64(Signed(Imm(data, at, n), width))
    {
      hide Chi, Signed;
      var value := Imm(data, at, n);
      Pow2Mono(8 * n, 8 * width);
      ChiSignExtends(value, width);
      v := Chi(value, width);
    }

    /** A code position plus a signed offset; no offset bytes mean the position itself. */
    method Offset(pc: nat, at: nat, n: nat, width: nat) returns (target: int)
      requires at + n <= Size(data) + PADDING && n <= width && (width == 0 || n > 0)
      ensures target == pc + Signed(Imm(data, at, n), width)
    {
      target := if width > 0 then pc + Signed(Imm(data, at, n), width) else pc;
    }

    method GetProps(pc: nat, layout: Layout, skip: nat) returns (x: Args)
      requires layout == NoOperands || pc < Size(data)
      ensures x == Operands(data, pc, layout, skip)
    {
      if layout == NoOperands {
        x := Args(0, 0, 0, 0, 0, 0);
      } else if layout == TwoImm || layout == RegTwoImm || layout == RegImmOffset || layout == TwoRegTwoImm {
        x := GetTwoImmediates(pc, layout, skip);
      } else {
        x := GetOneImmediate(pc, layout, skip);
      }
    }

    method GetOneImmediate(pc: nat, layout: Layout, skip: nat) returns (x: Args)
      requires layout != NoOperands && pc < Size(data)
      requires layout != TwoImm && layout != RegTwoImm && layout != RegImmOffset && layout != TwoRegTwoImm
      ensures x == Operands(data, pc, layout, skip)
    {
      hide Signed, Imm, Zeta, U64;
      var b1, b2 := Zeta(data, pc + 1), Zeta(data, pc + 2);
      var lo, hi := Clamp12(b1 % 16), Clamp12(b1 / 16);
      var short, long := Clamp4(skip - 1), Clamp4(skip);
      match layout {
        case OneImm =>
          var vx := Immediate(pc + 1, long, long);
          x := Args(0, 0, 0, vx, 0, 0);
        case RegImm64 => x := Args(lo, 0, 0, Imm(data, pc + 2, 8), 0, 0);
        case OneOffset =>
          var target := Offset(pc, pc + 1, long, long);
          x := Args(0, 0, 0, 0, 0, target);
        case RegImm =>
          var vx := Immediate(pc + 2, short, short);
          x := Args(lo, 0, 0, vx, 0, 0);
        case TwoReg => x := Args(hi, 0, lo, 0, 0, 0);
        case TwoRegImm =>
          var vx := Immediate(pc + 2, short, short);
          x := Args(lo, hi, 0, vx, 0, 0);
        case TwoRegOffset =>
          var target := Offset(pc, pc + 2, short, short);
          x := Args(lo, hi, 0, 0, 0, target);
        case ThreeReg => x := Args(lo, hi, Clamp12(b2), 0, 0, 0);
      }
    }

    method GetTwoImmediates(pc: nat, layout: Layout, skip: nat) returns (x: Args)
      requires pc < Size(data)
      requires layout == TwoImm || layout == RegTwoImm || layout == RegImmOffset || layout == TwoRegTwoImm
      ensures x == Operands(data, pc, layout, skip)
    {
      hide Operands;
      match layout {
        case TwoImm => x := GetPlainPair(pc, layout, skip);
        case RegTwoImm => x := GetPlainPair(pc, layout, skip);
        case RegImmOffset => x := GetImmOffset(pc, skip);
        case TwoRegTwoImm => x := GetRegTwoCut(pc, skip);
      }
    }

    method GetPlainPair(pc: nat, layout: Layout, skip: nat) returns (x: Args)
      requires pc < Size(data) && (layout == TwoImm || layout == RegTwoImm)
      ensures x == Operands(data, pc, layout, skip)
    {
      hide Signed, Imm, Zeta, U64;
      var b1 := Zeta(data, pc + 1);
      var lx := if layout == TwoImm then Clamp4(b1) else Clamp4(b1 / 16 % 8);
      var ly := Clamp4(skip - lx - 1);
      var vx := Immediate(pc + 2, lx, lx);
      var vy := Immediate(pc + 2 + lx, ly, ly);
      x := Args(if layout == TwoImm then 0 else Clamp12(b1 % 16), 0, 0, vx, vy, 0);
    }

    /** The window is seven code bytes, one short of the longest operand pair. */
    method GetImmOffset(pc: nat, skip: nat) returns (x: Args)
      requires pc < Size(data)
      ensures x == Operands(data, pc, RegImmOffset, skip)
    {
      hide Signed, Imm, Zeta, U64, Clamp12, Clamp4;
      var b1 := Zeta(data, pc + 1);
      var lx := Clamp4(b1 / 16 % 8);
      var ly := Clamp4(skip - lx - 1);
      var vx := Immediate(pc + 2, lx, lx);
      var target := Offset(pc, pc + 2 + lx, Least(ly, 6 - lx), ly);
      x := Args(Clamp12(b1 % 16), 0, 0, vx, 0, target);
    }

    /** The window is nine code bytes, one short of the longest operand pair. */
    method GetRegTwoCut(pc: nat, skip: nat) returns (x: Args)
      requires pc < Size(data)
      ensures x == Operands(data, pc, TwoRegTwoImm, skip)
    {
      hide Signed, Imm, Zeta, U64, Clamp12, Clamp4;
      var b1, b2 := Zeta(data, pc + 1), Zeta(data, pc + 2);
      var lx := Clamp4(b2 % 8);
      var ly := Clamp4(skip - lx - 2);
      var vx := Immediate(pc + 3, lx, lx);
      var vy := Immediate(pc + 3 + lx, Least(ly, 7 - lx), ly);
      x := Args(Clamp12(b1 % 16), Clamp12(b1 / 16), 0, vx, vy, 0);
    }

    // ---------------------------------------------------------------- compiling

    /** Compiles the block at startPc; None stands for the exception an unknown opcode or a position
        past the padding raises. */
    method CompileBlock(startPc: nat) returns (r: Option<Block>)
      requires Valid()
      ensures match r
              case None => Compile(Pvm(data), startPc) == None
              case Some(b) => IsCompiled(data, startPc, b)
    {
      hide Exec, Operands, Dispatch, Skip;
      ghost var m := Pvm(data);
      var compiled: seq<Inst> := [];
      var currentPc, totalGas := startPc, 0;
      PrependLaws([], [], Compile(m, startPc));
      while true
        invariant totalGas == |compiled| * GAS
        invariant Compile(m, startPc) == Prepend(compiled, Compile(m, currentPc))
        decreases Size(data) + PADDING - currentPc
      {
        if currentPc >= Size(data) + PADDING {
          return None;
        }
        var handler := Dispatch(Zeta(data, currentPc));
        if handler.None? {
          return None;
        }
        var skip := SkipAt(currentPc);
        if currentPc >= Size(data) {
          PaddingTraps(data, currentPc);
        }
        var args := GetProps(currentPc, LayoutOf(handler.value), skip);
        var inst := Inst(handler.value, currentPc, skip, args);
        assert Decode(data, currentPc) == Some(inst);
        if !Terminating(inst.fn) {
          PrependLaws(compiled, [inst], Compile(m, currentPc + 1 + skip));
        }
        compiled := compiled + [inst];
        totalGas := totalGas + GAS;
        if Terminating(inst.fn) {
          break;
        }
        currentPc := currentPc + 1 + skip;
      }
      return Some(Block(totalGas, compiled));
    }

    /** From the cache, or compiled and put there. */
    method GetBlock(pc: nat) returns (r: Option<Block>)
      requires Valid()
      modifies this`execBlocks
      ensures Valid()
      ensures match r
              case None => Compile(Pvm(data), pc) == None && execBlocks == old(execBlocks)
              case Some(b) => IsCompiled(data, pc, b) && execBlocks == old(execBlocks)[pc := b]
    {
      if pc in execBlocks {
        assert execBlocks == execBlocks[pc := execBlocks[pc]];
        return Some(execBlocks[pc]);
      }
      r := CompileBlock(pc);
      if r.Some? {
        execBlocks := execBlocks[pc := r.value];
      }
    }

    // ---------------------------------------------------------------- running

    /** Runs one handler. */
    method Handle(i: Inst, registers: array<nat>, memory: PM.Memory) returns (r: Returned)
      requires Valid() && registers.Length == REGISTERS && memory.Valid() && Decode(data, i.counter) == Some(i)
      modifies registers, memory, memory.rPages, memory.wPages, memory.Stored()
      ensures Valid() && memory.Valid() && fresh(memory.Repr() - old(memory.Repr()))
      ensures Matches(Exec(data, i, State(old(registers[..]), old(memory.flat))), r, registers[..], memory.flat)
    {
      hide Operands, Value3, Value2, Dispatch, BasicBlocks, Valid, PM.Memory.Valid;
      DispatchedSizes(Zeta(data, i.counter));
      var fn := i.fn;
      if fn.StoreImm? || fn.StoreU? || fn.StoreImmInd? || fn.StoreInd? {
        r := HandleStore(i, registers, memory);
      } else if fn.LoadU? || fn.LoadI? || fn.LoadInd? {
        r := HandleLoad(i, registers, memory);
      } else if fn.Sbrk? {
        r := GrowHeap(i, registers, memory);
      } else {
        r := HandleRegisters(i, registers, memory.flat);
      }
    }

    method HandleStore(i: Inst, registers: array<nat>, memory: PM.Memory) returns (r: Returned)
      requires registers.Length == REGISTERS && memory.Valid()
      requires i.fn.StoreImm? || i.fn.StoreU? || i.fn.StoreImmInd? || i.fn.StoreInd?
      modifies memory`pages, memory`hotNum, memory`hotData, memory`hotWritable, memory`flat, memory.Stored()
      ensures memory.Valid() && fresh(memory.Stored() - old(memory.Stored())) && registers[..] == old(registers[..])
      ensures Matches(Exec(data, i, State(registers[..], old(memory.flat))), r, registers[..], memory.flat)
    {
      hide Storing, PM.Memory.Valid, BasicBlocks;
      var x := i.args;
      match i.fn {
        case StoreImm(n) => r := StoreFrom(i, x.vx, x.vy, n, registers, memory);
        case StoreU(n) => r := StoreFrom(i, x.vx, registers[x.ra], n, registers, memory);
        case StoreImmInd(n) => r := StoreFrom(i, registers[x.ra] + x.vx, x.vy, n, registers, memory);
        case StoreInd(n) => r := StoreFrom(i, registers[x.rb] + x.vx, registers[x.ra], n, registers, memory);
      }
    }

    method HandleLoad(i: Inst, registers: array<nat>, memory: PM.Memory) returns (r: Returned)
      requires registers.Length == REGISTERS && memory.Valid()
      requires (i.fn.LoadU? || i.fn.LoadI? || i.fn.LoadInd?) && KnownSizes(i.fn)
      modifies registers, memory`hotNum, memory`hotData, memory`hotWritable
      ensures memory.Valid()
      ensures Matches(Exec(data, i, State(old(registers[..]), old(memory.flat))), r, registers[..], memory.flat)
    {
      hide Loading;
      var x := i.args;
      match i.fn {
        case LoadU(n) => r := LoadInto(i, x.ra, x.vx, n, false, false, registers, memory);
        case LoadI(n) => r := LoadInto(i, x.ra, x.vx, n, true, true, registers, memory);
        case LoadInd(n, signed) => r := LoadInto(i, x.ra, registers[x.rb] + x.vx, n, signed, false, registers, memory);
      }
    }

    /** Handlers that leave memory alone. */
    method HandleRegisters(i: Inst, registers: array<nat>, ghost mem: Mem) returns (r: Returned)
      requires Valid() && registers.Length == REGISTERS && Decode(data, i.counter) == Some(i)
      requires !(i.fn.StoreImm? || i.fn.StoreU? || i.fn.StoreImmInd? || i.fn.StoreInd?)
      requires !(i.fn.LoadU? || i.fn.LoadI? || i.fn.LoadInd? || i.fn.Sbrk?)
      modifies registers
      ensures Matches(Exec(data, i, State(old(registers[..]), mem)), r, registers[..], mem)
    {
      hide Operands, Value3, Value2, Dispatch, BasicBlocks;
      var x := i.args;
      match i.fn {
        case Trap => r := Err(Panic);
        case Fallthrough => r := Ret(Continue, i.counter + i.skip + 1);
        case Ecalli => r := Ret(Host(x.vx), i.counter + i.skip + 1);
        case LoadImm64 => r := Assign(i, x.ra, x.vx, registers);
        case LoadImm => r := Assign(i, x.ra, x.vx, registers);
        case AluImm(_, _) => r := HandleAluImm(i, registers, mem);
        case Alu(_) => r := HandleAlu(i, registers, mem);
        case Unary(_) => r := HandleUnary(i, registers, mem);
        case Jump => r := HandleBranch(i, registers, mem);
        case LoadImmJump => r := HandleBranch(i, registers, mem);
        case BranchImm(_, _) => r := HandleBranch(i, registers, mem);
        case Branch(_, _) => r := HandleBranch(i, registers, mem);
        case JumpInd => r := HandleDynamicJump(i, registers, mem);
        case LoadImmJumpInd => r := HandleDynamicJump(i, registers, mem);
      }
    }

    method Assign(i: Inst, rd: RegIndex, v: nat, registers: array<nat>) returns (r: Returned)
      requires registers.Length == REGISTERS
      modifies registers
      ensures r == Ret(Continue, Following(i)) && registers[..] == old(registers[..])[rd := v]
    {
      registers[rd] := v;
      r := Ret(Continue, i.counter + i.skip + 1);
    }

    method HandleAluImm(i: Inst, registers: array<nat>, ghost mem: Mem) returns (r: Returned)
      requires registers.Length == REGISTERS && i.fn.AluImm? && Decode(data, i.counter) == Some(i)
      modifies registers
      ensures Matches(Exec(data, i, State(old(registers[..]), mem)), r, registers[..], mem)
    {
      hide Operands, Dispatch, Value3, HasImmediateForm, DivisionRaises;
      var x := i.args;
      DispatchedImmediates(Zeta(data, i.counter));
      ImmediatesNeverRaise(i.fn.op, i.fn.alt, registers[x.rb]);
      ImmediatesNeverRaise(i.fn.op, i.fn.alt, x.vx);
      var v := ComputeImm(i.fn.op, i.fn.alt, registers[x.rb], x.vx, registers[x.ra]);
      registers[x.ra] := v;
      r := Ret(Continue, i.counter + i.skip + 1);
    }

    method HandleAlu(i: Inst, registers: array<nat>, ghost mem: Mem) returns (r: Returned)
      requires registers.Length == REGISTERS && i.fn.Alu?
      modifies registers
      ensures Matches(Exec(data, i, State(old(registers[..]), mem)), r, registers[..], mem)
    {
      hide Value3;
      var x := i.args;
      if DivisionRaises(i.fn.op, registers[x.rb]) {
        return Err(Crash);
      }
      var v := Compute3(i.fn.op, registers[x.ra], registers[x.rb], registers[x.rd]);
      registers[x.rd] := v;
      r := Ret(Continue, i.counter + i.skip + 1);
    }

    method HandleUnary(i: Inst, registers: array<nat>, ghost mem: Mem) returns (r: Returned)
      requires registers.Length == REGISTERS && i.fn.Unary? && Decode(data, i.counter) == Some(i)
      modifies registers
      ensures Matches(Exec(data, i, State(old(registers[..]), mem)), r, registers[..], mem)
    {
      hide Operands, Dispatch, Value2;
      var x := i.args;
      DispatchedSizes(Zeta(data, i.counter));
      if i.fn.op2 == ReverseBytes && registers[x.ra] >= TWO64 {
        return Err(Crash);
      }
      var v := Compute2(i.fn.op2, registers[x.ra]);
      registers[x.rd] := v;
      r := Ret(Continue, i.counter + i.skip + 1);
    }

    method HandleDynamicJump(i: Inst, registers: array<nat>, ghost mem: Mem) returns (r: Returned)
      requires Valid() && registers.Length == REGISTERS && (i.fn.JumpInd? || i.fn.LoadImmJumpInd?)
      modifies registers
      ensures Matches(Exec(data, i, State(old(registers[..]), mem)), r, registers[..], mem)
    {
      var x := i.args;
      var ra, rb := registers[x.ra], registers[x.rb];
      var a := if i.fn.JumpInd? then (ra + x.vx) % TWO32 else (rb + x.vy) % TWO32;
      if i.fn.LoadImmJumpInd? {
        registers[x.ra] := x.vx;
      }
      var d := Djump(a);
      match d {
        case ToHalt => r := Ret(Halt, i.counter);
        case ToPanic => r := Err(Panic);
        case ToPc(pc) => r := Ret(Continue, pc);
      }
    }

    method HandleBranch(i: Inst, registers: array<nat>, ghost mem: Mem) returns (r: Returned)
      requires Valid() && registers.Length == REGISTERS
      requires i.fn.Jump? || i.fn.LoadImmJump? || i.fn.BranchImm? || i.fn.Branch?
      modifies registers
      ensures Matches(Exec(data, i, State(old(registers[..]), mem)), r, registers[..], mem)
    {
      hide BasicBlocks, BranchTarget, Signed, Compare;
      var x := i.args;
      var ra, rb := registers[x.ra], registers[x.rb];
      SignedWidths(ra);
      SignedWidths(rb);
      SignedWidths(x.vx);
      var taken := true;
      match i.fn {
        case BranchImm(c, signed) =>
          taken := if signed then Compare(c, Signed(ra, 8), Signed(x.vx, 8)) else Compare(c, ra, x.vx);
        case Branch(c, signed) =>
          taken := if signed then Compare(c, Signed(ra, 8), Signed(rb, 8)) else Compare(c, ra, rb);
        case LoadImmJump => registers[x.ra] := x.vx;
        case Jump =>
      }
      var target := Branch(i, taken);
      if target.None? {
        return Err(Panic);
      }
      r := Ret(Continue, target.value);
    }

    /** Runs a compiled block from its first instruction. */
    method ExecuteBlock(startPc: nat, block: Block, registers: array<nat>, memory: PM.Memory)
      returns (r: Returned, charge: nat)
      requires Valid() && registers.Length == REGISTERS && memory.Valid() && IsCompiled(data, startPc, block)
      modifies registers, memory, memory.rPages, memory.wPages, memory.Stored()
      ensures Valid() && memory.Valid() && fresh(memory.Repr() - old(memory.Repr()))
      ensures BlockMatches(RunBlock(Pvm(data), block.instructions, 0, State(old(registers[..]), old(memory.flat))),
                           r, charge, registers[..], memory.flat)
    {
      hide Exec, Decode, Compile, RunBlock, BasicBlocks, Skip, Valid, PM.Memory.Valid;
      ghost var m := Pvm(data);
      var b := block.instructions;
      CompiledBlockShape(m, startPc, b);
      ghost var start := State(registers[..], memory.flat);
      for i := 0 to |b|
        invariant memory.Valid() && fresh(memory.Repr() - old(memory.Repr()))
        invariant i < |b|
        invariant RunBlock(m, b, 0, start) == RunBlock(m, b, i, State(registers[..], memory.flat))
      {
        ghost var s := State(registers[..], memory.flat);
        assert m.fetch(m.at(b[i])) == Some(b[i]);
        r := Handle(b[i], registers, memory);
        BlockUnfolds(data, b, i, s);
        match r {
          case Err(_) => return r, 0;
          case Ret(status, _) =>
            if Terminating(b[i].fn) {
              return r, block.totalGas;
            }
            if status != Continue {
              return r, i + 1;
            }
        }
      }
    }
  }

  /** What a block run reports, against the specification. */
  ghost predicate BlockMatches(run: BlockRun<State>, r: Returned, charge: nat, regs: seq<nat>, mem: FM.Flat)
  {
    match run
    case Leaves(status, c, gas) =>
      r == Ret(status, c.pc) && charge == gas && regs == c.state.regs && mem == c.state.mem
    case Breaks(e, s, _) => r == Err(e) && regs == s.regs && mem == s.mem
  }

  /** One step of the block run. */
  lemma BlockUnfolds(p: Program, b: seq<Inst>, i: nat, s: State)
    requires i < |b|
    ensures RunBlock(Pvm(p), b, i, s) ==
            match Exec(p, b[i], s)
            case Raised(e, s') => Breaks(e, s', i)
            case Next(status, c) =>
              if Terminating(b[i].fn) then Leaves(status, c, |b| * GAS)
              else if status != Continue then Leaves(status, c, i + 1)
              else if i + 1 == |b| then Leaves(status, c, |b| * GAS)
              else RunBlock(Pvm(p), b, i + 1, c.state)
  {
    hide Exec;
  }

  lemma NothingCompiled(m: Semantics<Inst, State>, c: Config<State>, gas: int)
    requires Lawful(m) && Compile(m, c.pc) == None
    ensures Interp(m, c, gas) == Exit(Faulted(Crash), c, gas)
  {}

  /** One turn of the loop, in terms of what a block run reports. */
  lemma TurnUnfolds(p: Program, c: Config<State>, gas: int, block: Block, r: Returned, charge: nat, regs: Regs, mem: Mem)
    requires IsCompiled(p, c.pc, block)
    requires BlockMatches(RunBlock(Pvm(p), block.instructions, 0, c.state), r, charge, regs, mem)
    ensures r.Ret? ==> charge >= 1
    ensures Interp(Pvm(p), c, gas) ==
            match r
            case Err(e) => Exit(Faulted(e), Config(c.pc, State(regs, mem)), gas)
            case Ret(status, next) =>
              var c', rest := Config(next, State(regs, mem)), gas - charge;
              if rest < 0 then Exit(OutOfGas, c', rest)
              else
                match status
                case Halt => Exit(Halted, c', rest)
                case Host(x) => Exit(HostCall(x), c', rest)
                case Continue => Interp(Pvm(p), c', rest)
  {
    hide Exec, Decode, Compile, RunBlock, BasicBlocks, Skip, Pvm;
  }

  /** The outer loop: block after block, until the gas runs out, the program halts or calls the host,
      or a block raises. Registers and memory are changed in place. `Faulted(Crash)` stands for an
      exception the loop passes on. */
  method Execute(program: InterpreterProgram, programCounter: nat, gas: int, registers: array<nat>, memory: PM.Memory)
    returns (status: ExitStatus, pc: nat, remainingGas: int)
    requires program.Valid() && registers.Length == REGISTERS && memory.Valid()
    modifies program`execBlocks, registers, memory, memory.rPages, memory.wPages, memory.Stored()
    ensures program.Valid() && memory.Valid() && fresh(memory.Repr() - old(memory.Repr()))
    ensures Interp(Pvm(program.data), Config(programCounter, State(old(registers[..]), old(memory.flat))), gas)
         == Exit(status, Config(pc, State(registers[..], memory.flat)), remainingGas)
  {
    hide Exec, Decode, Compile, RunBlock, BasicBlocks, Skip, BlockMatches, Interp, Pvm,
      InterpreterProgram.Valid, PM.Memory.Valid;
    ghost var m := Pvm(program.data);
    ghost var c := Config(programCounter, State(registers[..], memory.flat));
    pc := programCounter;
    remainingGas := gas;
    while true
      invariant program.Valid() && memory.Valid() && fresh(memory.Repr() - old(memory.Repr()))
      invariant remainingGas == gas || remainingGas >= 0
      invariant Interp(m, c, gas) == Interp(m, Config(pc, State(registers[..], memory.flat)), remainingGas)
      decreases if remainingGas < 0 then 0 else remainingGas + 1
    {
      var block := program.GetBlock(pc);
      ghost var s0 := State(registers[..], memory.flat);
      if block.None? {
        NothingCompiled(m, Config(pc, s0), remainingGas);
        return Faulted(Crash), pc, remainingGas;
      }
      var r, gasCost := program.ExecuteBlock(pc, block.value, registers, memory);
      TurnUnfolds(program.data, Config(pc, s0), remainingGas, block.value, r, gasCost, registers[..], memory.flat);
      match r {
        case Err(e) => return Faulted(e), pc, remainingGas;
        case Ret(s, next) =>
          pc := next;
          remainingGas := remainingGas - gasCost;
          if remainingGas < 0 {
            return OutOfGas, pc, remainingGas;
          }
          match s {
            case Halt => return Halted, pc, remainingGas;
            case Host(x) => return HostCall(x), pc, remainingGas;
            case Continue =>
          }
      }
    }
  }
}
