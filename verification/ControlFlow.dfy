/** Control-flow and register safety of whole PVM runs. */
module ControlFlow {
  import opened Words
  import opened Wrappers
  import opened Isa
  import opened Programs
  import opened Engine
  import opened Machine

  /** Bit 0 of the bitmask is set, and from every opcode position the next one, or the end of code, is
      at most 25 bytes on. */
  ghost predicate WellSpaced(p: Program)
  {
    && Size(p) > 0 && p.bitmask[0]
    && forall n: nat :: n < Size(p) && p.bitmask[n] ==> NextOpcode(p, n + 1) - n <= MAX_SKIP + 1
  }

  /** A set bit of the bitmask, or exactly the end of code. */
  predicate AtOpcode(p: Program, pc: int)
  {
    0 <= pc <= Size(p) && OpcodeAt(p, pc)
  }

  lemma FollowingIsOpcode(p: Program, n: nat)
    requires WellSpaced(p) && n < Size(p) && p.bitmask[n]
    ensures n + 1 + Skip(p, n) == NextOpcode(p, n + 1) && AtOpcode(p, n + 1 + Skip(p, n))
  {
    hide NextOpcode;
    assert NextOpcode(p, n + 1) - n <= MAX_SKIP + 1;
  }

  /** Blocks begin only at opcode positions or at the end of code. */
  lemma BlocksAtOpcodes(p: Program, pc: int)
    requires WellSpaced(p) && pc in BasicBlocks(p)
    ensures AtOpcode(p, pc)
  {
    hide BasicBlocks, Dispatch, NextOpcode, Skip;
    if pc != 0 {
      var n := BlockOrigin(p, pc);
      FollowingIsOpcode(p, n);
    }
  }

  /** Running off the end of code panics. */
  lemma EndOfCodePanics(p: Program, c: Config<State>)
    requires c.pc == Size(p)
    ensures Step(Pvm(p), c) == Raised(Panic, c.state)
  {
    PaddingTraps(p, c.pc);
  }

  /** One step from an opcode position stays on opcode positions. */
  lemma StepStaysAtOpcodes(p: Program, c: Config<State>)
    requires WellSpaced(p) && AtOpcode(p, c.pc)
    requires var o := Step(Pvm(p), c); o.Next? && o.status == Continue
    ensures c.pc < Size(p) && AtOpcode(p, Step(Pvm(p), c).config.pc)
  {
    hide Exec, NextOpcode, Decode, BasicBlocks, Skip, WellSpaced;
    if c.pc == Size(p) {
      EndOfCodePanics(p, c);
    } else {
      var i := Decode(p, c.pc).value;
      WhereControlGoes(p, i, c.state);
      FollowingIsOpcode(p, c.pc);
      var pc := Step(Pvm(p), c).config.pc;
      if pc in BasicBlocks(p) {
        BlocksAtOpcodes(p, pc);
      }
    }
  }

  /** From any opcode position, every instruction a run executes sits at a set bit or exactly at the
      end of code. */
  lemma {:induction false} RunsStayAtOpcodes(p: Program, c: Config<State>, n: nat)
    requires WellSpaced(p) && AtOpcode(p, c.pc) && After(Pvm(p), c, n).Some?
    ensures AtOpcode(p, After(Pvm(p), c, n).value.pc)
    decreases n
  {
    hide Exec, NextOpcode, Operands, BasicBlocks;
    if n > 0 {
      StepStaysAtOpcodes(p, c);
      RunsStayAtOpcodes(p, Step(Pvm(p), c).config, n - 1);
    }
  }

  lemma BlockGoesOn(p: Program, pc: nat, i: Inst)
    requires pc < Size(p) && p.bitmask[pc] && Decode(p, pc) == Some(i) && Terminating(i.fn)
    ensures Following(i) in BasicBlocks(p)
  {
    hide NextOpcode, Operands, Dispatch, BasicBlocks, Skip;
    BlockFollows(p, pc);
  }

  /** An instruction that ends a block leads to a basic-block start. */
  lemma BlockEndLeadsToBlock(p: Program, c: Config<State>)
    requires WellSpaced(p) && AtOpcode(p, c.pc) && EndsBlock(Pvm(p), c)
    requires var o := Step(Pvm(p), c); o.Next? && o.status == Continue
    ensures Step(Pvm(p), c).config.pc in BasicBlocks(p)
  {
    hide Exec, Decode, BasicBlocks, Following, WellSpaced;
    StepStaysAtOpcodes(p, c);
    var i := Decode(p, c.pc).value;
    WhereControlGoes(p, i, c.state);
    BlockGoesOn(p, c.pc, i);
  }

  /** Every loop head after the first is at a basic-block start. */
  lemma HeadsAtBlocks(p: Program, c: Config<State>, gas: int, k: nat)
    requires WellSpaced(p) && AtOpcode(p, c.pc) && Lawful(Pvm(p))
    requires 0 < k < |Heads(Pvm(p), c, gas)|
    ensures Heads(Pvm(p), c, gas)[k].config.pc in BasicBlocks(p)
  {
    hide Exec, Heads, After, Step, Decode, NextOpcode, BasicBlocks, EndsBlock;
    var h := Heads(Pvm(p), c, gas)[k];
    HeadsAreSteps(Pvm(p), c, gas, k);
    var n := gas - h.gas;
    RunsStayAtOpcodes(p, c, n - 1);
    BlockEndLeadsToBlock(p, After(Pvm(p), c, n - 1).value);
  }

  // ------------------------------------------------------------ compiling

  /** Compiling from an opcode position never runs off the padding: it can only fail on an unknown
      opcode at an opcode position of the code itself. */
  lemma {:induction false} CompileFailsOnUnknown(p: Program, pc: nat)
    requires WellSpaced(p) && AtOpcode(p, pc) && Lawful(Pvm(p)) && Compile(Pvm(p), pc).None?
    ensures exists q: nat :: pc <= q < Size(p) && p.bitmask[q] && Dispatch(p.code[q]).None?
    decreases Size(p) - pc
  {
    hide Exec, NextOpcode, Decode, BasicBlocks, Compile, WellSpaced, Dispatch, Skip;
    if pc == Size(p) {
      EndOfCodeCompiles(p);
    } else if Decode(p, pc).Some? {
      FollowingIsOpcode(p, pc);
      FailsFurtherOn(p, pc);
      CompileFailsOnUnknown(p, pc + 1 + Skip(p, pc));
    } else {
      UndecodedIsUnknown(p, pc);
    }
  }

  lemma EndOfCodeCompiles(p: Program)
    requires Lawful(Pvm(p))
    ensures Compile(Pvm(p), Size(p)).Some?
  {
    hide Exec, NextOpcode, BasicBlocks;
    PaddingTraps(p, Size(p));
  }

  lemma FailsFurtherOn(p: Program, pc: nat)
    requires Lawful(Pvm(p)) && Compile(Pvm(p), pc).None? && Decode(p, pc).Some?
    ensures Compile(Pvm(p), pc + 1 + Skip(p, pc)).None?
  {
    hide Exec, NextOpcode, BasicBlocks, FnAt, Operands, Skip;
    var i := Decode(p, pc).value;
    assert Following(i) == pc + 1 + Skip(p, pc);
  }

  lemma UndecodedIsUnknown(p: Program, pc: nat)
    requires pc < Size(p) && AtOpcode(p, pc) && Decode(p, pc).None?
    ensures p.bitmask[pc] && Dispatch(p.code[pc]).None?
  {
    hide Dispatch;
  }

  ghost predicate KnownOpcodes(p: Program)
  {
    forall q: nat :: q < Size(p) && p.bitmask[q] ==> Dispatch(p.code[q]).Some?
  }

  /** Each exit of the stepper is the engine's exit, with the same registers and memory, exactly when the
      gas covers it and every block the run comes to compiles: unknown opcodes elsewhere do no harm. */
  lemma PvmExitsCoincide(p: Program, c: Config<State>, gas: nat, n: nat, o: Outcome<State>)
    requires Lawful(Pvm(p)) && LastStep(Pvm(p), c, n, o) && !(o.Next? && o.status == Continue)
    requires !(o.Raised? && o.error == Crash)
    ensures EndsAs(o, Interp(Pvm(p), c, gas), gas - n)
       <==> GasCovers(Pvm(p), c, gas, n, o) && ReachedBlocksCompile(Pvm(p), c, gas)
  {
    hide Exec, Interp, Heads, After, Compile, LastStep, Pvm, Completed;
    ExitsCoincideExactly(Pvm(p), c, gas, n, o);
  }

  /** With every opcode in the dispatch table they all compile, and every exit the gas covers coincides. */
  lemma KnownProgramsCoincide(p: Program, c: Config<State>, gas: nat, n: nat, o: Outcome<State>)
    requires WellSpaced(p) && KnownOpcodes(p) && AtOpcode(p, c.pc) && Lawful(Pvm(p))
    requires LastStep(Pvm(p), c, n, o) && !(o.Next? && o.status == Continue) && GasCovers(Pvm(p), c, gas, n, o)
    ensures ReachedBlocksCompile(Pvm(p), c, gas) && EndsAs(o, Interp(Pvm(p), c, gas), gas - n)
  {
    hide Exec, Interp, Heads, After, Compile, LastStep, Pvm, Completed;
    LastHeadCompiles(p, c, gas);
    OnlyLastMatters(Pvm(p), c, gas);
    ExitsCoincide(Pvm(p), c, gas, n, o);
  }

  lemma LastHeadCompiles(p: Program, c: Config<State>, gas: int)
    requires WellSpaced(p) && KnownOpcodes(p) && AtOpcode(p, c.pc) && Lawful(Pvm(p))
    ensures Compile(Pvm(p), LastHead(Pvm(p), c, gas).config.pc).Some?
  {
    hide Exec, Heads, Compile;
    var k := |Heads(Pvm(p), c, gas)| - 1;
    var h := Heads(Pvm(p), c, gas)[k];
    if k > 0 {
      HeadsAtBlocks(p, c, gas, k);
      BlocksAtOpcodes(p, h.config.pc);
    }
    if Compile(Pvm(p), h.config.pc).None? {
      CompileFailsOnUnknown(p, h.config.pc);
    }
  }

  // ------------------------------------------------------------ registers

  /** An sbrk executed here keeps the break below 2^64. */
  ghost predicate SbrkFits(p: Program, c: Config<State>)
  {
    match Decode(p, c.pc)
    case None => true
    case Some(i) => i.fn == Sbrk ==> c.state.mem.heapBreak + c.state.regs[i.args.ra] < TWO64
  }

  lemma ImmediatesInRange(p: Program, pc: nat)
    requires Decode(p, pc).Some?
    ensures Decode(p, pc).value.args.vx < TWO64 && KnownSizes(Decode(p, pc).value.fn)
  {
    hide Dispatch;
    DispatchedSizes(Zeta(p, pc));
    if pc >= Size(p) {
      PaddingTraps(p, pc);
    }
    ImmediateInRange(p, pc, LayoutOf(Decode(p, pc).value.fn), Skip(p, pc));
  }

  lemma ImmediateInRange(p: Program, pc: nat, layout: Layout, skip: nat)
    requires layout == NoOperands || pc < Size(p)
    ensures Operands(p, pc, layout, skip).vx < TWO64
  {
    hide Skip, Clamp4, Clamp12, Imm, Signed, U64;
    Pow2Values();
    hide Pow2;
  }

  /** One step keeps registers in range exactly when it is no sbrk that overflows. */
  lemma StepKeepsRange(p: Program, c: Config<State>)
    requires InRange(c.state.regs) && Decode(p, c.pc).Some?
    ensures match Step(Pvm(p), c)
            case Next(_, c') => InRange(c'.state.regs) <==> SbrkFits(p, c)
            case Raised(e, s) => e != Crash && InRange(s.regs)
  {
    hide Exec, Decode, InRange;
    ImmediatesInRange(p, c.pc);
    var i := Decode(p, c.pc).value;
    if i.fn == Sbrk {
      SbrkRange(p, i, c.state);
    } else {
      ExecKeepsRange(p, i, c.state);
    }
  }

  lemma ContinuingKeepsRange(p: Program, c: Config<State>)
    requires InRange(c.state.regs)
    requires var o := Step(Pvm(p), c); o.Next? && o.status == Continue
    ensures InRange(Step(Pvm(p), c).config.state.regs) <==> SbrkFits(p, c)
  {
    hide Exec, Decode, InRange, SbrkFits;
    StepKeepsRange(p, c);
  }

  /** Registers are 64-bit words after the k-th step. */
  ghost predicate InRangeAt(p: Program, c: Config<State>, k: nat)
  {
    After(Pvm(p), c, k).Some? ==> InRange(After(Pvm(p), c, k).value.state.regs)
  }

  /** The k-th configuration executes no sbrk that overflows. */
  ghost predicate SbrkFitsAt(p: Program, c: Config<State>, k: nat)
  {
    After(Pvm(p), c, k).Some? ==> SbrkFits(p, After(Pvm(p), c, k).value)
  }

  /** As long as no sbrk has overflowed, registers are in range. */
  lemma {:induction false} FittingKeepsRange(p: Program, c: Config<State>, n: nat)
    requires InRange(c.state.regs) && forall k: nat :: k < n ==> SbrkFitsAt(p, c, k)
    ensures InRangeAt(p, c, n)
    decreases n
  {
    hide Exec, Pvm, SbrkFits, InRange, Step;
    if n > 0 && After(Pvm(p), c, n).Some? {
      AfterPrefix(Pvm(p), c, n - 1, n);
      FittingKeepsRange(p, c, n - 1);
      var d := After(Pvm(p), c, n - 1).value;
      NextAfter(p, c, n - 1);
      ContinuingKeepsRange(p, d);
      assert SbrkFitsAt(p, c, n - 1);
    }
  }

  lemma NextAfter(p: Program, c: Config<State>, k: nat)
    requires After(Pvm(p), c, k + 1).Some?
    ensures After(Pvm(p), c, k).Some?
    ensures Step(Pvm(p), After(Pvm(p), c, k).value) == Next(Continue, After(Pvm(p), c, k + 1).value)
  {
    hide Pvm, Step;
    AfterPrefix(Pvm(p), c, k, k + 1);
    AfterAdd(Pvm(p), c, k, 1);
    OneAfter(p, After(Pvm(p), c, k).value);
  }

  lemma OneAfter(p: Program, d: Config<State>)
    requires After(Pvm(p), d, 1).Some?
    ensures Step(Pvm(p), d) == Next(Continue, After(Pvm(p), d, 1).value)
  {
    hide Pvm, Step;
    assert After(Pvm(p), d, 1) == match Step(Pvm(p), d) case Next(Continue, c') => After(Pvm(p), c', 0) case _ => None;
  }

  /** Over any run, registers are in range at every configuration up to the n-th exactly when every sbrk
      before it keeps the break below 2^64. */
  lemma RunsKeepRange(p: Program, c: Config<State>, n: nat)
    requires InRange(c.state.regs) && After(Pvm(p), c, n).Some?
    ensures (forall k: nat :: k <= n ==> InRangeAt(p, c, k)) <==> (forall k: nat :: k < n ==> SbrkFitsAt(p, c, k))
  {
    hide Exec, Pvm, SbrkFits, InRange, Step, After;
    if forall k: nat :: k < n ==> SbrkFitsAt(p, c, k) {
      forall k: nat | k <= n
        ensures InRangeAt(p, c, k)
      {
        FittingKeepsRange(p, c, k);
      }
    }
    if forall k: nat :: k <= n ==> InRangeAt(p, c, k) {
      forall k: nat | k < n
        ensures SbrkFitsAt(p, c, k)
      {
        AfterPrefix(Pvm(p), c, k + 1, n);
        NextAfter(p, c, k);
        assert InRangeAt(p, c, k) && InRangeAt(p, c, k + 1);
        ContinuingKeepsRange(p, After(Pvm(p), c, k).value);
      }
    }
  }

  /** A run of a program with known opcodes whose sbrks keep the break below 2^64 never ends in an
      exception other than a panic or a page fault, and leaves 64-bit registers. */
  lemma SafeRuns(p: Program, c: Config<State>, gas: nat)
    requires WellSpaced(p) && KnownOpcodes(p) && AtOpcode(p, c.pc) && InRange(c.state.regs)
    requires Lawful(Pvm(p)) && forall k: nat :: SbrkFitsAt(p, c, k)
    ensures var x := Interp(Pvm(p), c, gas);
            x.status != Faulted(Crash) && InRange(x.config.state.regs)
  {
    hide Exec, Interp, Heads, Compile, Decode, After, InRange, SbrkFitsAt;
    var x := Interp(Pvm(p), c, gas);
    LastHeadCompiles(p, c, gas);
    ExitMeaning(Pvm(p), c, gas);
    var h := LastHead(Pvm(p), c, gas);
    var used := gas - x.gas;
    match x.status {
      case Halted => FinalStepInRange(p, c, used, Next(Halt, x.config));
      case HostCall(a) => FinalStepInRange(p, c, used, Next(Host(a), x.config));
      case OutOfGas =>
        var s :| LastStep(Pvm(p), c, used, Next(s, x.config));
        FinalStepInRange(p, c, used, Next(s, x.config));
      case Faulted(e) =>
        var n :| used < n <= used + |Compile(Pvm(p), h.config.pc).value|
                 && LastStep(Pvm(p), c, n, Raised(e, x.config.state));
        FinalStepInRange(p, c, n, Raised(e, x.config.state));
    }
  }

  lemma DecodesAtOpcodes(p: Program, pc: nat)
    requires KnownOpcodes(p) && AtOpcode(p, pc)
    ensures Decode(p, pc).Some?
  {
    if pc == Size(p) {
      PaddingTraps(p, pc);
    }
  }

  lemma FinalStepInRange(p: Program, c: Config<State>, n: int, o: Outcome<State>)
    requires WellSpaced(p) && KnownOpcodes(p) && AtOpcode(p, c.pc) && InRange(c.state.regs)
    requires LastStep(Pvm(p), c, n, o) && forall k: nat :: SbrkFitsAt(p, c, k)
    ensures match o
            case Next(_, c') => InRange(c'.state.regs)
            case Raised(e, s) => e != Crash && InRange(s.regs)
  {
    hide Exec, Decode, Step, After, NextOpcode, BasicBlocks, InRange, SbrkFits;
    var d := After(Pvm(p), c, n - 1).value;
    RunsStayAtOpcodes(p, c, n - 1);
    FittingKeepsRange(p, c, n - 1);
    DecodesAtOpcodes(p, d.pc);
    assert SbrkFitsAt(p, c, n - 1);
    StepKeepsRange(p, d);
  }
}
