/** Compiled machine code against the interpreter's machine: a stretch of bytecode made of compiled
    three-register instructions does to the guest registers what single-stepping it does. */
module CompiledCode {
  import opened Words
  import opened Wrappers
  import opened Isa
  import opened X86
  import opened CodeGen
  import opened Programs
  import opened Engine
  import opened AddressIndex
  import opened Metering
  import CF = ControlFlow
  import RL = RegisterLaws
  import M = Machine

  /** A three-register operation the code generator covers. */
  predicate CoverableAt(p: Program, pc: nat)
  {
    var i := Decode(p, pc);
    i.Some? && i.value.fn.Alu? && Compiled(i.value.fn.op)
  }

  function At(p: Program, pc: nat): (i: Inst3)
    requires CoverableAt(p, pc)
    ensures Translates(i)
  {
    var i := Decode(p, pc).value;
    Inst3(i.fn.op, i.args.ra, i.args.rb, i.args.rd)
  }

  /** Where the interpreter goes on. */
  function NextPc(p: Program, pc: nat): nat
    requires CoverableAt(p, pc)
  {
    M.Following(Decode(p, pc).value)
  }

  /** The opcodes of the covered operations. */
  predicate CoveredOpcode(op: nat)
  {
    op == 190 || op == 191 || 197 <= op <= 202 || 207 <= op <= 212 || 217 <= op <= 230
  }

  lemma CoveredOpcodes(op: byte)
    ensures RL.IsAlu(op) && Compiled(RL.OpOf(op)) <==> CoveredOpcode(op)
  {
    hide Compiled;
    if op < 190 {
      NotAlu(op);
    } else {
      AluCovered(op);
    }
  }

  lemma NotAlu(op: byte)
    requires op < 190
    ensures !RL.IsAlu(op)
  {}

  lemma AluCovered(op: byte)
    requires op >= 190
    ensures RL.IsAlu(op) && Compiled(RL.OpOf(op)) <==> CoveredOpcode(op)
  {
    hide DispatchLow, DispatchMid, DispatchImm;
  }

  /** The machine code of a covered opcode puts the opcode's result in rd and leaves every other guest
      register, the context pointer and the stack as they are. */
  lemma CompiledByOpcode(op: byte, ra: nat, rb: nat, rd: nat, c: Cpu)
    requires CoveredOpcode(op) && ra < 13 && rb < 13 && rd < 13
    ensures RL.IsAlu(op) && Compiled(RL.OpOf(op))
    ensures var g, e := Guest(c), Run(CodeOf(RL.OpOf(op), ra, rb, rd), 0, c);
            && e.Fall? && SameContext(c, e.c) && Guest(e.c) == g[rd := Guest(e.c)[rd]]
            && RL.Result3(op, g[ra], g[rb], g[rd], Guest(e.c)[rd])
  {
    hide Run, Guest, CodeOf, Value3, Compiled, RL.IsAlu, RL.OpOf, RL.Result3;
    CoveredOpcodes(op);
    RL.ResultsAre(op, Guest(c)[ra], Guest(c)[rb], Guest(c)[rd]);
    CompiledComputes(RL.OpOf(op), ra, rb, rd, c);
  }

  /** The next n instructions from pc are covered. */
  predicate Coverable(p: Program, pc: nat, n: nat)
    decreases n
  {
    hide CoverableAt, NextPc;
    n == 0 || (CoverableAt(p, pc) && Coverable(p, NextPc(p, pc), n - 1))
  }

  function Covered(p: Program, pc: nat, n: nat): (prog: seq<Inst3>)
    requires Coverable(p, pc, n)
    ensures |prog| == n && forall i <- prog :: Translates(i)
    decreases n
  {
    hide CoverableAt, NextPc, At, Compiled;
    if n == 0 then [] else [At(p, pc)] + Covered(p, NextPc(p, pc), n - 1)
  }

  function EndOf(p: Program, pc: nat, n: nat): nat
    requires Coverable(p, pc, n)
    decreases n
  {
    hide CoverableAt, NextPc;
    if n == 0 then pc else EndOf(p, NextPc(p, pc), n - 1)
  }

  lemma StepIsOne(p: Program, i: Inst, s: M.State)
    requires i.fn.Alu? && Compiled(i.fn.op) && M.InRange(s.regs)
    ensures var x := i.args;
            var v := Value3(i.fn.op, s.regs[x.ra], s.regs[x.rb], s.regs[x.rd]);
            v < TWO64 && M.Exec(p, i, s) == Next(Continue, Config(M.Following(i), M.State(s.regs[x.rd := v], s.mem)))
  {
    hide Value3;
    CompiledInRange(i.fn.op, s.regs[i.args.ra], s.regs[i.args.rb], s.regs[i.args.rd]);
  }

  lemma StepAt(p: Program, pc: nat, s: M.State)
    requires CoverableAt(p, pc) && M.InRange(s.regs)
    ensures var i := At(p, pc);
            var v := Value3(i.op, s.regs[i.ra], s.regs[i.rb], s.regs[i.rd]);
            v < TWO64 && Step(M.Pvm(p), Config(pc, s)) == Next(Continue, Config(NextPc(p, pc), M.State(s.regs[i.rd := v], s.mem)))
  {
    hide M.Exec, Value3, Decode, Compiled;
    StepIsOne(p, Decode(p, pc).value, s);
  }

  lemma InterpretedStep(prog: seq<Inst3>, g: seq<word>)
    requires |g| == GUESTS && prog != [] && forall i <- prog :: Translates(i)
    ensures Translates(prog[0]) && forall i <- prog[1..] :: Translates(i)
    ensures var i := prog[0];
            var v := Value3(i.op, g[i.ra], g[i.rb], g[i.rd]);
            !DivisionRaises(i.op, g[i.rb]) && v < TWO64 && Interpreted(prog, g) == Interpreted(prog[1..], g[i.rd := v])
  {
    hide Value3;
    assert Translates(prog[0]);
    CompiledInRange(prog[0].op, g[prog[0].ra], g[prog[0].rb], g[prog[0].rd]);
  }

  /** Single-stepping the stretch and folding the instruction values agree. */
  lemma {:induction false} SteppingFolds(p: Program, pc: nat, n: nat, g: seq<word>, mem: M.Mem)
    requires Coverable(p, pc, n) && |g| == GUESTS
    ensures After(M.Pvm(p), Config(pc, M.State(g, mem)), n)
         == Some(Config(EndOf(p, pc, n), M.State(Interpreted(Covered(p, pc, n), g), mem)))
    decreases n
  {
    hide M.Exec, M.Pvm, Step, Value3, CoverableAt, NextPc, At, Compiled;
    if n == 0 {
      InterpretedNothing(g);
    } else {
      hide Interpreted;
      var i := At(p, pc);
      StepAt(p, pc, M.State(g, mem));
      var g': seq<word> := g[i.rd := Value3(i.op, g[i.ra], g[i.rb], g[i.rd])];
      SteppingFolds(p, NextPc(p, pc), n - 1, g', mem);
      var prog := Covered(p, pc, n);
      assert prog[1..] == Covered(p, NextPc(p, pc), n - 1);
      InterpretedStep(prog, g);
    }
  }

  lemma InterpretedNothing(g: seq<word>)
    requires |g| == GUESTS
    ensures Interpreted([], g) == g
  {}

  // ------------------------------------------------------------ what is assembled

  /** The next n opcodes, as positions. */
  function Positions(p: Program, pc: nat, n: nat): (at: seq<nat>)
    requires Coverable(p, pc, n)
    ensures |at| == n
    decreases n
  {
    hide CoverableAt, NextPc;
    if n == 0 then [] else [pc] + Positions(p, NextPc(p, pc), n - 1)
  }

  /** Every set bit in the range holds a covered operation. */
  predicate RangeCoverable(p: Program, from: nat, to: nat)
  {
    forall i: nat :: from <= i < to && IsOpcode(p, i) ==> CoverableAt(p, i)
  }

  /** What the assembler emits for the positions of a range: an entry at each set bit, in order, under
      the label declared for it. */
  function AssembledRange(p: Program, metered: bool, from: nat, to: nat): seq<Instr>
    requires RangeCoverable(p, from, to)
    decreases if from < to then to - from else 0
  {
    if from >= to then []
    else
      (if IsOpcode(p, from) then EntryCode(Count(p, from), metered, At(p, from)) else [])
      + AssembledRange(p, metered, from + 1, to)
  }

  function Labels(p: Program, at: seq<nat>): (names: seq<nat>)
    requires forall i <- at :: IsOpcode(p, i)
    ensures |names| == |at|
  {
    if at == [] then [] else
      assert IsOpcode(p, at[0]);
      [Count(p, at[0])] + Labels(p, at[1..])
  }

  lemma FollowingIsNext(p: Program, pc: nat)
    requires CF.WellSpaced(p) && IsOpcode(p, pc) && CoverableAt(p, pc)
    ensures NextPc(p, pc) == NextOpcode(p, pc + 1)
  {
    hide Decode, Compiled, CF.WellSpaced, NextOpcode, Skip;
    CF.FollowingIsOpcode(p, pc);
  }

  /** The padding holds no covered operation. */
  lemma NotTheEnd(p: Program, next: nat)
    requires next <= Size(p) && OpcodeAt(p, next) && CoverableAt(p, next)
    ensures IsOpcode(p, next)
  {
    hide Programs.Operands, Compiled;
    if next == Size(p) {
      PaddingTraps(p, next);
    }
  }

  /** With set bits at most 25 apart, the covered instructions sit at consecutive set bits. */
  lemma {:induction false} PositionsAreSetBits(p: Program, pc: nat, n: nat)
    requires CF.WellSpaced(p) && IsOpcode(p, pc) && Coverable(p, pc, n)
    ensures pc <= EndOf(p, pc, n) <= Size(p)
    ensures forall i: nat :: pc <= i < EndOf(p, pc, n) ==> (IsOpcode(p, i) <==> i in Positions(p, pc, n))
    ensures forall i <- Positions(p, pc, n) :: IsOpcode(p, i) && CoverableAt(p, i) && pc <= i < EndOf(p, pc, n)
    ensures forall j, k :: 0 <= j < k < n ==> Positions(p, pc, n)[j] < Positions(p, pc, n)[k]
    decreases n
  {
    hide CoverableAt, NextPc, CF.WellSpaced, NextOpcode, Skip;
    if n == 0 {
      None(p, pc);
    } else {
      var next := NextPc(p, pc);
      FollowingIsNext(p, pc);
      if n == 1 {
        None(p, next);
      } else {
        NotTheEnd(p, next);
        PositionsAreSetBits(p, next, n - 1);
      }
      forall i: nat | pc <= i < EndOf(p, pc, n)
        ensures IsOpcode(p, i) <==> i in Positions(p, pc, n)
      {
        if pc < i < next {
          assert !OpcodeAt(p, i);
        }
      }
      forall j, k | 0 <= j < k < n
        ensures Positions(p, pc, n)[j] < Positions(p, pc, n)[k]
      {
        var later := Positions(p, next, n - 1);
        assert Positions(p, pc, n)[k] == later[k - 1] && later[k - 1] in later;
        if j > 0 {
          assert Positions(p, pc, n)[j] == later[j - 1];
        }
      }
    }
  }

  lemma None(p: Program, pc: nat)
    ensures Coverable(p, pc, 0) && EndOf(p, pc, 0) == pc && Positions(p, pc, 0) == [] && Covered(p, pc, 0) == []
  {}

  lemma {:induction false} GapIsEmpty(p: Program, metered: bool, from: nat, next: nat, to: nat)
    requires from <= next <= to && RangeCoverable(p, from, to)
    requires forall k: nat :: from <= k < next ==> !IsOpcode(p, k)
    ensures AssembledRange(p, metered, from, to) == AssembledRange(p, metered, next, to)
    decreases next - from
  {
    hide EntryCode, CoverableAt, At;
    if from < next {
      GapIsEmpty(p, metered, from + 1, next, to);
    }
  }

  lemma LabelsSplit(p: Program, pc: nat, at: seq<nat>)
    requires IsOpcode(p, pc) && forall i <- at :: IsOpcode(p, i)
    ensures (forall i <- [pc] + at :: IsOpcode(p, i)) && Labels(p, [pc] + at) == [Count(p, pc)] + Labels(p, at)
  {
    assert ([pc] + at)[1..] == at;
  }

  lemma EntriesSplit(name: nat, labels: seq<nat>, metered: bool, i: Inst3, prog: seq<Inst3>)
    requires |labels| == |prog| && Translates(i) && forall k <- prog :: Translates(k)
    ensures (forall k <- [i] + prog :: Translates(k))
         && Entries([name] + labels, metered, [i] + prog) == EntryCode(name, metered, i) + Entries(labels, metered, prog)
  {
    hide EntryCode, Compiled;
    assert ([i] + prog)[1..] == prog && ([name] + labels)[1..] == labels;
  }

  lemma {:induction false} HeadOfRange(p: Program, metered: bool, pc: nat, to: nat)
    requires IsOpcode(p, pc) && pc < to && RangeCoverable(p, pc, to)
    ensures CoverableAt(p, pc) && RangeCoverable(p, pc + 1, to)
    ensures AssembledRange(p, metered, pc, to)
         == EntryCode(Count(p, pc), metered, At(p, pc)) + AssembledRange(p, metered, pc + 1, to)
  {
    hide CoverableAt, EntryCode, At, Count;
  }

  lemma NothingAssembled(p: Program, metered: bool, pc: nat)
    ensures RangeCoverable(p, pc, pc) && AssembledRange(p, metered, pc, pc) == []
    ensures Labels(p, []) == [] && Entries([], metered, []) == []
  {}

  lemma AllCoverable(p: Program, pc: nat, n: nat)
    requires CF.WellSpaced(p) && IsOpcode(p, pc) && Coverable(p, pc, n)
    ensures RangeCoverable(p, pc, EndOf(p, pc, n)) && pc <= EndOf(p, pc, n) <= Size(p)
    ensures forall i <- Positions(p, pc, n) :: IsOpcode(p, i)
  {
    hide CoverableAt, CF.WellSpaced, EndOf, Positions, Coverable;
    PositionsAreSetBits(p, pc, n);
  }

  /** What the assembler emits from pc to the end of the n-th instruction is an entry for each of the
      covered instructions, and nothing else. */
  lemma {:induction false} RangeIsEntries(p: Program, metered: bool, pc: nat, n: nat)
    requires CF.WellSpaced(p) && IsOpcode(p, pc) && Coverable(p, pc, n)
    ensures RangeCoverable(p, pc, EndOf(p, pc, n))
    ensures forall i <- Positions(p, pc, n) :: IsOpcode(p, i)
    ensures AssembledRange(p, metered, pc, EndOf(p, pc, n))
         == Entries(Labels(p, Positions(p, pc, n)), metered, Covered(p, pc, n))
    decreases n
  {
    hide CoverableAt, NextPc, CF.WellSpaced, NextOpcode, Skip, EntryCode, At, Count, RangeCoverable,
      AssembledRange, Entries, Labels;
    AllCoverable(p, pc, n);
    if n == 0 {
      None(p, pc);
      NothingAssembled(p, metered, pc);
    } else {
      var next := NextPc(p, pc);
      FollowingIsNext(p, pc);
      if n == 1 {
        None(p, next);
        NothingAssembled(p, metered, next);
      } else {
        NotTheEnd(p, next);
        AllCoverable(p, next, n - 1);
        RangeIsEntries(p, metered, next, n - 1);
      }
      GapAfter(p, metered, pc, next, EndOf(p, pc, n));
      LabelsSplit(p, pc, Positions(p, next, n - 1));
      EntriesSplit(Count(p, pc), Labels(p, Positions(p, next, n - 1)), metered, At(p, pc), Covered(p, next, n - 1));
    }
  }

  /** From an opcode to beyond the next one: its entry, then nothing up to that one. */
  lemma GapAfter(p: Program, metered: bool, pc: nat, next: nat, to: nat)
    requires IsOpcode(p, pc) && next == NextOpcode(p, pc + 1) <= to && RangeCoverable(p, pc, to)
    ensures CoverableAt(p, pc) && RangeCoverable(p, next, to)
    ensures AssembledRange(p, metered, pc, to)
         == EntryCode(Count(p, pc), metered, At(p, pc)) + AssembledRange(p, metered, next, to)
  {
    hide CoverableAt, EntryCode, At, Count, NextOpcode, AssembledRange;
    HeadOfRange(p, metered, pc, to);
    forall k: nat | pc + 1 <= k < next
      ensures !IsOpcode(p, k)
    {
      assert !OpcodeAt(p, k);
    }
    GapIsEmpty(p, metered, pc + 1, next, to);
  }

  // ------------------------------------------------------------ running it

  lemma {:induction false} Prefix(p: Program, pc: nat, n: nat, k: nat)
    requires Coverable(p, pc, n) && k <= n
    ensures Coverable(p, pc, k) && Covered(p, pc, k) == Covered(p, pc, n)[..k]
    decreases n
  {
    hide CoverableAt, NextPc, At, Compiled;
    if k > 0 {
      Prefix(p, NextPc(p, pc), n - 1, k - 1);
    }
  }

  /** Running what is assembled without gas does what n steps do. */
  lemma CodeIsSteps(p: Program, pc: nat, n: nat, c: Cpu, mem: M.Mem)
    requires CF.WellSpaced(p) && IsOpcode(p, pc) && Coverable(p, pc, n)
    ensures RangeCoverable(p, pc, EndOf(p, pc, n))
    ensures var e := Run(AssembledRange(p, false, pc, EndOf(p, pc, n)), 0, c);
            && e.Fall? && SameContext(c, e.c)
            && After(M.Pvm(p), Config(pc, M.State(Guest(c), mem)), n)
            == Some(Config(EndOf(p, pc, n), M.State(Guest(e.c), mem)))
  {
    hide CF.WellSpaced, Coverable, CoverableAt, EndOf, Positions, Covered, AssembledRange, Entries, Run, Guest, After,
      Interpreted, M.Pvm, RangeCoverable;
    RangeIsEntries(p, false, pc, n);
    PlainRuns(Labels(p, Positions(p, pc, n)), Covered(p, pc, n), c);
    SteppingFolds(p, pc, n, Guest(c), mem);
  }

  /** With the gas check, it does what as many steps do as the counter grants, each charged one unit,
      and leaves at the next instruction with the guest registers as those steps left them. */
  lemma MeteredCodeIsSteps(p: Program, pc: nat, n: nat, c: Cpu, mem: M.Mem)
    requires CF.WellSpaced(p) && IsOpcode(p, pc) && Coverable(p, pc, n) && HasGas(c)
    ensures RangeCoverable(p, pc, EndOf(p, pc, n))
    ensures var e := Run(AssembledRange(p, true, pc, EndOf(p, pc, n)), 0, c);
            var g := LowGas(c);
            var k := Granted(g, n);
            && (e.Fall? || e.Illegal?) && Coverable(p, pc, k)
            && After(M.Pvm(p), Config(pc, M.State(Guest(c), mem)), k)
            == Some(Config(EndOf(p, pc, k), M.State(Guest(e.c), mem)))
            && if k == n then e.Fall? && Reaches(c, e.c, Guest(e.c), g - n)
               else e.Illegal? && Refuses(c, e.c, Guest(e.c), (g - k - 1) % TWO32)
  {
    hide CF.WellSpaced, Coverable, CoverableAt, EndOf, Positions, Covered, AssembledRange, Entries, Run, Guest, After,
      Interpreted, M.Pvm, RangeCoverable;
    var prog, k := Covered(p, pc, n), Granted(LowGas(c), n);
    RangeIsEntries(p, true, pc, n);
    MeteredRuns(Labels(p, Positions(p, pc, n)), prog, c);
    Prefix(p, pc, n, k);
    SteppingFolds(p, pc, k, Guest(c), mem);
    assert prog[..n] == prog;
  }

  // ------------------------------------------------------------ the assembling loop

  /** Opcode positions get labels in order. */
  ghost predicate Named(p: Program, labels: map<nat, nat>)
  {
    forall i: nat :: IsOpcode(p, i) ==> i in labels && labels[i] == Count(p, i)
  }

  lemma CountStarts(p: Program)
    ensures Count(p, 0) == 0
  {}

  lemma CountNext(p: Program, i: nat)
    requires i < Size(p)
    ensures Count(p, i + 1) == Count(p, i) + B2I(p.bitmask[i])
  {}

  method DeclareLabels(asm: Assembler, p: Program) returns (labels: map<nat, nat>)
    requires asm.labels == 0
    modifies asm
    ensures asm.code == old(asm.code) && asm.labels == Count(p, Size(p)) && Named(p, labels)
    ensures labels.Keys == set i: nat | i < Size(p) && IsOpcode(p, i)
  {
    hide Count;
    labels := map[];
    var i := 0;
    CountStarts(p);
    while i < Size(p)
      invariant 0 <= i <= Size(p) && asm.code == old(asm.code) && asm.labels == Count(p, i)
      invariant forall j: nat :: j in labels <==> j < i && IsOpcode(p, j)
      invariant forall j <- labels :: labels[j] == Count(p, j)
    {
      CountNext(p, i);
      if p.bitmask[i] {
        var l := asm.ForwardDeclareLabel();
        labels := labels[i := l];
      }
      i := i + 1;
    }
  }

  /** The label, the gas check if gas is enabled, and the handler's code. */
  method EmitEntry(asm: Assembler, name: nat, metered: bool, i: Inst3)
    requires Translates(i)
    modifies asm
    ensures asm.code == old(asm.code) + EntryCode(name, metered, i)
  {
    hide Compiled, CodeOf;
    asm.Emit(LABEL(name));
    if metered {
      asm.Emit(SUBI(R15, DISTANCE));
      asm.Emit(SUBMEM32(R15, DISPLACEMENT, 1));
      asm.Emit(JCCINTO(Sign));
      asm.Emit(ADDI(R15, DISTANCE));
      assert asm.code == old(asm.code) + ([LABEL(name)] + GasCheck(1));
    }
    asm.EmitOp(i.op, i.ra, i.rb, i.rd);
  }

  /** The loop over code positions, with an entry at each set bit. */
  method AssembleRange(asm: Assembler, p: Program, labels: map<nat, nat>, metered: bool, from: nat, to: nat)
    requires from <= to <= Size(p) && RangeCoverable(p, from, to) && Named(p, labels)
    modifies asm
    ensures asm.code == old(asm.code) + AssembledRange(p, metered, from, to)
  {
    hide Compiled, CoverableAt, EntryCode, At, Count;
    ghost var all := old(asm.code) + AssembledRange(p, metered, from, to);
    var counter := from;
    while counter < to
      invariant from <= counter <= to
      invariant asm.code + AssembledRange(p, metered, counter, to) == all
    {
      ghost var rest := AssembledRange(p, metered, counter + 1, to);
      if p.bitmask[counter] {
        assert IsOpcode(p, counter);
        ghost var entry := EntryCode(Count(p, counter), metered, At(p, counter));
        assert asm.code + (entry + rest) == asm.code + entry + rest;
        EmitEntry(asm, labels[counter], metered, At(p, counter));
      } else {
        assert [] + rest == rest;
      }
      counter := counter + 1;
    }
  }
}
