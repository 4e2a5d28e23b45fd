/** The gas check the recompiler puts before each instruction, and metered code for sequences of
    three-register instructions. The counter is a 64-bit field of the context block, but the check
    decrements its low 32 bits. */
module Metering {
  import opened Words
  import opened Wrappers
  import opened Isa
  import opened X86
  import opened CodeGen
  import V = VmContext

  // ------------------------------------------------------------ the check

  const DISPLACEMENT := 0x61

  /** How far r15 is moved, so that the counter lies at a displacement of one known byte. */
  const DISTANCE: nat := DISPLACEMENT - V.GAS_OFFSET

  /** Moves r15, takes the gas off the counter, and, when the result is negative, jumps into the last
      bytes of the jump itself, which are no instruction. */
  function GasCheck(gas: nat): (code: seq<Instr>)
    ensures |code| == 4
  {
    [SUBI(R15, DISTANCE), SUBMEM32(R15, DISPLACEMENT, gas), JCCINTO(Sign), ADDI(R15, DISTANCE)]
  }

  /** The address of the counter's low half. */
  function Slot(c: Cpu): int { Get(c, R15) + V.GAS_OFFSET }

  /** The context block is mapped and does not lie at the very bottom of memory. */
  predicate HasGas(c: Cpu)
  {
    Get(c, R15) >= DISTANCE && Slot(c) in c.host
  }

  function LowGas(c: Cpu): dword
    requires HasGas(c)
  {
    c.host[Slot(c)]
  }

  /** The state with a new counter. */
  function WithGas(c: Cpu, g: dword): Cpu
  {
    c.(host := c.host[Slot(c) := g])
  }

  /** The check lets an instruction run. */
  predicate Lets(g: dword) { 1 <= g <= TWO31 }

  lemma CheckArithmetic(c: Cpu)
    requires HasGas(c)
    ensures var r, g := Get(c, R15), LowGas(c);
            var f := CmpFlags32(g, 1);
            && Truncate(r as int - DISTANCE, W64) == r - DISTANCE && Truncate(r - DISTANCE + DISTANCE, W64) == r
            && r - DISTANCE + DISPLACEMENT == Slot(c)
            && (Holds(Sign, f) <==> !Lets(g)) && (Lets(g) ==> (g - 1) % TWO32 == g - 1)
  {}

  /** The check charges one unit and goes on, or leaves with r15 still moved. */
  lemma CheckRuns(c: Cpu) returns (f: Option<Flags>)
    requires HasGas(c)
    ensures var g := LowGas(c);
            Run(GasCheck(1), 0, c) == if Lets(g) then Fall(WithGas(c, g - 1).(flags := None)) else Illegal(Refused(c, f))
  {
    hide Run, Truncate, CmpFlags32, Holds;
    CheckArithmetic(c);
    var code, g := GasCheck(1), LowGas(c);
    f := Some(CmpFlags32(g, 1));
    var c1 := SetClobber(c, R15, Get(c, R15) - DISTANCE);
    var c2 := c1.(flags := f, host := c.host[Slot(c) := (g - 1) % TWO32]);
    RunStep(code, 0, c, c1);
    RunStep(code, 1, c1, c2);
    if Lets(g) {
      NotInto(code, 2, c2);
      var c3 := SetClobber(c2, R15, Get(c, R15));
      RunStep(code, 3, c2, c3);
      assert c3.regs == c.regs;
      RunEnd(code, c3);
    } else {
      Into(code, 2, c2);
    }
  }

  /** The state in which a refused instruction leaves. */
  function Refused(c: Cpu, f: Option<Flags>): Cpu
    requires HasGas(c)
  {
    WithGas(c, (LowGas(c) - 1) % TWO32).(regs := c.regs[R15 := Get(c, R15) - DISTANCE], flags := f)
  }

  lemma NotInto(code: seq<Instr>, pc: nat, c: Cpu)
    requires pc < |code| && code[pc].JCCINTO? && c.flags.Some? && !Holds(code[pc].cond, c.flags.value)
    ensures Run(code, pc, c) == Run(code, pc + 1, c)
  {
    hide Do, Holds;
  }

  lemma Into(code: seq<Instr>, pc: nat, c: Cpu)
    requires pc < |code| && code[pc].JCCINTO? && c.flags.Some? && Holds(code[pc].cond, c.flags.value)
    ensures Run(code, pc, c) == Illegal(c)
  {
    hide Do, Holds;
  }

  // ------------------------------------------------------------ one metered instruction

  /** What is assembled at an opcode: its name, the gas check if gas is enabled, the handler's code. */
  function EntryCode(name: nat, metered: bool, i: Inst3): seq<Instr>
    requires Translates(i)
  {
    [LABEL(name)] + ((if metered then GasCheck(1) else []) + CodeOf(i.op, i.ra, i.rb, i.rd))
  }

  /** The value an instruction writes. */
  ghost function Result(i: Inst3, g: seq<word>): word
    requires |g| == GUESTS && Translates(i)
  {
    CompiledInRange(i.op, g[i.ra], g[i.rb], g[i.rd]);
    Value3(i.op, g[i.ra], g[i.rb], g[i.rd])
  }

  /** Guest registers g, with the counter at v and all else but flags and rcx as in c. */
  ghost predicate Reaches(c: Cpu, e: Cpu, g: seq<word>, v: dword)
    requires HasGas(c)
  {
    Guest(e) == g && SameContext(WithGas(c, v), e)
  }

  /** The same, but leaving with r15 moved. */
  ghost predicate Refuses(c: Cpu, e: Cpu, g: seq<word>, v: dword)
    requires HasGas(c)
  {
    && Guest(e) == g && e.stack == c.stack && e.host == c.host[Slot(c) := v]
    && Get(e, R15) == Get(c, R15) - DISTANCE && e.regs[4] == c.regs[4]
  }

  lemma AfterLabel(name: nat, code: seq<Instr>, c: Cpu)
    ensures Run([LABEL(name)] + code, 0, c) == Run(code, 0, c)
  {
    hide Run;
    RunLabel([LABEL(name)] + code, 0, c);
    RunSuffix([LABEL(name)], code, 0, c);
  }

  lemma RefusedGuest(c: Cpu, f: Option<Flags>)
    requires HasGas(c)
    ensures Refuses(c, Refused(c, f), Guest(c), (LowGas(c) - 1) % TWO32)
  {
    var e := Refused(c, f);
    forall i | 0 <= i < GUESTS
      ensures Guest(e)[i] == Guest(c)[i]
    {}
  }

  lemma MeteredEntryRuns(name: nat, i: Inst3, c: Cpu)
    requires Translates(i) && HasGas(c)
    ensures var e, g := Run(EntryCode(name, true, i), 0, c), LowGas(c);
            if Lets(g) then e.Fall? && Reaches(c, e.c, Guest(c)[i.rd := Result(i, Guest(c))], g - 1)
            else e.Illegal? && Refuses(c, e.c, Guest(c), (g - 1) % TWO32)
  {
    hide Run, Guest, CodeOf, Value3, GasCheck, Compiled, R;
    var code := CodeOf(i.op, i.ra, i.rb, i.rd);
    var g := LowGas(c);
    AfterLabel(name, GasCheck(1) + code, c);
    var f := CheckRuns(c);
    if Lets(g) {
      var c1 := WithGas(c, g - 1).(flags := None);
      RunConcat(GasCheck(1), code, 0, c, c1);
      GuestOfRegs(c, c1);
      CompiledComputes(i.op, i.ra, i.rb, i.rd, c1);
    } else {
      RunIllegal(GasCheck(1), code, 0, c, Refused(c, f));
      RefusedGuest(c, f);
    }
  }

  lemma PlainEntryRuns(name: nat, i: Inst3, c: Cpu)
    requires Translates(i)
    ensures var e := Run(EntryCode(name, false, i), 0, c);
            e.Fall? && Guest(e.c) == Guest(c)[i.rd := Result(i, Guest(c))] && SameContext(c, e.c)
  {
    hide Run, Guest, CodeOf, Value3, Compiled, R;
    var code := CodeOf(i.op, i.ra, i.rb, i.rd);
    AfterLabel(name, [] + code, c);
    assert [] + code == code;
    CompiledComputes(i.op, i.ra, i.rb, i.rd, c);
  }

  // ------------------------------------------------------------ sequences

  function Entries(labels: seq<nat>, metered: bool, prog: seq<Inst3>): seq<Instr>
    requires |labels| == |prog| && forall i <- prog :: Translates(i)
    decreases |prog|
  {
    if prog == [] then []
    else
      assert Translates(prog[0]);
      EntryCode(labels[0], metered, prog[0]) + Entries(labels[1..], metered, prog[1..])
  }

  /** How many of n instructions a counter whose low half is g lets run. */
  function Granted(g: dword, n: nat): (k: nat)
    ensures k <= n && (k > 0 ==> k <= g <= TWO31)
  {
    if !Lets(g) then 0 else if g < n then g else n
  }

  lemma GrantedNext(g: dword, n: nat)
    requires Lets(g) && n > 0
    ensures Granted(g, n) == 1 + Granted(g - 1, n - 1)
  {}

  /** Without gas the code takes the guest registers where interpreting takes them. */
  lemma {:induction false} PlainRuns(labels: seq<nat>, prog: seq<Inst3>, c: Cpu)
    requires |labels| == |prog| && forall i <- prog :: Translates(i)
    ensures var e := Run(Entries(labels, false, prog), 0, c);
            e.Fall? && Guest(e.c) == Interpreted(prog, Guest(c)) && SameContext(c, e.c)
    decreases |prog|
  {
    hide Run, Guest, EntryCode, Compiled, Value3;
    if prog == [] {
      RunEnd([], c);
    } else {
      assert Translates(prog[0]);
      PlainEntryRuns(labels[0], prog[0], c);
      var first := EntryCode(labels[0], false, prog[0]);
      var c1 := Run(first, 0, c).c;
      PlainRuns(labels[1..], prog[1..], c1);
      RunConcat(first, Entries(labels[1..], false, prog[1..]), 0, c, c1);
    }
  }

  /** With gas it runs as many instructions as the counter grants, each charged one unit, and leaves at
      the first that is not granted, before that instruction has any effect. */
  lemma {:induction false} MeteredRuns(labels: seq<nat>, prog: seq<Inst3>, c: Cpu)
    requires |labels| == |prog| && HasGas(c) && forall i <- prog :: Translates(i)
    ensures var n, g := |prog|, LowGas(c);
            var k := Granted(g, n);
            var e := Run(Entries(labels, true, prog), 0, c);
            && (forall i <- prog[..k] :: Translates(i))
            && if k == n then e.Fall? && Reaches(c, e.c, Interpreted(prog, Guest(c)), g - k)
               else e.Illegal? && Refuses(c, e.c, Interpreted(prog[..k], Guest(c)), (g - k - 1) % TWO32)
    decreases |prog|
  {
    hide Run, Guest, EntryCode, Compiled, Value3, Reaches, Refuses, Lets, Granted;
    var n, g := |prog|, LowGas(c);
    forall i | i in prog[..Granted(g, n)]
      ensures Translates(i)
    {
      assert i in prog;
    }
    if prog == [] {
      EmptyRun(c);
    } else {
      assert Translates(prog[0]);
      var first, rest := EntryCode(labels[0], true, prog[0]), Entries(labels[1..], true, prog[1..]);
      MeteredEntryRuns(labels[0], prog[0], c);
      var e := Run(first, 0, c);
      if Lets(g) {
        GrantedNext(g, n);
        var g1 := Guest(c)[prog[0].rd := Result(prog[0], Guest(c))];
        CounterLeft(c, e.c, g1, g - 1);
        MeteredRuns(labels[1..], prog[1..], e.c);
        RunConcat(first, rest, 0, c, e.c);
        var k := Granted(g, n);
        InterpretedFirst(prog, Guest(c), k);
        var last := Run(rest, 0, e.c);
        assert prog[..n] == prog && prog[1..][..n - 1] == prog[1..];
        if k == n {
          ReachesOn(c, e.c, last.c, g1, g - 1, Interpreted(prog, Guest(c)), g - k);
        } else {
          ReachesOn(c, e.c, last.c, g1, g - 1, Interpreted(prog[..k], Guest(c)), (g - k - 1) % TWO32);
        }
      } else {
        RunIllegal(first, rest, 0, c, e.c);
        NothingGranted(prog, c);
      }
    }
  }

  lemma CounterLeft(c: Cpu, e: Cpu, g: seq<word>, v: dword)
    requires HasGas(c) && Reaches(c, e, g, v)
    ensures HasGas(e) && LowGas(e) == v && Slot(e) == Slot(c) && Guest(e) == g
  {
    hide Guest;
  }

  lemma SetTwice(h: map<int, dword>, k: int, v: dword, w: dword)
    ensures h[k := v][k := w] == h[k := w]
  {}

  lemma ReachesOn(c: Cpu, c1: Cpu, e: Cpu, g1: seq<word>, v1: dword, g: seq<word>, v: dword)
    requires HasGas(c) && Reaches(c, c1, g1, v1) && HasGas(c1) && Slot(c1) == Slot(c)
    ensures Reaches(c1, e, g, v) ==> Reaches(c, e, g, v)
    ensures Refuses(c1, e, g, v) ==> Refuses(c, e, g, v)
  {
    hide Guest;
    SetTwice(c.host, Slot(c), v1, v);
  }

  lemma EmptyRun(c: Cpu)
    requires HasGas(c)
    ensures Run([], 0, c) == Fall(c) && Reaches(c, c, Interpreted([], Guest(c)), LowGas(c)) && Granted(LowGas(c), 0) == 0
  {
    hide Guest;
    assert c.host[Slot(c) := LowGas(c)] == c.host;
  }

  lemma NothingGranted(prog: seq<Inst3>, c: Cpu)
    requires HasGas(c) && prog != [] && !Lets(LowGas(c))
    ensures Granted(LowGas(c), |prog|) == 0 && prog[..0] == [] && Interpreted([], Guest(c)) == Guest(c)
  {}

  /** Interpreting the first k instructions, when the first is one of them. */
  lemma InterpretedFirst(prog: seq<Inst3>, g: seq<word>, k: nat)
    requires |g| == GUESTS && 0 < k <= |prog| && forall i <- prog :: Translates(i)
    ensures (forall i <- prog[..k] :: Translates(i)) && (forall i <- prog[1..][..k - 1] :: Translates(i)) && Translates(prog[0])
    ensures Interpreted(prog[..k], g) == Interpreted(prog[1..][..k - 1], g[prog[0].rd := Result(prog[0], g)])
  {
    hide Value3, Compiled;
    assert prog[..k][1..] == prog[1..][..k - 1] && prog[..k][0] == prog[0];
    forall i | i in prog[..k]
      ensures i in prog
    {}
    assert prog[0] in prog;
    forall i | i in prog[1..][..k - 1]
      ensures i in prog
    {}
  }

  // ------------------------------------------------------------ the 64-bit counter

  /** Both halves of the counter are mapped. */
  predicate HasCounter(c: Cpu)
  {
    HasGas(c) && Slot(c) + 4 in c.host
  }

  /** The 64-bit counter the caller stored and reads back. */
  function Counter(c: Cpu): word
    requires HasCounter(c)
  {
    c.host[Slot(c)] + TWO32 * c.host[Slot(c) + 4]
  }

  /** The counter as it is reported after a refusal: 2^32 is taken off what is stored. */
  function ReportedGas(c: Cpu, e: Cpu): int
    requires HasCounter(c) && Slot(c) in e.host && Slot(c) + 4 in e.host
  {
    e.host[Slot(c)] + TWO32 * e.host[Slot(c) + 4] - TWO32
  }

  /** Code that runs to its end has charged the counter exactly its instructions. */
  lemma ChargesEach(c: Cpu, e: Cpu, g: seq<word>, n: nat)
    requires HasCounter(c) && Granted(LowGas(c), n) == n && Reaches(c, e, g, LowGas(c) - n)
    ensures HasCounter(e) && Counter(e) == Counter(c) - n
  {
    hide Guest;
  }

  /** A refusal reports the gas minus the instructions run and the one refused, that is -1 for counters
      that fit 31 bits, exactly when the counter's low half was at most 2^31; a larger low half is
      refused at once and reported 2^32 too low. */
  lemma ReportsExactly(c: Cpu, e: Cpu, g: seq<word>, n: nat)
    requires HasCounter(c) && Granted(LowGas(c), n) < n
    requires Refuses(c, e, g, (LowGas(c) - Granted(LowGas(c), n) - 1) % TWO32)
    ensures Slot(c) in e.host && Slot(c) + 4 in e.host
    ensures ReportedGas(c, e) == Counter(c) - Granted(LowGas(c), n) - 1 <==> LowGas(c) <= TWO31
  {
    hide Guest;
  }

  /** The check lets n instructions run exactly when the gas covers them, except that counters above 2^31
      are judged by their low half: those are met exactly when it lies between n and 2^31 or the gas
      does not cover n either. */
  lemma CoversExactly(c: Cpu, n: nat)
    requires HasCounter(c) && n > 0
    ensures Granted(LowGas(c), n) == n <==> n <= LowGas(c) <= TWO31
    ensures (Granted(LowGas(c), n) == n <==> n <= Counter(c))
       <==> Counter(c) <= TWO31 || n <= LowGas(c) <= TWO31 || Counter(c) < n
  {}
}
