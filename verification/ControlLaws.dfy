/** Where control goes, by the bytes of the code: which opcodes end a block, what every branch and jump
    does, and how a program leaves to its host. */
module ControlLaws {
  import opened Words
  import opened Wrappers
  import opened Isa
  import opened Programs
  import opened Engine
  import opened Machine
  import opened Encoding

  // ------------------------------------------------------------ blocks

  /** trap, fallthrough, the jumps and the branches. */
  predicate EndsABlock(op: nat)
  {
    op <= 1 || op == 40 || op == 50 || 80 <= op <= 90 || 170 <= op <= 175 || op == 180
  }

  /** A set bit of the bitmask over such an opcode. */
  predicate EndsAt(p: Program, n: nat)
  {
    n < Size(p) && p.bitmask[n] && EndsABlock(p.code[n])
  }

  /** The first position, or that of the instruction after one that ends a block. */
  ghost predicate StartsBlock(p: Program, x: int)
  {
    x == 0 || exists n: nat :: EndsAt(p, n) && x == n + 1 + Skip(p, n)
  }

  lemma TerminatingOpcodes(op: byte)
    ensures Dispatch(op).Some? && Terminating(Dispatch(op).value) <==> EndsABlock(op)
  {
    hide DispatchLow, DispatchMid, DispatchImm, DispatchReg, Terminating;
    if op < 64 {
      LowTerminating(op);
    } else if op < 120 {
      MidTerminating(op);
    } else if op < 190 {
      ImmTerminating(op);
    } else {
      RegTerminating(op);
    }
  }

  lemma LowTerminating(op: byte)
    requires op < 64
    ensures DispatchLow(op).Some? && Terminating(DispatchLow(op).value) <==> EndsABlock(op)
  {}

  lemma MidTerminating(op: byte)
    requires 64 <= op < 120
    ensures DispatchMid(op).Some? && Terminating(DispatchMid(op).value) <==> EndsABlock(op)
  {}

  lemma ImmTerminating(op: byte)
    requires 120 <= op < 190
    ensures DispatchImm(op).Some? && Terminating(DispatchImm(op).value) <==> EndsABlock(op)
  {}

  lemma RegTerminating(op: byte)
    requires 190 <= op
    ensures DispatchReg(op).Some? && Terminating(DispatchReg(op).value) <==> EndsABlock(op)
  {}

  lemma BlockEnds(p: Program, n: nat)
    ensures IsBlockEnd(p, n) <==> EndsAt(p, n)
  {
    hide Dispatch, Terminating, EndsABlock;
    if n < Size(p) {
      TerminatingOpcodes(p.code[n]);
    }
  }

  /** The positions where a block may begin, on the bytes. */
  lemma BlockStartsByOpcode(p: Program, x: int)
    ensures x in BasicBlocks(p) <==> StartsBlock(p, x)
  {
    hide IsBlockEnd, Skip, EndsAt;
    if x in BasicBlocks(p) && x != 0 {
      var n := BlockOrigin(p, x);
      BlockEnds(p, n);
    }
    if x != 0 && exists n: nat :: EndsAt(p, n) && x == n + 1 + Skip(p, n) {
      var n: nat :| EndsAt(p, n) && x == n + 1 + Skip(p, n);
      BlockEnds(p, n);
      BlockFollows(p, n);
    }
  }

  /** The code's bytes, followed by zeros. */
  function ByteAt(p: Program, n: nat): byte { if n < Size(p) then p.code[n] else 0 }

  /** A compiled block holds the instructions from pc on, each at the position after the one before, up to
      the first whose opcode ends a block, and no further. */
  lemma CompiledBlockByOpcode(p: Program, pc: nat, b: seq<Inst>)
    requires Lawful(Pvm(p)) && Compile(Pvm(p), pc) == Some(b)
    ensures b != [] && b[0].counter == pc
    ensures forall k: nat :: k < |b| ==>
              b[k].counter < Size(p) + 1000 && (EndsABlock(ByteAt(p, b[k].counter)) <==> k == |b| - 1)
    ensures forall k: nat :: k < |b| - 1 ==> b[k + 1].counter == b[k].counter + 1 + Skip(p, b[k].counter)
  {
    hide Exec, Compile, Decode, Terminating, EndsABlock, Dispatch, BasicBlocks, Skip;
    CompiledBlockShape(Pvm(p), pc, b);
    forall k: nat | k < |b|
      ensures b[k].counter < Size(p) + 1000 && (EndsABlock(ByteAt(p, b[k].counter)) <==> Terminating(b[k].fn))
      ensures b[k].skip == Skip(p, b[k].counter)
    {
      assert Decode(p, b[k].counter) == Some(b[k]);
      TerminatingOpcodes(ByteAt(p, b[k].counter));
    }
  }

  // ------------------------------------------------------------ one step

  lemma StepOf(p: Program, pc: nat, bytes: seq<byte>, args: Args, s: State)
    requires bytes != [] && Decodes(p, pc, bytes, args)
    ensures Step(Pvm(p), Config(pc, s)) == Exec(p, Inst(Dispatch(bytes[0]).value, pc, |bytes| - 1, args), s)
  {
    hide Exec, Dispatch, Decode;
  }

  /** The step goes on at pc with these registers and memory. */
  ghost function To(pc: nat, s: State): Outcome<State> { Next(Continue, Config(pc, s)) }

  /** A branch at pc with the instruction after it at `next`: untaken, or taken to itself, it goes on
      there; taken to no block start, it panics. */
  ghost function Branched(p: Program, pc: nat, next: nat, target: int, taken: bool, s: State): Outcome<State>
  {
    if !taken then To(next, s)
    else if !StartsBlock(p, target) then Raised(Panic, s)
    else if target == pc then To(next, s)
    else To(target, s)
  }

  /** A dynamic jump to address a: 2^32 - 2^16 halts, even addresses from 2 on select table entries. */
  ghost function Dynamic(p: Program, pc: nat, a: nat, s: State): Outcome<State>
  {
    if a == 0xFFFF_0000 then Next(Halt, Config(pc, s))
    else if a < 2 || a % 2 == 1 || a >= 2 * |p.jumpTable| + 2 then Raised(Panic, s)
    else if !StartsBlock(p, p.jumpTable[a / 2 - 1]) then Raised(Panic, s)
    else To(p.jumpTable[a / 2 - 1], s)
  }

  lemma BranchingIs(p: Program, i: Inst, taken: bool, s: State)
    ensures Branching(p, i, taken, s.regs, s.mem) == Branched(p, i.counter, i.counter + i.skip + 1, i.args.target, taken, s)
  {
    hide BasicBlocks, StartsBlock;
    BlockStartsByOpcode(p, i.args.target);
  }

  lemma JumpingIs(p: Program, i: Inst, a: nat, s: State)
    ensures Jumping(p, i, a, s.regs, s.mem) == Dynamic(p, i.counter, a, s)
  {
    hide BasicBlocks, StartsBlock;
    if 2 <= a && a / 2 - 1 < |p.jumpTable| {
      BlockStartsByOpcode(p, p.jumpTable[a / 2 - 1]);
    }
  }

  lemma ControlHandlers()
    ensures Dispatch(0) == Some(Trap) && Dispatch(1) == Some(Fallthrough) && Dispatch(10) == Some(Ecalli)
    ensures Dispatch(40) == Some(Jump) && Dispatch(50) == Some(JumpInd)
    ensures Dispatch(80) == Some(LoadImmJump) && Dispatch(180) == Some(LoadImmJumpInd)
  {}

  // ------------------------------------------------------------ branches

  /** Whether the branch with this opcode is taken on left value x and right value y. */
  predicate Taken(op: nat, x: nat, y: nat)
  {
    match op
    case 81 | 170 => x == y
    case 82 | 171 => x != y
    case 83 | 172 => x < y
    case 84 => x <= y
    case 85 | 174 => y <= x
    case 86 => y < x
    case 87 | 173 => S64(x) < S64(y)
    case 88 => S64(x) <= S64(y)
    case 89 | 175 => S64(y) <= S64(x)
    case 90 => S64(y) < S64(x)
    case _ => false
  }

  lemma ComparesRegisters(op: byte, x: nat, y: nat)
    requires 170 <= op <= 175
    ensures Dispatch(op).Some? && Dispatch(op).value.Branch?
    ensures var f := Dispatch(op).value;
            (if f.signed then Compare(f.cmp, S64(x), S64(y)) else Compare(f.cmp, x, y)) == Taken(op, x, y)
  {
    hide DispatchLow, DispatchMid, DispatchReg, S64;
  }

  lemma ComparesImmediate(op: byte, x: nat, y: nat)
    requires 81 <= op <= 90
    ensures Dispatch(op).Some? && Dispatch(op).value.BranchImm?
    ensures var f := Dispatch(op).value;
            (if f.signed then Compare(f.cmp, S64(x), S64(y)) else Compare(f.cmp, x, y)) == Taken(op, x, y)
  {
    hide DispatchLow, DispatchImm, DispatchReg, S64;
  }

  /** Opcodes 170 to 175 compare two registers. */
  lemma BranchLaw(p: Program, pc: nat, op: byte, b: byte, o: int, n: nat, tail: seq<byte>, s: State)
    requires 170 <= op <= 175 && LastImmediate(o, n, tail) && Sits(p, pc, [op, b] + Bytes(o, n) + tail)
    ensures var next := pc + 2 + n + |tail|;
            Step(Pvm(p), Config(pc, s))
            == Branched(p, pc, next, pc + o, Taken(op, s.regs[Cap(b % 16)], s.regs[Cap(b / 16)]), s)
  {
    hide Dispatch, Decodes, Sits, Bytes, Holds, Compare, Branching, Branched, Taken, Value3, Value2, Loading, Storing, Jumping;
    var bytes := [op, b] + Bytes(o, n) + tail;
    var x, y := s.regs[Cap(b % 16)], s.regs[Cap(b / 16)];
    TwoRegOffsetBack(p, pc, op, b, o, n, tail);
    var args := Args(Cap(b % 16), Cap(b / 16), 0, 0, 0, pc + o);
    StepOf(p, pc, bytes, args, s);
    ComparesRegisters(op, x, y);
    BranchingIs(p, Inst(Dispatch(op).value, pc, |bytes| - 1, args), Taken(op, x, y), s);
  }

  /** Opcodes 81 to 90 compare a register with an immediate. */
  lemma BranchImmLaw(p: Program, pc: nat, op: byte, b: byte, v: int, o: int, n: nat, tail: seq<byte>, s: State)
    requires 81 <= op <= 90 && Holds(v, Four(b / 16 % 8)) && LastImmediate(o, n, tail)
    requires Sits(p, pc, [op, b] + Bytes(v, Four(b / 16 % 8)) + Bytes(o, n) + tail)
    ensures var l := Four(b / 16 % 8);
            var next := pc + 2 + l + n + |tail|;
            Step(Pvm(p), Config(pc, s))
            == Branched(p, pc, next, pc + Cut(o, n, 6 - l), Taken(op, s.regs[Cap(b % 16)], v % TWO64), s)
  {
    hide Dispatch, Decodes, Sits, Bytes, Holds, Compare, Branching, Branched, Taken, Cut, Value3, Value2, Loading, Storing, Jumping;
    var l := Four(b / 16 % 8);
    var bytes := [op, b] + Bytes(v, l) + Bytes(o, n) + tail;
    var x, y := s.regs[Cap(b % 16)], v % TWO64;
    RegImmOffsetBack(p, pc, op, b, v, o, n, tail);
    var args := Args(Cap(b % 16), 0, 0, v % TWO64, 0, pc + Cut(o, n, 6 - l));
    StepOf(p, pc, bytes, args, s);
    ComparesImmediate(op, x, y);
    BranchingIs(p, Inst(Dispatch(op).value, pc, |bytes| - 1, args), Taken(op, x, y), s);
  }

  /** The instruction's offset names a block start that is neither the branch nor the instruction after it. */
  ghost predicate Elsewhere(p: Program, pc: nat, next: nat, target: int)
  {
    StartsBlock(p, target) && target != pc && target != next
  }

  /** Of two programs that differ in this opcode only, less-than in one and at-least in the other, exactly
      one takes the branch, signed or not. */
  lemma ExactlyOneTakes(p: Program, q: Program, pc: nat, signed: bool, b: byte, o: int, n: nat, tail: seq<byte>, s: State)
    requires LastImmediate(o, n, tail)
    requires Sits(p, pc, [if signed then 173 else 172, b] + Bytes(o, n) + tail)
    requires Sits(q, pc, [if signed then 175 else 174, b] + Bytes(o, n) + tail)
    requires Elsewhere(p, pc, pc + 2 + n + |tail|, pc + o) && Elsewhere(q, pc, pc + 2 + n + |tail|, pc + o)
    ensures (Step(Pvm(p), Config(pc, s)) == To(pc + o, s)) != (Step(Pvm(q), Config(pc, s)) == To(pc + o, s))
  {
    hide Sits, Bytes, Holds, Step, Pvm, StartsBlock;
    BranchLaw(p, pc, if signed then 173 else 172, b, o, n, tail, s);
    BranchLaw(q, pc, if signed then 175 else 174, b, o, n, tail, s);
  }

  // ------------------------------------------------------------ jumps

  /** Opcode 40 always branches. */
  lemma JumpLaw(p: Program, pc: nat, o: int, n: nat, tail: seq<byte>, s: State)
    requires LastImmediate(o, n, tail) && Sits(p, pc, [40] + Bytes(o, n) + tail)
    ensures Step(Pvm(p), Config(pc, s)) == Branched(p, pc, pc + 1 + n + |tail|, pc + o, true, s)
  {
    hide Dispatch, Decodes, Sits, Bytes, Holds, Branching, Branched, Value3, Value2, Compare, Loading, Storing;
    ControlHandlers();
    var bytes := [40] + Bytes(o, n) + tail;
    var args := Args(0, 0, 0, 0, 0, pc + o);
    OneOffsetBack(p, pc, o, n, tail);
    StepOf(p, pc, bytes, args, s);
    BranchingIs(p, Inst(Jump, pc, |bytes| - 1, args), true, s);
  }

  /** Opcode 80 sets a register and branches; the register stays set if the branch panics. */
  lemma LoadImmJumpLaw(p: Program, pc: nat, b: byte, v: int, o: int, n: nat, tail: seq<byte>, s: State)
    requires Holds(v, Four(b / 16 % 8)) && LastImmediate(o, n, tail)
    requires Sits(p, pc, [80, b] + Bytes(v, Four(b / 16 % 8)) + Bytes(o, n) + tail)
    ensures var l := Four(b / 16 % 8);
            var s' := State(s.regs[Cap(b % 16) := v % TWO64], s.mem);
            Step(Pvm(p), Config(pc, s)) == Branched(p, pc, pc + 2 + l + n + |tail|, pc + Cut(o, n, 6 - l), true, s')
  {
    hide Dispatch, Decodes, Sits, Bytes, Holds, Branching, Branched, Cut, Value3, Value2, Compare, Loading, Storing;
    ControlHandlers();
    var l := Four(b / 16 % 8);
    var bytes := [80, b] + Bytes(v, l) + Bytes(o, n) + tail;
    var args := Args(Cap(b % 16), 0, 0, v % TWO64, 0, pc + Cut(o, n, 6 - l));
    RegImmOffsetBack(p, pc, 80, b, v, o, n, tail);
    StepOf(p, pc, bytes, args, s);
    BranchingIs(p, Inst(LoadImmJump, pc, |bytes| - 1, args), true, State(s.regs[Cap(b % 16) := v % TWO64], s.mem));
  }

  /** Opcode 50 jumps to a register plus an immediate. */
  lemma JumpIndLaw(p: Program, pc: nat, b: byte, v: int, n: nat, tail: seq<byte>, s: State)
    requires LastImmediate(v, n, tail) && Sits(p, pc, [50, b] + Bytes(v, n) + tail)
    ensures Step(Pvm(p), Config(pc, s)) == Dynamic(p, pc, (s.regs[Cap(b % 16)] + v % TWO64) % TWO32, s)
  {
    hide Dispatch, Decodes, Sits, Bytes, Holds, Jumping, Dynamic, Value3, Value2, Compare, Loading, Storing;
    ControlHandlers();
    var bytes := [50, b] + Bytes(v, n) + tail;
    var args := Args(Cap(b % 16), 0, 0, v % TWO64, 0, 0);
    RegImmBack(p, pc, 50, b, v, n, tail);
    StepOf(p, pc, bytes, args, s);
    JumpingIs(p, Inst(JumpInd, pc, |bytes| - 1, args), (s.regs[Cap(b % 16)] + v % TWO64) % TWO32, s);
  }

  /** Opcode 180 sets a register and jumps to another one's old value plus an immediate. */
  lemma LoadImmJumpIndLaw(p: Program, pc: nat, b: byte, l: byte, v: int, w: int, n: nat, tail: seq<byte>, s: State)
    requires Holds(v, Four(l % 8)) && LastImmediate(w, n, tail)
    requires Sits(p, pc, [180, b, l] + Bytes(v, Four(l % 8)) + Bytes(w, n) + tail)
    ensures var a := (s.regs[Cap(b / 16)] + Cut(w, n, 7 - Four(l % 8)) % TWO64) % TWO32;
            Step(Pvm(p), Config(pc, s)) == Dynamic(p, pc, a, State(s.regs[Cap(b % 16) := v % TWO64], s.mem))
  {
    hide Dispatch, Decodes, Sits, Bytes, Holds, Jumping, Dynamic, Cut, Value3, Value2, Compare, Loading, Storing;
    ControlHandlers();
    var k := Four(l % 8);
    var bytes := [180, b, l] + Bytes(v, k) + Bytes(w, n) + tail;
    var args := Args(Cap(b % 16), Cap(b / 16), 0, v % TWO64, Cut(w, n, 7 - k) % TWO64, 0);
    TwoRegTwoImmBack(p, pc, b, l, v, w, n, tail);
    StepOf(p, pc, bytes, args, s);
    JumpingIs(p, Inst(LoadImmJumpInd, pc, |bytes| - 1, args), (s.regs[Cap(b / 16)] + Cut(w, n, 7 - k) % TWO64) % TWO32,
              State(s.regs[Cap(b % 16) := v % TWO64], s.mem));
  }

  // ------------------------------------------------------------ trap, fallthrough, ecalli

  /** Opcode 0 panics, opcode 1 goes on, both without changing anything. */
  lemma NoOperandsLaw(p: Program, pc: nat, op: byte, tail: seq<byte>, s: State)
    requires op <= 1 && Sits(p, pc, [op] + tail)
    ensures Step(Pvm(p), Config(pc, s)) == if op == 0 then Raised(Panic, s) else To(pc + 1 + |tail|, s)
  {
    hide Dispatch, Decodes, Sits, Value3, Value2, Compare, Loading, Storing;
    ControlHandlers();
    NoOperandsBack(p, pc, op, tail);
    StepOf(p, pc, [op] + tail, Args(0, 0, 0, 0, 0, 0), s);
  }

  /** Opcode 10 leaves to the host with the immediate, to be resumed after the instruction. */
  lemma EcalliLaw(p: Program, pc: nat, v: int, n: nat, tail: seq<byte>, s: State)
    requires LastImmediate(v, n, tail) && Sits(p, pc, [10] + Bytes(v, n) + tail)
    ensures Step(Pvm(p), Config(pc, s)) == Next(Host(v % TWO64), Config(pc + 1 + n + |tail|, s))
  {
    hide Dispatch, Decodes, Sits, Bytes, Holds, Value3, Value2, Compare, Loading, Storing;
    ControlHandlers();
    OneImmBack(p, pc, v, n, tail);
    StepOf(p, pc, [10] + Bytes(v, n) + tail, Args(0, 0, 0, v % TWO64, 0, 0), s);
  }
}
