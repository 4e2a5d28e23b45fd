/** What loads and stores do to memory and registers, by the bytes of the code and, in memory, byte by
    byte. */
module MemoryLaws {
  import opened Words
  import opened Wrappers
  import opened Programs
  import opened Engine
  import opened Machine
  import opened Encoding
  import opened ControlLaws
  import FM = FlatMemory

  // ------------------------------------------------------------ memory, byte by byte

  ghost predicate MayRead(m: Mem, x: int)
  {
    0 <= x < TWO32 && (m.r[x / 4096] || m.w[x / 4096])
  }

  ghost predicate MayWrite(m: Mem, x: int)
  {
    0 <= x < TWO32 && m.w[x / 4096]
  }

  lemma PermissionsAre(m: Mem, x: int)
    ensures FM.Allowed(m, x, false) <==> MayRead(m, x)
    ensures FM.Allowed(m, x, true) <==> MayWrite(m, x)
  {}

  /** The addresses from a up to top hold the low bytes of a number, and nothing else changed. */
  ghost predicate Stored(m: Mem, m': Mem, a: nat, top: int, value: nat)
  {
    && m'.r == m.r && m'.w == m.w && m'.heapBreak == m.heapBreak
    && forall x :: 0 <= x < TWO32 ==> m'.bytes[x] == if a <= x < top then ByteOfNumber(value, x - a) else m.bytes[x]
  }

  /** The number that n bytes from a on hold, the first the least significant. */
  ghost function NumberAt(m: Mem, a: nat, n: nat): nat
    requires a + n <= TWO32
    decreases n
  {
    if n == 0 then 0 else m.bytes[a] + 256 * NumberAt(m, a + 1, n - 1)
  }

  /** The signed reading of n bytes, as a word. */
  function Reading(u: nat, n: nat, signed: bool): nat
    requires n > 0
  {
    if signed && u >= Pow2(8 * n - 1) then (u - Pow2(8 * n)) % TWO64 else u
  }

  /** Outcome of storing the low n bytes of a number at an address modulo 2^32. If all of them may be
      written they are, and control goes on; otherwise the first one that may not is reported, and those
      below it are written. Registers keep their values. */
  ghost predicate Stores(o: Outcome<State>, next: nat, s: State, address: nat, n: nat, value: nat)
  {
    var a := address % TWO32;
    match o
    case Next(_, c) =>
      && (forall x :: a <= x < a + n ==> MayWrite(s.mem, x))
      && o == To(next, State(s.regs, c.state.mem)) && Stored(s.mem, c.state.mem, a, a + n, value)
    case Raised(e, s') =>
      && e.PageFault? && a <= e.addr < a + n && !MayWrite(s.mem, e.addr)
      && (forall x :: a <= x < e.addr ==> MayWrite(s.mem, x))
      && s'.regs == s.regs && Stored(s.mem, s'.mem, a, e.addr, value)
  }

  /** Outcome of loading n bytes from an address modulo 2^32 into a register. If all of them may be read,
      the register holds them; otherwise the first one that may not is reported and nothing changes. */
  ghost predicate Loads(o: Outcome<State>, next: nat, s: State, address: nat, n: nat, signed: bool, rd: RegIndex)
    requires n > 0
  {
    var a := address % TWO32;
    match o
    case Next(_, _) =>
      && a + n <= TWO32 && (forall x :: a <= x < a + n ==> MayRead(s.mem, x))
      && o == To(next, State(s.regs[rd := Reading(NumberAt(s.mem, a, n), n, signed)], s.mem))
    case Raised(e, s') =>
      && e.PageFault? && a <= e.addr < a + n && !MayRead(s.mem, e.addr)
      && (forall x :: a <= x < e.addr ==> MayRead(s.mem, x))
      && s' == s
  }

  lemma StoringIs(i: Inst, address: nat, value: nat, n: nat, s: State)
    requires n > 0
    ensures Stores(Storing(i, address, value, n, s.regs, s.mem), Following(i), s, address, n, value)
  {
    hide ToLe, FM.FirstFault, FM.Put, ByteOfNumber;
    var a := address % TWO32;
    var data := ToLe(value, n);
    var (m', fault) := FM.Write(s.mem, address, data);
    FM.FaultLaw(s.mem, address, data);
    hide FM.Write;
    forall x: int
      ensures FM.Allowed(s.mem, x, true) <==> MayWrite(s.mem, x)
    {
      PermissionsAre(s.mem, x);
    }
    hide FM.Allowed, MayWrite;
    forall k: nat | k < n
      ensures data[k] == ByteOfNumber(value, k)
    {
      ToLeByte(value, n, k);
    }
  }

  lemma {:induction false} NumberOfBytes(m: Mem, a: nat, s: seq<byte>)
    requires a + |s| <= TWO32 && forall k: nat :: k < |s| ==> s[k] == m.bytes[a + k]
    ensures FromLe(s) == NumberAt(m, a, |s|)
    decreases |s|
  {
    if s != [] {
      forall k: nat | k < |s[1..]|
        ensures s[1..][k] == m.bytes[a + 1 + k]
      {
        assert s[k + 1] == m.bytes[a + (k + 1)];
      }
      NumberOfBytes(m, a + 1, s[1..]);
    }
  }

  lemma LoadingIs(i: Inst, rd: RegIndex, address: nat, n: nat, signed: bool, s: State)
    requires 0 < n <= 8
    ensures Loads(Loading(i, rd, address, n, signed, s.regs, s.mem), Following(i), s, address, n, signed, rd)
  {
    hide FromLe, FM.FirstFault, NumberAt, Pow2;
    var a := address % TWO32;
    FM.FaultLaw(s.mem, address, seq(n, _ => 0));
    hide FM.Read;
    forall x: int
      ensures FM.Allowed(s.mem, x, false) <==> MayRead(s.mem, x)
    {
      PermissionsAre(s.mem, x);
    }
    hide FM.Allowed, MayRead;
    match FM.Read(s.mem, address, n) {
      case Fault(x) =>
      case Bytes(data) =>
        forall x | a <= x < a + n
          ensures FM.Allowed(s.mem, x, false)
        {
          assert data[x - a] == s.mem.bytes[a + (x - a)];
        }
        NumberOfBytes(s.mem, a, data);
        SignedWord(FromLe(data), n, signed);
    }
  }

  lemma SignedWord(u: nat, n: nat, signed: bool)
    requires 0 < n <= 8 && u < Pow2(8 * n)
    ensures Reading(u, n, signed) == if signed then U64(Signed(u, n)) else u
  {
    Pow2Mono(8 * n, 64);
    Pow2Values();
    hide Pow2;
  }

  // ------------------------------------------------------------ by opcode

  /** Bytes that a store or load with this opcode moves. */
  function Width(op: nat): nat
  {
    match op
    case 30 | 52 | 53 | 59 | 70 | 120 | 124 | 125 => 1
    case 31 | 54 | 55 | 60 | 71 | 121 | 126 | 127 => 2
    case 32 | 56 | 57 | 61 | 72 | 122 | 128 | 129 => 4
    case 33 | 58 | 62 | 73 | 123 | 130 => 8
    case _ => 0
  }

  /** Loads that extend the sign. */
  predicate SignedLoad(op: nat)
  {
    op == 53 || op == 55 || op == 57 || op == 125 || op == 127 || op == 129
  }

  lemma StoreHandlers(op: byte)
    ensures 30 <= op <= 33 ==> Dispatch(op) == Some(StoreImm(Width(op)))
    ensures 59 <= op <= 62 ==> Dispatch(op) == Some(StoreU(Width(op)))
    ensures 70 <= op <= 73 ==> Dispatch(op) == Some(StoreImmInd(Width(op)))
    ensures 120 <= op <= 123 ==> Dispatch(op) == Some(StoreInd(Width(op)))
  {
    hide DispatchReg;
  }

  lemma LoadHandlers(op: byte)
    ensures 52 <= op <= 58 ==> Dispatch(op) == Some(if SignedLoad(op) then LoadI(Width(op)) else LoadU(Width(op)))
    ensures 124 <= op <= 130 ==> Dispatch(op) == Some(LoadInd(Width(op), SignedLoad(op)))
  {
    hide DispatchMid, DispatchReg;
  }

  /** Opcodes 30 to 33 store an immediate at an immediate address. */
  lemma StoreImmLaw(p: Program, pc: nat, op: byte, l: byte, v: int, w: int, n: nat, tail: seq<byte>, s: State)
    requires 30 <= op <= 33 && Holds(v, Four(l)) && LastImmediate(w, n, tail)
    requires Sits(p, pc, [op, l] + Bytes(v, Four(l)) + Bytes(w, n) + tail)
    ensures Stores(Step(Pvm(p), Config(pc, s)), pc + 2 + Four(l) + n + |tail|, s, v % TWO64, Width(op), w % TWO64)
  {
    hide Dispatch, Decodes, Sits, Bytes, Holds, Storing, Stores, Loading;
    var bytes := [op, l] + Bytes(v, Four(l)) + Bytes(w, n) + tail;
    TwoImmBack(p, pc, op, l, v, w, n, tail);
    var args := Args(0, 0, 0, v % TWO64, w % TWO64, 0);
    StepOf(p, pc, bytes, args, s);
    StoreHandlers(op);
    StoringIs(Inst(StoreImm(Width(op)), pc, |bytes| - 1, args), v % TWO64, w % TWO64, Width(op), s);
  }

  /** Opcodes 59 to 62 store a register at an immediate address. */
  lemma StoreLaw(p: Program, pc: nat, op: byte, b: byte, v: int, n: nat, tail: seq<byte>, s: State)
    requires 59 <= op <= 62 && LastImmediate(v, n, tail) && Sits(p, pc, [op, b] + Bytes(v, n) + tail)
    ensures Stores(Step(Pvm(p), Config(pc, s)), pc + 2 + n + |tail|, s, v % TWO64, Width(op), s.regs[Cap(b % 16)])
  {
    hide Dispatch, Decodes, Sits, Bytes, Holds, Storing, Stores, Loading;
    var bytes := [op, b] + Bytes(v, n) + tail;
    RegImmBack(p, pc, op, b, v, n, tail);
    var args := Args(Cap(b % 16), 0, 0, v % TWO64, 0, 0);
    StepOf(p, pc, bytes, args, s);
    StoreHandlers(op);
    StoringIs(Inst(StoreU(Width(op)), pc, |bytes| - 1, args), v % TWO64, s.regs[Cap(b % 16)], Width(op), s);
  }

  /** Opcodes 70 to 73 store an immediate at a register plus an immediate. */
  lemma StoreImmIndLaw(p: Program, pc: nat, op: byte, b: byte, v: int, w: int, n: nat, tail: seq<byte>, s: State)
    requires 70 <= op <= 73 && Holds(v, Four(b / 16 % 8)) && LastImmediate(w, n, tail)
    requires Sits(p, pc, [op, b] + Bytes(v, Four(b / 16 % 8)) + Bytes(w, n) + tail)
    ensures Stores(Step(Pvm(p), Config(pc, s)), pc + 2 + Four(b / 16 % 8) + n + |tail|, s,
                   s.regs[Cap(b % 16)] + v % TWO64, Width(op), w % TWO64)
  {
    hide Dispatch, Decodes, Sits, Bytes, Holds, Storing, Stores, Loading;
    var bytes := [op, b] + Bytes(v, Four(b / 16 % 8)) + Bytes(w, n) + tail;
    RegTwoImmBack(p, pc, op, b, v, w, n, tail);
    var args := Args(Cap(b % 16), 0, 0, v % TWO64, w % TWO64, 0);
    StepOf(p, pc, bytes, args, s);
    StoreHandlers(op);
    StoringIs(Inst(StoreImmInd(Width(op)), pc, |bytes| - 1, args), s.regs[Cap(b % 16)] + v % TWO64, w % TWO64, Width(op), s);
  }

  /** Opcodes 120 to 123 store the first register at the second one plus an immediate. */
  lemma StoreIndLaw(p: Program, pc: nat, op: byte, b: byte, v: int, n: nat, tail: seq<byte>, s: State)
    requires 120 <= op <= 123 && LastImmediate(v, n, tail) && Sits(p, pc, [op, b] + Bytes(v, n) + tail)
    ensures Stores(Step(Pvm(p), Config(pc, s)), pc + 2 + n + |tail|, s,
                   s.regs[Cap(b / 16)] + v % TWO64, Width(op), s.regs[Cap(b % 16)])
  {
    hide Dispatch, Decodes, Sits, Bytes, Holds, Storing, Stores, Loading;
    var bytes := [op, b] + Bytes(v, n) + tail;
    TwoRegImmBack(p, pc, op, b, v, n, tail);
    var args := Args(Cap(b % 16), Cap(b / 16), 0, v % TWO64, 0, 0);
    StepOf(p, pc, bytes, args, s);
    StoreHandlers(op);
    StoringIs(Inst(StoreInd(Width(op)), pc, |bytes| - 1, args), s.regs[Cap(b / 16)] + v % TWO64, s.regs[Cap(b % 16)], Width(op), s);
  }

  /** Opcodes 52 to 58 load from an immediate address. */
  lemma LoadLaw(p: Program, pc: nat, op: byte, b: byte, v: int, n: nat, tail: seq<byte>, s: State)
    requires 52 <= op <= 58 && LastImmediate(v, n, tail) && Sits(p, pc, [op, b] + Bytes(v, n) + tail)
    ensures Loads(Step(Pvm(p), Config(pc, s)), pc + 2 + n + |tail|, s, v % TWO64, Width(op), SignedLoad(op), Cap(b % 16))
  {
    hide Dispatch, Decodes, Sits, Bytes, Holds, Storing, Loads, Loading;
    var bytes := [op, b] + Bytes(v, n) + tail;
    RegImmBack(p, pc, op, b, v, n, tail);
    var args := Args(Cap(b % 16), 0, 0, v % TWO64, 0, 0);
    StepOf(p, pc, bytes, args, s);
    LoadHandlers(op);
    LoadingIs(Inst(Dispatch(op).value, pc, |bytes| - 1, args), Cap(b % 16), v % TWO64, Width(op), SignedLoad(op), s);
  }

  /** Opcodes 124 to 130 load the first register from the second one plus an immediate. */
  lemma LoadIndLaw(p: Program, pc: nat, op: byte, b: byte, v: int, n: nat, tail: seq<byte>, s: State)
    requires 124 <= op <= 130 && LastImmediate(v, n, tail) && Sits(p, pc, [op, b] + Bytes(v, n) + tail)
    ensures Loads(Step(Pvm(p), Config(pc, s)), pc + 2 + n + |tail|, s,
                  s.regs[Cap(b / 16)] + v % TWO64, Width(op), SignedLoad(op), Cap(b % 16))
  {
    hide Dispatch, Decodes, Sits, Bytes, Holds, Storing, Loads, Loading;
    var bytes := [op, b] + Bytes(v, n) + tail;
    TwoRegImmBack(p, pc, op, b, v, n, tail);
    var args := Args(Cap(b % 16), Cap(b / 16), 0, v % TWO64, 0, 0);
    StepOf(p, pc, bytes, args, s);
    LoadHandlers(op);
    LoadingIs(Inst(Dispatch(op).value, pc, |bytes| - 1, args), Cap(b % 16), s.regs[Cap(b / 16)] + v % TWO64, Width(op), SignedLoad(op), s);
  }

  // ------------------------------------------------------------ a store and a load

  /** What was stored reads as the number's low bytes. */
  lemma {:induction false} StoredNumber(m: Mem, m': Mem, a: nat, n: nat, value: nat, k: nat)
    requires k <= n && a + n <= TWO32 && Stored(m, m', a, a + n, value)
    ensures NumberAt(m', a + k, n - k) == value / Pow2(8 * k) % Pow2(8 * (n - k))
    decreases n - k
  {
    hide Pow2, Stored;
    if k == n {
      NothingLeft(value / Pow2(8 * k));
    } else {
      StoredNumber(m, m', a, n, value, k + 1);
      StoredByte(m, m', a, n, value, k);
      NextByte(value, k);
      ByteMod(value / Pow2(8 * k), n - k);
    }
  }

  lemma StoredByte(m: Mem, m': Mem, a: nat, n: nat, value: nat, k: nat)
    requires k < n && a + n <= TWO32 && Stored(m, m', a, a + n, value)
    ensures m'.bytes[a + k] == value / Pow2(8 * k) % 256
  {
    hide Pow2;
    assert ByteOfNumber(value, a + k - a) == ByteOfNumber(value, k);
  }

  lemma NothingLeft(v: nat)
    ensures v % Pow2(8 * 0) == 0
  {}

  lemma NextByte(v: nat, k: nat)
    ensures v / Pow2(8 * k) / 256 == v / Pow2(8 * (k + 1))
  {
    Pow2Add(8 * k, 8);
    Pow2Values();
    hide Pow2;
    DivOfDiv(v, Pow2(8 * k), 256);
  }

  /** Storing a register and loading from the same place, two steps on, gives the register's low bytes, or
      their signed reading, wherever the store goes through. */
  lemma StoreThenLoad(p: Program, pc: nat, store: byte, load: byte, b: byte, d: byte, v: int, n: nat,
                      tail: seq<byte>, tail': seq<byte>, s: State)
    requires 120 <= store <= 123 && 124 <= load <= 130 && Width(store) == Width(load) && d / 16 == b / 16
    requires LastImmediate(v, n, tail) && LastImmediate(v, n, tail')
    requires Sits(p, pc, [store, b] + Bytes(v, n) + tail)
    requires Sits(p, pc + 2 + n + |tail|, [load, d] + Bytes(v, n) + tail')
    requires Step(Pvm(p), Config(pc, s)).Next?
    ensures var w := Width(store);
            var c := After(Pvm(p), Config(pc, s), 2);
            var value := Reading(s.regs[Cap(b % 16)] % Pow2(8 * w), w, SignedLoad(load));
            c.Some? && c.value.pc == pc + 4 + 2 * n + |tail| + |tail'| && c.value.state.regs == s.regs[Cap(d % 16) := value]
  {
    hide Sits, Bytes, Holds, Pvm, Step, NumberAt, Pow2, Stored, Reading, MayWrite, MayRead;
    StoreIndLaw(p, pc, store, b, v, n, tail, s);
    var w := Width(store);
    var a := (s.regs[Cap(b / 16)] + v % TWO64) % TWO32;
    var next := pc + 2 + n + |tail|;
    var c1 := Step(Pvm(p), Config(pc, s)).config;
    LoadIndLaw(p, next, load, d, v, n, tail', c1.state);
    InsideSpace(s.mem, a, w);
    forall x | a <= x < a + w
      ensures MayRead(c1.state.mem, x)
    {
      StillReadable(s.mem, c1.state.mem, a, a + w, s.regs[Cap(b % 16)], x);
    }
    StoredNumber(s.mem, c1.state.mem, a, w, s.regs[Cap(b % 16)], 0);
    WholeNumber(s.regs[Cap(b % 16)]);
    TwoSteps(p, Config(pc, s), c1, Step(Pvm(p), c1));
  }

  lemma WholeNumber(v: nat)
    ensures v / Pow2(8 * 0) == v
  {}

  lemma InsideSpace(m: Mem, a: nat, w: nat)
    requires w > 0 && forall x :: a <= x < a + w ==> MayWrite(m, x)
    ensures a + w <= TWO32
  {
    assert MayWrite(m, a + w - 1);
  }

  lemma StillReadable(m: Mem, m': Mem, a: nat, top: int, value: nat, x: int)
    requires Stored(m, m', a, top, value) && MayWrite(m, x)
    ensures MayRead(m', x)
  {}

  lemma TwoSteps(p: Program, c: Config<State>, c1: Config<State>, o: Outcome<State>)
    requires Step(Pvm(p), c) == Next(Continue, c1) && Step(Pvm(p), c1) == o
    ensures After(Pvm(p), c, 2) == match o case Next(Continue, c2) => Some(c2) case _ => None
  {
    hide Step, Pvm;
    assert After(Pvm(p), c, 2) == After(Pvm(p), c1, 1);
    if o.Next? && o.status == Continue {
      assert After(Pvm(p), c1, 1) == After(Pvm(p), o.config, 0);
    }
  }
}
