/** Instructions as bytes. For each of the thirteen operand layouts, decoding the bytes of an
    instruction gives back the registers, immediates and branch target they were made from. */
module Encoding {
  import opened Words
  import opened Programs

  // ------------------------------------------------------------ bytes in the code

  /** The instruction at pc is exactly these bytes: no bit of the bitmask is set behind the first, and one
      is set, or the code ends, right after the last. */
  ghost predicate Sits(p: Program, pc: nat, bytes: seq<byte>)
  {
    && 0 < |bytes| <= 25 && pc + |bytes| <= Size(p) && p.code[pc..pc + |bytes|] == bytes
    && (forall k :: pc < k < pc + |bytes| ==> !p.bitmask[k])
    && (pc + |bytes| < Size(p) ==> p.bitmask[pc + |bytes|])
  }

  /** Registers above 12 are read as 12. */
  function Cap(r: nat): RegIndex { if r <= 12 then r else 12 }

  /** Immediates have at most four bytes. */
  function Four(n: nat): nat { if n <= 4 then n else 4 }

  /** n bytes hold v in two's complement. */
  predicate Holds(v: int, n: nat)
  {
    if n == 0 then v == 0 else -(Pow2(8 * n - 1) as int) <= v < Pow2(8 * n - 1)
  }

  /** v in n bytes, the least significant first. */
  function Bytes(v: int, n: nat): (s: seq<byte>)
    ensures |s| == n
  {
    ToLe(v % Pow2(8 * n), n)
  }

  /** The bytes of the last immediate or offset, v in n bytes; code after four of them is not looked at. */
  predicate LastImmediate(v: int, n: nat, tail: seq<byte>)
  {
    n <= 4 && Holds(v, n) && (n == 4 || tail == [])
  }

  lemma SkipOf(p: Program, pc: nat, bytes: seq<byte>)
    requires Sits(p, pc, bytes)
    ensures Skip(p, pc) == |bytes| - 1
  {
    hide NextOpcode;
    SkipMeaning(p, pc, pc + |bytes|);
  }

  lemma ByteOf(p: Program, pc: nat, bytes: seq<byte>, k: nat)
    requires Sits(p, pc, bytes) && k < |bytes|
    ensures Zeta(p, pc + k) == bytes[k]
  {
    assert p.code[pc..pc + |bytes|][k] == p.code[pc + k];
  }

  /** Reading a piece of the instruction's bytes. */
  lemma ImmOf(p: Program, pc: nat, bytes: seq<byte>, at: nat, n: nat)
    requires Sits(p, pc, bytes) && at + n <= |bytes|
    ensures Imm(p, pc + at, n) == FromLe(bytes[at..at + n])
  {
    var w := Window(p, pc + at, n);
    forall k: nat | k < n
      ensures w[k] == bytes[at..at + n][k]
    {
      ByteOf(p, pc, bytes, at + k);
    }
    assert w == bytes[at..at + n];
  }

  lemma HalfPower(n: nat)
    requires n > 0
    ensures Pow2(8 * n) == 2 * Pow2(8 * n - 1)
  {}

  /** What n bytes hold is read back, as a number and with its sign. */
  lemma BytesBack(v: int, n: nat)
    requires Holds(v, n)
    ensures FromLe(Bytes(v, n)) == v % Pow2(8 * n) && Signed(FromLe(Bytes(v, n)), n) == v
  {
    hide FromLe, ToLe;
    LeRoundTrip(v % Pow2(8 * n), n);
    if n > 0 {
      HalfPower(n);
      hide Pow2;
      var m := Pow2(8 * n);
      DivModUnique(v, m, if v < 0 then -1 else 0, if v < 0 then v + m else v);
    }
  }

  /** An immediate inside the instruction is read back, sign-extended to a word. */
  lemma ImmediateBack(p: Program, pc: nat, bytes: seq<byte>, at: nat, v: int, n: nat)
    requires Sits(p, pc, bytes) && at + n <= |bytes| && bytes[at..at + n] == Bytes(v, n) && Holds(v, n)
    ensures Signed(Imm(p, pc + at, n), n) == v && ImmX(p, pc + at, n) == v % TWO64
  {
    hide Imm, Signed, Bytes, Holds;
    ImmOf(p, pc, bytes, at, n);
    BytesBack(v, n);
  }

  // ------------------------------------------------------------ opcodes

  /** The opcodes there are. */
  predicate Known(op: nat)
  {
    op <= 1 || op == 10 || op == 20 || 30 <= op <= 33 || op == 40 || 50 <= op <= 62 || 70 <= op <= 73 || 80 <= op <= 90
    || 100 <= op <= 111 || 120 <= op <= 161 || 170 <= op <= 175 || op == 180 || 190 <= op <= 230
  }

  lemma KnownOpcodes(op: byte)
    ensures Dispatch(op).Some? <==> Known(op)
  {}

  /** What can be fetched and decoded: a known opcode in the code, or the first 1000 zeros after it. */
  lemma DecodesExactly(p: Program, pc: nat)
    ensures Decode(p, pc).Some? <==> if pc < Size(p) then Known(p.code[pc]) else pc < Size(p) + 1000
  {
    hide Dispatch;
    if pc < Size(p) {
      KnownOpcodes(p.code[pc]);
    } else if pc < Size(p) + PADDING {
      PaddingTraps(p, pc);
    }
  }

  function LayoutByOpcode(op: nat): Layout
    requires Known(op)
  {
    if op <= 1 then NoOperands else if op == 10 then OneImm else if op == 20 then RegImm64 else if op <= 33 then TwoImm
    else if op == 40 then OneOffset else if op <= 62 then RegImm else if op <= 73 then RegTwoImm
    else if op <= 90 then RegImmOffset else if op <= 111 then TwoReg else if op <= 161 then TwoRegImm
    else if op <= 175 then TwoRegOffset else if op == 180 then TwoRegTwoImm else ThreeReg
  }

  lemma LayoutsAre(op: byte)
    requires Known(op)
    ensures Dispatch(op).Some? && LayoutOf(Dispatch(op).value) == LayoutByOpcode(op)
  {
    hide LayoutOf, LayoutByOpcode, Known, DispatchLow, DispatchMid, DispatchImm, DispatchReg;
    if op < 64 {
      LowLayouts(op);
    } else if op < 120 {
      MidLayouts(op);
    } else if op < 190 {
      ImmLayouts(op);
    } else {
      RegLayouts(op);
    }
  }

  lemma LowLayouts(op: byte)
    requires Known(op) && op < 64
    ensures DispatchLow(op).Some? && LayoutOf(DispatchLow(op).value) == LayoutByOpcode(op)
  {}

  lemma MidLayouts(op: byte)
    requires Known(op) && 64 <= op < 120
    ensures DispatchMid(op).Some? && LayoutOf(DispatchMid(op).value) == LayoutByOpcode(op)
  {}

  lemma ImmLayouts(op: byte)
    requires Known(op) && 120 <= op < 190
    ensures DispatchImm(op).Some? && LayoutOf(DispatchImm(op).value) == LayoutByOpcode(op)
  {
    hide DispatchImm;
    if 131 <= op <= 161 {
      ImmediateOps(op);
    } else {
      OtherImmOps(op);
    }
  }

  lemma ImmediateOps(op: byte)
    requires 131 <= op <= 161
    ensures DispatchImm(op).Some? && DispatchImm(op).value.AluImm?
  {}

  lemma OtherImmOps(op: byte)
    requires Known(op) && 120 <= op < 190 && !(131 <= op <= 161)
    ensures DispatchImm(op).Some? && LayoutOf(DispatchImm(op).value) == LayoutByOpcode(op)
  {}

  lemma RegLayouts(op: byte)
    requires Known(op) && 190 <= op
    ensures DispatchReg(op).Some? && LayoutOf(DispatchReg(op).value) == LayoutByOpcode(op)
  {}

  /** The bytes decode to this operation's handler with these operands. */
  ghost predicate Decodes(p: Program, pc: nat, bytes: seq<byte>, args: Args)
    requires bytes != []
  {
    Decode(p, pc).Some? && Dispatch(bytes[0]).Some?
    && Decode(p, pc).value == Inst(Dispatch(bytes[0]).value, pc, |bytes| - 1, args)
  }

  lemma DecodeIs(p: Program, pc: nat, bytes: seq<byte>)
    requires Sits(p, pc, bytes) && Known(bytes[0])
    ensures Decodes(p, pc, bytes, Operands(p, pc, LayoutByOpcode(bytes[0]), |bytes| - 1))
  {
    hide Dispatch, Operands, Skip;
    SkipOf(p, pc, bytes);
    ByteOf(p, pc, bytes, 0);
    LayoutsAre(bytes[0]);
  }

  // ------------------------------------------------------------ the thirteen layouts

  /** Opcodes 0 and 1: no operands, whatever follows. */
  lemma NoOperandsBack(p: Program, pc: nat, op: byte, tail: seq<byte>)
    requires op <= 1 && Sits(p, pc, [op] + tail)
    ensures Decodes(p, pc, [op] + tail, Args(0, 0, 0, 0, 0, 0))
  {
    hide Decodes, Dispatch;
    DecodeIs(p, pc, [op] + tail);
  }

  /** Opcode 10: an immediate. */
  lemma OneImmBack(p: Program, pc: nat, v: int, n: nat, tail: seq<byte>)
    requires LastImmediate(v, n, tail) && Sits(p, pc, [10] + Bytes(v, n) + tail)
    ensures Decodes(p, pc, [10] + Bytes(v, n) + tail, Args(0, 0, 0, v % TWO64, 0, 0))
  {
    hide Decodes, Dispatch, Sits, Imm, ImmX, Bytes, Holds;
    var bytes := [10] + Bytes(v, n) + tail;
    DecodeIs(p, pc, bytes);
    ImmediateBack(p, pc, bytes, 1, v, n);
  }

  /** Opcode 20: a register and a number of eight bytes. */
  lemma RegImm64Back(p: Program, pc: nat, ra: nat, v: nat, tail: seq<byte>)
    requires ra < 16 && v < TWO64 && Sits(p, pc, [20, ra] + ToLe(v, 8) + tail)
    ensures Decodes(p, pc, [20, ra] + ToLe(v, 8) + tail, Args(Cap(ra), 0, 0, v, 0, 0))
  {
    hide Decodes, Dispatch, Sits, Imm, ImmX, ToLe, FromLe;
    var bytes := [20, ra] + ToLe(v, 8) + tail;
    DecodeIs(p, pc, bytes);
    ByteOf(p, pc, bytes, 1);
    Pow2Values();
    hide Pow2;
    ImmOf(p, pc, bytes, 2, 8);
    assert bytes[2..10] == ToLe(v, 8);
    LeRoundTrip(v, 8);
    InCode(p, pc, bytes);
  }

  lemma InCode(p: Program, pc: nat, bytes: seq<byte>)
    requires Sits(p, pc, bytes)
    ensures pc + |bytes| <= Size(p) && 0 < |bytes| <= 25
  {}

  /** Opcodes 30 to 33: two immediates, the first one's length in the second byte. */
  lemma TwoImmBack(p: Program, pc: nat, op: byte, l: byte, v: int, w: int, n: nat, tail: seq<byte>)
    requires 30 <= op <= 33 && Holds(v, Four(l)) && LastImmediate(w, n, tail)
    requires Sits(p, pc, [op, l] + Bytes(v, Four(l)) + Bytes(w, n) + tail)
    ensures Decodes(p, pc, [op, l] + Bytes(v, Four(l)) + Bytes(w, n) + tail, Args(0, 0, 0, v % TWO64, w % TWO64, 0))
  {
    hide Decodes, Dispatch, Sits, Imm, ImmX, Bytes, Holds;
    var bytes := [op, l] + Bytes(v, Four(l)) + Bytes(w, n) + tail;
    DecodeIs(p, pc, bytes);
    ByteOf(p, pc, bytes, 1);
    assert bytes[2..2 + Four(l)] == Bytes(v, Four(l));
    ImmediateBack(p, pc, bytes, 2, v, Four(l));
    assert bytes[2 + Four(l)..2 + Four(l) + n] == Bytes(w, n);
    ImmediateBack(p, pc, bytes, 2 + Four(l), w, n);
    InCode(p, pc, bytes);
  }

  /** Opcode 40: an offset. */
  lemma OneOffsetBack(p: Program, pc: nat, v: int, n: nat, tail: seq<byte>)
    requires LastImmediate(v, n, tail) && Sits(p, pc, [40] + Bytes(v, n) + tail)
    ensures Decodes(p, pc, [40] + Bytes(v, n) + tail, Args(0, 0, 0, 0, 0, pc + v))
  {
    hide Decodes, Dispatch, Sits, Imm, ImmX, Bytes, Holds, Signed;
    var bytes := [40] + Bytes(v, n) + tail;
    DecodeIs(p, pc, bytes);
    assert bytes[1..1 + n] == Bytes(v, n);
    ImmediateBack(p, pc, bytes, 1, v, n);
    InCode(p, pc, bytes);
  }

  /** Opcodes 50 to 62: a register in the low half of the second byte, and an immediate. */
  lemma RegImmBack(p: Program, pc: nat, op: byte, b: byte, v: int, n: nat, tail: seq<byte>)
    requires 50 <= op <= 62 && LastImmediate(v, n, tail) && Sits(p, pc, [op, b] + Bytes(v, n) + tail)
    ensures Decodes(p, pc, [op, b] + Bytes(v, n) + tail, Args(Cap(b % 16), 0, 0, v % TWO64, 0, 0))
  {
    hide Decodes, Dispatch, Sits, Imm, ImmX, Bytes, Holds;
    var bytes := [op, b] + Bytes(v, n) + tail;
    DecodeIs(p, pc, bytes);
    ByteOf(p, pc, bytes, 1);
    assert bytes[2..2 + n] == Bytes(v, n);
    ImmediateBack(p, pc, bytes, 2, v, n);
    InCode(p, pc, bytes);
  }

  /** Opcodes 70 to 73: a register, and two immediates, the first one's length in the three bits above
      the register. */
  lemma RegTwoImmBack(p: Program, pc: nat, op: byte, b: byte, v: int, w: int, n: nat, tail: seq<byte>)
    requires 70 <= op <= 73 && Holds(v, Four(b / 16 % 8)) && LastImmediate(w, n, tail)
    requires Sits(p, pc, [op, b] + Bytes(v, Four(b / 16 % 8)) + Bytes(w, n) + tail)
    ensures Decodes(p, pc, [op, b] + Bytes(v, Four(b / 16 % 8)) + Bytes(w, n) + tail,
                    Args(Cap(b % 16), 0, 0, v % TWO64, w % TWO64, 0))
  {
    hide Decodes, Dispatch, Sits, Imm, ImmX, Bytes, Holds;
    var l := Four(b / 16 % 8);
    var bytes := [op, b] + Bytes(v, l) + Bytes(w, n) + tail;
    DecodeIs(p, pc, bytes);
    ByteOf(p, pc, bytes, 1);
    assert bytes[2..2 + l] == Bytes(v, l);
    ImmediateBack(p, pc, bytes, 2, v, l);
    assert bytes[2 + l..2 + l + n] == Bytes(w, n);
    ImmediateBack(p, pc, bytes, 2 + l, w, n);
    InCode(p, pc, bytes);
  }

  /** What is left of v when only its low k bytes are read, and the bytes above are taken as zero. */
  function Cut(v: int, n: nat, k: nat): int
  {
    if n <= k then v else v % Pow2(8 * k)
  }

  /** Cutting does no harm exactly when nothing is cut off or the number fits the bytes left, unsigned. */
  lemma CutExactly(v: int, n: nat, k: nat)
    ensures Cut(v, n, k) == v <==> n <= k || 0 <= v < Pow2(8 * k)
  {
    hide Pow2;
    if n > k && 0 <= v < Pow2(8 * k) {
      DivModUnique(v, Pow2(8 * k), 0, v);
    }
  }

  /** The low bytes of an immediate, read for the whole: a cut number is never negative. */
  lemma CutBack(p: Program, pc: nat, bytes: seq<byte>, at: nat, v: int, n: nat, k: nat)
    requires Sits(p, pc, bytes) && at + n <= |bytes| && bytes[at..at + n] == Bytes(v, n) && Holds(v, n)
    ensures Signed(Imm(p, pc + at, if n <= k then n else k), n) == Cut(v, n, k)
  {
    hide Imm, Bytes, Holds, Sits;
    if n <= k {
      ImmediateBack(p, pc, bytes, at, v, n);
    } else {
      ImmOf(p, pc, bytes, at, k);
      FirstBytes(v, n, k);
      assert bytes[at..at + k] == bytes[at..at + n][..k];
      hide FromLe;
      PowersOf8(k, n);
      hide Pow2;
    }
  }

  lemma PowersOf8(k: nat, n: nat)
    requires k < n
    ensures Pow2(8 * k) <= Pow2(8 * n - 1)
  {
    Pow2Mono(8 * k, 8 * n - 1);
  }

  lemma FirstBytes(v: int, n: nat, k: nat)
    requires k < n
    ensures FromLe(Bytes(v, n)[..k]) == v % Pow2(8 * k)
  {
    hide FromLe, ToLe, Pow2;
    var u := v % Pow2(8 * n);
    Prefix(u, n, k);
    ShrinkMod(v, 8 * n, 8 * k);
  }

  lemma {:induction false} Prefix(u: nat, n: nat, k: nat)
    requires k <= n
    ensures FromLe(ToLe(u, n)[..k]) == u % Pow2(8 * k)
    decreases k
  {
    if k > 0 {
      Prefix(u / 256, n - 1, k - 1);
      assert ToLe(u, n)[..k][1..] == ToLe(u / 256, n - 1)[..k - 1];
      ByteMod(u, k);
    }
  }

  lemma ByteMod(u: nat, k: nat)
    requires k > 0
    ensures u % Pow2(8 * k) == u % 256 + 256 * (u / 256 % Pow2(8 * (k - 1)))
  {
    Pow2Add(8, 8 * (k - 1));
    Pow2Values();
    hide Pow2;
    var m := Pow2(8 * (k - 1));
    var q, r := u / 256 / m, u / 256 % m;
    assert u / 256 == q * m + r;
    MulSwap(256, q, m);
    MulAssoc(q, 256, m);
    MulSwap(q, 256, m);
    assert 256 * (q * m) == q * (256 * m);
    DivModUnique(u, 256 * m, q, u % 256 + 256 * r);
  }

  lemma ShrinkMod(v: int, a: nat, b: nat)
    requires b <= a
    ensures v % Pow2(a) % Pow2(b) == v % Pow2(b)
  {
    Pow2Add(a - b, b);
    hide Pow2;
    ModOfMod(v, Pow2(a - b), Pow2(b), Pow2(a));
  }

  lemma ModOfMod(v: int, c: nat, m: nat, d: nat)
    requires c > 0 && m > 0 && d == c * m
    ensures d > 0 && v % d % m == v % m
  {
    var q, r := v / d, v % d;
    assert v == q * d + r;
    MulAssoc(q, c, m);
    ModMod(v, r, q * c, m);
  }

  /** Opcodes 80 to 90: a register, an immediate as above, and an offset. Immediate and offset are looked
      for in six bytes, so that an offset reaching beyond them is cut. */
  lemma RegImmOffsetBack(p: Program, pc: nat, op: byte, b: byte, v: int, w: int, n: nat, tail: seq<byte>)
    requires 80 <= op <= 90 && Holds(v, Four(b / 16 % 8)) && LastImmediate(w, n, tail)
    requires Sits(p, pc, [op, b] + Bytes(v, Four(b / 16 % 8)) + Bytes(w, n) + tail)
    ensures Decodes(p, pc, [op, b] + Bytes(v, Four(b / 16 % 8)) + Bytes(w, n) + tail,
                    Args(Cap(b % 16), 0, 0, v % TWO64, 0, pc + Cut(w, n, 6 - Four(b / 16 % 8))))
  {
    hide Decodes, Dispatch, Sits, Imm, ImmX, Bytes, Holds, Signed, Cut, Pow2;
    var l := Four(b / 16 % 8);
    var bytes := [op, b] + Bytes(v, l) + Bytes(w, n) + tail;
    DecodeIs(p, pc, bytes);
    ByteOf(p, pc, bytes, 1);
    assert bytes[2..2 + l] == Bytes(v, l);
    ImmediateBack(p, pc, bytes, 2, v, l);
    assert bytes[2 + l..2 + l + n] == Bytes(w, n);
    CutBack(p, pc, bytes, 2 + l, w, n, 6 - l);
    InCode(p, pc, bytes);
  }

  /** Opcodes 100 to 111: the destination in the low half of the second byte, the source in the high. */
  lemma TwoRegBack(p: Program, pc: nat, op: byte, b: byte, tail: seq<byte>)
    requires 100 <= op <= 111 && Sits(p, pc, [op, b] + tail)
    ensures Decodes(p, pc, [op, b] + tail, Args(Cap(b / 16), 0, Cap(b % 16), 0, 0, 0))
  {
    hide Decodes, Dispatch, Sits;
    var bytes := [op, b] + tail;
    DecodeIs(p, pc, bytes);
    ByteOf(p, pc, bytes, 1);
    InCode(p, pc, bytes);
  }

  /** Opcodes 120 to 161: two registers and an immediate. */
  lemma TwoRegImmBack(p: Program, pc: nat, op: byte, b: byte, v: int, n: nat, tail: seq<byte>)
    requires 120 <= op <= 161 && LastImmediate(v, n, tail) && Sits(p, pc, [op, b] + Bytes(v, n) + tail)
    ensures Decodes(p, pc, [op, b] + Bytes(v, n) + tail, Args(Cap(b % 16), Cap(b / 16), 0, v % TWO64, 0, 0))
  {
    hide Decodes, Dispatch, Sits, Imm, ImmX, Bytes, Holds;
    var bytes := [op, b] + Bytes(v, n) + tail;
    DecodeIs(p, pc, bytes);
    ByteOf(p, pc, bytes, 1);
    assert bytes[2..2 + n] == Bytes(v, n);
    ImmediateBack(p, pc, bytes, 2, v, n);
    InCode(p, pc, bytes);
  }

  /** Opcodes 170 to 175: two registers and an offset. */
  lemma TwoRegOffsetBack(p: Program, pc: nat, op: byte, b: byte, v: int, n: nat, tail: seq<byte>)
    requires 170 <= op <= 175 && LastImmediate(v, n, tail) && Sits(p, pc, [op, b] + Bytes(v, n) + tail)
    ensures Decodes(p, pc, [op, b] + Bytes(v, n) + tail, Args(Cap(b % 16), Cap(b / 16), 0, 0, 0, pc + v))
  {
    hide Decodes, Dispatch, Sits, Imm, ImmX, Bytes, Holds, Signed;
    var bytes := [op, b] + Bytes(v, n) + tail;
    DecodeIs(p, pc, bytes);
    ByteOf(p, pc, bytes, 1);
    assert bytes[2..2 + n] == Bytes(v, n);
    ImmediateBack(p, pc, bytes, 2, v, n);
    InCode(p, pc, bytes);
  }

  /** Opcode 180: two registers and two immediates, the first one's length in the third byte. The
      immediates are looked for in seven bytes. */
  lemma TwoRegTwoImmBack(p: Program, pc: nat, b: byte, l: byte, v: int, w: int, n: nat, tail: seq<byte>)
    requires Holds(v, Four(l % 8)) && LastImmediate(w, n, tail)
    requires Sits(p, pc, [180, b, l] + Bytes(v, Four(l % 8)) + Bytes(w, n) + tail)
    ensures Decodes(p, pc, [180, b, l] + Bytes(v, Four(l % 8)) + Bytes(w, n) + tail,
                    Args(Cap(b % 16), Cap(b / 16), 0, v % TWO64, Cut(w, n, 7 - Four(l % 8)) % TWO64, 0))
  {
    hide Decodes, Dispatch, Sits, Imm, ImmX, Bytes, Holds, Signed, Cut;
    var k := Four(l % 8);
    var bytes := [180, b, l] + Bytes(v, k) + Bytes(w, n) + tail;
    DecodeIs(p, pc, bytes);
    ByteOf(p, pc, bytes, 1);
    ByteOf(p, pc, bytes, 2);
    assert bytes[3..3 + k] == Bytes(v, k);
    ImmediateBack(p, pc, bytes, 3, v, k);
    assert bytes[3 + k..3 + k + n] == Bytes(w, n);
    CutBack(p, pc, bytes, 3 + k, w, n, 7 - k);
    InCode(p, pc, bytes);
  }

  /** Opcodes 190 to 230: two operand registers and the destination. */
  lemma ThreeRegBack(p: Program, pc: nat, op: byte, b: byte, d: byte, tail: seq<byte>)
    requires 190 <= op <= 230 && Sits(p, pc, [op, b, d] + tail)
    ensures Decodes(p, pc, [op, b, d] + tail, Args(Cap(b % 16), Cap(b / 16), Cap(d), 0, 0, 0))
  {
    hide Decodes, Dispatch, Sits;
    var bytes := [op, b, d] + tail;
    DecodeIs(p, pc, bytes);
    ByteOf(p, pc, bytes, 1);
    ByteOf(p, pc, bytes, 2);
    InCode(p, pc, bytes);
  }
}
