/** What the register instructions compute, by opcode and in plain arithmetic on 64-bit words: division
    is integer division, shifts multiply and divide by powers of two, logic works digit by digit. */
module RegisterLaws {
  import opened Words
  import opened Wrappers
  import opened Division
  import opened Isa
  import opened Programs
  import opened Engine
  import opened Machine
  import opened Encoding
  import opened ControlLaws
  import FM = FlatMemory
  import M = Machine

  // ------------------------------------------------------------ plain arithmetic

  function ReadSigned(x: int, n: nat): int
    requires n > 0
  {
    var w := x % Pow2(n);
    if w < Pow2(n - 1) then w else w - Pow2(n)
  }

  /** The low 32 bits with their sign, as a word. */
  function Extended(x: int): nat { ReadSigned(x, 32) % 0x1_0000_0000_0000_0000 }

  /** Division towards zero. */
  function Quotient(x: int, y: int): int
    requires y != 0
  {
    var q: int := Abs(x) / Abs(y);
    if (x < 0) == (y < 0) then q else -q
  }

  /** The remainder that goes with it. */
  function Remainder(x: int, y: int): int
    requires y != 0
  {
    if x < 0 then -(Abs(x) % Abs(y)) else Abs(x) % Abs(y)
  }

  lemma QuotientIs(x: int, y: int)
    requires y != 0
    ensures Quotient(x, y) == TruncDiv(x, y) && Remainder(x, y) == TruncRem(x, y)
  {
    QuotIsDiv(Abs(x), Abs(y));
  }

  lemma ReadingsAre(x: int)
    ensures ReadSigned(x, 32) == S32(x) && Extended(x) == SX32(x)
    ensures 0 <= x < TWO64 ==> ReadSigned(x, 64) == S64(x)
  {
    Pow2Values();
    hide Pow2;
  }

  // ------------------------------------------------------------ three registers

  /** v is the result of the operation with this opcode, where d is the destination's old value. */
  ghost predicate Result3(op: nat, a: word, b: word, d: word, v: nat)
  {
    if op < 200 then Result32(op, a, b, v)
    else if op < 210 then Result64(op, a, b, v)
    else if op <= 212 || 224 <= op <= 226 then ResultLogic(op, a, b, v)
    else if 220 <= op <= 223 then ResultRotate(op, a, b, v)
    else ResultOther(op, a, b, d, v)
  }

  ghost predicate Result32(op: nat, a: word, b: word, v: nat)
  {
    var x, y := a % 0x1_0000_0000, b % 0x1_0000_0000;
    var sx, sy := ReadSigned(a, 32), ReadSigned(b, 32);
    var k := Pow2(b % 32);
    match op
    case 190 => v == Extended(a + b)
    case 191 => v == Extended(a - b)
    case 192 => v == Extended(a * b)
    case 193 => v == if y == 0 then 0xFFFF_FFFF_FFFF_FFFF else Extended(x / y)
    case 194 => v == if sy == 0 then 0xFFFF_FFFF_FFFF_FFFF else Extended(Quotient(sx, sy))
    case 195 => v == Extended(if y == 0 then x else x % y)
    case 196 => v == (if sy == 0 then sx else Remainder(sx, sy)) % 0x1_0000_0000_0000_0000
    case 197 => v == Extended(a * k)
    case 198 => v == Extended(x / k)
    case 199 => v == sx / k % 0x1_0000_0000_0000_0000
    case _ => false
  }

  ghost predicate Result64(op: nat, a: word, b: word, v: nat)
  {
    var sx, sy := ReadSigned(a, 64), ReadSigned(b, 64);
    var k := Pow2(b % 64);
    match op
    case 200 => v == (a + b) % 0x1_0000_0000_0000_0000
    case 201 => v == (a - b) % 0x1_0000_0000_0000_0000
    case 202 => v == (a * b) % 0x1_0000_0000_0000_0000
    case 203 => v == if b == 0 then 0xFFFF_FFFF_FFFF_FFFF else a / b
    case 204 => v == if sy == 0 then 0xFFFF_FFFF_FFFF_FFFF else Quotient(sx, sy) % 0x1_0000_0000_0000_0000
    case 205 => v == if b == 0 then a else a % b
    case 206 => v == (if sy == 0 then sx else Remainder(sx, sy)) % 0x1_0000_0000_0000_0000
    case 207 => v == a * k % 0x1_0000_0000_0000_0000
    case 208 => v == a / k
    case 209 => v == sx / k % 0x1_0000_0000_0000_0000
    case _ => false
  }

  ghost predicate ResultLogic(op: nat, a: word, b: word, v: nat)
  {
    v < 0x1_0000_0000_0000_0000 && forall i: nat :: i < 64 ==>
      (Digit(v, i) <==>
       match op
       case 210 => Digit(a, i) && Digit(b, i)
       case 211 => Digit(a, i) != Digit(b, i)
       case 212 => Digit(a, i) || Digit(b, i)
       case 224 => Digit(a, i) && !Digit(b, i)
       case 225 => Digit(a, i) || !Digit(b, i)
       case _ => Digit(a, i) == Digit(b, i))
  }

  /** Rotations: what is shifted out comes back at the other end. */
  ghost predicate ResultRotate(op: nat, a: word, b: word, v: nat)
  {
    var x := a % 0x1_0000_0000;
    var k, l := b % 64, b % 32;
    match op
    case 220 => v == a / Pow2(64 - k) + a % Pow2(64 - k) * Pow2(k)
    case 221 => v == Extended(x / Pow2(32 - l) + x % Pow2(32 - l) * Pow2(l))
    case 222 => v == a / Pow2(k) + a % Pow2(k) * Pow2(64 - k)
    case 223 => v == Extended(x / Pow2(l) + x % Pow2(l) * Pow2(32 - l))
    case _ => false
  }

  ghost predicate ResultOther(op: nat, a: word, b: word, d: word, v: nat)
  {
    var sx, sy := ReadSigned(a, 64), ReadSigned(b, 64);
    match op
    case 213 => v == sx * sy / 0x1_0000_0000_0000_0000 % 0x1_0000_0000_0000_0000
    case 214 => v == a * b / 0x1_0000_0000_0000_0000
    case 215 => v == sx * b / 0x1_0000_0000_0000_0000 % 0x1_0000_0000_0000_0000
    case 216 => v == if a < b then 1 else 0
    case 217 => v == if sx < sy then 1 else 0
    case 218 => v == if b == 0 then a else d
    case 219 => v == if b == 0 then d else a
    case 227 => v == if sx < sy then b else a
    case 228 => v == if a < b then b else a
    case 229 => v == if sx < sy then a else b
    case 230 => v == if a < b then a else b
    case _ => false
  }

  ghost predicate IsAlu(op: byte)
  {
    Dispatch(op).Some? && Dispatch(op).value.Alu?
  }

  /** The operation behind an opcode. */
  function OpOf(op: byte): Op3
    requires IsAlu(op)
  {
    Dispatch(op).value.op
  }

  /** The operations of the 41 three-register opcodes. */
  lemma OperationsAre(op: byte)
    requires 190 <= op <= 230
    ensures IsAlu(op) && OpOf(op) == OperationOf(op)
  {
    hide DispatchLow, DispatchMid, DispatchImm;
  }

  function OperationOf(op: nat): Op3
  {
    match op
    case 190 => Add(W32) case 191 => Sub(W32) case 192 => Mul(W32)
    case 193 => DivU(W32) case 194 => DivS(W32) case 195 => RemU(W32) case 196 => RemS(W32)
    case 197 => ShloL(W32) case 198 => ShloR(W32) case 199 => SharR(W32)
    case 200 => Add(W64) case 201 => Sub(W64) case 202 => Mul(W64)
    case 203 => DivU(W64) case 204 => DivS(W64) case 205 => RemU(W64) case 206 => RemS(W64)
    case 207 => ShloL(W64) case 208 => ShloR(W64) case 209 => SharR(W64)
    case 210 => Op3.Logic(And) case 211 => Op3.Logic(Xor) case 212 => Op3.Logic(Or)
    case 213 => MulUpperSS case 214 => MulUpperUU case 215 => MulUpperSU
    case 216 => SetLtU case 217 => SetLtS case 218 => CmovIz case 219 => CmovNz
    case 220 => RotLeft(W64) case 221 => RotLeft(W32) case 222 => RotRight(W64) case 223 => RotRight(W32)
    case 224 => Op3.Logic(AndInv) case 225 => Op3.Logic(OrInv) case 226 => Op3.Logic(Xnor)
    case 227 => Max case 228 => MaxU case 229 => Min case _ => MinU
  }

  lemma Arithmetic32(op: byte, a: word, b: word, d: word)
    requires 190 <= op <= 193 || op == 195
    ensures Result32(op, a, b, Value3(OperationOf(op), a, b, d))
  {
    hide SX32, Extended, ReadSigned, Quot, Rem, Pow2;
    ReadingsAre(a + b);
    ReadingsAre(a - b);
    ReadingsAre(a * b);
    var x, y := a % TWO32, b % TWO32;
    if y != 0 {
      QuotIsDiv(x, y);
      ReadingsAre(x / y);
      ReadingsAre(x % y);
    }
    ReadingsAre(x);
    LowSame(a);
    ReadingsAre(a);
  }

  lemma LowSame(a: int)
    ensures SX32(a % TWO32) == SX32(a)
  {}

  lemma Signed32Division(op: byte, a: word, b: word, d: word)
    requires op == 194 || op == 196
    ensures Result32(op, a, b, Value3(OperationOf(op), a, b, d))
  {
    hide SX32, Extended, ReadSigned, TruncDiv, TruncRem, Quotient, Remainder, Pow2;
    ReadingsAre(a);
    ReadingsAre(b);
    var x, y := S32(a), S32(b);
    if y != 0 {
      QuotientIs(x, y);
      ReadingsAre(TruncDiv(x, y));
      SmallQuotient(x, y);
    } else {
      NoDivisor(x);
    }
  }

  lemma NoDivisor(x: int)
    ensures TruncRem(x, 0) == x
  {}

  /** The only 32-bit quotient that overflows wraps to itself. */
  lemma SmallQuotient(x: int, y: int)
    requires y != 0 && -TWO31 <= x < TWO31 && -TWO31 <= y < TWO31
    ensures if x == -TWO31 && y == -1 then TruncDiv(x, y) == TWO31 && SX32(TruncDiv(x, y)) == U64(-TWO31)
            else SX32(TruncDiv(x, y)) == U64(TruncDiv(x, y))
  {
    hide Quot, Rem, SX32, U64;
    QuotientBound(Abs(x), Abs(y));
    SmallExtended(TruncDiv(x, y));
  }

  lemma QuotientBound(a: nat, b: nat)
    requires 0 < b && a <= TWO31
    ensures Quot(a, b) <= TWO31 && (Quot(a, b) == TWO31 <==> a == TWO31 && b == 1)
  {
    hide Quot, Rem;
    QuotRem(a, b);
    QuotSmaller(a, b);
    if b > 1 {
      MulMono(2, b, Quot(a, b));
    }
  }

  lemma SmallExtended(v: int)
    requires -TWO31 <= v <= TWO31
    ensures SX32(v) == if v == TWO31 then U64(-TWO31) else U64(v)
  {}

  lemma Shifts32(op: byte, a: word, b: word, d: word)
    requires 197 <= op <= 199
    ensures Result32(op, a, b, Value3(OperationOf(op), a, b, d))
  {
    hide SX32, Extended, ReadSigned, Shl, Shr, Sar, Pow2, Low;
    var k := b % 32;
    ReadingsAre(a);
    ReadingsAre(Shl(a, k));
    ShlIsMul(a, k);
    ReadingsAre(Shr(a % TWO32, k));
    ShrIsDiv(a % TWO32, k);
    SarIsDiv(S32(a), k);
  }

  lemma Arithmetic64(op: byte, a: word, b: word, d: word)
    requires 200 <= op <= 203 || op == 205
    ensures Result64(op, a, b, Value3(OperationOf(op), a, b, d))
  {
    hide ReadSigned, Quot, Rem, Pow2;
    if b != 0 {
      QuotIsDiv(a, b);
    }
  }

  lemma Signed64Division(op: byte, a: word, b: word, d: word)
    requires op == 204 || op == 206
    ensures Result64(op, a, b, Value3(OperationOf(op), a, b, d))
  {
    hide ReadSigned, Quotient, Remainder, Pow2, Quot, Rem;
    ReadingsAre(a);
    ReadingsAre(b);
    var x, y := S64(a), S64(b);
    if y != 0 {
      QuotientIs(x, y);
      if x == -TWO63 && y == -1 {
        QuotUnique(TWO63, 1, TWO63);
      }
    }
  }

  lemma Shifts64(op: byte, a: word, b: word, d: word)
    requires 207 <= op <= 209
    ensures Result64(op, a, b, Value3(OperationOf(op), a, b, d))
  {
    hide Value3, Result64, OperationOf;
    if op == 207 {
      ShiftLeft64(a, b, d);
    } else if op == 208 {
      ShiftRight64(a, b, d);
    } else {
      ShiftSigned64(a, b, d);
    }
  }

  lemma ShiftLeft64(a: word, b: word, d: word)
    ensures Result64(207, a, b, Value3(OperationOf(207), a, b, d))
  {
    hide ReadSigned, Shl, Pow2;
    ShlIsMul(a, b % 64);
  }

  lemma ShiftRight64(a: word, b: word, d: word)
    ensures Result64(208, a, b, Value3(OperationOf(208), a, b, d))
  {
    hide ReadSigned, Shr, Pow2, Low;
    ShrIsDiv(a, b % 64);
  }

  lemma ShiftSigned64(a: word, b: word, d: word)
    ensures Result64(209, a, b, Value3(OperationOf(209), a, b, d))
  {
    hide ReadSigned, Sar, Pow2, S64;
    ReadingsAre(a);
    SarIsDiv(S64(a), b % 64);
  }

  lemma Logic(op: byte, a: word, b: word, d: word)
    requires 210 <= op <= 212 || 224 <= op <= 226
    ensures ResultLogic(op, a, b, Value3(OperationOf(op), a, b, d))
  {
    hide Digit, Bitwise, Pow2, Bit;
    Pow2Values();
    var v := Value3(OperationOf(op), a, b, d);
    forall i: nat | i < 64
      ensures Digit(v, i) == Apply(OperationOf(op).op, Digit(a, i), Digit(b, i))
    {
      BitwiseBit(OperationOf(op).op, a, b, 64, i);
      DigitIsBit(v, i);
      DigitIsBit(a, i);
      DigitIsBit(b, i);
    }
  }

  lemma RotLArithmetic(v: nat, k: nat, n: nat)
    requires k < n && v < Pow2(n)
    ensures RotL(v, k, n) == v / Pow2(n - k) + v % Pow2(n - k) * Pow2(k)
  {
    ShrIsDiv(v, n - k);
    ShlIsMul(Low(v, n - k), k);
  }

  lemma WordsLow(a: word)
    ensures Low(a, 64) == a && Low(a, 32) == a % TWO32 < Pow2(32) && a < Pow2(64)
  {
    Pow2Values();
    LowSmall(a, 64);
    ShrIsDiv(a, 32);
  }

  lemma RotatesWord(op: byte, a: word, b: word, d: word)
    requires op == 220 || op == 222
    ensures ResultRotate(op, a, b, Value3(OperationOf(op), a, b, d))
  {
    hide RotL, RotR, Low, Pow2;
    WordsLow(a);
    RotLArithmetic(a, b % 64, 64);
    RotRArithmetic(a, b % 64, 64);
  }

  lemma RotatesLow(op: byte, a: word, b: word, d: word)
    requires op == 221 || op == 223
    ensures ResultRotate(op, a, b, Value3(OperationOf(op), a, b, d))
  {
    hide SX32, Extended, RotL, RotR, Low, Pow2;
    WordsLow(a);
    var x, k := a % TWO32, b % 32;
    if op == 221 {
      RotLArithmetic(x, k, 32);
      ReadingsAre(RotL(x, k, 32));
    } else {
      RotRArithmetic(x, k, 32);
      ReadingsAre(RotR(x, k, 32));
    }
  }

  lemma Products(op: byte, a: word, b: word, d: word)
    requires 213 <= op <= 215
    ensures ResultOther(op, a, b, d, Value3(OperationOf(op), a, b, d))
  {
    hide ReadSigned, S64;
    ReadingsAre(a);
    ReadingsAre(b);
  }

  lemma SameWord(a: word)
    ensures U64(S64(a)) == a
  {}

  lemma Comparisons(op: byte, a: word, b: word, d: word)
    requires 216 <= op <= 219
    ensures ResultOther(op, a, b, d, Value3(OperationOf(op), a, b, d))
  {
    hide ReadSigned, S64;
    ReadingsAre(a);
    ReadingsAre(b);
  }

  lemma UnsignedExtremes(op: byte, a: word, b: word, d: word)
    requires op == 228 || op == 230
    ensures ResultOther(op, a, b, d, Value3(OperationOf(op), a, b, d))
  {
    hide ReadSigned;
  }

  lemma SignedExtremes(op: byte, a: word, b: word, d: word)
    requires op == 227 || op == 229
    ensures ResultOther(op, a, b, d, Value3(OperationOf(op), a, b, d))
  {
    hide ReadSigned, S64, U64;
    ReadingsAre(a);
    ReadingsAre(b);
    SameWord(a);
    SameWord(b);
    EqualReadings(a, b);
  }

  lemma EqualReadings(a: word, b: word)
    ensures S64(a) == S64(b) ==> a == b
  {}

  lemma NoneRaises(op: byte, b: word)
    ensures !DivisionRaises(OperationOf(op), b)
  {}

  /** The value of every three-register opcode, 64-bit words given. */
  lemma ResultsAre(op: byte, a: word, b: word, d: word)
    requires 190 <= op <= 230
    ensures IsAlu(op) && !DivisionRaises(OpOf(op), b) && Result3(op, a, b, d, Value3(OpOf(op), a, b, d))
  {
    hide IsAlu, OpOf, Value3, OperationOf, Result32, Result64, ResultLogic, ResultRotate, ResultOther;
    OperationsAre(op);
    NoneRaises(op, b);
    if op == 194 || op == 196 {
      Signed32Division(op, a, b, d);
    } else if op < 197 {
      Arithmetic32(op, a, b, d);
    } else if op < 200 {
      Shifts32(op, a, b, d);
    } else if op == 204 || op == 206 {
      Signed64Division(op, a, b, d);
    } else if op < 207 {
      Arithmetic64(op, a, b, d);
    } else if op < 210 {
      Shifts64(op, a, b, d);
    } else if op <= 212 || 224 <= op <= 226 {
      Logic(op, a, b, d);
    } else if op == 220 || op == 222 {
      RotatesWord(op, a, b, d);
    } else if op == 221 || op == 223 {
      RotatesLow(op, a, b, d);
    } else if op <= 215 {
      Products(op, a, b, d);
    } else if op <= 219 {
      Comparisons(op, a, b, d);
    } else if op == 228 || op == 230 {
      UnsignedExtremes(op, a, b, d);
    } else {
      SignedExtremes(op, a, b, d);
    }
  }

  /** The step goes on at `next`, having changed register rd only. */
  ghost predicate Writes(o: Outcome<State>, next: nat, s: State, rd: RegIndex)
  {
    o.Next? && o == To(next, State(s.regs[rd := o.config.state.regs[rd]], s.mem))
  }

  function Written(o: Outcome<State>, rd: RegIndex): nat
    requires o.Next?
  {
    o.config.state.regs[rd]
  }

  /** Opcodes 190 to 230: the third register gets the result of the first two. */
  lemma ThreeRegLaw(p: Program, pc: nat, op: byte, b: byte, d: byte, tail: seq<byte>, s: State)
    requires 190 <= op <= 230 && Sits(p, pc, [op, b, d] + tail) && InRange(s.regs)
    ensures var o := Step(Pvm(p), Config(pc, s));
            && Writes(o, pc + 3 + |tail|, s, Cap(d))
            && Result3(op, s.regs[Cap(b % 16)], s.regs[Cap(b / 16)], s.regs[Cap(d)], Written(o, Cap(d)))
  {
    hide Dispatch, Decodes, Sits, Value3, Result3, Value2, Compare, Loading, Storing, Jumping, Branching;
    ThreeRegBack(p, pc, op, b, d, tail);
    StepOf(p, pc, [op, b, d] + tail, Args(Cap(b % 16), Cap(b / 16), Cap(d), 0, 0, 0), s);
    ResultsAre(op, s.regs[Cap(b % 16)], s.regs[Cap(b / 16)], s.regs[Cap(d)]);
  }

  // ------------------------------------------------------------ immediates

  /** The three-register opcode with the same operation. */
  function RegisterForm(op: nat): nat
  {
    match op
    case 131 => 190 case 132 => 210 case 133 => 211 case 134 => 212 case 135 => 192
    case 136 => 216 case 137 => 217 case 138 => 197 case 139 => 198 case 140 => 199
    case 141 => 191 case 142 => 216 case 143 => 217 case 144 => 197 case 145 => 198 case 146 => 199
    case 147 => 218 case 148 => 219
    case 149 => 200 case 150 => 202 case 151 => 207 case 152 => 208 case 153 => 209
    case 154 => 201 case 155 => 207 case 156 => 208 case 157 => 209
    case 158 => 222 case 159 => 222 case 160 => 223 case _ => 223
  }

  /** Opcodes that take the immediate as the first operand: negated addition, greater-than, conditional
      moves and the alternative shifts and rotations. */
  predicate ImmediateFirst(op: nat)
  {
    141 <= op <= 148 || 154 <= op <= 157 || op == 159 || op == 161
  }

  lemma ImmediateHandlers(op: byte)
    requires 131 <= op <= 161
    ensures 190 <= RegisterForm(op) <= 230 && IsAlu(RegisterForm(op))
    ensures Dispatch(op) == Some(AluImm(OpOf(RegisterForm(op)), ImmediateFirst(op)))
  {
    hide DispatchLow, DispatchMid;
  }

  /** Opcodes 131 to 161: the first register gets the result of the second one and the immediate. */
  lemma ImmediateLaw(p: Program, pc: nat, op: byte, b: byte, v: int, n: nat, tail: seq<byte>, s: State)
    requires 131 <= op <= 161 && LastImmediate(v, n, tail) && Sits(p, pc, [op, b] + Bytes(v, n) + tail) && InRange(s.regs)
    ensures var o := Step(Pvm(p), Config(pc, s));
            var x, y := s.regs[Cap(b / 16)], v % TWO64;
            && Writes(o, pc + 2 + n + |tail|, s, Cap(b % 16))
            && Result3(RegisterForm(op), if ImmediateFirst(op) then y else x, if ImmediateFirst(op) then x else y,
                       s.regs[Cap(b % 16)], Written(o, Cap(b % 16)))
  {
    hide Dispatch, Decodes, Sits, Bytes, Holds, Value3, Result3, Value2, Compare, Loading, Storing, Jumping, Branching,
      RegisterForm, ImmediateFirst;
    TwoRegImmBack(p, pc, op, b, v, n, tail);
    StepOf(p, pc, [op, b] + Bytes(v, n) + tail, Args(Cap(b % 16), Cap(b / 16), 0, v % TWO64, 0, 0), s);
    var x, y := s.regs[Cap(b / 16)], v % TWO64;
    ImmediateHandlers(op);
    ResultsAre(RegisterForm(op), if ImmediateFirst(op) then y else x, if ImmediateFirst(op) then x else y, s.regs[Cap(b % 16)]);
  }

  lemma PlainHandlers()
    ensures Dispatch(20) == Some(LoadImm64) && Dispatch(51) == Some(LoadImm) && Dispatch(101) == Some(Sbrk)
  {}

  /** Opcode 51 loads an immediate of up to four bytes, sign-extended, opcode 20 one of eight. */
  lemma LoadImmLaw(p: Program, pc: nat, b: byte, v: int, n: nat, tail: seq<byte>, s: State)
    requires LastImmediate(v, n, tail) && Sits(p, pc, [51, b] + Bytes(v, n) + tail)
    ensures Step(Pvm(p), Config(pc, s)) == To(pc + 2 + n + |tail|, State(s.regs[Cap(b % 16) := v % TWO64], s.mem))
  {
    hide Dispatch, Decodes, Sits, Bytes, Holds, Value3, Value2, Compare, Loading, Storing, Jumping, Branching;
    PlainHandlers();
    RegImmBack(p, pc, 51, b, v, n, tail);
    StepOf(p, pc, [51, b] + Bytes(v, n) + tail, Args(Cap(b % 16), 0, 0, v % TWO64, 0, 0), s);
  }

  lemma LoadImm64Law(p: Program, pc: nat, ra: nat, v: nat, tail: seq<byte>, s: State)
    requires ra < 16 && v < TWO64 && Sits(p, pc, [20, ra] + ToLe(v, 8) + tail)
    ensures Step(Pvm(p), Config(pc, s)) == To(pc + 10 + |tail|, State(s.regs[Cap(ra) := v], s.mem))
  {
    hide Dispatch, Decodes, Sits, ToLe, Value3, Value2, Compare, Loading, Storing, Jumping, Branching;
    PlainHandlers();
    RegImm64Back(p, pc, ra, v, tail);
    StepOf(p, pc, [20, ra] + ToLe(v, 8) + tail, Args(Cap(ra), 0, 0, v, 0, 0), s);
  }

  // ------------------------------------------------------------ one register

  /** How many of the low n binary digits are ones. */
  function Ones(v: nat, n: nat): nat
  {
    if n == 0 then 0 else Ones(v, n - 1) + v / Pow2(n - 1) % 2
  }

  /** c zeros are above the highest one of an n-bit number. */
  ghost predicate Leading(v: nat, n: nat, c: nat)
  {
    if v == 0 then c == n else c < n && Pow2(n - c - 1) <= v < Pow2(n - c)
  }

  /** c zeros are below the lowest one of an n-bit number. */
  ghost predicate Trailing(v: nat, n: nat, c: nat)
  {
    if v == 0 then c == n else c < n && v % Pow2(c) == 0 && v / Pow2(c) % 2 == 1
  }

  /** v is the result of the one-register operation with this opcode. */
  ghost predicate Result2(op: nat, a: word, v: nat)
  {
    var x := a % 0x1_0000_0000;
    match op
    case 100 => v == a
    case 102 => v == Ones(a, 64)
    case 103 => v == Ones(x, 32)
    case 104 => Leading(a, 64, v)
    case 105 => Leading(x, 32, v)
    case 106 => Trailing(a, 64, v)
    case 107 => Trailing(x, 32, v)
    case 108 => v == ReadSigned(a, 8) % 0x1_0000_0000_0000_0000
    case 109 => v == ReadSigned(a, 16) % 0x1_0000_0000_0000_0000
    case 110 => v == a % 0x1_0000
    case 111 => v < 0x1_0000_0000_0000_0000
                && forall k: nat :: k < 8 ==> ByteOfNumber(v, k) == ByteOfNumber(a, 7 - k)
    case _ => false
  }

  lemma {:induction false} OnesBelow(v: nat, n: nat)
    ensures Ones(v, n + 1) == v % 2 + Ones(v / 2, n)
  {
    if n == 0 {
      assert Ones(v, 1) == Ones(v, 0) + v / Pow2(0) % 2;
      assert Pow2(0) == 1;
    } else {
      OnesBelow(v, n - 1);
      HalfDown(v, n);
    }
  }

  lemma HalfDown(v: nat, n: nat)
    requires n > 0
    ensures v / Pow2(n) == v / 2 / Pow2(n - 1)
  {
    Pow2Add(1, n - 1);
    assert Pow2(1) == 2;
    hide Pow2;
    DivOfDiv(v, 2, Pow2(n - 1));
  }

  lemma {:induction false} PopCountIsOnes(v: nat, n: nat)
    ensures PopCount(v, n) == Ones(v, n)
  {
    if n > 0 {
      PopCountIsOnes(v / 2, n - 1);
      OnesBelow(v, n - 1);
    }
  }

  lemma {:induction false} ZerosOfZero(n: nat)
    ensures LeadingZeros(0, n) == n && TrailingZeros(0, n) == n
  {
    if n > 0 {
      ZerosOfZero(n - 1);
      BitOfZero(n - 1);
    }
  }

  lemma CountsMean(v: nat, n: nat)
    requires v < Pow2(n)
    ensures Leading(v, n, LeadingZeros(v, n)) && Trailing(v, n, TrailingZeros(v, n))
  {
    hide Pow2, LeadingZeros, TrailingZeros, Shr, Low;
    ZerosOfZero(n);
    LeadingZerosBound(v, n);
    TrailingZerosDivides(v, n);
    ShrIsDiv(v, TrailingZeros(v, n));
  }

  lemma {:induction false} ReversedAt(s: seq<byte>, k: nat)
    requires k < |s|
    ensures M.Reversed(s)[k] == s[|s| - 1 - k]
  {
    if k < |s| - 1 {
      ReversedAt(s[1..], k);
    }
  }

  lemma BytesReversed(a: nat, k: nat)
    requires k < 8
    ensures ByteOfNumber(FromLe(M.Reversed(ToLe(a, 8))), k) == ByteOfNumber(a, 7 - k)
  {
    hide ToLe, FromLe, ByteOfNumber, M.Reversed;
    var s := M.Reversed(ToLe(a, 8));
    ReversedAt(ToLe(a, 8), k);
    ToLeByte(a, 8, 7 - k);
    LeRoundTripBytes(s);
    ToLeByte(FromLe(s), 8, k);
  }

  lemma SignedLow(a: nat, n: nat)
    requires n > 0
    ensures Signed(Low(a, 8 * n), n) == ReadSigned(a, 8 * n)
  {
    ShrIsDiv(a, 8 * n);
  }

  lemma UnaryHandlers(op: byte)
    requires 100 <= op <= 111 && op != 101
    ensures Dispatch(op).Some? && Dispatch(op).value.Unary?
    ensures Dispatch(op).value.op2 ==
            match op
            case 100 => Move case 102 => CountSetBits(8) case 103 => CountSetBits(4)
            case 104 => LeadingZeroBits(8) case 105 => LeadingZeroBits(4)
            case 106 => TrailingZeroBits(8) case 107 => TrailingZeroBits(4)
            case 108 => SignExtend(1) case 109 => SignExtend(2) case 110 => ZeroExtend16 case _ => ReverseBytes
  {
    hide DispatchLow, DispatchImm, DispatchReg;
  }

  lemma UnaryResults(op: byte, a: word)
    requires 100 <= op <= 111 && op != 101
    ensures Dispatch(op).Some? && Dispatch(op).value.Unary? && Result2(op, a, Value2(Dispatch(op).value.op2, a))
  {
    hide Dispatch, Pow2, LeadingZeros, TrailingZeros, PopCount, Ones, Low, Leading, Trailing, ReadSigned, FromLe, ToLe,
      M.Reversed, Signed, ByteOfNumber;
    UnaryHandlers(op);
    WordsLow(a);
    var x := a % TWO32;
    PopCountIsOnes(a, 64);
    LowOnes(a);
    CountsMean(a, 64);
    CountsMean(x, 32);
    SignedLow(a, 1);
    SignedLow(a, 2);
    forall k: nat | k < 8
      ensures ByteOfNumber(FromLe(M.Reversed(ToLe(a, 8))), k) == ByteOfNumber(a, 7 - k)
    {
      BytesReversed(a, k);
    }
    Pow2Values();
  }

  lemma LowOnes(a: word)
    ensures PopCount(a, 32) == Ones(a % TWO32, 32)
  {
    hide PopCount, Ones, Low;
    PopCountIsOnes(a % TWO32, 32);
    PopCountLow(a, 32);
    WordsLow(a);
  }

  lemma {:induction false} PopCountLow(v: nat, n: nat)
    ensures PopCount(v, n) == PopCount(Low(v, n), n)
    decreases n
  {
    if n > 0 {
      PopCountLow(v / 2, n - 1);
      assert Low(v, n) / 2 == Low(v / 2, n - 1) && Low(v, n) % 2 == v % 2;
    }
  }

  /** Opcodes 100 and 102 to 111: the register in the low half gets the result of that in the high half. */
  lemma TwoRegLaw(p: Program, pc: nat, op: byte, b: byte, tail: seq<byte>, s: State)
    requires 100 <= op <= 111 && op != 101 && Sits(p, pc, [op, b] + tail) && InRange(s.regs)
    ensures var o := Step(Pvm(p), Config(pc, s));
            && Writes(o, pc + 2 + |tail|, s, Cap(b % 16))
            && Result2(op, s.regs[Cap(b / 16)], Written(o, Cap(b % 16)))
  {
    hide Dispatch, Decodes, Sits, Value3, Result2, Value2, Compare, Loading, Storing, Jumping, Branching;
    TwoRegBack(p, pc, op, b, tail);
    StepOf(p, pc, [op, b] + tail, Args(Cap(b / 16), 0, Cap(b % 16), 0, 0, 0), s);
    UnaryResults(op, s.regs[Cap(b / 16)]);
  }

  /** The pages from that of `first` to that of `last` become writable, all else staying as it is. */
  ghost predicate Opened(m: M.Mem, m': M.Mem, first: int, last: int)
  {
    && m'.bytes == m.bytes
    && forall pg :: 0 <= pg < 0x10_0000 ==>
         if first / 4096 <= pg <= last / 4096 then !m'.r[pg] && m'.w[pg] else m'.r[pg] == m.r[pg] && m'.w[pg] == m.w[pg]
  }

  lemma AlterOpens(m: M.Mem, size: nat, up: nat)
    ensures var m' := FM.Alter(m, m.heapBreak, size, FM.WRITE).(heapBreak := up);
            FM.WellFormed(m') && Opened(m, m', m.heapBreak, if size == 0 then m.heapBreak else m.heapBreak + size - 1)
  {}

  lemma SbrkRuns(p: Program, i: Inst, s: State)
    requires i.fn == Sbrk
    ensures var start, size := s.mem.heapBreak, s.regs[i.args.ra];
            Exec(p, i, s)
            == To(M.Following(i), State(s.regs[i.args.rd := start + size],
                                        FM.Alter(s.mem, start, size, FM.WRITE).(heapBreak := start + size)))
  {
    hide FM.Alter, Value3, Value2, Compare, Loading, Storing, Jumping, Branching;
  }

  /** Opcode 101: the break moves up by the register in the high half and is put in that in the low half;
      the pages between, at least the one of the old break, become writable. */
  lemma SbrkLaw(p: Program, pc: nat, b: byte, tail: seq<byte>, s: State)
    requires Sits(p, pc, [101, b] + tail)
    ensures var o := Step(Pvm(p), Config(pc, s));
            var start, size := s.mem.heapBreak, s.regs[Cap(b / 16)];
            && o.Next? && o == To(pc + 2 + |tail|, State(s.regs[Cap(b % 16) := start + size], o.config.state.mem))
            && o.config.state.mem.heapBreak == start + size
            && Opened(s.mem, o.config.state.mem, start, if size == 0 then start else start + size - 1)
  {
    hide Dispatch, Decodes, Sits, Exec, FM.Alter, Opened, Step, Pvm;
    PlainHandlers();
    AlterOpens(s.mem, s.regs[Cap(b / 16)], s.mem.heapBreak + s.regs[Cap(b / 16)]);
    TwoRegBack(p, pc, 101, b, tail);
    var args := Args(Cap(b / 16), 0, Cap(b % 16), 0, 0, 0);
    StepOf(p, pc, [101, b] + tail, args, s);
    SbrkRuns(p, Inst(Sbrk, pc, 1 + |tail|, args), s);
  }
}
