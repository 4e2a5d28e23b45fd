/** The values the interpreter's register handlers compute, in the handlers' own arithmetic, each
    proved to be the instruction set's word-level result. */
module RegisterOps {
  import opened Words
  import opened Division
  import opened Isa
  import opened Programs
  import opened BitTricks
  import M = Machine

  // ------------------------------------------------------------ three registers

  method AddSubMul(op: Op3, a: nat, b: nat) returns (v: nat)
    requires op.Add? || op.Sub? || op.Mul?
    ensures v == Value3(op, a, b, 0)
  {
    hide Shr, Pow2, Chi;
    match op {
      case Add(w) =>
        if w == W32 { ChiOf32(a + b); v := Chi((a + b) % TWO32, 4); } else { v := (a + b) % TWO64; }
      case Sub(w) =>
        if w == W32 { v := Sub32(a, b); } else { v := (a + TWO64 - b) % TWO64; }
      case Mul(w) =>
        var product := a * b;
        ChiOf32(product);
        if w == W32 { v := Chi(product % TWO32, 4); } else { v := product % TWO64; }
    }
  }

  method Sub32(a: nat, b: nat) returns (v: nat)
    ensures v == SX32(a - b)
  {
    hide Shr, Pow2, Chi;
    var low := (a + TWO32 - b % TWO32) % TWO32;
    ModMod(a + TWO32 - b % TWO32, a - b, b / TWO32 + 1, TWO32);
    ChiOf32(low);
    v := Chi(low, 4);
  }

  /** trunc(Decimal(x) / y), rounding the magnitude to 28 digits first. */
  function TruncDecimal(x: int, y: int): int
    requires y != 0
  {
    var q: int := DecimalQuotient(Abs(x), Abs(y));
    if (x < 0) == (y < 0) then q else -q
  }

  /** trunc(x / y) with float division. */
  function TruncFloat(x: int, y: int): int
    requires y != 0
  {
    var q: int := FloatQuotient(Abs(x), Abs(y));
    if (x < 0) == (y < 0) then q else -q
  }

  /** Remainder with the sign of the dividend. */
  function Smod(a: int, b: int): int
  {
    if b == 0 then a
    else
      var sign := if a >= 0 then 1 else -1;
      sign * (Abs(a) % Abs(b))
  }

  lemma SmodIsTruncRem(a: int, b: int)
    ensures Smod(a, b) == TruncRem(a, b)
  {
    if b != 0 {
      QuotIsDiv(Abs(a), Abs(b));
    }
  }

  method QuotientU(w: Width, a: nat, b: nat) returns (v: nat)
    ensures v == Value3(DivU(w), a, b, 0)
  {
    hide Shr, Pow2, Chi, DecimalQuotient;
    if w == W32 {
      v := QuotientU32(a, b);
    } else if b == 0 {
      v := TWO64 - 1;
    } else {
      if a <= TWO64 {
        DecimalQuotientExact(a, b);
      }
      v := DecimalQuotient(a, b);
    }
  }

  method QuotientU32(a: nat, b: nat) returns (v: nat)
    ensures v == QuotU32(a, b)
  {
    hide Shr, Pow2, Chi, Quot;
    var x, y := a % TWO32, b % TWO32;
    if y == 0 {
      return TWO64 - 1;
    }
    QuotIsDiv(x, y);
    QuotSmaller(x, y);
    var q := x / y;
    ChiOf32(q);
    v := Chi(q, 4);
  }

  method QuotientS(w: Width, a: nat, b: nat) returns (v: nat)
    requires !DivisionRaises(DivS(w), b)
    ensures v == Value3(DivS(w), a, b, 0)
  {
    hide Shr, Pow2, Chi, DecimalQuotient, FloatQuotient, ZInv, Signed;
    SignedWidths(a);
    SignedWidths(b);
    if w == W32 {
      var x, y := Signed(a % TWO32, 4), Signed(b % TWO32, 4);
      if y == 0 {
        v := TWO64 - 1;
      } else if x == -TWO31 && y == -1 {
        ZInvOf64(x);
        v := ZInv(x, 8);
      } else {
        FloatQuotientExact(Abs(x), Abs(y));
        ZInvOf64(TruncFloat(x, y));
        v := ZInv(TruncFloat(x, y), 8);
      }
    } else if b == 0 {
      v := TWO64 - 1;
    } else {
      var x, y := Signed(a, 8), Signed(b, 8);
      if x == -TWO63 && y == -1 {
        v := a;
      } else {
        if Abs(x) <= TWO64 {
          DecimalQuotientExact(Abs(x), Abs(y));
        }
        ZInvOf64(TruncDecimal(x, y));
        v := ZInv(TruncDecimal(x, y), 8);
      }
    }
  }

  method RemainderU(w: Width, a: nat, b: nat) returns (v: nat)
    ensures v == Value3(RemU(w), a, b, 0)
  {
    hide Shr, Pow2, Chi, Rem, Quot;
    if w == W32 {
      v := RemainderU32(a, b);
    } else if b == 0 {
      v := a;
    } else {
      QuotIsDiv(a, b);
      v := a % b;
    }
  }

  method RemainderU32(a: nat, b: nat) returns (v: nat)
    ensures v == RemU32(a, b)
  {
    hide Shr, Pow2, Chi, Rem, Quot;
    var x, y := a % TWO32, b % TWO32;
    if y == 0 {
      ChiOf32(a);
      return Chi(x, 4);
    }
    QuotIsDiv(x, y);
    var r := x % y;
    assert r % TWO32 == r;
    ChiOf32(r);
    v := Chi(r, 4);
  }

  method RemainderS(w: Width, a: nat, b: nat) returns (v: nat)
    ensures v == Value3(RemS(w), a, b, 0)
  {
    hide Shr, Pow2, Chi, ZInv, Signed, Smod, TruncRem;
    SignedWidths(a);
    SignedWidths(b);
    var x := if w == W32 then Signed(a % TWO32, 4) else Signed(a, 8);
    var y := if w == W32 then Signed(b % TWO32, 4) else Signed(b, 8);
    SmodIsTruncRem(x, y);
    ZInvOf64(Smod(x, y));
    // The 64-bit handler, too, compares with -2^31.
    if x == -TWO31 && y == -1 {
      MinusOneDivides(TWO31);
      v := 0;
    } else {
      v := ZInv(Smod(x, y), 8);
    }
  }

  lemma MinusOneDivides(x: nat)
    ensures TruncRem(-(x as int), -1) == 0
  {
    QuotIsDiv(x, 1);
  }

  /** a * 2^k */
  function TimesPow2(a: nat, k: nat): (r: nat)
    ensures r == Shl(a, k)
  {
    ShlIsMul(a, k);
    a * Pow2(k)
  }

  /** x // 2^k, rounding down. */
  function OverPow2(x: int, k: nat): (r: int)
    ensures r == Sar(x, k) && (x >= 0 ==> r == Shr(x, k))
  {
    SarIsDiv(x, k);
    if x >= 0 then ShrIsDiv(x, k); x / Pow2(k) else x / Pow2(k)
  }

  method Shift(op: Op3, a: nat, b: nat) returns (v: nat)
    requires op.ShloL? || op.ShloR? || op.SharR?
    ensures v == Value3(op, a, b, 0)
  {
    hide Shr, Chi, ZInv, Signed, Sar, Shl, Pow2, TimesPow2, OverPow2;
    match op {
      case ShloL(w) =>
        var k := b % (if w == W32 then 32 else 64);
        ChiOf32(TimesPow2(a, k));
        if w == W32 { v := Chi(TimesPow2(a, k) % TWO32, 4); } else { v := TimesPow2(a, k) % TWO64; }
      case ShloR(w) =>
        if w == W32 { v := ShiftRight32(a, b); } else { v := OverPow2(a % TWO64, b % 64); }
      case SharR(w) =>
        if w == W32 {
          SignedWidths(a);
          ZInvOf64(OverPow2(S32(a), b % 32));
          v := ZInv(OverPow2(Signed(a % TWO32, 4), b % 32), 8);
        } else {
          SignedWidths(a % TWO64);
          ZInvOf64(OverPow2(S64(a % TWO64), b % 64));
          v := ZInv(OverPow2(Signed(a % TWO64, 8), b % 64), 8);
        }
    }
  }

  method ShiftRight32(a: nat, b: nat) returns (v: nat)
    ensures v == SX32(Shr(a % TWO32, b % 32))
  {
    hide Shr, Chi, Sar, OverPow2;
    var x := OverPow2(a % TWO32, b % 32);
    ShrSmaller(a % TWO32, b % 32);
    ChiOf32(x);
    v := Chi(x, 4);
  }

  method Rotate(op: Op3, a: nat, b: nat) returns (v: nat)
    requires op.RotLeft? || op.RotRight?
    ensures v == Value3(op, a, b, 0)
  {
    hide Chi, Low, RotL, RotR, Bit, Shr, Shl, Pow2;
    match op {
      case RotLeft(w) => if w == W32 { v := RotateLeft32(a, b); } else { v := RotateLeft(a, b, 8); }
      case RotRight(w) =>
        if w == W32 {
          v := RotateRight32(a, b);
        } else {
          Pow2Values();
          LowTwice(a, 64);
          SmallerAmount(b);
          v := RotateRight(a % TWO64, b % TWO64, 8);
        }
    }
  }

  /** Reducing the amount modulo 2^32 or 2^64 first does not change it modulo the width. */
  lemma SmallerAmount(b: nat)
    ensures b % TWO64 % 64 == b % 64 && b % TWO32 % 32 == b % 32
  {
    ModMod(b, b % TWO64, b / TWO64 * 0x400_0000_0000_0000, 64);
    ModMod(b, b % TWO32, b / TWO32 * 0x800_0000, 32);
  }

  method RotateLeft32(a: nat, b: nat) returns (v: nat)
    ensures v == SX32(RotL(Low(a, 32), b % 32, 32))
  {
    hide Chi, Low, RotL, Shr, Shl, Pow2;
    Pow2Values();
    LowTwice(a, 32);
    var x := RotateLeft(a % TWO32, b, 4);
    ChiOf32(x);
    v := Chi(x, 4);
  }

  method RotateRight32(a: nat, b: nat) returns (v: nat)
    ensures v == SX32(RotR(Low(a, 32), b % 32, 32))
  {
    hide Chi, Low, RotR, Shr, Shl, Pow2;
    Pow2Values();
    LowTwice(a, 32);
    SmallerAmount(b);
    var x := RotateRight(a % TWO32, b % TWO32, 4);
    ChiOf32(x);
    v := Chi(x, 4);
  }

  lemma LowTwice(a: nat, n: nat)
    ensures Low(a, n) == a % Pow2(n) && Low(a % Pow2(n), n) == Low(a, n)
  {
    ShrIsDiv(a, n);
    LowSmall(Low(a, n), n);
  }

  method CompareOrSelect(op: Op3, a: nat, b: nat, d: nat) returns (v: nat)
    requires op.MulUpperSS? || op.MulUpperUU? || op.MulUpperSU? || op.SetLtU? || op.SetLtS?
             || op.CmovIz? || op.CmovNz? || op.Max? || op.MaxU? || op.Min? || op.MinU?
    ensures v == Value3(op, a, b, d)
  {
    hide Signed, ZInv, Pow2;
    SignedWidths(a);
    SignedWidths(b);
    var x, y := Signed(a, 8), Signed(b, 8);
    match op {
      case MulUpperSS => ZInvOf64(x * y / TWO64); v := ZInv(x * y / TWO64, 8);
      case MulUpperUU => v := a * b / TWO64;
      case MulUpperSU => ZInvOf64(x * b / TWO64); v := ZInv(x * b / TWO64, 8);
      case SetLtU => v := if a < b then 1 else 0;
      case SetLtS => v := if x < y then 1 else 0;
      case CmovIz => v := d; if b == 0 { v := a; }
      case CmovNz => v := d; if b != 0 { v := a; }
      case Max => ZInvOf64(x); ZInvOf64(y); v := ZInv(if x >= y then x else y, 8);
      case MaxU => v := if a >= b then a else b;
      case Min => ZInvOf64(x); ZInvOf64(y); v := ZInv(if x <= y then x else y, 8);
      case MinU => v := if a <= b then a else b;
    }
  }

  /** The three-register handlers, all of them. */
  method Compute3(op: Op3, a: nat, b: nat, d: nat) returns (v: nat)
    requires !DivisionRaises(op, b)
    ensures v == Value3(op, a, b, d)
  {
    match op {
      case Add(_) => v := AddSubMul(op, a, b);
      case Sub(_) => v := AddSubMul(op, a, b);
      case Mul(_) => v := AddSubMul(op, a, b);
      case DivU(w) => v := QuotientU(w, a, b);
      case DivS(w) => v := QuotientS(w, a, b);
      case RemU(w) => v := RemainderU(w, a, b);
      case RemS(w) => v := RemainderS(w, a, b);
      case ShloL(_) => v := Shift(op, a, b);
      case ShloR(_) => v := Shift(op, a, b);
      case SharR(_) => v := Shift(op, a, b);
      case Logic(l) => v := ListOp(l, a, b);
      case RotLeft(_) => v := Rotate(op, a, b);
      case RotRight(_) => v := Rotate(op, a, b);
      case _ => v := CompareOrSelect(op, a, b, d);
    }
  }

  // ------------------------------------------------------------ two registers and an immediate

  /** Operations the immediate table has. */
  predicate HasImmediateForm(op: Op3, alt: bool)
  {
    match op
    case Add(_) => !alt
    case Sub(_) => alt
    case Mul(_) => !alt
    case Logic(l) => !alt && (l == And || l == Or || l == Xor)
    case SetLtU => true
    case SetLtS => true
    case ShloL(_) => true
    case ShloR(_) => true
    case SharR(_) => true
    case CmovIz => alt
    case CmovNz => alt
    case RotRight(_) => true
    case _ => false
  }

  lemma ImmediatesNeverRaise(op: Op3, alt: bool, b: nat)
    requires HasImmediateForm(op, alt)
    ensures !DivisionRaises(op, b)
  {}

  lemma DispatchedImmediates(op: byte)
    ensures Dispatch(op).Some? && Dispatch(op).value.AluImm?
        ==> HasImmediateForm(Dispatch(op).value.op, Dispatch(op).value.alt)
  {}

  /** The immediate handlers: register value x, immediate v, destination's old value d. */
  method ComputeImm(op: Op3, alt: bool, x: nat, v: nat, d: nat) returns (r: nat)
    requires HasImmediateForm(op, alt)
    ensures r == if alt then Value3(op, v, x, d) else Value3(op, x, v, d)
  {
    hide Signed, Pow2;
    var a, b := if alt then v else x, if alt then x else v;
    match op {
      case Add(w) => r := ArithmeticImm(op, x, v);
      case Sub(w) => r := ArithmeticImm(op, x, v);
      case Mul(w) => r := ArithmeticImm(op, x, v);
      case Logic(l) => r := ListOp(l, x, v);
      case SetLtU => r := if a < b then 1 else 0;
      case SetLtS =>
        SignedWidths(a);
        SignedWidths(b);
        r := if Signed(a, 8) < Signed(b, 8) then 1 else 0;
      case ShloL(_) => r := ShiftImm(op, a, b);
      case ShloR(_) => r := ShiftImm(op, a, b);
      case SharR(_) => r := Shift(op, a, b);
      case CmovIz => r := d; if x == 0 { r := v; }
      case CmovNz => r := d; if x != 0 { r := v; }
      case RotRight(_) => r := Rotate(op, a, b);
    }
  }

  lemma WrapOnce(x: int)
    ensures SX32(x + TWO32) == SX32(x) && U64(x + TWO64) == U64(x)
  {
    ModMod(x + TWO32, x, 1, TWO32);
  }

  method Truncate(w: Width, wide: int) returns (r: nat)
    ensures r == if w == W32 then SX32(wide) else U64(wide)
  {
    hide Chi;
    if w == W32 {
      ChiOf32(wide);
      r := Chi(wide % TWO32, 4);
    } else {
      r := wide % TWO64;
    }
  }

  /** Add and multiply take the register first; subtract takes it from the immediate. */
  method ArithmeticImm(op: Op3, x: nat, v: nat) returns (r: nat)
    requires op.Add? || op.Sub? || op.Mul?
    ensures r == if op.Sub? then Value3(op, v, x, 0) else Value3(op, x, v, 0)
  {
    hide Chi, SX32, U64;
    WrapOnce(v - x);
    match op {
      case Add(w) => r := Truncate(w, x + v);
      case Sub(w) => r := Truncate(w, v + (if w == W32 then TWO32 else TWO64) - x);
      case Mul(w) =>
        var product := x * v;
        r := Truncate(w, product);
    }
  }

  /** Logical shifts here mask once more and sign-extend at both widths. */
  method ShiftImm(op: Op3, a: nat, b: nat) returns (v: nat)
    requires op.ShloL? || op.ShloR?
    ensures v == Value3(op, a, b, 0)
  {
    hide Shr, Chi, Shl, Pow2, TimesPow2, OverPow2, Sar;
    var k := b % (if op.w == W32 then 32 else 64);
    match op {
      case ShloL(w) =>
        var wide := TimesPow2(a, k);
        ChiOf32(wide);
        ChiOf64(wide);
        if w == W32 { v := Chi(wide % TWO32, 4); } else { v := Chi(wide % TWO64, 8); }
      case ShloR(w) =>
        var narrow := OverPow2(a % (if w == W32 then TWO32 else TWO64), k);
        ShrSmaller(a % (if w == W32 then TWO32 else TWO64), k);
        ChiOf32(narrow);
        ChiOf64(narrow);
        if w == W32 { v := Chi(narrow % TWO32, 4); } else { v := Chi(narrow % TWO64, 8); }
    }
  }

  // ------------------------------------------------------------ one register

  method Compute2(op: Op2, a: nat) returns (v: nat)
    requires op == ReverseBytes ==> a < TWO64
    requires op.SignExtend? ==> op.size == 1 || op.size == 2
    ensures v == M.Value2(op, a)
  {
    hide Low, Shr, Bit, ZInv, Signed;
    Pow2Values();
    match op {
      case Move => v := a;
      case CountSetBits(n) =>
        LowTwice(a, 8 * n);
        var bits := B(a % Pow2(8 * n), n);
        LowPopCount(a, 8 * n, 8 * n);
        v := SumBits(bits, a % Pow2(8 * n));
      case LeadingZeroBits(n) =>
        LowTwice(a, 8 * n);
        var bits := B(a % Pow2(8 * n), n);
        v := LeadingIndex(bits, a % Pow2(8 * n));
      case TrailingZeroBits(n) =>
        LowTwice(a, 8 * n);
        var bits := B(a % Pow2(8 * n), n);
        v := TrailingIndex(bits, a % Pow2(8 * n));
      case SignExtend(n) =>
        LowTwice(a, 8 * n);
        ZInvOf64(Signed(a % Pow2(8 * n), n));
        v := ZInv(Signed(a % Pow2(8 * n), n), 8);
      case ZeroExtend16 => v := a % TWO16;
      case ReverseBytes => v := FromLe(M.Reversed(ToLe(a, 8)));
    }
  }

  lemma {:induction false} LowPopCount(a: nat, k: nat, n: nat)
    requires n <= k
    ensures PopCount(Low(a, k), n) == PopCount(a, n)
    decreases n
  {
    if n > 0 {
      LowPopCount(a / 2, k - 1, n - 1);
    }
  }
}
