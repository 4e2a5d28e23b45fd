/** What the register instructions compute, in plain word arithmetic. The interpreter's handlers
    (bit lists, shift-and-multiply sign extension, rounded quotients) and the recompiler's x86
    sequences are both proved against these functions. */
module Isa {
  import opened Words
  import opened Division

  datatype Width = W32 | W64

  datatype Op3 =
    | Add(w: Width) | Sub(w: Width) | Mul(w: Width)
    | DivU(w: Width) | DivS(w: Width) | RemU(w: Width) | RemS(w: Width)
    | ShloL(w: Width) | ShloR(w: Width) | SharR(w: Width)
    | Logic(op: BitOp)
    | MulUpperSS | MulUpperUU | MulUpperSU
    | SetLtU | SetLtS | CmovIz | CmovNz
    | RotLeft(w: Width) | RotRight(w: Width)
    | Max | MaxU | Min | MinU

  type word = x: nat | x < TWO64

  const ALL_ONES: nat := TWO64 - 1

  // ------------------------------------------------------------ products and divisions

  function LowProduct(a: nat, b: nat): nat { U64(a * b) }

  function HighSS(a: nat, b: nat): nat { U64(S64(a) * S64(b) / TWO64) }

  function HighUU(a: nat, b: nat): nat { a * b / TWO64 }

  function HighSU(a: nat, b: nat): nat { U64(S64(a) * b / TWO64) }

  /** The true quotient. Only a register that sbrk has pushed past 2^64 can reach the second
      branch, where the 28 digits that Decimal keeps may round the quotient. */
  function WordQuot(a: nat, b: nat): nat
    requires b > 0
  {
    if a <= TWO64 then Quot(a, b) else DecimalQuotient(a, b)
  }

  function SignedWordQuot(x: int, y: int): int
    requires y != 0
  {
    var q: int := WordQuot(Abs(x), Abs(y));
    if (x < 0) == (y < 0) then q else -q
  }

  function QuotU32(a: nat, b: nat): nat
  {
    if b % TWO32 == 0 then ALL_ONES else SX32(Quot(a % TWO32, b % TWO32))
  }

  function QuotU64(a: nat, b: nat): nat
  {
    if b == 0 then ALL_ONES else WordQuot(a, b)
  }

  function QuotS32(a: nat, b: nat): nat
  {
    if S32(b) == 0 then ALL_ONES
    else if S32(a) == -TWO31 && S32(b) == -1 then U64(-TWO31)
    else U64(TruncDiv(S32(a), S32(b)))
  }

  function QuotS64(a: nat, b: nat): nat
    requires b != TWO64
  {
    if b == 0 then ALL_ONES
    else if S64(a) == -TWO63 && S64(b) == -1 then a
    else U64(SignedWordQuot(S64(a), S64(b)))
  }

  function RemU32(a: nat, b: nat): nat
  {
    SX32(if b % TWO32 == 0 then a else Rem(a % TWO32, b % TWO32))
  }

  function RemU64(a: nat, b: nat): nat
  {
    if b == 0 then a else Rem(a, b)
  }

  function RemS32(a: nat, b: nat): nat { U64(TruncRem(S32(a), S32(b))) }

  function RemS64(a: nat, b: nat): nat { U64(TruncRem(S64(a), S64(b))) }

  // ------------------------------------------------------------ the instruction set

  /** Floor division by 2^k of a signed value. */
  function Sar(v: int, k: nat): int
    decreases k
  {
    if k == 0 then v else Sar(v / 2, k - 1)
  }

  /** A divisor register of exactly 2^64 passes the zero test of div_s_64 and then reads as zero,
      so Decimal raises. No 64-bit register does this. */
  predicate DivisionRaises(op: Op3, b: nat)
  {
    op == DivS(W64) && b == TWO64
  }

  /** The result of `op` on registers a and b, where d is the destination's old value. */
  function Value3(op: Op3, a: nat, b: nat, d: nat): nat
    requires !DivisionRaises(op, b)
  {
    match op
    case Add(w) => if w.W32? then SX32(a + b) else U64(a + b)
    case Sub(w) => if w.W32? then SX32(a - b) else U64(a - b)
    case Mul(w) => if w.W32? then SX32(a * b) else LowProduct(a, b)
    case DivU(w) => if w.W32? then QuotU32(a, b) else QuotU64(a, b)
    case DivS(w) => if w.W32? then QuotS32(a, b) else QuotS64(a, b)
    case RemU(w) => if w.W32? then RemU32(a, b) else RemU64(a, b)
    case RemS(w) => if w.W32? then RemS32(a, b) else RemS64(a, b)
    case ShloL(w) => if w.W32? then SX32(Shl(a, b % 32)) else U64(Shl(a, b % 64))
    case ShloR(w) => if w.W32? then SX32(Shr(a % TWO32, b % 32)) else Shr(a % TWO64, b % 64)
    case SharR(w) => if w.W32? then U64(Sar(S32(a), b % 32)) else U64(Sar(S64(a % TWO64), b % 64))
    case Logic(l) => Bitwise(l, a, b, 64)
    case MulUpperSS => HighSS(a, b)
    case MulUpperUU => HighUU(a, b)
    case MulUpperSU => HighSU(a, b)
    case SetLtU => B2I(a < b)
    case SetLtS => B2I(S64(a) < S64(b))
    case CmovIz => if b == 0 then a else d
    case CmovNz => if b != 0 then a else d
    case RotLeft(w) => if w.W32? then SX32(RotL(Low(a, 32), b % 32, 32)) else RotL(Low(a, 64), b % 64, 64)
    case RotRight(w) => if w.W32? then SX32(RotR(Low(a, 32), b % 32, 32)) else RotR(Low(a, 64), b % 64, 64)
    case Max => U64(if S64(a) >= S64(b) then S64(a) else S64(b))
    case MaxU => if a >= b then a else b
    case Min => U64(if S64(a) <= S64(b) then S64(a) else S64(b))
    case MinU => if a <= b then a else b
  }

  lemma {:induction false} SarBounds(v: int, k: nat, m: nat)
    requires -(m as int) <= v < m
    ensures -(m as int) <= Sar(v, k) < m
    decreases k
  {
    if k > 0 {
      SarBounds(v / 2, k - 1, m);
    }
  }

  lemma {:induction false} ShrSmaller(v: nat, k: nat)
    ensures Shr(v, k) <= v
    decreases k
  {
    if k > 0 {
      ShrSmaller(v / 2, k - 1);
    }
  }

  lemma {:induction false} SarIsDiv(v: int, k: nat)
    ensures Sar(v, k) == v / Pow2(k)
  {
    var r := SarLow(v, k);
    DivModUnique(v, Pow2(k), Sar(v, k), r);
  }

  lemma {:induction false} SarLow(v: int, k: nat) returns (r: int)
    ensures 0 <= r < Pow2(k) && v == Sar(v, k) * Pow2(k) + r
    decreases k
  {
    if k == 0 {
      r := 0;
    } else {
      var s := SarLow(v / 2, k - 1);
      r := 2 * s + v % 2;
      MulAssoc(Sar(v, k), 2, Pow2(k - 1));
      MulSwap(Sar(v, k), 2, Pow2(k - 1));
    }
  }

  lemma QuotSmaller(a: nat, b: nat)
    requires b > 0
    ensures Quot(a, b) <= a && Rem(a, b) <= a
  {
    QuotRem(a, b);
    MulMono(1, b, Quot(a, b));
  }

  lemma HighBound(a: word, b: word)
    ensures HighUU(a, b) < TWO64
  {
    MulMono(a, TWO64 - 1, b);
  }

  lemma QuotientsInRange(a: word, b: word)
    ensures QuotU64(a, b) < TWO64 && RemU64(a, b) < TWO64 && QuotS64(a, b) < TWO64
  {
    if b != 0 {
      QuotSmaller(a, b);
    }
  }

  lemma ShiftsAndBitsInRange(op: Op3, a: word, b: word, d: word)
    requires op.ShloL? || op.ShloR? || op.SharR? || op.RotLeft? || op.RotRight? || op.Logic?
    ensures Value3(op, a, b, d) < TWO64
  {
    hide Shl, Shr, Sar, SX32, U64, RotL, RotR, Low, Bitwise, Pow2;
    Pow2Values();
    if op == ShloR(W64) {
      ShrSmaller(a % TWO64, b % 64);
    }
  }

  /** A three-operand instruction on 64-bit registers yields a 64-bit register. */
  lemma {:induction false} Value3InRange(op: Op3, a: word, b: word, d: word)
    requires !DivisionRaises(op, b)
    ensures Value3(op, a, b, d) < TWO64
  {
    if op.ShloL? || op.ShloR? || op.SharR? || op.RotLeft? || op.RotRight? || op.Logic? {
      ShiftsAndBitsInRange(op, a, b, d);
    } else {
      QuotientsInRange(a, b);
      HighBound(a, b);
    }
  }

  // ------------------------------------------------------------ division and remainder agree

  lemma WordQuotIsQuot(a: word, b: word)
    requires b != 0
    ensures WordQuot(a, b) == Quot(a, b)
  {}

  /** For every divisor, zero included, divisor * quotient + remainder is the dividend modulo 2^64. The
      quotient is the true one, or all ones for a zero divisor, where the remainder is the dividend. */
  lemma DivRemUnsigned64(a: word, b: word)
    ensures (b * QuotU64(a, b) + RemU64(a, b)) % TWO64 == a
    ensures b != 0 ==> RemU64(a, b) < b
    ensures if b == 0 then QuotU64(a, b) == 0xFFFF_FFFF_FFFF_FFFF && RemU64(a, b) == a
            else QuotU64(a, b) == a / b && RemU64(a, b) == a % b
  {
    hide Quot, Rem, WordQuot;
    if b != 0 {
      QuotRem(a, b);
      QuotIsDiv(a, b);
      WordQuotIsQuot(a, b);
      assert b * Quot(a, b) == Quot(a, b) * b;
    }
  }

  lemma DivRemSigned64(a: word, b: word)
    ensures (S64(b) * S64(QuotS64(a, b)) + S64(RemS64(a, b)) - S64(a)) % TWO64 == 0
    ensures b != 0 ==> var r := S64(RemS64(a, b));
                       Abs(r) < Abs(S64(b)) && (r != 0 ==> (r < 0 <==> S64(a) < 0))
    ensures b == 0 ==> QuotS64(a, b) == 0xFFFF_FFFF_FFFF_FFFF && RemS64(a, b) == a
  {
    var x, y := S64(a), S64(b);
    if b != 0 {
      TruncDivRem(x, y);
      SignedValues64(a, b);
    }
  }

  lemma SignedValues64(a: word, b: word)
    requires b != 0
    ensures S64(RemS64(a, b)) == TruncRem(S64(a), S64(b))
    ensures if S64(a) == -TWO63 && S64(b) == -1 then S64(QuotS64(a, b)) == -TWO63 && TruncRem(S64(a), S64(b)) == 0
            else S64(QuotS64(a, b)) == TruncDiv(S64(a), S64(b))
  {
    var x, y := S64(a), S64(b);
    MagnitudeOfRem(x, y);
    SignedRoundTrip(TruncRem(x, y));
    if x == -TWO63 && y == -1 {
      QuotUnique(TWO63, 1, TWO63);
    } else {
      QuotientFits(x, y);
      SignedRoundTrip(TruncDiv(x, y));
    }
  }

  lemma SignedRoundTrip(v: int)
    requires -TWO63 <= v < TWO63
    ensures S64(U64(v)) == v
  {}

  lemma MagnitudeOfRem(x: int, y: int)
    requires y != 0 && -TWO63 <= x < TWO63 && -TWO63 <= y < TWO63
    ensures -TWO63 <= TruncRem(x, y) < TWO63
  {
    TruncDivRem(x, y);
  }

  lemma QuotientFits(x: int, y: int)
    requires y != 0 && -TWO63 <= x < TWO63 && -TWO63 <= y < TWO63
    requires !(x == -TWO63 && y == -1)
    ensures -TWO63 <= TruncDiv(x, y) < TWO63
  {
    hide Quot, Rem;
    var a, b := Abs(x), Abs(y);
    var q := Quot(a, b);
    QuotRem(a, b);
    MulMono(1, b, q);
    if q == TWO63 && b > 1 {
      MulMono(2, b, q);
    }
  }

  lemma DivRemUnsigned32(a: word, b: word)
    ensures ((b % TWO32) * QuotU32(a, b) + RemU32(a, b)) % TWO32 == a % TWO32
    ensures b % TWO32 != 0 ==> RemU32(a, b) % TWO32 < b % TWO32
    ensures if b % TWO32 == 0 then QuotU32(a, b) == 0xFFFF_FFFF_FFFF_FFFF && S64(RemU32(a, b)) == S32(a)
            else S64(QuotU32(a, b)) == S32((a % TWO32) / (b % TWO32)) && S64(RemU32(a, b)) == S32((a % TWO32) % (b % TWO32))
  {
    var x, y := a % TWO32, b % TWO32;
    ExtendedReads(a);
    if y != 0 {
      QuotIsDiv(x, y);
      ExtendedReads(x / y);
      ExtendedReads(x % y);
    }
    if y == 0 {
      SX32Low(a);
      assert y * QuotU32(a, b) == 0;
    } else {
      LowQuotRem(x, y);
    }
  }

  lemma ExtendedReads(v: int)
    ensures S64(SX32(v)) == S32(v)
  {}

  lemma LowQuotRem(x: nat, y: nat)
    requires 0 < y < TWO32 && x < TWO32
    ensures (y * SX32(Quot(x, y)) + SX32(Rem(x, y))) % TWO32 == x
    ensures SX32(Rem(x, y)) % TWO32 == Rem(x, y)
  {
    hide Quot, Rem, SX32, U64;
    var q, r := Quot(x, y), Rem(x, y);
    QuotRem(x, y);
    SX32Low(q);
    SX32Low(r);
    LowHalves(y, SX32(q), q, SX32(r), r);
  }

  lemma LowHalves(y: int, p: int, q: int, s: int, r: int)
    requires p % TWO32 == q % TWO32 && s % TWO32 == r % TWO32
    ensures (y * p + s) % TWO32 == (q * y + r) % TWO32
  {
    ScaledCongruence(y, p, q, TWO32);
    CongruentSum(y * p, q * y, s, r, TWO32);
  }

  lemma ScaledCongruence(y: int, p: int, q: int, m: int)
    requires m > 0 && p % m == q % m
    ensures (y * p) % m == (y * q) % m
  {
    var k := p / m - q / m;
    assert p == q + k * m by {
      Distribute(p / m, q / m, m);
    }
    assert y * p == y * q + y * (k * m);
    MulAssoc(y, k, m);
    ModMod(y * p, y * q, y * k, m);
  }

  lemma CongruentSum(p: int, q: int, r: int, s: int, m: int)
    requires m > 0 && p % m == q % m && r % m == s % m
    ensures (p + r) % m == (q + s) % m && (p + r - (q + s)) % m == 0
  {
    var k, l := p / m - q / m, r / m - s / m;
    Distribute(p / m, q / m, m);
    Distribute(r / m, s / m, m);
    Distribute(k, l, m);
    ModMod(p + r, q + s, k + l, m);
    DivModUnique(p + r - (q + s), m, k + l, 0);
  }

  lemma DivRemSigned32(a: word, b: word)
    ensures (S32(b) * S64(QuotS32(a, b)) + S64(RemS32(a, b)) - S32(a)) % TWO32 == 0
    ensures S32(b) != 0 ==> var r := S64(RemS32(a, b));
                            Abs(r) < Abs(S32(b)) && (r != 0 ==> (r < 0 <==> S32(a) < 0))
    ensures S32(b) == 0 ==> QuotS32(a, b) == 0xFFFF_FFFF_FFFF_FFFF && S64(RemS32(a, b)) == S32(a)
  {
    if S32(b) != 0 {
      TruncDivRem(S32(a), S32(b));
      SignedValues32(a, b);
    }
  }

  lemma SignedValues32(a: word, b: word)
    requires S32(b) != 0
    ensures S64(RemS32(a, b)) == TruncRem(S32(a), S32(b))
    ensures if S32(a) == -TWO31 && S32(b) == -1 then S64(QuotS32(a, b)) == -TWO31 && TruncRem(S32(a), S32(b)) == 0
            else S64(QuotS32(a, b)) == TruncDiv(S32(a), S32(b))
  {
    MagnitudeOfRem(S32(a), S32(b));
    SignedRoundTrip(TruncRem(S32(a), S32(b)));
    if S32(a) == -TWO31 && S32(b) == -1 {
      QuotUnique(TWO31, 1, TWO31);
    } else {
      QuotSmaller(Abs(S32(a)), Abs(S32(b)));
      SignedRoundTrip(TruncDiv(S32(a), S32(b)));
    }
  }

  // ------------------------------------------------------------ high and low products

  /** Each high product and the low product together are the full product. */
  lemma ProductsRecombine(a: word, b: word)
    ensures S64(a) * S64(b) == S64(HighSS(a, b)) * TWO64 + LowProduct(a, b)
    ensures a * b == HighUU(a, b) * TWO64 + LowProduct(a, b)
    ensures S64(a) * b == S64(HighSU(a, b)) * TWO64 + LowProduct(a, b)
  {
    SignedProduct(S64(a), S64(b), a, b);
    SignedProduct(S64(a), b, a, b);
    ProductBounds(S64(a), S64(b));
    ProductBounds(S64(a), b);
    Recombine(S64(a) * S64(b), LowProduct(a, b));
    Recombine(S64(a) * b, LowProduct(a, b));
  }

  lemma Recombine(p: int, low: nat)
    requires -TWO63 * TWO64 <= p < TWO63 * TWO64 && p % TWO64 == low
    ensures p == S64(U64(p / TWO64)) * TWO64 + low
  {}

  /** Reading an operand as signed changes the product by a multiple of 2^64. */
  lemma SignedProduct(x: int, y: int, a: nat, b: nat)
    requires x == a || x == a - TWO64
    requires y == b || y == b - TWO64
    ensures (x * y) % TWO64 == (a * b) % TWO64
  {
    assert x % TWO64 == a % TWO64 && y % TWO64 == b % TWO64;
    ScaledCongruence(x, y, b, TWO64);
    ScaledCongruence(b, x, a, TWO64);
    assert x * b == b * x && a * b == b * a;
  }

  lemma ProductBounds(x: int, y: int)
    requires -TWO63 <= x < TWO63 && -TWO63 <= y < TWO64
    ensures -TWO63 * TWO64 <= x * y < TWO63 * TWO64
  {
    if y >= 0 {
      MulMono(x, TWO63 - 1, y);
      MulMono(-TWO63, x, y);
    } else {
      MulMono(-TWO63, x, -y);
      MulMono(x, TWO63, -y);
      assert x * -y == -(x * y);
    }
  }
}
