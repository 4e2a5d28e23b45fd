/** Fixed-width words as natural numbers: powers of two, bits, bit strings, sign conversion,
    and little-endian bytes. Every later module computes with these. */
module Words {
  type byte = x: int | 0 <= x < 256

  const TWO16 := 0x1_0000
  const TWO31 := 0x8000_0000
  const TWO32 := 0x1_0000_0000
  const TWO63 := 0x8000_0000_0000_0000
  const TWO64 := 0x1_0000_0000_0000_0000

  // ---------------------------------------------------------------- powers of two

  function Pow2(n: nat): (p: nat)
    ensures p >= 1
  {
    if n == 0 then 1 else 2 * Pow2(n - 1)
  }

  lemma Pow2Add(a: nat, b: nat)
    ensures Pow2(a + b) == Pow2(a) * Pow2(b)
  {
    if a > 0 {
      Pow2Add(a - 1, b);
    }
  }

  lemma Pow2Mono(a: nat, b: nat)
    requires a <= b
    ensures Pow2(a) <= Pow2(b)
  {
    if a < b {
      Pow2Mono(a, b - 1);
    }
  }

  lemma Pow2Values()
    ensures Pow2(8) == 256 && Pow2(16) == TWO16 && Pow2(31) == TWO31
    ensures Pow2(32) == TWO32 && Pow2(63) == TWO63 && Pow2(64) == TWO64
  {
    assert Pow2(4) == 16;
    Pow2Add(4, 4);
    Pow2Add(8, 8);
    Pow2Add(16, 16);
    Pow2Add(32, 32);
  }

  // ---------------------------------------------------------------- products and quotients

  lemma MulMono(a: int, b: int, c: int)
    requires a <= b && c >= 0
    ensures a * c <= b * c
  {}

  lemma MulAssoc(a: int, b: int, c: int)
    ensures a * b * c == a * (b * c)
  {}

  lemma MulSwap(a: int, b: int, c: int)
    ensures a * b * c == a * c * b
  {
    MulAssoc(a, b, c);
    MulAssoc(a, c, b);
  }

  lemma Distribute(a: int, b: int, c: int)
    ensures (a + b) * c == a * c + b * c
    ensures (a - b) * c == a * c - b * c
  {}

  /** Euclid's division is unique. */
  lemma DivModUnique(a: int, d: int, q: int, r: int)
    requires d > 0 && 0 <= r < d && a == q * d + r
    ensures a / d == q && a % d == r
  {
    var q', r' := a / d, a % d;
    assert (q - q') * d == r' - r;
    assert q - q' <= 0 by {
      if q - q' >= 1 {
        MulMono(1, q - q', d);
      }
    }
    assert q - q' >= 0 by {
      if q' - q >= 1 {
        MulMono(1, q' - q, d);
      }
    }
  }

  /** Floor quotient and remainder, as repeated subtraction. */
  function Quot(a: nat, d: nat): nat
    requires d > 0
  {
    if a < d then 0 else 1 + Quot(a - d, d)
  }

  function Rem(a: nat, d: nat): (r: nat)
    requires d > 0
    ensures r < d && r <= a
  {
    if a < d then a else Rem(a - d, d)
  }

  lemma {:induction false} QuotRem(a: nat, d: nat)
    requires d > 0
    ensures a == Quot(a, d) * d + Rem(a, d)
  {
    if a >= d {
      QuotRem(a - d, d);
      Distribute(Quot(a - d, d), 1, d);
    }
  }

  lemma QuotIsDiv(a: nat, d: nat)
    requires d > 0
    ensures Quot(a, d) == a / d && Rem(a, d) == a % d
  {
    QuotRem(a, d);
    DivModUnique(a, d, Quot(a, d), Rem(a, d));
  }

  lemma QuotUnique(a: nat, d: nat, q: nat)
    requires d > 0 && q * d <= a < q * d + d
    ensures Quot(a, d) == q && Rem(a, d) == a - q * d
  {
    QuotIsDiv(a, d);
    DivModUnique(a, d, q, a - q * d);
  }

  lemma ModMod(x: int, y: int, k: int, m: int)
    requires m > 0 && x == y + k * m
    ensures x % m == y % m
  {
    var q, r := y / m, y % m;
    assert y == q * m + r;
    Distribute(q, k, m);
    DivModUnique(x, m, q + k, r);
  }

  // ---------------------------------------------------------------- shifts and masks

  /** v >> k */
  function Shr(v: nat, k: nat): nat
  {
    if k == 0 then v else Shr(v / 2, k - 1)
  }

  /** v & (2^k - 1) */
  function Low(v: nat, k: nat): (r: nat)
    ensures r < Pow2(k)
  {
    if k == 0 then 0 else v % 2 + 2 * Low(v / 2, k - 1)
  }

  /** v << k */
  function Shl(v: nat, k: nat): nat
  {
    if k == 0 then v else 2 * Shl(v, k - 1)
  }

  lemma {:induction false} ShlIsMul(v: nat, k: nat)
    ensures Shl(v, k) == v * Pow2(k)
  {
    if k > 0 {
      ShlIsMul(v, k - 1);
      MulAssoc(v, 2, Pow2(k - 1));
    }
  }

  lemma {:induction false} ShrLow(v: nat, k: nat)
    ensures v == Shr(v, k) * Pow2(k) + Low(v, k)
    decreases k
  {
    if k > 0 {
      ShrLow(v / 2, k - 1);
      MulAssoc(Shr(v, k), 2, Pow2(k - 1));
      MulSwap(Shr(v, k), 2, Pow2(k - 1));
    }
  }

  /** Shifting right is floor division by a power of two, masking is the remainder. */
  lemma ShrIsDiv(v: nat, k: nat)
    ensures Shr(v, k) == v / Pow2(k) && Low(v, k) == v % Pow2(k)
  {
    ShrLow(v, k);
    DivModUnique(v, Pow2(k), Shr(v, k), Low(v, k));
  }

  lemma {:induction false} LowSmall(v: nat, k: nat)
    requires v < Pow2(k)
    ensures Low(v, k) == v && Shr(v, k) == 0
    decreases k
  {
    if k > 0 {
      LowSmall(v / 2, k - 1);
    }
  }

  lemma {:induction false} ShrBound(v: nat, k: nat, n: nat)
    requires k <= n && v < Pow2(n)
    ensures Shr(v, k) < Pow2(n - k)
    decreases k
  {
    if k > 0 {
      ShrBound(v / 2, k - 1, n - 1);
    }
  }

  lemma {:induction false} ShlBound(v: nat, k: nat, n: nat)
    requires v < Pow2(n)
    ensures Shl(v, k) <= Pow2(n + k) - Pow2(k)
    decreases k
  {
    if k > 0 {
      ShlBound(v, k - 1, n);
    }
  }

  // ---------------------------------------------------------------- bits

  predicate Bit(v: nat, i: nat)
  {
    if i == 0 then v % 2 == 1 else Bit(v / 2, i - 1)
  }

  function B2I(b: bool): (r: nat)
    ensures r <= 1
  {
    if b then 1 else 0
  }

  lemma {:induction false} BitShr(v: nat, k: nat, i: nat)
    ensures Bit(Shr(v, k), i) == Bit(v, i + k)
    decreases k
  {
    if k > 0 {
      BitShr(v / 2, k - 1, i);
    }
  }

  /** The bit test as shifts and masks write it. */
  lemma {:induction false} BitIsShiftMask(v: nat, i: nat)
    ensures Bit(v, i) <==> Shr(v, i) % 2 == 1
  {
    BitShr(v, i, 0);
  }

  lemma {:induction false} BitLow(v: nat, k: nat, i: nat)
    ensures Bit(Low(v, k), i) == (i < k && Bit(v, i))
    decreases k
  {
    if k == 0 {
      BitOfZero(i);
    } else if i > 0 {
      BitLow(v / 2, k - 1, i - 1);
    }
  }

  lemma {:induction false} BitOfZero(i: nat)
    ensures !Bit(0, i)
  {
    if i > 0 {
      BitOfZero(i - 1);
    }
  }

  lemma {:induction false} BitConcat(x: nat, y: nat, m: nat, i: nat)
    requires x < Pow2(m)
    ensures Bit(x + Shl(y, m), i) == if i < m then Bit(x, i) else Bit(y, i - m)
    decreases m
  {
    if m > 0 && i > 0 {
      assert (x + Shl(y, m)) / 2 == x / 2 + Shl(y, m - 1);
      BitConcat(x / 2, y, m - 1, i - 1);
    }
  }

  /** A word is determined by its bits. */
  lemma {:induction false} SameBits(u: nat, v: nat, n: nat)
    requires u < Pow2(n) && v < Pow2(n)
    requires forall i: nat :: i < n ==> Bit(u, i) == Bit(v, i)
    ensures u == v
  {
    if n > 0 {
      assert Bit(u, 0) == Bit(v, 0);
      forall i: nat | i < n - 1
        ensures Bit(u / 2, i) == Bit(v / 2, i)
      {
        assert Bit(u, i + 1) == Bit(v, i + 1);
      }
      SameBits(u / 2, v / 2, n - 1);
    }
  }

  lemma {:induction false} BitBeyond(v: nat, n: nat, i: nat)
    requires v < Pow2(n) && i >= n
    ensures !Bit(v, i)
  {
    if n == 0 {
      BitOfZero(i);
    } else {
      BitBeyond(v / 2, n - 1, i - 1);
    }
  }

  // ---------------------------------------------------------------- bit strings

  function FromBits(s: seq<bool>): (v: nat)
    ensures v < Pow2(|s|)
  {
    if s == [] then 0 else B2I(s[0]) + 2 * FromBits(s[1..])
  }

  lemma {:induction false} FromBitsBit(s: seq<bool>, i: nat)
    requires i < |s|
    ensures Bit(FromBits(s), i) == s[i]
  {
    if i > 0 {
      FromBitsBit(s[1..], i - 1);
    }
  }

  lemma {:induction false} FromBitsSnoc(s: seq<bool>, b: bool)
    ensures FromBits(s + [b]) == FromBits(s) + B2I(b) * Pow2(|s|)
  {
    if s == [] {
      assert (s + [b])[1..] == [];
    } else {
      assert (s + [b])[1..] == s[1..] + [b];
      FromBitsSnoc(s[1..], b);
    }
  }

  /** Reading a word back from the list of its bits loses only what lies above the list. */
  lemma {:induction false} FromBitsOfWord(s: seq<bool>, v: nat)
    requires forall i: nat :: i < |s| ==> s[i] == Bit(v, i)
    ensures FromBits(s) == Low(v, |s|)
  {
    forall i: nat | i < |s|
      ensures Bit(FromBits(s), i) == Bit(Low(v, |s|), i)
    {
      FromBitsBit(s, i);
      BitLow(v, |s|, i);
    }
    SameBits(FromBits(s), Low(v, |s|), |s|);
  }

  // ---------------------------------------------------------------- bitwise operations

  datatype BitOp = And | Or | Xor | AndInv | OrInv | Xnor

  predicate Apply(op: BitOp, a: bool, b: bool)
  {
    match op
    case And => a && b
    case Or => a || b
    case Xor => a != b
    case AndInv => a && !b
    case OrInv => a || !b
    case Xnor => a == b
  }

  /** `op` on the low n bits, one binary digit at a time. */
  function Bitwise(op: BitOp, a: nat, b: nat, n: nat): (v: nat)
    ensures v < Pow2(n)
  {
    if n == 0 then 0
    else B2I(Apply(op, a % 2 == 1, b % 2 == 1)) + 2 * Bitwise(op, a / 2, b / 2, n - 1)
  }

  lemma {:induction false} BitwiseBit(op: BitOp, a: nat, b: nat, n: nat, i: nat)
    requires i < n
    ensures Bit(Bitwise(op, a, b, n), i) == Apply(op, Bit(a, i), Bit(b, i))
    decreases n
  {
    var d, rest := B2I(Apply(op, a % 2 == 1, b % 2 == 1)), Bitwise(op, a / 2, b / 2, n - 1);
    assert Bitwise(op, a, b, n) == d + 2 * rest && (d + 2 * rest) / 2 == rest;
    if i > 0 {
      BitwiseBit(op, a / 2, b / 2, n - 1, i - 1);
      assert Bit(rest, i - 1) == Apply(op, Bit(a / 2, i - 1), Bit(b / 2, i - 1));
    }
  }

  /** One's complement on n bits. */
  function Not(v: nat, n: nat): nat
    requires v < Pow2(n)
  {
    Pow2(n) - 1 - v
  }

  lemma {:induction false} NotBit(v: nat, n: nat, i: nat)
    requires v < Pow2(n) && i < n
    ensures Bit(Not(v, n), i) == !Bit(v, i)
    decreases n
  {
    assert Not(v, n) / 2 == Not(v / 2, n - 1) && Not(v, n) % 2 == 1 - v % 2;
    if i > 0 {
      NotBit(v / 2, n - 1, i - 1);
    }
  }

  // ---------------------------------------------------------------- rotations

  /** Rotation of an n-bit word to the right by k places. */
  function RotR(v: nat, k: nat, n: nat): (r: nat)
    requires k < n && v < Pow2(n)
    ensures r < Pow2(n)
  {
    SplitBound(v, k, n);
    Shr(v, k) + Shl(Low(v, k), n - k)
  }

  /** Rotation of an n-bit word to the left by k places. */
  function RotL(v: nat, k: nat, n: nat): (r: nat)
    requires k < n && v < Pow2(n)
    ensures r < Pow2(n)
  {
    SplitBound(v, n - k, n);
    Shr(v, n - k) + Shl(Low(v, n - k), k)
  }

  /** The rotation in the arithmetic form v div 2^k + (v mod 2^k) * 2^(n-k). */
  lemma RotRArithmetic(v: nat, k: nat, n: nat)
    requires k < n && v < Pow2(n)
    ensures RotR(v, k, n) == v / Pow2(k) + (v % Pow2(k)) * Pow2(n - k)
  {
    ShrIsDiv(v, k);
    ShlIsMul(Low(v, k), n - k);
  }

  lemma SplitBound(v: nat, k: nat, n: nat)
    requires k <= n && v < Pow2(n)
    ensures Shr(v, k) + Shl(Low(v, k), n - k) < Pow2(n)
  {
    ShrBound(v, k, n);
    ShlBound(Low(v, k), n - k, k);
  }

  lemma SplitBits(v: nat, k: nat, n: nat, i: nat)
    requires k <= n && v < Pow2(n) && i < n
    ensures Bit(Shr(v, k) + Shl(Low(v, k), n - k), i)
         == Bit(v, if i < n - k then i + k else i + k - n)
  {
    ShrBound(v, k, n);
    BitConcat(Shr(v, k), Low(v, k), n - k, i);
    if i < n - k {
      BitShr(v, k, i);
    } else {
      BitLow(v, k, i - (n - k));
    }
  }

  lemma ModOnce(a: nat, n: nat)
    requires a < 2 * n
    ensures a % n == if a < n then a else a - n
  {
    DivModUnique(a, n, if a < n then 0 else 1, if a < n then a else a - n);
  }

  /** Rotating right by k moves bit (i + k) mod n to place i. */
  lemma RotRBit(v: nat, k: nat, n: nat, i: nat)
    requires k < n && v < Pow2(n) && i < n
    ensures Bit(RotR(v, k, n), i) == Bit(v, (i + k) % n)
  {
    ModOnce(i + k, n);
    SplitBits(v, k, n, i);
  }

  /** Rotating left by k moves bit i to place (i + k) mod n. */
  lemma RotLBit(v: nat, k: nat, n: nat, i: nat)
    requires k < n && v < Pow2(n) && i < n
    ensures Bit(RotL(v, k, n), (i + k) % n) == Bit(v, i)
  {
    ModOnce(i + k, n);
    SplitBits(v, n - k, n, (i + k) % n);
  }

  /** Left and right rotation undo each other, for every amount. */
  lemma RotationsInverse(v: nat, k: nat, n: nat)
    requires k < n && v < Pow2(n)
    ensures RotL(RotR(v, k, n), k, n) == v
    ensures RotR(RotL(v, k, n), k, n) == v
  {
    var r, l := RotR(v, k, n), RotL(v, k, n);
    forall i: nat | i < n
      ensures Bit(RotL(r, k, n), i) == Bit(v, i)
    {
      var j := if i < k then i + n - k else i - k;
      ModOnce(j + k, n);
      RotLBit(r, k, n, j);
      RotRBit(v, k, n, j);
    }
    SameBits(RotL(r, k, n), v, n);
    forall i: nat | i < n
      ensures Bit(RotR(l, k, n), i) == Bit(v, i)
    {
      RotRBit(l, k, n, i);
      RotLBit(v, k, n, i);
    }
    SameBits(RotR(l, k, n), v, n);
  }

  // ---------------------------------------------------------------- counting bits

  function PopCount(v: nat, n: nat): (c: nat)
    ensures c <= n
  {
    if n == 0 then 0 else v % 2 + PopCount(v / 2, n - 1)
  }

  /** Zeros above the highest set bit of an n-bit word. */
  function LeadingZeros(v: nat, n: nat): (c: nat)
    ensures c <= n
  {
    if n == 0 || Bit(v, n - 1) then 0 else 1 + LeadingZeros(v, n - 1)
  }

  /** Zeros below the lowest set bit of an n-bit word. */
  function TrailingZeros(v: nat, n: nat): (c: nat)
    ensures c <= n
  {
    if n == 0 || v % 2 == 1 then 0 else 1 + TrailingZeros(v / 2, n - 1)
  }

  /** What the two counts mean: bounds on the value and divisibility. */
  lemma {:induction false} LeadingZerosBound(v: nat, n: nat)
    requires v < Pow2(n)
    ensures v < Pow2(n - LeadingZeros(v, n))
    ensures v != 0 ==> LeadingZeros(v, n) < n && v >= Pow2(n - LeadingZeros(v, n) - 1)
  {
    if n > 0 {
      TopBit(v, n);
      if !Bit(v, n - 1) {
        LeadingZerosBound(v, n - 1);
      }
    }
  }

  lemma {:induction false} TopBit(v: nat, n: nat)
    requires n > 0 && v < Pow2(n)
    ensures Bit(v, n - 1) <==> v >= Pow2(n - 1)
  {
    if n > 1 {
      TopBit(v / 2, n - 1);
    }
  }

  lemma {:induction false} TrailingZerosDivides(v: nat, n: nat)
    requires v < Pow2(n)
    ensures Low(v, TrailingZeros(v, n)) == 0
    ensures v != 0 ==> TrailingZeros(v, n) < n && Shr(v, TrailingZeros(v, n)) % 2 == 1
  {
    if n > 0 && v % 2 == 0 {
      TrailingZerosDivides(v / 2, n - 1);
    }
  }

  // ---------------------------------------------------------------- signed and unsigned readings

  function U64(x: int): (r: nat)
    ensures r < TWO64
  {
    x % TWO64
  }

  /** Two's-complement reading of a 64-bit register. */
  function S64(x: nat): int
  {
    if x < TWO63 then x else x - TWO64
  }

  /** Two's-complement reading of the low 32 bits. */
  function S32(x: int): (r: int)
    ensures -TWO31 <= r < TWO31
  {
    var w := x % TWO32;
    if w < TWO31 then w else w - TWO32
  }

  /** The low 32 bits, sign-extended to a 64-bit register. */
  function SX32(x: int): (r: nat)
    ensures r < TWO64
  {
    U64(S32(x))
  }

  lemma SX32Low(x: int)
    ensures SX32(x) % TWO32 == x % TWO32
  {
    var s := S32(x);
    assert s == x % TWO32 || s == x % TWO32 - TWO32;
  }

  // ---------------------------------------------------------------- little-endian bytes

  function FromLe(s: seq<byte>): (v: nat)
    ensures v < Pow2(8 * |s|)
  {
    if s == [] then 0
    else
      FromLeBound(s);
      s[0] + 256 * FromLe(s[1..])
  }

  lemma FromLeBound(s: seq<byte>)
    requires s != []
    ensures Pow2(8 * |s|) == 256 * Pow2(8 * |s[1..]|)
  {
    Pow2Add(8, 8 * |s[1..]|);
    Pow2Values();
  }

  function ToLe(v: nat, n: nat): (s: seq<byte>)
    ensures |s| == n
  {
    if n == 0 then [] else [v % 256] + ToLe(v / 256, n - 1)
  }

  lemma ByteDropped(v: nat, n: nat)
    requires n > 0 && v < Pow2(8 * n)
    ensures v / 256 < Pow2(8 * (n - 1))
  {
    Pow2Values();
    Pow2Add(8, 8 * (n - 1));
    hide Pow2;
  }

  lemma {:induction false} LeRoundTrip(v: nat, n: nat)
    requires v < Pow2(8 * n)
    ensures FromLe(ToLe(v, n)) == v
  {
    if n > 0 {
      ByteDropped(v, n);
      hide Pow2;
      assert ToLe(v, n)[1..] == ToLe(v / 256, n - 1);
      LeRoundTrip(v / 256, n - 1);
    }
  }

  lemma {:induction false} LeRoundTripBytes(s: seq<byte>)
    ensures ToLe(FromLe(s), |s|) == s
  {
    if s != [] {
      LeRoundTripBytes(s[1..]);
      FirstByte(s);
      hide FromLe;
      assert s == [s[0]] + s[1..];
    }
  }

  lemma FirstByte(s: seq<byte>)
    requires s != []
    ensures FromLe(s) % 256 == s[0] && FromLe(s) / 256 == FromLe(s[1..])
  {
    hide Pow2;
    ByteFirst(s[0], FromLe(s[1..]));
  }

  lemma ByteFirst(b: byte, v: nat)
    ensures (b + 256 * v) % 256 == b && (b + 256 * v) / 256 == v
  {}

  // ---------------------------------------------------------------- digits, by division

  /** Byte k of a number. */
  function ByteOfNumber(v: nat, k: nat): byte { v / Pow2(8 * k) % 256 }

  lemma {:induction false} ToLeByte(v: nat, n: nat, k: nat)
    requires k < n
    ensures ToLe(v, n)[k] == ByteOfNumber(v, k)
    decreases k
  {
    if k > 0 {
      ToLeByte(v / 256, n - 1, k - 1);
      Pow2Add(8, 8 * (k - 1));
      Pow2Values();
      hide Pow2;
      DivOfDiv(v, 256, Pow2(8 * (k - 1)));
    }
  }

  lemma DivOfDiv(v: nat, a: nat, b: nat)
    requires a > 0 && b > 0
    ensures a * b > 0 && v / a / b == v / (a * b)
  {
    var q, r := v / a / b, v / a % b;
    var low := v % a;
    assert v / a == q * b + r && v == v / a * a + low;
    Distribute(q * b, r, a);
    MulSwap(q, b, a);
    MulAssoc(q, a, b);
    MulMono(r, b - 1, a);
    Distribute(b, 1, a);
    MulMono(1, a, b);
    assert b * a == a * b;
    DivModUnique(v, a * b, q, r * a + low);
  }

  /** Binary digit i of v. */
  predicate Digit(v: nat, i: nat) { v / Pow2(i) % 2 == 1 }

  lemma DigitIsBit(v: nat, i: nat)
    ensures Digit(v, i) <==> Bit(v, i)
  {
    BitIsShiftMask(v, i);
    ShrIsDiv(v, i);
  }
}
