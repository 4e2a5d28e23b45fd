/** The C bit helpers: counting loops, byte reversal by masks and shifts, and sign conversion by masks
    and exclusive or, each proved equal to the definitions the interpreter's helpers meet. */
module CyBits {
  import opened Words
  import opened Isa
  import opened Programs
  import opened BitTricks
  import opened WordMasks
  import M = Machine

  // ------------------------------------------------------------ counting

  /** val & (val - 1) clears the lowest set bit. */
  lemma {:induction false} ClearsLowest(v: nat, n: nat)
    requires 0 < v < Pow2(n)
    ensures Bitwise(And, v, v - 1, n) < v && PopCount(v, n) == 1 + PopCount(Bitwise(And, v, v - 1, n), n)
    decreases n
  {
    if v % 2 == 1 {
      assert (v - 1) / 2 == v / 2 && (v - 1) % 2 == 0;
      AndSelf(v / 2, n - 1);
    } else {
      assert (v - 1) / 2 == v / 2 - 1;
      ClearsLowest(v / 2, n - 1);
    }
  }

  lemma {:induction false} NoBits(n: nat)
    ensures PopCount(0, n) == 0
  {
    if n > 0 {
      NoBits(n - 1);
    }
  }

  /** Clears the lowest set bit until none is left. */
  method CountSetBits(value: word) returns (count: nat)
    ensures count == PopCount(value, 64)
  {
    hide Bitwise, PopCount, Pow2;
    Pow2Values();
    var val: nat := value;
    count := 0;
    while val != 0
      invariant val < Pow2(64) && count + PopCount(val, 64) == PopCount(value, 64)
      decreases val
    {
      ClearsLowest(val, 64);
      val := Bitwise(And, val, val - 1, 64);
      count := count + 1;
    }
    NoBits(64);
  }

  lemma HalfMask(k: nat)
    requires k > 0
    ensures Mask(k) / 2 == Mask(k - 1)
  {}

  /** Moves a mask down from the top bit. */
  method CountLeadingZeros(value: word, bitsize: nat) returns (count: nat)
    requires 0 < bitsize <= 64 && value < Pow2(bitsize)
    ensures count == LeadingZeros(value, bitsize)
  {
    hide Bitwise, Pow2, Bit, Mask;
    if value == 0 {
      NoLeading(bitsize);
      return bitsize;
    }
    LeadingZerosBound(value, bitsize);
    count := 0;
    var mask := Mask(bitsize - 1);
    TestBit(value, bitsize - 1);
    while Bitwise(And, value, mask, 64) == 0
      invariant count < bitsize && mask == Mask(bitsize - 1 - count)
      invariant LeadingZeros(value, bitsize) == count + LeadingZeros(value, bitsize - count)
      invariant Bitwise(And, value, mask, 64) != 0 <==> Bit(value, bitsize - 1 - count)
      decreases bitsize - count
    {
      assert LeadingZeros(value, bitsize - count) == 1 + LeadingZeros(value, bitsize - count - 1);
      count := count + 1;
      assert LeadingZeros(value, 0) == 0;
      HalfMask(bitsize - count);
      mask := mask / 2;
      TestBit(value, bitsize - 1 - count);
    }
  }

  lemma {:induction false} NoLeading(n: nat)
    ensures LeadingZeros(0, n) == n && TrailingZeros(0, n) == n
  {
    if n > 0 {
      BitOfZero(n - 1);
      NoLeading(n - 1);
    }
  }

  /** Shifts down until the lowest bit is set. */
  method CountTrailingZeros(value: word, bitsize: nat) returns (count: nat)
    requires 0 < bitsize <= 64 && value < Pow2(bitsize)
    ensures count == TrailingZeros(value, bitsize)
  {
    if value == 0 {
      NoLeading(bitsize);
      return bitsize;
    }
    var val: nat := value;
    count := 0;
    while val % 2 == 0
      invariant count < bitsize && 0 < val < Pow2(bitsize - count)
      invariant TrailingZeros(value, bitsize) == count + TrailingZeros(val, bitsize - count)
      decreases val
    {
      count := count + 1;
      val := val / 2;
    }
  }

  // ------------------------------------------------------------ sign conversion

  /** value | ~mask sets every bit above the value. */
  lemma {:induction false} OrHigh(v: nat, k: nat, n: nat)
    requires k <= n && v < Pow2(k)
    ensures Pow2(k) <= Pow2(n) && Bitwise(Or, v, Pow2(n) - Pow2(k), n) == v + (Pow2(n) - Pow2(k))
    decreases n
  {
    Pow2Mono(k, n);
    if n > 0 {
      if k == 0 {
        OrHigh(0, 0, n - 1);
        assert (Pow2(n) - 1) / 2 == Pow2(n - 1) - 1 && (Pow2(n) - 1) % 2 == 1;
      } else {
        assert Pow2(n) - Pow2(k) == 2 * (Pow2(n - 1) - Pow2(k - 1));
        OrHigh(v / 2, k - 1, n - 1);
      }
    }
  }

  /** Exclusive or with the sign bit moves it to the other side. */
  lemma {:induction false} XorTop(v: nat, k: nat, n: nat)
    requires k < n && v < Pow2(k + 1)
    ensures Bitwise(Xor, v, Mask(k), n) == if v >= Pow2(k) then v - Pow2(k) else v + Pow2(k)
    decreases n
  {
    if k == 0 {
      XorNothing(0, n - 1);
    } else {
      assert Mask(k) == 2 * Mask(k - 1);
      XorTop(v / 2, k - 1, n - 1);
    }
  }

  lemma {:induction false} XorNothing(v: nat, n: nat)
    requires v < Pow2(n)
    ensures Bitwise(Xor, v, 0, n) == v
    decreases n
  {
    if n > 0 {
      XorNothing(v / 2, n - 1);
    }
  }

  /** Sign extension by or-ing the inverted mask; results are 64-bit words. */
  function CChi(value: word, n: nat): word
    requires n < 256
  {
    Pow2Values();
    if n == 0 || n >= 8 then value
    else
      MaskFits(8 * n - 1, 64);
      MaskFits(8 * n, 64);
      if Bitwise(And, value, Mask(8 * n - 1), 64) == 0 then value
      else Bitwise(Or, value, Not(Mask(8 * n) - 1, 64), 64)
  }

  /** On values that fit in n bytes this is the multiplying form. */
  lemma CChiIsChi(value: word, n: nat)
    requires n <= 8 && value < Pow2(8 * n)
    ensures CChi(value, n) == Chi(value, n)
  {
    hide Bitwise, Shr, Bit, Pow2, Chi;
    Pow2Values();
    if n == 0 {
      NothingToExtend(value);
    } else if n < 8 {
      var k := 8 * n;
      ChiAddsSign(value, n);
      TestBit(value, k - 1);
      TopBit(value, k);
      OrHigh(value, k, 64);
      MaskFits(k, 64);
      InvertedMask(k);
    } else {
      WholeWord(value);
    }
  }

  lemma NothingToExtend(value: word)
    ensures Chi(value, 0) == value
  {}

  lemma InvertedMask(k: nat)
    requires k < 64
    ensures Mask(k) < Pow2(64) && Not(Mask(k) - 1, 64) == Pow2(64) - Pow2(k)
  {
    MaskFits(k, 64);
  }

  lemma WholeWord(value: word)
    ensures Chi(value, 8) == value
  {
    Pow2Values();
    hide Shr, Pow2;
    assert TWO64 - Pow2(8 * 8) == 0;
    MulZero(Shr(value, 63));
  }

  lemma MulZero(x: int)
    ensures x * 0 == 0
  {}

  /** Signed reading by exclusive or with the sign bit and subtracting it. */
  function CZ(x: word, n: nat): int
    requires n < 256
  {
    Pow2Values();
    if n == 0 || n >= 8 then S64(x)
    else
      MaskFits(8 * n - 1, 64);
      S64(U64(Bitwise(Xor, Bitwise(And, x, Mask(8 * n) - 1, 64), Mask(8 * n - 1), 64) - Mask(8 * n - 1)))
  }

  lemma CZIsSigned(x: word, n: nat)
    requires 0 < n <= 8 && x < Pow2(8 * n)
    ensures CZ(x, n) == Signed(x, n)
  {
    hide Bitwise, Low, Pow2, U64, S64;
    Pow2Values();
    if n < 8 {
      var k := 8 * n;
      MaskIsLow(x, k, 64);
      LowSmall(x, k);
      assert Pow2(k) == 2 * Pow2(k - 1) by { Pow2Add(1, k - 1); assert Pow2(1) == 2 by { OnePower(); } }
      XorTop(x, k - 1, 64);
      Pow2Mono(k, 63);
      SignedRoundTrip(if x >= Pow2(k - 1) then x - Pow2(k) else x);
    } else {
      SignedWidths(x);
    }
  }

  lemma OnePower()
    ensures Pow2(1) == 2
  {}

  /** Back to unsigned by masking the two's-complement word. */
  function CZInv(x: int, n: nat): word
    requires -TWO63 <= x < TWO63 && n < 256
  {
    Pow2Values();
    if n == 0 || n >= 8 then U64(x) else Bitwise(And, U64(x), Mask(8 * n) - 1, 64)
  }

  lemma CZInvIsZInv(x: int, n: nat)
    requires -TWO63 <= x < TWO63 && 0 < n <= 8
    ensures CZInv(x, n) == ZInv(x, n)
  {
    hide Bitwise, Low, Pow2;
    Pow2Values();
    var m := Pow2(8 * n);
    if n < 8 {
      MaskIsLow(U64(x), 8 * n, 64);
      ShrIsDiv(U64(x), 8 * n);
      Pow2Add(8 * n, 64 - 8 * n);
      FoldWord(x, m, Pow2(64 - 8 * n));
    }
    ModMod(m + x, x, 1, m);
  }

  lemma FoldWord(x: int, m: nat, k: nat)
    requires m > 0 && m * k == TWO64
    ensures x % TWO64 % m == x % m
  {
    var q := x / TWO64;
    assert q * TWO64 == q * k * m by {
      MulAssoc(q, k, m);
      assert k * m == m * k;
    }
    ModMod(x, x % TWO64, q * k, m);
  }

  // ------------------------------------------------------------ byte reversal

  /** Byte k of v moved to byte 7 - k. */
  function MovedByte(v: word, k: nat): word
    requires k < 8
  {
    Pow2Values();
    var part := Bitwise(And, v, Shl(255, 8 * k), 64);
    if k < 4 then Low(Shl(part, 56 - 16 * k), 64) else MovedFits(v, k); Shr(part, 16 * k - 56)
  }

  lemma MovedFits(v: word, k: nat)
    requires 4 <= k < 8
    ensures Shr(Bitwise(And, v, Shl(255, 8 * k), 64), 16 * k - 56) < TWO64
  {
    Pow2Values();
    ShrSmaller(Bitwise(And, v, Shl(255, 8 * k), 64), 16 * k - 56);
  }

  lemma ByteMaskBit(k: nat, i: nat)
    ensures Bit(Shl(255, 8 * k), i) <==> 8 * k <= i < 8 * k + 8
  {
    hide Bit, Shl;
    LowZero(255, 8 * k, i);
    assert Pow2(8) == 256;
    if i >= 8 * k {
      LowOnes(8, i - 8 * k);
    }
  }

  lemma {:induction false} LowOnes(n: nat, i: nat)
    ensures Bit(Pow2(n) - 1, i) <==> i < n
    decreases n
  {
    if n == 0 {
      BitOfZero(i);
    } else if i > 0 {
      assert (Pow2(n) - 1) / 2 == Pow2(n - 1) - 1;
      LowOnes(n - 1, i - 1);
    }
  }

  lemma MovedBit(v: word, k: nat, i: nat)
    requires k < 8 && i < 64
    ensures Bit(MovedByte(v, k), i) <==> 56 - 8 * k <= i < 64 - 8 * k && Bit(v, i + 16 * k - 56)
  {
    hide Bitwise, Pow2, Bit, Shl, Shr, Low;
    Pow2Values();
    var part := Bitwise(And, v, Shl(255, 8 * k), 64);
    if k < 4 {
      var up := 56 - 16 * k;
      BitLow(Shl(part, up), 64, i);
      LowZero(part, up, i);
      if i >= up {
        BitwiseBit(And, v, Shl(255, 8 * k), 64, i - up);
        ByteMaskBit(k, i - up);
      }
    } else {
      var down := 16 * k - 56;
      BitShr(part, down, i);
      if i + down < 64 {
        BitwiseBit(And, v, Shl(255, 8 * k), 64, i + down);
        ByteMaskBit(k, i + down);
      } else {
        BitBeyond(part, 64, i + down);
      }
    }
  }

  lemma LowZero(y: nat, m: nat, i: nat)
    ensures Bit(Shl(y, m), i) == (i >= m && Bit(y, i - m))
  {
    BitConcat(0, y, m, i);
    if i < m {
      BitOfZero(i);
    }
  }

  /** Bytes from the k-th on are in place. */
  ghost predicate InPlace(v: word, result: nat, k: nat)
  {
    result < Pow2(64)
    && forall i: nat :: i < 64 ==> Bit(result, i) == (i >= 64 - 8 * k && Bit(v, Swapped(i)))
  }

  /** Where bit i of the reversed word comes from. */
  function Swapped(i: nat): nat
    requires i < 64
  {
    8 * (7 - i / 8) + i % 8
  }

  method OrByte(v: word, result: nat, k: nat) returns (r: nat)
    requires k < 8 && InPlace(v, result, k)
    ensures InPlace(v, r, k + 1)
  {
    hide Bitwise, Pow2, Bit, MovedByte;
    r := Bitwise(Or, result, MovedByte(v, k), 64);
    forall i: nat | i < 64
      ensures Bit(r, i) == (i >= 64 - 8 * (k + 1) && Bit(v, Swapped(i)))
    {
      BitwiseBit(Or, result, MovedByte(v, k), 64, i);
      MovedBit(v, k, i);
      if 56 - 8 * k <= i < 64 - 8 * k {
        assert i / 8 == 7 - k && Swapped(i) == i + 16 * k - 56;
      }
    }
  }

  /** Eight masked bytes, each shifted to its mirrored place and or-ed in. */
  method ReverseWord(v: word) returns (result: nat)
    ensures result == M.Value2(ReverseBytes, v)
  {
    hide Bit, Pow2, InPlace, M.Reversed, ToLe, FromLe;
    StartInPlace(v);
    result := 0;
    result := OrByte(v, result, 0);
    result := OrByte(v, result, 1);
    result := OrByte(v, result, 2);
    result := OrByte(v, result, 3);
    result := OrByte(v, result, 4);
    result := OrByte(v, result, 5);
    result := OrByte(v, result, 6);
    result := OrByte(v, result, 7);
    InPlaceIsReversed(v, result);
  }

  lemma StartInPlace(v: word)
    ensures InPlace(v, 0, 0)
  {
    forall i: nat | i < 64
      ensures !Bit(0, i)
    {
      BitOfZero(i);
    }
  }

  lemma {:induction false} ReversedAt(s: seq<byte>, k: nat)
    requires k < |s|
    ensures M.Reversed(s)[k] == s[|s| - 1 - k]
  {
    if k < |s| - 1 {
      ReversedAt(s[1..], k);
    }
  }

  /** Bit i of a little-endian number is bit i % 8 of its byte i / 8. */
  lemma {:induction false} BitOfLe(s: seq<byte>, i: nat)
    requires i < 8 * |s|
    ensures Bit(FromLe(s), i) == Bit(s[i / 8], i % 8)
  {
    var rest := FromLe(s[1..]);
    assert Pow2(8) == 256;
    ShlIsMul(rest, 8);
    BitConcat(s[0], rest, 8, i);
    if i >= 8 {
      BitOfLe(s[1..], i - 8);
      assert (i - 8) / 8 == i / 8 - 1 && (i - 8) % 8 == i % 8;
    }
  }

  /** A word's bytes put back in reverse order have the swapped bits. */
  lemma InPlaceIsReversed(v: word, result: nat)
    requires InPlace(v, result, 8)
    ensures result == FromLe(M.Reversed(ToLe(v, 8)))
  {
    hide Bit, Pow2, M.Reversed, ToLe, FromLe;
    Pow2Values();
    var bytes := ToLe(v, 8);
    var r := M.Reversed(bytes);
    LeRoundTrip(v, 8);
    forall i: nat | i < 64
      ensures Bit(result, i) == Bit(FromLe(r), i)
    {
      BitOfLe(r, i);
      ReversedAt(bytes, i / 8);
      BitOfLe(bytes, Swapped(i));
      assert Swapped(i) / 8 == 7 - i / 8 && Swapped(i) % 8 == i % 8;
    }
    SameBits(result, FromLe(r), 64);
  }
}
