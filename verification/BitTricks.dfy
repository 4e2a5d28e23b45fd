/** The helper functions the handlers compute with: shift-and-multiply sign extension, masking, and
    bit lists; and what they mean on words. */
module BitTricks {
  import opened Words
  import opened Isa
  import opened Programs

  // ------------------------------------------------------------ sign conversion

  /** Sign extension of an n-byte value by adding the copied sign bit times 2^64 - 2^(8n). */
  function Chi(value: nat, n: nat): int
  {
    if n == 0 then value else value + Shr(value, 8 * n - 1) * (TWO64 - Pow2(8 * n))
  }

  /** Back to an unsigned n-byte value by adding the modulus and masking. */
  function ZInv(x: int, n: nat): int
  {
    if n == 0 then x else (Pow2(8 * n) + x) % Pow2(8 * n)
  }

  lemma TopBitOnly(value: nat, n: nat)
    requires n > 0 && value < Pow2(n)
    ensures Shr(value, n - 1) == if value < Pow2(n - 1) then 0 else 1
  {
    ShrBound(value, n - 1, n);
    BitIsShiftMask(value, n - 1);
    TopBit(value, n);
  }

  lemma ChiAddsSign(value: nat, n: nat)
    requires n > 0 && value < Pow2(8 * n)
    ensures Chi(value, n) == if value < Pow2(8 * n - 1) then value else value + TWO64 - Pow2(8 * n)
  {
    hide Pow2, Shr;
    TopBitOnly(value, 8 * n);
    OneOrNone(Shr(value, 8 * n - 1), TWO64 - Pow2(8 * n));
  }

  lemma OneOrNone(s: int, t: int)
    requires s == 0 || s == 1
    ensures s * t == if s == 0 then 0 else t
  {}

  /** On values that fit in n bytes, the shift-and-multiply form is two's-complement sign extension. */
  lemma ChiSignExtends(value: nat, n: nat)
    requires n <= 8 && value < Pow2(8 * n)
    ensures Chi(value, n) == U64(Signed(value, n))
  {
    hide Shr;
    Pow2Values();
    Pow2Mono(8 * n, 64);
    if n > 0 {
      ChiAddsSign(value, n);
    }
  }

  lemma ChiOf32(x: int)
    ensures Chi(x % TWO32, 4) == SX32(x)
  {
    Pow2Values();
    ChiSignExtends(x % TWO32, 4);
  }

  lemma ChiOf64(x: int)
    ensures Chi(x % TWO64, 8) == U64(x)
  {
    Pow2Values();
  }

  lemma SignedWidths(x: nat)
    ensures Signed(x, 8) == S64(x) && Signed(x % TWO32, 4) == S32(x)
  {
    Pow2Values();
  }

  lemma ZInvOf64(x: int)
    ensures ZInv(x, 8) == U64(x)
  {
    Pow2Values();
  }

  // ------------------------------------------------------------ bit lists

  /** The bits of `value`, lowest first, byte by byte from the table of byte patterns. */
  method B(value: nat, byteSize: nat) returns (out: seq<bool>)
    ensures |out| == 8 * byteSize
    ensures forall i: nat :: i < |out| ==> out[i] == Bit(value, i)
  {
    var bits := new bool[8 * byteSize](_ => false);
    for k := 0 to byteSize
      invariant forall i: nat :: i < 8 * k ==> bits[i] == Bit(value, i)
    {
      var byte_ := Shr(value, 8 * k) % 256;
      for i := 0 to 8
        invariant forall j: nat :: j < 8 * k + i ==> bits[j] == Bit(value, j)
      {
        bits[8 * k + i] := Shr(byte_, i) % 2 == 1;
        BitOfByte(value, 8 * k, i);
      }
    }
    out := bits[..];
  }

  lemma BitOfByte(value: nat, base: nat, i: nat)
    requires i < 8
    ensures Shr(Shr(value, base) % 256, i) % 2 == 1 <==> Bit(value, base + i)
  {
    Pow2Values();
    ShrIsDiv(Shr(value, base), 8);
    BitLow(Shr(value, base), 8, i);
    BitIsShiftMask(Low(Shr(value, base), 8), i);
    BitShr(value, base, i);
  }

  /** The number with these bits, lowest first. */
  method BInv(value: seq<bool>) returns (result: nat)
    ensures result == FromBits(value)
  {
    result := 0;
    for i := 0 to |value|
      invariant result == FromBits(value[..i])
    {
      FromBitsSnoc(value[..i], value[i]);
      assert value[..i] + [value[i]] == value[..i + 1];
      if value[i] {
        result := result + Pow2(i);
      }
    }
    assert value[..|value|] == value;
  }

  /** `BInv` undoes `B` modulo 2^(8n). */
  method BThenBInv(value: nat, byteSize: nat) returns (result: nat)
    ensures result == value % Pow2(8 * byteSize)
  {
    var bits := B(value, byteSize);
    result := BInv(bits);
    FromBitsOfWord(bits, value);
    ShrIsDiv(value, 8 * byteSize);
  }

  /** Bitwise operations over lists, with the inversions of the second operand or the result. */
  method ListOp(op: BitOp, a: nat, b: nat) returns (v: nat)
    ensures v == Bitwise(op, a, b, 64)
  {
    var ba := B(a, 8);
    var bb := B(b, 8);
    if op == AndInv || op == OrInv {
      bb := seq(|bb|, i requires 0 <= i < |bb| => !bb[i]);
    }
    var result;
    match op {
      case And => result := seq(64, i requires 0 <= i < 64 => ba[i] && bb[i]);
      case AndInv => result := seq(64, i requires 0 <= i < 64 => ba[i] && bb[i]);
      case Or => result := seq(64, i requires 0 <= i < 64 => ba[i] || bb[i]);
      case OrInv => result := seq(64, i requires 0 <= i < 64 => ba[i] || bb[i]);
      case Xor => result := seq(64, i requires 0 <= i < 64 => ba[i] != bb[i]);
      case Xnor => result := seq(64, i requires 0 <= i < 64 => ba[i] != bb[i]);
    }
    if op == Xnor {
      result := seq(64, i requires 0 <= i < 64 => !result[i]);
    }
    v := BInv(result);
    ListOpMeaning(op, a, b, result);
  }

  lemma ListOpMeaning(op: BitOp, a: nat, b: nat, bits: seq<bool>)
    requires forall i: nat :: i < |bits| ==> bits[i] == Apply(op, Bit(a, i), Bit(b, i))
    ensures FromBits(bits) == Bitwise(op, a, b, |bits|)
  {
    forall i: nat | i < |bits|
      ensures Bit(FromBits(bits), i) == Bit(Bitwise(op, a, b, |bits|), i)
    {
      FromBitsBit(bits, i);
      BitwiseBit(op, a, b, |bits|, i);
    }
    SameBits(FromBits(bits), Bitwise(op, a, b, |bits|), |bits|);
  }

  // ------------------------------------------------------------ rotations by permuting lists

  /** The list place that index i moves to. */
  function Place(i: nat, amount: nat, n: nat): (j: nat)
    requires n > 0
    ensures j < n
  {
    (i + amount) % n
  }

  lemma PlaceMeaning(i: nat, amount: nat, n: nat)
    requires i < n
    ensures var k := amount % n;
            Place(i, amount, n) == (i + k) % n && Place(i, amount, n) == if i + k < n then i + k else i + k - n
  {
    ModMod(i + amount, i + amount % n, amount / n, n);
    ModOnce(i + amount % n, n);
  }

  lemma PermutedLeft(x: seq<bool>, a: nat, amount: nat)
    requires |x| > 0
    requires forall i: nat :: i < |x| ==> x[Place(i, amount, |x|)] == Bit(a, i)
    ensures FromBits(x) == RotL(Low(a, |x|), amount % |x|, |x|)
  {
    var n := |x|;
    var k := amount % n;
    var v := Low(a, n);
    forall j: nat | j < n
      ensures Bit(FromBits(x), j) == Bit(RotL(v, k, n), j)
    {
      var i := if j >= k then j - k else j + n - k;
      PlaceMeaning(i, amount, n);
      assert x[Place(i, amount, n)] == Bit(a, i);
      FromBitsBit(x, j);
      RotLBit(v, k, n, i);
      BitLow(a, n, i);
    }
    SameBits(FromBits(x), RotL(v, k, n), n);
  }

  lemma PermutedRight(x: seq<bool>, a: nat, amount: nat)
    requires |x| > 0
    requires forall i: nat :: i < |x| ==> x[i] == Bit(a, Place(i, amount, |x|))
    ensures FromBits(x) == RotR(Low(a, |x|), amount % |x|, |x|)
  {
    var n := |x|;
    var k := amount % n;
    var v := Low(a, n);
    forall i: nat | i < n
      ensures Bit(FromBits(x), i) == Bit(RotR(v, k, n), i)
    {
      PlaceMeaning(i, amount, n);
      FromBitsBit(x, i);
      RotRBit(v, k, n, i);
      BitLow(a, n, Place(i, amount, n));
    }
    SameBits(FromBits(x), RotR(v, k, n), n);
  }

  /** Left rotation: bit i of the word goes to place (i + amount) mod n of a fresh list. */
  method RotateLeft(a: nat, amount: nat, bytes: nat) returns (v: nat)
    requires bytes > 0
    ensures v == RotL(Low(a, 8 * bytes), amount % (8 * bytes), 8 * bytes)
  {
    var n := 8 * bytes;
    var ba := B(a, bytes);
    var x := new bool[n](_ => false);
    for i := 0 to n
      invariant forall j: nat :: j < i ==> x[Place(j, amount, n)] == Bit(a, j)
    {
      forall j: nat | j < i
        ensures Place(j, amount, n) != Place(i, amount, n)
      {
        PlaceMeaning(j, amount, n);
        PlaceMeaning(i, amount, n);
      }
      x[Place(i, amount, n)] := ba[i];
    }
    v := BInv(x[..]);
    PermutedLeft(x[..], a, amount);
  }

  /** Right rotation: place i takes bit (i + amount) mod n. */
  method RotateRight(a: nat, amount: nat, bytes: nat) returns (v: nat)
    requires bytes > 0
    ensures v == RotR(Low(a, 8 * bytes), amount % (8 * bytes), 8 * bytes)
  {
    var n := 8 * bytes;
    var ba := B(a, bytes);
    var x := seq(n, i requires 0 <= i < n => ba[Place(i, amount, n)]);
    v := BInv(x);
    PermutedRight(x, a, amount);
  }

  // ------------------------------------------------------------ counting over lists

  method SumBits(bits: seq<bool>, ghost v: nat) returns (c: nat)
    requires forall i: nat :: i < |bits| ==> bits[i] == Bit(v, i)
    ensures c == PopCount(v, |bits|)
  {
    c := 0;
    for i := 0 to |bits|
      invariant c == PopCount(v, i)
    {
      PopCountSnoc(v, i);
      if bits[i] {
        c := c + 1;
      }
    }
  }

  lemma {:induction false} PopCountSnoc(v: nat, n: nat)
    ensures PopCount(v, n + 1) == PopCount(v, n) + B2I(Bit(v, n))
    decreases n
  {
    if n > 0 {
      PopCountSnoc(v / 2, n - 1);
    }
  }

  /** Index of the first set bit of the reversed list, or the list's length. */
  method LeadingIndex(bits: seq<bool>, ghost v: nat) returns (c: nat)
    requires forall i: nat :: i < |bits| ==> bits[i] == Bit(v, i)
    ensures c == LeadingZeros(v, |bits|)
  {
    c := 0;
    while c < |bits| && !bits[|bits| - 1 - c]
      invariant c <= |bits| && LeadingZeros(v, |bits|) == c + LeadingZeros(v, |bits| - c)
    {
      c := c + 1;
    }
  }

  /** Index of the first set bit, or the list's length. */
  method TrailingIndex(bits: seq<bool>, ghost v: nat) returns (c: nat)
    requires forall i: nat :: i < |bits| ==> bits[i] == Bit(v, i)
    ensures c == TrailingZeros(v, |bits|)
  {
    c := 0;
    while c < |bits| && !bits[c]
      invariant c <= |bits| && TrailingZeros(v, |bits|) == c + TrailingZeros(Shr(v, c), |bits| - c)
    {
      BitIsShiftMask(v, c);
      ShrNext(v, c);
      c := c + 1;
    }
    if c < |bits| {
      BitIsShiftMask(v, c);
    }
  }

  lemma {:induction false} ShrNext(v: nat, k: nat)
    ensures Shr(v, k + 1) == Shr(v, k) / 2
    decreases k
  {
    if k > 0 {
      ShrNext(v / 2, k - 1);
    }
  }
}
