/** One-bit masks on 64-bit words: what or-ing, clearing and testing a mask does. */
module WordMasks {
  import opened Words

  /** 1 << k */
  function Mask(k: nat): nat { Pow2(k) }

  lemma {:induction false} MaskBit(k: nat, i: nat)
    ensures Bit(Mask(k), i) <==> i == k
    decreases k
  {
    if k == 0 {
      if i > 0 {
        BitOfZero(i - 1);
      }
    } else if i > 0 {
      MaskBit(k - 1, i - 1);
    }
  }

  lemma MaskFits(k: nat, n: nat)
    requires k < n
    ensures Mask(k) < Pow2(n)
  {
    Pow2Mono(k + 1, n);
  }

  /** word | mask, word & ~mask and the test word & mask act on one bit. */
  lemma WordOps(w: nat, k: nat)
    requires w < Pow2(64) && k < 64
    ensures Mask(k) < Pow2(64)
    ensures forall i: nat :: i < 64 ==> Bit(Bitwise(Or, w, Mask(k), 64), i) == (i == k || Bit(w, i))
    ensures forall i: nat :: i < 64 ==> Bit(Bitwise(And, w, Not(Mask(k), 64), 64), i) == (i != k && Bit(w, i))
    ensures Bitwise(And, w, Mask(k), 64) != 0 <==> Bit(w, k)
  {
    hide Bitwise, Pow2, Bit, Not;
    MaskFits(k, 64);
    forall i: nat | i < 64
      ensures Bit(Bitwise(Or, w, Mask(k), 64), i) == (i == k || Bit(w, i))
      ensures Bit(Bitwise(And, w, Not(Mask(k), 64), 64), i) == (i != k && Bit(w, i))
    {
      MaskBit(k, i);
      NotBit(Mask(k), 64, i);
      BitwiseBit(Or, w, Mask(k), 64, i);
      NotFits(Mask(k));
      BitwiseBit(And, w, Not(Mask(k), 64), 64, i);
    }
    TestBit(w, k);
  }

  lemma NotFits(v: nat)
    requires v < Pow2(64)
    ensures 0 <= Not(v, 64) < Pow2(64)
  {}

  lemma TestBit(w: nat, k: nat)
    requires k < 64
    ensures Bitwise(And, w, Mask(k), 64) != 0 <==> Bit(w, k)
  {
    hide Bitwise, Pow2, Bit;
    var v := Bitwise(And, w, Mask(k), 64);
    forall i: nat | i < 64
      ensures Bit(v, i) == (i == k && Bit(w, i))
    {
      MaskBit(k, i);
      BitwiseBit(And, w, Mask(k), 64, i);
    }
    if Bit(w, k) {
      BitOfZero(k);
    } else {
      forall i: nat | i < 64
        ensures Bit(v, i) == Bit(0, i)
      {
        BitOfZero(i);
      }
      SameBits(v, 0, 64);
    }
  }

  // ------------------------------------------------------------ runs of low bits

  /** Masking with 2^k - 1 keeps the low k bits. */
  lemma {:induction false} MaskIsLow(v: nat, k: nat, n: nat)
    requires k <= n
    ensures Bitwise(And, v, Pow2(k) - 1, n) == Low(v, k)
  {
    if n > 0 {
      if k == 0 {
        MaskIsLow(v / 2, 0, n - 1);
      } else {
        assert (Pow2(k) - 1) / 2 == Pow2(k - 1) - 1 && (Pow2(k) - 1) % 2 == 1;
        MaskIsLow(v / 2, k - 1, n - 1);
      }
    }
  }

  lemma {:induction false} AndSelf(v: nat, n: nat)
    requires v < Pow2(n)
    ensures Bitwise(And, v, v, n) == v
    decreases n
  {
    if n > 0 {
      AndSelf(v / 2, n - 1);
    }
  }
}
