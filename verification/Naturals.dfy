/** The variable-length coding of natural numbers below 2^64 that serialised programs use: the
    number of leading one bits of the first byte says how many bytes follow. */
module Naturals {
  import opened Words
  import opened Wrappers

  /** First bytes from which l more bytes follow. */
  function Prefix(l: nat): (t: nat)
    requires l <= 8
    ensures t == 256 - Pow2(8 - l)
  {
    PrefixPowers();
    match l
    case 0 => 0 case 1 => 128 case 2 => 192 case 3 => 224 case 4 => 240
    case 5 => 248 case 6 => 252 case 7 => 254 case _ => 255
  }

  lemma PrefixPowers()
    ensures Pow2(0) == 1 && Pow2(1) == 2 && Pow2(2) == 4 && Pow2(3) == 8 && Pow2(4) == 16
    ensures Pow2(5) == 32 && Pow2(6) == 64 && Pow2(7) == 128 && Pow2(8) == 256
  {}

  /** The number of bytes after the first: the least l with x < 2^(7 * (l + 1)), at most 8. */
  function Extra(x: nat, l: nat): (r: nat)
    requires l <= 8
    ensures l <= r <= 8
    decreases 8 - l
  {
    if l == 8 || x < Pow2(7 * (l + 1)) then l else Extra(x, l + 1)
  }

  lemma {:induction false} ExtraFits(x: nat, l: nat)
    requires l <= 8 && x < TWO64
    ensures var r := Extra(x, l); if r == 8 then x < Pow2(64) else x < Pow2(7 * (r + 1))
    decreases 8 - l
  {
    hide Pow2;
    Pow2Values();
    if l < 8 && x >= Pow2(7 * (l + 1)) {
      ExtraFits(x, l + 1);
    }
  }

  /** The leading byte holds the length prefix and the number's top bits. */
  function NatEncode(x: nat): (s: seq<byte>)
    requires x < TWO64
    ensures |s| == 1 + Extra(x, 0)
  {
    hide *;
    var l := Extra(x, 0);
    TopFits(x, l);
    [Prefix(l) + Shr(x, 8 * l)] + ToLe(Low(x, 8 * l), l)
  }

  lemma TopFits(x: nat, l: nat)
    requires x < TWO64 && l == Extra(x, 0)
    ensures Prefix(l) + Shr(x, 8 * l) < 256 && (l < 8 ==> Prefix(l) + Shr(x, 8 * l) < Prefix(l + 1))
  {
    hide Pow2, Extra, Shr;
    ExtraFits(x, 0);
    PrefixPowers();
    if l < 8 {
      ShrBound(x, 8 * l, 7 * (l + 1));
      assert 7 * (l + 1) - 8 * l == 7 - l;
      assert Pow2(8 - l) == 2 * Pow2(7 - l) by { Pow2Add(1, 7 - l); }
    } else {
      ShrBound(x, 64, 64);
    }
  }

  /** The coding of x: l is the least with x < 2^(7 * (l + 1)), at most 8; the first byte has l leading ones,
      a zero and the bits of x above its low l bytes, and these follow, the least significant first. */
  lemma NatLayout(x: nat)
    requires x < TWO64
    ensures var s := NatEncode(x);
            var l := |s| - 1;
            && 0 <= l <= 8 && (l < 8 ==> x < Pow2(7 * (l + 1))) && (l > 0 ==> x >= Pow2(7 * l))
            && s[0] == 256 - Pow2(8 - l) + x / Pow2(8 * l) && s[1..] == ToLe(x % Pow2(8 * l), l)
  {
    hide Pow2, Extra, ToLe, Shr, Low, Prefix;
    var l := Extra(x, 0);
    TopFits(x, l);
    ExtraFits(x, 0);
    ExtraIsLeast(x, 0, l);
    ShrIsDiv(x, 8 * l);
    assert NatEncode(x)[1..] == ToLe(Low(x, 8 * l), l);
  }

  lemma {:induction false} ExtraIsLeast(x: nat, l: nat, r: nat)
    requires l <= 8 && r == Extra(x, l)
    ensures l < r ==> x >= Pow2(7 * r)
    decreases 8 - l
  {
    hide Pow2;
    if l < r {
      ExtraIsLeast(x, l + 1, r);
    }
  }

  /** Bytes that follow a first byte. */
  function Following(first: byte): (l: nat)
    ensures l <= 8 && first >= Prefix(l) && (l < 8 ==> first < Prefix(l + 1))
  {
    if first < 128 then 0 else if first < 192 then 1 else if first < 224 then 2 else if first < 240 then 3
    else if first < 248 then 4 else if first < 252 then 5 else if first < 254 then 6 else if first < 255 then 7 else 8
  }

  /** A number and the bytes it took; None when the buffer ends first. */
  function NatDecode(s: seq<byte>): Option<(nat, nat)>
  {
    hide *;
    if s == [] then None
    else
      var l := Following(s[0]);
      if |s| < 1 + l then None
      else Some(((s[0] - Prefix(l)) * Pow2(8 * l) + FromLe(s[1..1 + l]), 1 + l))
  }

  lemma FollowingUnique(first: byte, l: nat)
    requires l <= 8 && first >= Prefix(l) && (l < 8 ==> first < Prefix(l + 1))
    ensures Following(first) == l
  {
    PrefixPowers();
  }

  lemma NatRoundTrip(x: nat, rest: seq<byte>)
    requires x < TWO64
    ensures NatDecode(NatEncode(x) + rest) == Some((x, |NatEncode(x)|))
  {
    hide Pow2, Extra, ToLe, FromLe, Shr, Low, Following, Prefix;
    var l := Extra(x, 0);
    var s := NatEncode(x) + rest;
    TopFits(x, l);
    FollowingUnique(s[0], l);
    assert s[1..1 + l] == ToLe(Low(x, 8 * l), l);
    LeRoundTrip(Low(x, 8 * l), l);
    ShrLow(x, 8 * l);
  }

  /** Below 128 the coding is one byte, the number itself. */
  lemma OneByte(x: nat)
    requires x < 128
    ensures NatEncode(x) == [x]
  {
    PrefixPowers();
  }

  /** A first byte of 128 or more makes the next byte the low one. */
  lemma SecondByteIsLow(s: seq<byte>)
    requires NatDecode(s).Some? && s[0] >= 128
    ensures |s| > 1 && NatDecode(s).value.0 % 256 == s[1]
  {
    hide Pow2;
    var l := Following(s[0]);
    var rest := s[1..1 + l];
    var top := s[0] - Prefix(l);
    Pow2Add(8, 8 * (l - 1));
    Pow2Values();
    var m := Pow2(8 * (l - 1));
    assert top * (256 * m) == 256 * (top * m) by {
      MulAssoc(top, 256, m);
      MulSwap(top, 256, m);
    }
    assert FromLe(rest) == rest[0] + 256 * FromLe(rest[1..]);
    DivModUnique(NatDecode(s).value.0, 256, top * m + FromLe(rest[1..]), rest[0]);
  }

  /** A small number coded in two bytes or more after the first has zero for all but the lowest. */
  lemma SecondExtraIsZero(s: seq<byte>)
    requires NatDecode(s).Some? && s[0] >= 192 && NatDecode(s).value.0 < 256
    ensures |s| > 2 && s[2] == 0
  {
    hide Pow2, Following, Prefix;
    var l := Following(s[0]);
    TwoFollow(s[0]);
    var rest := s[1..1 + l];
    NotNegative((s[0] - Prefix(l)) as int, Pow2(8 * l));
    assert FromLe(rest) == rest[0] + 256 * FromLe(rest[1..]);
    assert FromLe(rest[1..]) == rest[1..][0] + 256 * FromLe(rest[1..][1..]);
  }

  lemma TwoFollow(first: byte)
    ensures first >= 128 <==> Following(first) >= 1
    ensures first >= 192 <==> Following(first) >= 2
  {}

  lemma NotNegative(x: nat, y: nat)
    ensures x * y >= 0
  {}

  /** With one byte after the first, the first holds the number's multiples of 256. */
  lemma OneExtra(s: seq<byte>)
    requires NatDecode(s).Some? && 128 <= s[0] < 192
    ensures |s| > 1 && NatDecode(s).value == ((s[0] as int - 128) * 256 + s[1], 2)
  {
    assert s[1..2] == [s[1]];
    assert FromLe([s[1]]) == s[1];
    assert Pow2(8) == 256;
  }

  /** Numbers whose code begins with 0 or with 128. */
  lemma FirstByteTells(x: nat)
    requires x < TWO64
    ensures NatEncode(x)[0] == 0 ==> x == 0 && NatEncode(x) == [0]
    ensures NatEncode(x)[0] == 128 ==> 128 <= x < 256 && NatEncode(x) == [128, x]
  {
    hide Pow2, ToLe;
    PrefixPowers();
    var l := Extra(x, 0);
    TopFits(x, l);
    if l == 1 {
      ShrLow(x, 8);
      LeRoundTripOne(x, l);
    }
  }

  lemma LeRoundTripOne(x: nat, l: nat)
    requires l == 1
    ensures ToLe(Low(x, 8), l) == [Low(x, 8)]
  {
    assert Pow2(8) == 256;
  }
}
