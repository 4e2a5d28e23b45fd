/** Serialised programs: jump table, code and opcode bitmask, eight bits to a byte. */
module ProgramCodec {
  import opened Words
  import opened Wrappers
  import opened Programs
  import opened Naturals
  import opened Codecs

  // ------------------------------------------------------------ the bitmask

  /** Bits packed lowest first, eight to a byte. */
  function PackBits(bits: seq<bool>): (s: seq<byte>)
    ensures |s| == (|bits| + 7) / 8
  {
    if bits == [] then []
    else if |bits| < 8 then PackedByte(bits); [FromBits(bits)]
    else PackedByte(bits[..8]); [FromBits(bits[..8])] + PackBits(bits[8..])
  }

  lemma PackedByte(bits: seq<bool>)
    requires |bits| <= 8
    ensures FromBits(bits) < 256
  {
    Pow2Mono(|bits|, 8);
    Pow2Values();
  }

  /** Bit i of packed bytes; bytes past the end are zero. */
  predicate PackedBit(s: seq<byte>, i: nat)
  {
    i / 8 < |s| && Bit(s[i / 8], i % 8)
  }

  lemma {:induction false} PackedBack(bits: seq<bool>, rest: seq<byte>, i: nat)
    requires i < |bits|
    ensures PackedBit(PackBits(bits) + rest, i) == bits[i]
    decreases |bits|
  {
    hide FromBits, Bit;
    if |bits| < 8 {
      FromBitsBit(bits, i);
    } else if i < 8 {
      FromBitsBit(bits[..8], i);
    } else {
      PackedBack(bits[8..], rest, i - 8);
      assert (i - 8) / 8 == i / 8 - 1 && (i - 8) % 8 == i % 8;
    }
  }

  function Unpacked(s: seq<byte>, n: nat): (bits: seq<bool>)
    ensures |bits| == n && forall i: nat :: i < n ==> bits[i] == PackedBit(s, i)
  {
    seq(n, i requires 0 <= i < n => PackedBit(s, i))
  }

  /** The decoder's loops: whole bytes with their eight tests written out, then the remaining bits. */
  method UnpackBits(s: seq<byte>, n: nat) returns (bits: seq<bool>)
    ensures bits == Unpacked(s, n)
  {
    hide Bit;
    var mask := new bool[n](_ => false);
    var full := n / 8;
    var k := 0;
    while k < full
      invariant k <= full
      invariant forall i: nat :: i < n ==> mask[i] == (i < 8 * k && PackedBit(s, i))
    {
      UnpackByte(mask, if k < |s| then s[k] else 0, k);
      forall i: nat | 8 * k <= i < 8 * k + 8
        ensures mask[i] == PackedBit(s, i)
      {
        assert i / 8 == k && i % 8 == i - 8 * k;
        BitOfZero(i - 8 * k);
      }
      k := k + 1;
    }
    if n % 8 != 0 && full < |s| {
      var b := 0;
      while b < n % 8
        invariant b <= n % 8
        invariant forall i: nat :: i < n ==> mask[i] == (i < 8 * full + b && PackedBit(s, i))
      {
        assert (8 * full + b) / 8 == full && (8 * full + b) % 8 == b;
        mask[8 * full + b] := Bit(s[full], b);
        b := b + 1;
      }
    }
    bits := mask[..];
  }

  /** Eight tests, one a bit. */
  method UnpackByte(mask: array<bool>, v: byte, k: nat)
    requires 8 * k + 8 <= mask.Length
    modifies mask
    ensures forall b: nat :: b < 8 ==> mask[8 * k + b] == Bit(v, b)
    ensures forall i: nat :: i < mask.Length && !(8 * k <= i < 8 * k + 8) ==> mask[i] == old(mask[i])
  {
    hide Bit;
    mask[8 * k] := Bit(v, 0);
    mask[8 * k + 1] := Bit(v, 1);
    mask[8 * k + 2] := Bit(v, 2);
    mask[8 * k + 3] := Bit(v, 3);
    mask[8 * k + 4] := Bit(v, 4);
    mask[8 * k + 5] := Bit(v, 5);
    mask[8 * k + 6] := Bit(v, 6);
    mask[8 * k + 7] := Bit(v, 7);
  }

  // ------------------------------------------------------------ the jump table

  /** Table entries of z bytes each. */
  function EntryBytes(js: seq<nat>, z: nat): seq<byte>
  {
    if js == [] then [] else ToLe(js[0], z) + EntryBytes(js[1..], z)
  }

  function EntriesAt(s: seq<byte>, at: nat, z: nat, n: nat): (js: seq<nat>)
    ensures |js| == n
    decreases n
  {
    if n == 0 then [] else [Number(s, at, z)] + EntriesAt(s, at + z, z, n - 1)
  }

  function AfterEntries(at: nat, z: nat, n: nat): (r: nat)
    ensures r >= at
    decreases n
  {
    if n == 0 then at else AfterEntries(at + z, z, n - 1)
  }

  predicate EntriesFit(js: seq<nat>, z: nat)
  {
    forall j <- js :: j < Pow2(8 * z)
  }

  lemma {:induction false} EntriesBack(before: seq<byte>, js: seq<nat>, z: nat, rest: seq<byte>)
    requires EntriesFit(js, z)
    ensures EntriesAt(before + EntryBytes(js, z) + rest, |before|, z, |js|) == js
    ensures AfterEntries(|before|, z, |js|) == |before| + |EntryBytes(js, z)|
    decreases |js|
  {
    hide ToLe, Number, EntriesFit;
    if js != [] {
      var s := before + EntryBytes(js, z) + rest;
      var first, others := ToLe(js[0], z), EntryBytes(js[1..], z);
      FirstEntry(before, js, z, others + rest);
      assert s == before + first + (others + rest);
      assert s == (before + first) + others + rest;
      EntriesBack(before + first, js[1..], z, rest);
    }
  }

  lemma FirstEntry(before: seq<byte>, js: seq<nat>, z: nat, after: seq<byte>)
    requires js != [] && EntriesFit(js, z)
    ensures Number(before + ToLe(js[0], z) + after, |before|, z) == js[0]
    ensures EntriesFit(js[1..], z)
  {
    hide ToLe, Number, Pow2;
    assert js[0] in js;
    var s := before + ToLe(js[0], z) + after;
    assert s[|before|..|before| + z] == ToLe(js[0], z);
    NumberBack(s, |before|, z, js[0]);
    forall j | j in js[1..]
      ensures j < Pow2(8 * z)
    {
      assert j in js;
    }
  }

  lemma {:induction false} EntriesSnoc(s: seq<byte>, at: nat, z: nat, n: nat)
    ensures EntriesAt(s, at, z, n + 1) == EntriesAt(s, at, z, n) + [Number(s, AfterEntries(at, z, n), z)]
    ensures AfterEntries(at, z, n + 1) == AfterEntries(at, z, n) + z
    decreases n
  {
    hide Number;
    if n > 0 {
      EntriesSnoc(s, at + z, z, n - 1);
    }
  }

  // ------------------------------------------------------------ programs

  /** What one byte each for the table length and entry size, and the entries, can hold. */
  predicate Encodable(p: Program)
  {
    |p.jumpTable| < 256 && p.z < 256 && |p.code| < TWO64 && EntriesFit(p.jumpTable, p.z)
  }

  function ProgramHeader(p: Program): seq<byte>
    requires Encodable(p)
  {
    ToLe(|p.jumpTable|, 1) + ToLe(p.z, 1) + NatEncode(|p.code|)
  }

  function EncodedProgram(p: Program): seq<byte>
    requires Encodable(p)
  {
    ProgramHeader(p) + EntryBytes(p.jumpTable, p.z) + p.code + PackBits(p.bitmask)
  }

  /** Byte i of entry k is at k * z + i, the least significant first. */
  lemma {:induction false} EntryByte(js: seq<nat>, z: nat, k: nat, i: nat)
    requires k < |js| && i < z
    ensures |EntryBytes(js, z)| == |js| * z && k * z + i < |js| * z
    ensures EntryBytes(js, z)[k * z + i] == ByteOfNumber(js[k], i)
    decreases k
  {
    hide ToLe, ByteOfNumber;
    EntryBytesLength(js, z);
    MulMono(k + 1, |js|, z);
    Distribute(k, 1, z);
    if k == 0 {
      ToLeByte(js[0], z, i);
    } else {
      EntryByte(js[1..], z, k - 1, i);
      Distribute(k, 1, z);
      assert EntryBytes(js, z)[z + ((k - 1) * z + i)] == EntryBytes(js[1..], z)[(k - 1) * z + i];
    }
  }

  lemma {:induction false} EntryBytesLength(js: seq<nat>, z: nat)
    ensures |EntryBytes(js, z)| == |js| * z
  {
    hide ToLe;
    if js != [] {
      EntryBytesLength(js[1..], z);
      Distribute(|js|, 1, z);
    }
  }

  /** Bit j of the bitmask is binary digit j % 8 of packed byte j / 8. */
  lemma PackedDigit(bits: seq<bool>, j: nat)
    requires j < |bits|
    ensures j / 8 < |PackBits(bits)| && Digit(PackBits(bits)[j / 8], j % 8) == bits[j]
  {
    hide PackBits, Digit, Bit;
    PackedBack(bits, [], j);
    assert PackBits(bits) + [] == PackBits(bits);
    DigitIsBit(PackBits(bits)[j / 8], j % 8);
  }

  /** Where each part of the format lies: the table's length, the entry size, the length of the code, the
      entries, the code, and the packed bitmask. */
  lemma ProgramLayout(p: Program)
    requires Encodable(p)
    ensures var s := EncodedProgram(p);
            var h, n := 2 + |NatEncode(|p.code|)|, |p.jumpTable| * p.z;
            && |s| == h + n + |p.code| + (|p.code| + 7) / 8
            && s[0] == |p.jumpTable| && s[1] == p.z && s[2..h] == NatEncode(|p.code|)
            && s[h..h + n] == EntryBytes(p.jumpTable, p.z) && s[h + n..h + n + |p.code|] == p.code
            && s[h + n + |p.code|..] == PackBits(p.bitmask)
  {
    hide NatEncode, PackBits, EntryBytes;
    var s, entries := EncodedProgram(p), EntryBytes(p.jumpTable, p.z);
    var h := 2 + |NatEncode(|p.code|)|;
    EntryBytesLength(p.jumpTable, p.z);
    OneByteNumber(|p.jumpTable|);
    OneByteNumber(p.z);
    hide ToLe;
    assert ProgramHeader(p)[2..h] == NatEncode(|p.code|);
    assert s[..h] == ProgramHeader(p);
    assert s[2..h] == s[..h][2..h];
    assert s[h..h + |entries|] == entries;
  }

  function Drop(s: seq<byte>, k: nat): seq<byte>
  {
    if k <= |s| then s[k..] else []
  }

  /** None where reading a length raises. */
  function DecodedProgram(s: seq<byte>): Option<ProgramData>
  {
    match NatDecode(s)
    case None => None
    case Some((jLen, a)) =>
      var z := Number(s, a, 1);
      match NatDecode(Drop(s, a + 1))
      case None => None
      case Some((cLen, b)) =>
        var base := a + 1 + b;
        var at := AfterEntries(base, z, jLen);
        Some(ProgramData(z, EntriesAt(s, base, z, jLen), Slice(s, at, cLen),
                         Unpacked(Slice(s, at + cLen, (cLen + 7) / 8), cLen)))
  }

  method DecodeProgram(s: seq<byte>) returns (r: Option<ProgramData>)
    ensures r == DecodedProgram(s)
  {
    hide Number, NatDecode, PackedBit;
    var first := NatDecode(s);
    if first.None? {
      return None;
    }
    var (jLen, at) := first.value;
    var z := Number(s, at, 1);
    at := at + 1;
    var second := NatDecode(Drop(s, at));
    if second.None? {
      return None;
    }
    var cLen := second.value.0;
    at := at + second.value.1;
    ghost var base := at;
    var j: seq<nat> := [];
    var k := 0;
    while k < jLen
      invariant k <= jLen && j == EntriesAt(s, base, z, k) && at == AfterEntries(base, z, k)
    {
      EntriesSnoc(s, base, z, k);
      j := j + [Number(s, at, z)];
      at := at + z;
      k := k + 1;
    }
    var c := Slice(s, at, cLen);
    var bitData := Slice(s, at + cLen, (cLen + 7) / 8);
    var mask := UnpackBits(bitData, cLen);
    r := Some(ProgramData(z, j, c, mask));
  }

  method EncodeEntries(js: seq<nat>, z: nat, buffer: array<byte>, start: nat, at: nat, ghost was: seq<byte>, ghost done: seq<byte>)
      returns (next: nat, ghost grown: seq<byte>)
    requires start <= at && at + |EntryBytes(js, z)| <= buffer.Length && |was| == buffer.Length && |done| == at - start
    requires buffer[..] == was[..start] + done + was[at..]
    modifies buffer
    ensures grown == done + EntryBytes(js, z) && next == start + |grown|
    ensures buffer[..] == was[..start] + grown + was[next..]
  {
    hide ToLe;
    next, grown := at, done;
    var k := 0;
    while k < |js|
      invariant k <= |js| && next == start + |grown| && next + |EntryBytes(js[k..], z)| <= buffer.Length
      invariant grown + EntryBytes(js[k..], z) == done + EntryBytes(js, z)
      invariant buffer[..] == was[..start] + grown + was[next..]
    {
      var rest := js[k..];
      assert rest[1..] == js[k + 1..] && rest[0] == js[k];
      assert EntryBytes(rest, z) == ToLe(js[k], z) + EntryBytes(js[k + 1..], z);
      next, grown := Append(buffer, start, next, ToLe(js[k], z), was, grown);
      k := k + 1;
    }
  }

  method EncodeProgram(p: Program, buffer: array<byte>, offset: nat) returns (size: nat)
    requires Encodable(p) && offset + |EncodedProgram(p)| <= buffer.Length
    modifies buffer
    ensures size == |EncodedProgram(p)|
    ensures buffer[..] == old(buffer[..offset]) + EncodedProgram(p) + old(buffer[offset + size..])
  {
    hide ToLe, NatEncode, PackBits, Pow2;
    ghost var was := buffer[..];
    var at := offset;
    ghost var done: seq<byte> := [];
    at, done := Append(buffer, offset, at, ToLe(|p.jumpTable|, 1), was, done);
    at, done := Append(buffer, offset, at, ToLe(p.z, 1), was, done);
    at, done := Append(buffer, offset, at, NatEncode(|p.code|), was, done);
    assert done == ProgramHeader(p);
    at, done := EncodeEntries(p.jumpTable, p.z, buffer, offset, at, was, done);
    at, done := Append(buffer, offset, at, p.code, was, done);
    at, done := Append(buffer, offset, at, PackBits(p.bitmask), was, done);
    size := at - offset;
  }

  lemma OneByteNumber(v: nat)
    requires v < 256
    ensures ToLe(v, 1) == [v]
  {}

  /** Reads the parts of an encoded program whose table length is one natural-number byte. */
  lemma HeaderBack(p: Program, rest: seq<byte>)
    requires Encodable(p) && |p.jumpTable| < 128
    ensures var s := ProgramHeader(p) + rest;
            && NatDecode(s) == Some((|p.jumpTable|, 1)) && Number(s, 1, 1) == p.z
            && NatDecode(Drop(s, 2)) == Some((|p.code|, |ProgramHeader(p)| - 2))
  {
    hide NatDecode, NatEncode, FromLe, ToLe, Number, EntriesFit;
    var n, c := |p.jumpTable|, |p.code|;
    var s := ProgramHeader(p) + rest;
    OneByteNumber(n);
    OneByteNumber(p.z);
    OneByte(n);
    assert s == [n] + ([p.z] + NatEncode(c) + rest);
    NatRoundTrip(n, [p.z] + NatEncode(c) + rest);
    assert s[1..2] == [p.z];
    SmallByte(s, p.z);
    NatRoundTrip(c, rest);
    assert Drop(s, 2) == NatEncode(c) + rest;
  }

  lemma SmallByte(s: seq<byte>, z: nat)
    requires |s| >= 2 && z < 256 && s[1..2] == [z]
    ensures Number(s, 1, 1) == z
  {
    OneByteNumber(z);
    Pow2Values();
    NumberBack(s, 1, 1, z);
  }

  lemma SlicesBack(front: seq<byte>, code: seq<byte>, bits: seq<byte>, rest: seq<byte>)
    ensures var s := front + (code + bits + rest);
            Slice(s, |front|, |code|) == code && Slice(s, |front| + |code|, |bits|) == bits
  {}

  lemma BitmaskBack(bits: seq<bool>)
    ensures Unpacked(PackBits(bits), |bits|) == bits
  {
    hide PackBits, PackedBit;
    forall i: nat | i < |bits|
      ensures PackedBit(PackBits(bits), i) == bits[i]
    {
      PackedBack(bits, [], i);
      assert PackBits(bits) + [] == PackBits(bits);
    }
  }

  /** Decoding recovers all four fields of a program with fewer than 128 jump-table entries. */
  lemma ProgramRoundTrip(p: Program, rest: seq<byte>)
    requires Encodable(p) && |p.jumpTable| < 128
    ensures DecodedProgram(EncodedProgram(p) + rest) == Some(p)
  {
    hide NatDecode, NatEncode, Number, PackBits, PackedBit, EntryBytes, EntriesAt, AfterEntries, ProgramHeader, Slice, Drop, Unpacked, EntriesFit;
    var h := ProgramHeader(p);
    var t := EntryBytes(p.jumpTable, p.z);
    var bits := PackBits(p.bitmask);
    var s := EncodedProgram(p) + rest;
    assert s == h + (t + p.code + bits + rest);
    HeaderBack(p, t + p.code + bits + rest);
    assert s == h + t + (p.code + bits + rest);
    EntriesBack(h, p.jumpTable, p.z, p.code + bits + rest);
    SlicesBack(h + t, p.code, bits, rest);
    BitmaskBack(p.bitmask);
  }

  // ------------------------------------------------------------ tables of 128 entries and more

  /** Byte i of a buffer; past its end Python's cut-off slices read as zero. */
  function ByteAt(s: seq<byte>, i: nat): byte
  {
    if i < |s| then s[i] else 0
  }

  lemma {:induction false} ShortNumber(t: seq<byte>, z: nat, j: nat)
    requires |t| <= z && j < z
    ensures ToLe(FromLe(t), z)[j] == if j < |t| then t[j] else 0
  {
    if t == [] {
      ZeroBytes(z, j);
    } else if j > 0 {
      ShortNumber(t[1..], z - 1, j - 1);
    }
  }

  lemma {:induction false} ZeroBytes(z: nat, j: nat)
    requires j < z
    ensures ToLe(0, z)[j] == 0
  {
    if j > 0 {
      ZeroBytes(z - 1, j - 1);
    }
  }

  /** Numbers of z bytes that are equal have equal bytes. */
  lemma SameNumberBytes(s: seq<byte>, a: nat, b: nat, z: nat, j: nat)
    requires Number(s, a, z) == Number(s, b, z) && j < z
    ensures ByteAt(s, a + j) == ByteAt(s, b + j)
  {
    hide ToLe, FromLe;
    ShortNumber(Slice(s, a, z), z, j);
    ShortNumber(Slice(s, b, z), z, j);
  }

  /** A table that reads the same d bytes further on has the same bytes there. */
  lemma {:induction false} SameEntriesBytes(s: seq<byte>, a: nat, d: nat, z: nat, n: nat)
    requires EntriesAt(s, a, z, n) == EntriesAt(s, a + d, z, n)
    ensures AfterEntries(a + d, z, n) == AfterEntries(a, z, n) + d
    ensures forall x: nat :: a <= x < AfterEntries(a, z, n) ==> ByteAt(s, x) == ByteAt(s, x + d)
    decreases n
  {
    hide Number;
    if n > 0 {
      var x, y := EntriesAt(s, a, z, n), EntriesAt(s, a + d, z, n);
      assert x[0] == y[0] && x[1..] == y[1..];
      assert a + d + z == a + z + d;
      SameEntriesBytes(s, a + z, d, z, n - 1);
      forall x: nat | a <= x < AfterEntries(a, z, n)
        ensures ByteAt(s, x) == ByteAt(s, x + d)
      {
        if x < a + z {
          SameNumberBytes(s, a, a + d, z, x - a);
        }
      }
    }
  }

  /** What repeats at a distance to the end of a buffer is zero. */
  lemma {:induction false} RepeatsAreZero(s: seq<byte>, lo: nat, d: nat, i: nat)
    requires d > 0 && i >= lo
    requires forall k: nat :: lo <= k < |s| ==> ByteAt(s, k) == ByteAt(s, k + d)
    ensures ByteAt(s, i) == 0
    decreases if i < |s| then |s| - i else 0
  {
    if i < |s| {
      RepeatsAreZero(s, lo, d, i + d);
    }
  }

  lemma {:induction false} NoBitsNoByte(bits: seq<bool>)
    requires forall i: nat :: i < |bits| ==> !bits[i]
    ensures FromBits(bits) == 0
  {
    if bits != [] {
      NoBitsNoByte(bits[1..]);
    }
  }

  /** Byte k of packed bits. */
  lemma {:induction false} PackedByteIs(bits: seq<bool>, k: nat)
    requires k < (|bits| + 7) / 8
    ensures PackBits(bits)[k] == FromBits(bits[8 * k..if 8 * k + 8 <= |bits| then 8 * k + 8 else |bits|])
    decreases |bits|
  {
    hide FromBits;
    if |bits| < 8 {
      assert bits[0..|bits|] == bits;
    } else if k == 0 {
    } else {
      PackedByteIs(bits[8..], k - 1);
      var top := if 8 * k + 8 <= |bits| then 8 * k + 8 else |bits|;
      assert bits[8..][8 * (k - 1)..top - 8] == bits[8 * k..top];
    }
  }

  /** If unpacking from t gives the packed bits, t has their bytes wherever it is long enough for whole
      bytes, and where t has ended the packed byte is zero. */
  lemma PackedBytesRepeat(bits: seq<bool>, t: seq<byte>, k: nat)
    requires Unpacked(t, |bits|) == bits && k < (|bits| + 7) / 8
    requires k < |t| ==> 8 * k + 8 <= |bits|
    ensures PackBits(bits)[k] == ByteAt(t, k)
  {
    hide FromBits, PackBits, Bit, Unpacked, PackedBit, Low, Pow2;
    var top := if 8 * k + 8 <= |bits| then 8 * k + 8 else |bits|;
    var part := bits[8 * k..top];
    PackedByteIs(bits, k);
    forall j: nat | j < |part|
      ensures part[j] == (k < |t| && Bit(t[k], j))
    {
      UnpackedBit(bits, t, k, j);
    }
    if k < |t| {
      FromBitsOfWord(part, t[k]);
      Pow2Values();
      LowSmall(t[k], 8);
    } else {
      NoBitsNoByte(part);
    }
  }

  lemma UnpackedBit(bits: seq<bool>, t: seq<byte>, k: nat, j: nat)
    requires Unpacked(t, |bits|) == bits && j < 8 && 8 * k + j < |bits|
    ensures bits[8 * k + j] == (k < |t| && Bit(t[k], j))
  {
    hide Bit;
    assert (8 * k + j) / 8 == k && (8 * k + j) % 8 == j;
    assert Unpacked(t, |bits|)[8 * k + j] == PackedBit(t, 8 * k + j);
  }

  /** The bytes after the header: table, code, bitmask. */
  function Payload(p: Program): seq<byte>
  {
    EntryBytes(p.jumpTable, p.z) + p.code + PackBits(p.bitmask)
  }

  /** Everything that follows the three header fields, read from `base` on, is as in p. */
  predicate ReadsAs(s: seq<byte>, base: nat, p: Program)
  {
    var at := AfterEntries(base, p.z, |p.jumpTable|);
    var n := |p.code|;
    && EntriesAt(s, base, p.z, |p.jumpTable|) == p.jumpTable
    && Slice(s, at, n) == p.code
    && Unpacked(Slice(s, at + n, (n + 7) / 8), n) == p.bitmask
  }

  lemma PayloadParts(front: seq<byte>, p: Program)
    requires EntriesFit(p.jumpTable, p.z)
    ensures var s, b, n := front + Payload(p), |front|, |p.code|;
            var at := AfterEntries(b, p.z, |p.jumpTable|);
            && EntriesAt(s, b, p.z, |p.jumpTable|) == p.jumpTable
            && at >= b && |s| == at + n + (n + 7) / 8
            && s[at..at + n] == p.code && s[at + n..] == PackBits(p.bitmask)
  {
    hide EntryBytes, EntriesAt, AfterEntries, PackBits, EntriesFit;
    var t := EntryBytes(p.jumpTable, p.z);
    var s := front + Payload(p);
    assert s == front + t + (p.code + PackBits(p.bitmask));
    EntriesBack(front, p.jumpTable, p.z, p.code + PackBits(p.bitmask));
    assert s == (front + t) + p.code + PackBits(p.bitmask);
  }

  /** A payload that reads the same d bytes further on repeats at that distance to the end. */
  lemma PayloadRepeats(front: seq<byte>, p: Program, d: nat, x: nat)
    requires EntriesFit(p.jumpTable, p.z) && d > 0 && ReadsAs(front + Payload(p), |front| + d, p)
    requires |front| <= x < |front + Payload(p)|
    ensures ByteAt(front + Payload(p), x) == ByteAt(front + Payload(p), x + d)
  {
    hide EntriesAt, AfterEntries, PackBits, EntriesFit, Payload, PackedBit;
    var s, b, n := front + Payload(p), |front|, |p.code|;
    PayloadParts(front, p);
    SameEntriesBytes(s, b, d, p.z, |p.jumpTable|);
    var at := AfterEntries(b, p.z, |p.jumpTable|);
    if x >= at {
      if x < at + n {
        CodeRepeats(s, at, d, n, p.code, x);
      } else {
        BitsRepeat(s, at + n, d, p.bitmask, x);
      }
    }
  }

  lemma CodeRepeats(s: seq<byte>, at: nat, d: nat, n: nat, code: seq<byte>, x: nat)
    requires n == |code| && at + n <= |s| && s[at..at + n] == code && Slice(s, at + d, n) == code && at <= x < at + n
    ensures ByteAt(s, x) == ByteAt(s, x + d)
  {
    assert at + d + n <= |s|;
    var k := x - at;
    assert s[at..at + n][k] == s[at + d..at + d + n][k];
  }

  lemma BitsRepeat(s: seq<byte>, at: nat, d: nat, bits: seq<bool>, x: nat)
    requires d > 0 && |s| == at + (|bits| + 7) / 8 && s[at..] == PackBits(bits) && at <= x < |s|
    requires Unpacked(Slice(s, at + d, (|bits| + 7) / 8), |bits|) == bits
    ensures ByteAt(s, x) == ByteAt(s, x + d)
  {
    hide PackBits, PackedBit;
    var t := Slice(s, at + d, (|bits| + 7) / 8);
    var k := x - at;
    assert s[at..][k] == s[x];
    PackedBytesRepeat(bits, t, k);
  }

  /** So all of it is zero. */
  lemma PayloadIsZero(front: seq<byte>, p: Program, d: nat, i: nat)
    requires EntriesFit(p.jumpTable, p.z) && d > 0 && ReadsAs(front + Payload(p), |front| + d, p) && i >= |front|
    ensures ByteAt(front + Payload(p), i) == 0
  {
    hide ReadsAs, Payload, EntriesFit;
    forall k: nat | |front| <= k < |front + Payload(p)|
      ensures ByteAt(front + Payload(p), k) == ByteAt(front + Payload(p), k + d)
    {
      PayloadRepeats(front, p, d, k);
    }
    RepeatsAreZero(front + Payload(p), |front|, d, i);
  }

  lemma OneByteRead(s: seq<byte>, a: nat)
    ensures Number(s, a, 1) == ByteAt(s, a)
  {
    assert FromLe([]) == 0;
    if a < |s| {
      assert s[a..a + 1] == [s[a]] && FromLe([s[a]]) == s[a];
    }
  }

  /** What decoding an encoded program back to itself takes, in parts. */
  lemma DecodedParts(p: Program) returns (a: nat, b: nat)
    requires Encodable(p) && DecodedProgram(EncodedProgram(p)) == Some(p)
    ensures var s := EncodedProgram(p);
            && s == ProgramHeader(p) + Payload(p)
            && NatDecode(s) == Some((|p.jumpTable|, a)) && ByteAt(s, a) == p.z
            && NatDecode(Drop(s, a + 1)) == Some((|p.code|, b))
            && ReadsAs(s, a + 1 + b, p)
  {
    hide NatDecode, Number, PackBits, PackedBit, EntryBytes, EntriesAt, AfterEntries, ProgramHeader, Slice, Drop, Unpacked, ByteAt, EntriesFit;
    var s := EncodedProgram(p);
    a := NatDecode(s).value.1;
    b := NatDecode(Drop(s, a + 1)).value.1;
    OneByteRead(s, a);
    assert s == ProgramHeader(p) + Payload(p);
  }

  /** The first bytes of an encoded program. */
  lemma FirstBytes(p: Program)
    requires Encodable(p)
    ensures var s, c := EncodedProgram(p), NatEncode(|p.code|);
            && |s| >= 2 + |c| && s[0] == |p.jumpTable| && s[1] == p.z && |ProgramHeader(p)| == 2 + |c|
            && forall i: nat :: i < |c| ==> s[2 + i] == c[i]
  {
    hide NatEncode, PackBits, EntryBytes, EntriesFit;
    OneByteNumber(|p.jumpTable|);
    OneByteNumber(p.z);
  }

  /** With 128 entries or more the length is read in two bytes or more, so what follows is read further
      on than it was written; were it the same, it would repeat to the end of the buffer and be zero,
      but the header's reader finds bytes in it that are not. Here with three bytes or more. */
  lemma LongTablesAreLost(p: Program)
    requires Encodable(p) && |p.jumpTable| >= 192
    ensures DecodedProgram(EncodedProgram(p)) != Some(p)
  {
    hide NatDecode, NatEncode, Payload, ReadsAs, EncodedProgram, DecodedProgram, EntriesFit, ProgramHeader, Drop;
    if DecodedProgram(EncodedProgram(p)) == Some(p) {
      var s := EncodedProgram(p);
      var a, b := DecodedParts(p);
      FirstBytes(p);
      SecondByteIsLow(s);
      FirstByteTells(|p.code|);
      SecondExtraIsZero(s);
      assert s[2 + 0] == NatEncode(|p.code|)[0];
      LongHeader(s, a);
      PayloadIsZero(ProgramHeader(p), p, a + 1 + b - 3, a);
      assert false;
    }
  }

  /** With two. */
  lemma MiddleTablesAreLost(p: Program)
    requires Encodable(p) && 128 <= |p.jumpTable| < 192
    ensures DecodedProgram(EncodedProgram(p)) != Some(p)
  {
    hide NatDecode, NatEncode, Payload, ReadsAs, EncodedProgram, DecodedProgram, EntriesFit, ProgramHeader;
    if DecodedProgram(EncodedProgram(p)) == Some(p) {
      var s := EncodedProgram(p);
      var a, b := DecodedParts(p);
      FirstBytes(p);
      FirstByteTells(|p.code|);
      OneExtra(s);
      assert s[2 + 0] == NatEncode(|p.code|)[0];
      assert s[2 + 1] == NatEncode(|p.code|)[1];
      assert Drop(s, 3)[0] == s[3];
      SecondByteIsLow(Drop(s, 3));
      LongHeader(Drop(s, 3), b);
      PayloadIsZero(ProgramHeader(p), p, a + 1 + b - 4, 4);
      assert false;
    }
  }

  lemma LongHeader(s: seq<byte>, size: nat)
    requires NatDecode(s).Some? && NatDecode(s).value.1 == size && s[0] >= 128
    ensures size >= 2 && (s[0] >= 192 ==> size >= 3)
  {
    TwoFollow(s[0]);
  }

  /** Decoding what was encoded gives a program back exactly when it has fewer than 128 entries. */
  lemma ProgramRoundTripExactly(p: Program)
    requires Encodable(p)
    ensures DecodedProgram(EncodedProgram(p)) == Some(p) <==> |p.jumpTable| < 128
  {
    hide EncodedProgram, DecodedProgram;
    if |p.jumpTable| < 128 {
      ProgramRoundTrip(p, []);
      assert EncodedProgram(p) + [] == EncodedProgram(p);
    } else if |p.jumpTable| < 192 {
      MiddleTablesAreLost(p);
    } else {
      LongTablesAreLost(p);
    }
  }
}
