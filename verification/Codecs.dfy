/** Serialised code blobs and programs: the encoders write a buffer with a moving offset, the decoder
    slices it, and each is proved against a byte-level format whose round trips are proved here. */
module Codecs {
  import opened Words

  // ------------------------------------------------------------ buffers

  /** buffer[a : a + n] as Python slices it: cut off at the end. */
  function Slice(s: seq<byte>, a: nat, n: nat): (r: seq<byte>)
    ensures |r| <= n && (a + n <= |s| ==> r == s[a..a + n])
  {
    if a >= |s| then [] else if a + n <= |s| then s[a..a + n] else s[a..]
  }

  /** Little-endian number in n bytes at a, fewer at the end of the buffer. */
  function Number(s: seq<byte>, a: nat, n: nat): nat { FromLe(Slice(s, a, n)) }

  /** buffer[at : at + len(s)] = s, inside the buffer. */
  method Put(buffer: array<byte>, at: nat, s: seq<byte>)
    requires at + |s| <= buffer.Length
    modifies buffer
    ensures buffer[..] == old(buffer[..at]) + s + old(buffer[at + |s|..])
  {
    ghost var was := buffer[..];
    var k := 0;
    while k < |s|
      invariant k <= |s| && buffer[..] == was[..at] + s[..k] + was[at + k..]
    {
      buffer[at + k] := s[k];
      k := k + 1;
    }
    assert s[..k] == s;
  }

  /** Continues what has been written since `start`. */
  method Append(buffer: array<byte>, start: nat, at: nat, s: seq<byte>, ghost was: seq<byte>, ghost done: seq<byte>)
      returns (next: nat, ghost grown: seq<byte>)
    requires start <= at && at + |s| <= buffer.Length && |was| == buffer.Length && |done| == at - start
    requires buffer[..] == was[..start] + done + was[at..]
    modifies buffer
    ensures next == at + |s| && grown == done + s && |grown| == next - start
    ensures buffer[..] == was[..start] + grown + was[next..]
  {
    Put(buffer, at, s);
    next := at + |s|;
    grown := done + s;
    assert (was[..start] + done + was[at..])[..at] == was[..start] + done;
    assert (was[..start] + done + was[at..])[at + |s|..] == was[at + |s|..];
  }

  // ------------------------------------------------------------ code blobs

  datatype Code = Code(read: seq<byte>, rWrite: seq<byte>, code: seq<byte>, z: nat, s: nat)

  /** The widths the format has room for. */
  predicate Fits(c: Code)
  {
    |c.read| < 0x100_0000 && |c.rWrite| < 0x100_0000 && c.z < TWO16 && c.s < 0x100_0000 && |c.code| < TWO32
  }

  function EncodeSize(c: Code): nat
  {
    3 + 3 + 2 + 3 + |c.read| + |c.rWrite| + 4 + |c.code|
  }

  function EncodedCode(c: Code): (s: seq<byte>)
    ensures |s| == EncodeSize(c)
  {
    Header(c) + c.read + c.rWrite + ToLe(|c.code|, 4) + c.code
  }

  function Header(c: Code): (s: seq<byte>)
    ensures |s| == 11
  {
    ToLe(|c.read|, 3) + ToLe(|c.rWrite|, 3) + ToLe(c.z, 2) + ToLe(c.s, 3)
  }

  function DecodedCode(s: seq<byte>): Code
  {
    var o, w := Number(s, 0, 3), Number(s, 3, 3);
    var n := Number(s, 11 + o + w, 4);
    Code(Slice(s, 11, o), Slice(s, 11 + o, w), Slice(s, 15 + o + w, n), Number(s, 6, 2), Number(s, 8, 3))
  }

  method EncodeCode(c: Code, buffer: array<byte>, offset: nat) returns (size: nat)
    requires Fits(c) && offset + EncodeSize(c) <= buffer.Length
    modifies buffer
    ensures size == EncodeSize(c)
    ensures buffer[..] == old(buffer[..offset]) + EncodedCode(c) + old(buffer[offset + size..])
  {
    hide ToLe;
    ghost var was := buffer[..];
    var at := offset;
    ghost var done: seq<byte> := [];
    at, done := Append(buffer, offset, at, ToLe(|c.read|, 3), was, done);
    at, done := Append(buffer, offset, at, ToLe(|c.rWrite|, 3), was, done);
    at, done := Append(buffer, offset, at, ToLe(c.z, 2), was, done);
    at, done := Append(buffer, offset, at, ToLe(c.s, 3), was, done);
    assert done == Header(c);
    at, done := Append(buffer, offset, at, c.read, was, done);
    at, done := Append(buffer, offset, at, c.rWrite, was, done);
    at, done := Append(buffer, offset, at, ToLe(|c.code|, 4), was, done);
    at, done := Append(buffer, offset, at, c.code, was, done);
    size := at - offset;
  }

  method DecodeCode(s: seq<byte>) returns (c: Code)
    ensures c == DecodedCode(s)
  {
    hide FromLe;
    var offset := 0;
    var oLen := Number(s, offset, 3);
    offset := offset + 3;
    var wLen := Number(s, offset, 3);
    offset := offset + 3;
    var z := Number(s, offset, 2);
    offset := offset + 2;
    var stack := Number(s, offset, 3);
    offset := offset + 3;
    var o := Slice(s, offset, oLen);
    offset := offset + oLen;
    var w := Slice(s, offset, wLen);
    offset := offset + wLen;
    var cLen := Number(s, offset, 4);
    offset := offset + 4;
    c := Code(o, w, Slice(s, offset, cLen), z, stack);
  }

  /** A number that fits reads back. */
  lemma NumberBack(s: seq<byte>, a: nat, n: nat, v: nat)
    requires a + n <= |s| && s[a..a + n] == ToLe(v, n) && v < Pow2(8 * n)
    ensures Number(s, a, n) == v
  {
    LeRoundTrip(v, n);
  }

  lemma BytePowers()
    ensures Pow2(16) == TWO16 && Pow2(24) == 0x100_0000 && Pow2(32) == TWO32
  {
    Pow2Values();
    Pow2Add(16, 8);
  }

  lemma HeaderParts(c: Code)
    ensures var h := Header(c);
            h[..3] == ToLe(|c.read|, 3) && h[3..6] == ToLe(|c.rWrite|, 3) && h[6..8] == ToLe(c.z, 2) && h[8..11] == ToLe(c.s, 3)
  {
    hide ToLe;
  }

  /** Where each part of the format lies. */
  lemma CodeLayout(c: Code)
    requires Fits(c)
    ensures var s := EncodedCode(c);
            var o, w := |c.read|, |c.rWrite|;
            && s[0..3] == ToLe(o, 3) && s[3..6] == ToLe(w, 3) && s[6..8] == ToLe(c.z, 2) && s[8..11] == ToLe(c.s, 3)
            && s[11..11 + o] == c.read && s[11 + o..11 + o + w] == c.rWrite
            && s[11 + o + w..15 + o + w] == ToLe(|c.code|, 4) && s[15 + o + w..] == c.code
  {
    hide ToLe, Header;
    HeaderParts(c);
    var s, h := EncodedCode(c), Header(c);
    assert s[..11] == h;
    assert s[0..3] == h[..3] && s[3..6] == h[3..6] && s[6..8] == h[6..8] && s[8..11] == h[8..11];
  }

  /** Decoding what was encoded gives the blob back, whatever follows it in the buffer. */
  lemma CodeRoundTrip(c: Code, rest: seq<byte>)
    requires Fits(c)
    ensures DecodedCode(EncodedCode(c) + rest) == c
  {
    hide ToLe, FromLe, Number, Pow2, Header;
    BytePowers();
    HeaderParts(c);
    var s := EncodedCode(c) + rest;
    var o, w := |c.read|, |c.rWrite|;
    var h := Header(c);
    assert s[..11] == h;
    assert s[0..3] == h[..3] && s[3..6] == h[3..6] && s[6..8] == h[6..8] && s[8..11] == h[8..11];
    NumberBack(s, 0, 3, o);
    NumberBack(s, 3, 3, w);
    NumberBack(s, 6, 2, c.z);
    NumberBack(s, 8, 3, c.s);
    assert s[11..11 + o] == c.read;
    assert s[11 + o..11 + o + w] == c.rWrite;
    assert s[11 + o + w..15 + o + w] == ToLe(|c.code|, 4);
    NumberBack(s, 11 + o + w, 4, |c.code|);
    assert s[15 + o + w..15 + o + w + |c.code|] == c.code;
  }

  lemma NumberBytes(s: seq<byte>, a: nat, n: nat)
    requires a + n <= |s|
    ensures ToLe(Number(s, a, n), n) == s[a..a + n] && Number(s, a, n) < Pow2(8 * n)
  {
    LeRoundTripBytes(s[a..a + n]);
  }

  /** The buffer holds everything its length fields promise. */
  predicate Complete(s: seq<byte>)
  {
    |s| >= 11
    && var o, w := Number(s, 0, 3), Number(s, 3, 3);
       |s| >= 15 + o + w && |s| >= 15 + o + w + Number(s, 11 + o + w, 4)
  }

  /** Encoding what was decoded from a complete buffer gives the buffer's bytes back. */
  lemma CodeDecodeEncode(s: seq<byte>)
    requires Complete(s)
    ensures var c := DecodedCode(s);
            Fits(c) && EncodeSize(c) <= |s| && EncodedCode(c) == s[..EncodeSize(c)]
  {
    hide ToLe, FromLe, Number, Pow2;
    BytePowers();
    var c := DecodedCode(s);
    var o, w := Number(s, 0, 3), Number(s, 3, 3);
    var n := Number(s, 11 + o + w, 4);
    NumberBytes(s, 0, 3);
    NumberBytes(s, 3, 3);
    NumberBytes(s, 6, 2);
    NumberBytes(s, 8, 3);
    NumberBytes(s, 11 + o + w, 4);
    assert Header(c) == s[..11];
    assert c.read == s[11..11 + o] && c.rWrite == s[11 + o..11 + o + w] && c.code == s[15 + o + w..15 + o + w + n];
  }
}
