/** The recompiler's context block: the bytes stored just below guest memory, where the jump table
    and the saved registers sit, and how they are read back. */
module VmContext {
  import opened Words
  import opened Wrappers

  const REGISTERS := 13

  // Field positions, counted back from the start of guest memory.
  const HEAP_START_OFFSET := -4
  const RET_STACK_OFFSET := HEAP_START_OFFSET - 8
  const RET_ADD_OFFSET := RET_STACK_OFFSET - 8
  const GAS_OFFSET := RET_ADD_OFFSET - 8
  const REGS_OFFSET := GAS_OFFSET - 8 * REGISTERS
  const JUMP_LEN_OFFSET := REGS_OFFSET - 8

  datatype ContextData = ContextData(jumpTable: seq<nat>, regs: seq<nat>, gas: nat, retAddr: nat, retStack: nat, heapStart: nat)

  type Context = c: ContextData | |c.regs| == REGISTERS
    witness ContextData([], [0, 0, 0, 0, 0, 0, 0, 0, 0, 0, 0, 0, 0], 0, 0, 0, 0)

  function CalculateSize(jumpLen: nat): nat
  {
    jumpLen * 8 + 8 + REGISTERS * 8 + 8 + 8 + 8 + 4
  }

  // ------------------------------------------------------------ bytes of a context

  /** An array of 64-bit words; larger values keep their low 64 bits. */
  function WordBytes(vs: seq<nat>): (s: seq<byte>)
    ensures |s| == 8 * |vs|
  {
    if vs == [] then [] else ToLe(vs[0], 8) + WordBytes(vs[1..])
  }

  /** The n words at the start of s. */
  function WordsOf(s: seq<byte>, n: nat): (vs: seq<nat>)
    requires 8 * n <= |s|
    ensures |vs| == n
  {
    if n == 0 then [] else [FromLe(s[..8])] + WordsOf(s[8..], n - 1)
  }

  function Encode(c: Context): (s: seq<byte>)
    ensures |s| == CalculateSize(|c.jumpTable|)
  {
    WordBytes(c.jumpTable) + ToLe(|c.jumpTable|, 8) + WordBytes(c.regs)
    + ToLe(c.gas, 8) + ToLe(c.retAddr, 8) + ToLe(c.retStack, 8) + ToLe(c.heapStart, 4)
  }

  /** Reads a context with a jump table of the given length; None when the stored length differs. */
  function Decode(s: seq<byte>, n: nat): Option<Context>
    requires |s| >= CalculateSize(n)
  {
    var t := 8 * n;
    if FromLe(s[t..t + 8]) != n then None
    else
      Some(ContextData(WordsOf(s, n), WordsOf(s[t + 8..], REGISTERS), FromLe(s[t + 112..t + 120]),
                       FromLe(s[t + 120..t + 128]), FromLe(s[t + 128..t + 136]), FromLe(s[t + 136..t + 140])))
  }

  /** The context with every field cut to its width. */
  function Cut(c: Context): Context
  {
    ContextData(CutAll(c.jumpTable), CutAll(c.regs), c.gas % TWO64, c.retAddr % TWO64, c.retStack % TWO64, c.heapStart % TWO32)
  }

  function CutAll(vs: seq<nat>): (r: seq<nat>)
    ensures |r| == |vs| && forall i :: 0 <= i < |vs| ==> r[i] == vs[i] % TWO64
  {
    seq(|vs|, i requires 0 <= i < |vs| => vs[i] % TWO64)
  }

  lemma {:induction false} FromToLe(v: nat, n: nat)
    ensures FromLe(ToLe(v, n)) == v % Pow2(8 * n)
  {
    if n > 0 {
      var s := ToLe(v, n);
      assert s[1..] == ToLe(v / 256, n - 1);
      FromToLe(v / 256, n - 1);
      Pow2Add(8, 8 * (n - 1));
      Pow2Values();
      SplitByte(v, Pow2(8 * (n - 1)));
    }
  }

  lemma SplitByte(v: nat, m: nat)
    requires m > 0
    ensures v % (256 * m) == v % 256 + 256 * (v / 256 % m)
  {
    var q, r := v / 256 / m, v / 256 % m;
    var low := v % 256;
    assert v == 256 * (q * m + r) + low;
    MulSwap(256, m, q);
    assert q * (256 * m) == 256 * (q * m) by {
      MulAssoc(q, 256, m);
      MulSwap(q, 256, m);
      assert q * 256 * m == q * m * 256;
    }
    DivModUnique(v, 256 * m, q, low + 256 * r);
  }

  lemma WordWidths(v: nat)
    ensures FromLe(ToLe(v, 8)) == v % TWO64 && FromLe(ToLe(v, 4)) == v % TWO32
  {
    FromToLe(v, 8);
    FromToLe(v, 4);
    Pow2Values();
  }

  lemma {:induction false} WordsRoundTrip(vs: seq<nat>, rest: seq<byte>)
    ensures WordsOf(WordBytes(vs) + rest, |vs|) == CutAll(vs)
  {
    hide FromLe, ToLe;
    if vs != [] {
      var s := WordBytes(vs) + rest;
      assert s[..8] == ToLe(vs[0], 8);
      assert s[8..] == WordBytes(vs[1..]) + rest;
      WordWidths(vs[0]);
      WordsRoundTrip(vs[1..], rest);
      assert CutAll(vs) == [vs[0] % TWO64] + CutAll(vs[1..]);
    }
  }

  /** A stored word is found at eight times its index. */
  lemma {:induction false} WordAt(vs: seq<nat>, rest: seq<byte>, k: nat)
    requires k < |vs|
    ensures FromLe((WordBytes(vs) + rest)[8 * k..8 * k + 8]) == vs[k] % TWO64
  {
    hide FromLe, ToLe;
    var s := WordBytes(vs) + rest;
    if k == 0 {
      assert s[8 * k..8 * k + 8] == ToLe(vs[0], 8);
      WordWidths(vs[0]);
    } else {
      WordAt(vs[1..], rest, k - 1);
      assert s[8 * k..8 * k + 8] == (WordBytes(vs[1..]) + rest)[8 * (k - 1)..8 * (k - 1) + 8];
    }
  }

  /** The bytes after the jump table. */
  function Fields(c: Context): (s: seq<byte>)
    ensures |s| == 140
  {
    ToLe(|c.jumpTable|, 8) + WordBytes(c.regs)
    + ToLe(c.gas, 8) + ToLe(c.retAddr, 8) + ToLe(c.retStack, 8) + ToLe(c.heapStart, 4)
  }

  /** Appending keeps the slices there were and ends with what was appended. */
  lemma Appended(s: seq<byte>, t: seq<byte>)
    ensures (s + t)[|s|..|s| + |t|] == t
    ensures forall i, j :: 0 <= i <= j <= |s| ==> (s + t)[i..j] == s[i..j]
  {
    assert (s + t)[|s|..] == t;
    forall i, j | 0 <= i <= j <= |s|
      ensures (s + t)[i..j] == s[i..j]
    {}
  }

  lemma FieldsAt(c: Context)
    ensures var s := Fields(c);
            && s[..8] == ToLe(|c.jumpTable|, 8) && s[8..112] == WordBytes(c.regs)
            && s[112..120] == ToLe(c.gas, 8) && s[120..128] == ToLe(c.retAddr, 8)
            && s[128..136] == ToLe(c.retStack, 8) && s[136..140] == ToLe(c.heapStart, 4)
  {
    hide WordBytes, ToLe;
    var f1 := ToLe(|c.jumpTable|, 8);
    var f2 := f1 + WordBytes(c.regs);
    var f3 := f2 + ToLe(c.gas, 8);
    var f4 := f3 + ToLe(c.retAddr, 8);
    var f5 := f4 + ToLe(c.retStack, 8);
    assert f1[..8] == f1;
    Appended(f1, WordBytes(c.regs));
    Appended(f2, ToLe(c.gas, 8));
    Appended(f3, ToLe(c.retAddr, 8));
    Appended(f4, ToLe(c.retStack, 8));
    Appended(f5, ToLe(c.heapStart, 4));
  }

  lemma TableThenFields(c: Context)
    ensures Encode(c) == WordBytes(c.jumpTable) + Fields(c)
  {
    hide WordBytes, ToLe;
  }

  /** The field of n bytes at a (negative) offset from the end of the block. */
  function FieldAt(s: seq<byte>, offset: int, n: nat): nat
    requires 0 <= |s| + offset && offset + n <= 0
  {
    FromLe(s[|s| + offset..|s| + offset + n])
  }

  lemma SliceOfSlice(s: seq<byte>, a: nat, b: nat, i: nat, j: nat)
    requires a <= b <= |s| && i <= j <= b - a
    ensures s[a..b][i..j] == s[a + i..a + j]
  {
    var u, v := s[a..b][i..j], s[a + i..a + j];
    assert |u| == |v| && forall k :: 0 <= k < |u| ==> u[k] == s[a + i + k] == v[k];
  }

  /** Counted from the start of guest memory, every field is at the same place for every length of
      the jump table; the table itself is at the front of the block. */
  lemma FieldsFromTheEnd(c: Context)
    ensures var s := Encode(c);
            && FieldAt(s, -140, 8) == |c.jumpTable| % TWO64
            && (forall i: nat :: i < 13 ==> FieldAt(s, -132 + 8 * i, 8) == c.regs[i] % TWO64)
            && FieldAt(s, -28, 8) == c.gas % TWO64
            && FieldAt(s, -20, 8) == c.retAddr % TWO64
            && FieldAt(s, -12, 8) == c.retStack % TWO64
            && FieldAt(s, -4, 4) == c.heapStart % TWO32
            && (forall k: nat :: k < |c.jumpTable| ==> FromLe(s[8 * k..8 * k + 8]) == c.jumpTable[k] % TWO64)
  {
    hide FromLe, ToLe, WordBytes, Encode, Fields;
    var s, f := Encode(c), Fields(c);
    TableThenFields(c);
    FieldsAt(c);
    FromTheEnd(WordBytes(c.jumpTable), f);
    forall i: nat | i < REGISTERS
      ensures FieldAt(s, REGS_OFFSET + 8 * i, 8) == c.regs[i] % TWO64
    {
      WordAt(c.regs, [], i);
      assert WordBytes(c.regs) + [] == WordBytes(c.regs);
      SliceOfSlice(f, 8, 112, 8 * i, 8 * i + 8);
      assert s[|s| + (REGS_OFFSET + 8 * i)..|s| + (REGS_OFFSET + 8 * i) + 8] == f[8 + 8 * i..16 + 8 * i];
    }
    forall k: nat | k < |c.jumpTable|
      ensures FromLe(s[8 * k..8 * k + 8]) == c.jumpTable[k] % TWO64
    {
      WordAt(c.jumpTable, f, k);
    }
    WordWidths(|c.jumpTable|);
    WordWidths(c.gas);
    WordWidths(c.retAddr);
    WordWidths(c.retStack);
    WordWidths(c.heapStart);
  }

  lemma FromTheEnd(t: seq<byte>, f: seq<byte>)
    requires |f| == 140
    ensures var s := t + f;
            && s[|s| + JUMP_LEN_OFFSET..|s| + JUMP_LEN_OFFSET + 8] == f[..8]
            && s[|s| + GAS_OFFSET..|s| + GAS_OFFSET + 8] == f[112..120]
            && s[|s| + RET_ADD_OFFSET..|s| + RET_ADD_OFFSET + 8] == f[120..128]
            && s[|s| + RET_STACK_OFFSET..|s| + RET_STACK_OFFSET + 8] == f[128..136]
            && s[|s| + HEAP_START_OFFSET..|s| + HEAP_START_OFFSET + 4] == f[136..140]
  {
    var s := t + f;
    assert forall i, j :: 0 <= i <= j <= 140 ==> s[|t| + i..|t| + j] == f[i..j];
  }

  /** Reading back what was stored gives the context, every field cut to its width; another table
      length is refused. */
  lemma RoundTrip(c: Context, rest: seq<byte>)
    requires |c.jumpTable| < TWO64
    ensures |Encode(c) + rest| >= CalculateSize(|c.jumpTable|)
    ensures Decode(Encode(c) + rest, |c.jumpTable|) == Some(Cut(c))
  {
    hide FromLe, ToLe, WordBytes, WordsOf, Encode, Fields;
    var f, n := Fields(c), |c.jumpTable|;
    var s, t := Encode(c) + rest, 8 * n;
    TableThenFields(c);
    FieldsAt(c);
    assert s == WordBytes(c.jumpTable) + (f + rest);
    WordsRoundTrip(c.jumpTable, f + rest);
    assert s[t + 8..] == WordBytes(c.regs) + (f[112..] + rest) by {
      assert s[t + 8..] == f[8..] + rest;
      assert f[8..] == f[8..112] + f[112..];
    }
    WordsRoundTrip(c.regs, f[112..] + rest);
    assert s[t..t + 8] == f[..8] && s[t + 112..t + 120] == f[112..120] && s[t + 120..t + 128] == f[120..128]
        && s[t + 128..t + 136] == f[128..136] && s[t + 136..t + 140] == f[136..140];
    WordWidths(n);
    WordWidths(c.gas);
    WordWidths(c.retAddr);
    WordWidths(c.retStack);
    WordWidths(c.heapStart);
  }

  // ------------------------------------------------------------ raw memory

  /** The mapping that holds the context block and, from `offset` on, guest memory. */
  class HostMemory {
    const bufStart: nat
    const offset: nat
    const buf: array<byte>

    ghost predicate Valid()
      reads this
    {
      bufStart <= offset <= bufStart + buf.Length
    }

    constructor (start: nat, guestOffset: nat, memory: array<byte>)
      requires start <= guestOffset <= start + memory.Length
      ensures bufStart == start && offset == guestOffset && buf == memory && Valid()
    {
      bufStart, offset, buf := start, guestOffset, memory;
    }

    /** Copies bytes to an address. */
    method Memmove(address: nat, s: seq<byte>)
      requires Valid() && bufStart <= address && address + |s| <= bufStart + buf.Length
      modifies buf
      ensures var at := address - bufStart;
              buf[..] == old(buf[..at]) + s + old(buf[at + |s|..])
    {
      var at := address - bufStart;
      ghost var was := buf[..];
      var k := 0;
      while k < |s|
        invariant k <= |s|
        invariant buf[..] == was[..at] + s[..k] + was[at + k..]
      {
        buf[at + k] := s[k];
        k := k + 1;
      }
      assert s[..k] == s;
    }

    /** Stores a context just below guest memory, field after field. */
    method Store(c: Context) returns (pointer: nat, size: nat)
      requires Valid() && CalculateSize(|c.jumpTable|) <= offset - bufStart
      modifies buf
      ensures size == CalculateSize(|c.jumpTable|) && pointer == offset - size
      ensures buf[..] == old(buf[..pointer - bufStart]) + Encode(c) + old(buf[offset - bufStart..])
    {
      hide ToLe, WordBytes, Fields, Encode;
      size := CalculateSize(|c.jumpTable|);
      pointer := offset - size;
      ghost var was := buf[..];
      ghost var done := StoreField(pointer, 0, WordBytes(c.jumpTable), was, []);
      done := StoreFields(pointer, c, was, done);
      TableThenFields(c);
    }

    /** Everything after the table. */
    method StoreFields(pointer: nat, c: Context, ghost was: seq<byte>, ghost done: seq<byte>) returns (ghost grown: seq<byte>)
      requires Valid() && bufStart <= pointer && pointer + 8 * |c.jumpTable| + 140 <= offset
      requires |was| == buf.Length && |done| == 8 * |c.jumpTable|
      requires buf[..] == was[..pointer - bufStart] + done + was[pointer - bufStart + |done|..]
      modifies buf
      ensures grown == done + Fields(c)
      ensures buf[..] == was[..pointer - bufStart] + grown + was[pointer - bufStart + |grown|..]
    {
      hide ToLe, WordBytes;
      var at := |c.jumpTable| * 8;
      grown := StoreField(pointer, at, ToLe(|c.jumpTable|, 8), was, done);
      at := at + 8;
      grown := StoreField(pointer, at, WordBytes(c.regs), was, grown);
      at := at + REGISTERS * 8;
      grown := StoreField(pointer, at, ToLe(c.gas, 8), was, grown);
      at := at + 8;
      grown := StoreField(pointer, at, ToLe(c.retAddr, 8), was, grown);
      at := at + 8;
      grown := StoreField(pointer, at, ToLe(c.retStack, 8), was, grown);
      at := at + 8;
      grown := StoreField(pointer, at, ToLe(c.heapStart, 4), was, grown);
    }

    /** One field at a moving offset: the block grows by it. */
    method StoreField(pointer: nat, at: nat, field: seq<byte>, ghost was: seq<byte>, ghost done: seq<byte>)
        returns (ghost grown: seq<byte>)
      requires Valid() && bufStart <= pointer && pointer + at + |field| <= offset
      requires |was| == buf.Length && |done| == at
      requires buf[..] == was[..pointer - bufStart] + done + was[pointer - bufStart + at..]
      modifies buf
      ensures grown == done + field && |grown| == at + |field|
      ensures buf[..] == was[..pointer - bufStart] + grown + was[pointer - bufStart + at + |field|..]
    {
      Memmove(pointer + at, field);
      grown := done + field;
      Append(was, pointer - bufStart, done, field, buf[..]);
    }

    /** The context at a pointer, if the table length stored there is the expected one. */
    method FromPointer(pointer: nat, jumpLen: nat) returns (r: Option<Context>)
      requires Valid() && bufStart <= pointer && pointer + CalculateSize(jumpLen) <= bufStart + buf.Length
      ensures r == Decode(buf[pointer - bufStart..], jumpLen)
    {
      hide FromLe;
      var s := buf[pointer - bufStart..];
      var table := ReadWords(s, jumpLen);
      var at := jumpLen * 8;
      if FromLe(s[at..at + 8]) != jumpLen {
        return None;
      }
      at := at + 8;
      var regs := ReadWords(s[at..], REGISTERS);
      at := at + REGISTERS * 8;
      var gas := FromLe(s[at..at + 8]);
      at := at + 8;
      var retAddr := FromLe(s[at..at + 8]);
      at := at + 8;
      var retStack := FromLe(s[at..at + 8]);
      at := at + 8;
      r := Some(ContextData(table, regs, gas, retAddr, retStack, FromLe(s[at..at + 4])));
    }
  }

  method ReadWords(s: seq<byte>, n: nat) returns (vs: seq<nat>)
    requires 8 * n <= |s|
    ensures vs == WordsOf(s, n)
  {
    hide FromLe;
    vs := [];
    var k := 0;
    while k < n
      invariant k <= n && |vs| == k
      invariant vs + WordsOf(s[8 * k..], n - k) == WordsOf(s, n)
    {
      assert s[8 * k..][..8] == s[8 * k..8 * k + 8];
      assert s[8 * k..][8..] == s[8 * (k + 1)..];
      vs := vs + [FromLe(s[8 * k..8 * k + 8])];
      k := k + 1;
    }
  }

  lemma Append(was: seq<byte>, p: nat, done: seq<byte>, field: seq<byte>, now: seq<byte>)
    requires p + |done| + |field| <= |was|
    requires var before := was[..p] + done + was[p + |done|..];
             now == before[..p + |done|] + field + before[p + |done| + |field|..]
    ensures now == was[..p] + (done + field) + was[p + |done| + |field|..]
  {}
}
