/** The memory a program starts with: read-only data, writable data and heap, stack, arguments, and
    the registers that point at them. */
module MemoryLayout {
  import opened Words
  import opened FlatMemory
  import P = PagedMemory
  import Programs

  const ZONE := TWO16
  const DATA_SIZE := 0x100_0000

  const STACK_END := TWO32 - 2 * ZONE - DATA_SIZE
  const ARG_START := TWO32 - ZONE - DATA_SIZE

  // ------------------------------------------------------------ rounding

  /** Size rounded up to whole pages. */
  function TotalPageSize(n: nat): (r: nat)
    ensures n <= r < n + PAGE && r % PAGE == 0
  {
    (n + (PAGE - 1)) / PAGE * PAGE
  }

  /** Size rounded up to whole zones. */
  function TotalZoneSize(n: nat): (r: nat)
    ensures n <= r < n + ZONE && r % ZONE == 0
  {
    (n + (ZONE - 1)) / ZONE * ZONE
  }

  lemma ZonesArePages(n: nat)
    ensures TotalZoneSize(n) % PAGE == 0
  {
    var q := (n + (ZONE - 1)) / ZONE;
    assert TotalZoneSize(n) == q * 16 * PAGE;
  }

  function LastPageOf(start: nat, length: nat): nat
  {
    (start + (if length < 1 then 1 else length) - 1) / PAGE
  }

  /** range(lo, lo + n) */
  function Range(lo: nat, n: nat): (r: seq<nat>)
    ensures |r| == n && (n > 0 ==> r[n - 1] == lo + n - 1)
    ensures forall pg: nat :: pg in r <==> lo <= pg < lo + n
  {
    if n == 0 then [] else Range(lo, n - 1) + [lo + n - 1]
  }

  /** The pages of a range; an empty range still has the page of its start. */
  function GetPages(start: nat, length: nat): (pages: seq<nat>)
    ensures forall pg: nat :: pg in pages <==> start / PAGE <= pg <= LastPageOf(start, length)
    ensures |pages| > 0 && pages[|pages| - 1] == LastPageOf(start, length)
  {
    Range(start / PAGE, LastPageOf(start, length) - start / PAGE + 1)
  }

  // ------------------------------------------------------------ the layout

  /** Blobs within the widths the serialised code can hold, and arguments within their zone. */
  predicate Admissible(read: seq<byte>, write: seq<byte>, args: seq<byte>, z: nat, s: nat)
  {
    |read| < DATA_SIZE && |write| < DATA_SIZE && |args| <= DATA_SIZE && z < TWO16 && s < DATA_SIZE
  }

  /** A range of whole pages. */
  datatype Region = Region(start: nat, size: nat)

  predicate In(x: int, g: Region)
  {
    g.start <= x < g.start + g.size
  }

  /** Pages a range opens: at least one, even for no bytes. */
  function Opened(start: nat, size: nat): Region
  {
    Region(start, if size == 0 then PAGE else size)
  }

  function ReadRegion(read: seq<byte>): Region { Opened(ZONE, TotalPageSize(|read|)) }

  function WriteRegion(read: seq<byte>, write: seq<byte>, z: nat): Region
  {
    Opened(2 * ZONE + TotalZoneSize(|read|), TotalPageSize(|write|) + z * PAGE)
  }

  function StackRegion(s: nat): Region
    requires s < DATA_SIZE
  {
    Opened(STACK_END - TotalPageSize(s), TotalPageSize(s))
  }

  function ArgRegion(args: seq<byte>): Region { Opened(ARG_START, TotalPageSize(|args|)) }

  predicate PageAligned(g: Region)
  {
    g.start % PAGE == 0 && g.size % PAGE == 0 && g.size > 0
  }

  lemma SumAligned(a: int, b: int)
    requires a % PAGE == 0 && b % PAGE == 0
    ensures (a + b) % PAGE == 0 && (a - b) % PAGE == 0
  {}

  lemma RegionsAligned(read: seq<byte>, write: seq<byte>, args: seq<byte>, z: nat, s: nat)
    requires Admissible(read, write, args, z, s)
    ensures PageAligned(ReadRegion(read)) && PageAligned(WriteRegion(read, write, z))
    ensures PageAligned(StackRegion(s)) && PageAligned(ArgRegion(args))
  {
    hide TotalPageSize, TotalZoneSize;
    ZonesArePages(|read|);
    SumAligned(2 * ZONE, TotalZoneSize(|read|));
    SumAligned(TotalPageSize(|write|), z * PAGE);
    SumAligned(STACK_END, TotalPageSize(s));
  }

  /** The four regions lie one after the other, apart and inside the address space: for every blob. */
  lemma RegionsApart(read: seq<byte>, write: seq<byte>, args: seq<byte>, z: nat, s: nat)
    requires Admissible(read, write, args, z, s)
    ensures var r, w, k, a := ReadRegion(read), WriteRegion(read, write, z), StackRegion(s), ArgRegion(args);
            && r.start == 0x1_0000 && w.start == 0x2_0000 + (|read| + 0xFFFF) / 0x1_0000 * 0x1_0000
            && (s > 0 ==> k.start + k.size == 0xFEFE_0000) && a.start == 0xFEFF_0000 && r.start + r.size < w.start
            && w.start + w.size < k.start
            && k.start + k.size < a.start
            && a.start + a.size <= TWO32 - ZONE
  {}

  /** A page-aligned region and the pages of its range are the same addresses. */
  lemma PagesOfRegion(start: nat, size: nat, x: nat)
    requires start % PAGE == 0 && size % PAGE == 0
    ensures x / PAGE in GetPages(start, size) <==> In(x, Opened(start, size))
    ensures (LastPageOf(start, size) + 1) * PAGE == start + Opened(start, size).size
  {
    var n := if size < 1 then 1 else size;
    var last := (start + n - 1) / PAGE;
    assert start == start / PAGE * PAGE;
    assert (start + n - 1) == last * PAGE + (start + n - 1) % PAGE;
  }

  // ------------------------------------------------------------ the initial memory

  /** The byte every address starts with. */
  function InitialByte(read: seq<byte>, write: seq<byte>, args: seq<byte>, x: nat): byte
  {
    if ZONE <= x < ZONE + |read| then read[x - ZONE]
    else
      var w := 2 * ZONE + TotalZoneSize(|read|);
      if w <= x < w + |write| then write[x - w]
      else if ARG_START <= x < ARG_START + |args| then args[x - ARG_START]
      else 0
  }

  /** What the initial memory is, region by region: blob bytes or zero, read-only data and arguments
      readable, data, heap and stack writable, everything else closed, and the heap break right after
      the writable data. */
  ghost predicate IsInitial(m: Flat, read: seq<byte>, write: seq<byte>, args: seq<byte>, z: nat, s: nat)
    requires Admissible(read, write, args, z, s) && WellFormed(m)
  {
    var r, w, k, a := ReadRegion(read), WriteRegion(read, write, z), StackRegion(s), ArgRegion(args);
    && (forall x :: 0 <= x < TWO32 ==> m.bytes[x] == InitialByte(read, write, args, x))
    && (forall x :: Allowed(m, x, true) <==> In(x, w) || In(x, k))
    && (forall x :: Allowed(m, x, false) <==> In(x, r) || In(x, w) || In(x, k) || In(x, a))
    && m.heapBreak == w.start + w.size
  }

  /** Assignments of a blob's bytes to consecutive addresses. */
  function Placed(start: nat, blob: seq<byte>): (data: seq<(nat, byte)>)
    ensures |data| == |blob|
    ensures forall i: nat :: i < |blob| ==> data[i] == (start + i, blob[i])
  {
    seq(|blob|, i requires 0 <= i < |blob| => (start + i, blob[i]))
  }

  lemma {:induction false} LastOfPlaced(before: seq<(nat, byte)>, start: nat, blob: seq<byte>, n: nat, x: nat)
    requires n <= |blob|
    ensures P.LastOf(before + Placed(start, blob)[..n], x, 0)
         == if start <= x < start + n then blob[x - start] else P.LastOf(before, x, 0)
    decreases n
  {
    var data := before + Placed(start, blob)[..n];
    if n == 0 {
      assert data == before;
    } else {
      assert data[..|data| - 1] == before + Placed(start, blob)[..n - 1];
      LastOfPlaced(before, start, blob, n - 1, x);
    }
  }

  lemma PlacedBytes(read: seq<byte>, write: seq<byte>, args: seq<byte>, x: nat)
    requires |read| < DATA_SIZE && |write| < DATA_SIZE
    ensures var w := 2 * ZONE + TotalZoneSize(|read|);
            P.LastOf(Placed(ZONE, read) + Placed(w, write) + Placed(ARG_START, args), x, 0) == InitialByte(read, write, args, x)
  {
    hide P.LastOf, TotalZoneSize;
    var w := 2 * ZONE + TotalZoneSize(|read|);
    var a, b, c := Placed(ZONE, read), Placed(w, write), Placed(ARG_START, args);
    assert [] + a == a && a[..|a|] == a && b[..|b|] == b && c[..|c|] == c;
    LastOfPlaced([], ZONE, read, |read|, x);
    LastOfPlaced(a, w, write, |write|, x);
    LastOfPlaced(a + b, ARG_START, args, |args|, x);
    NothingPlaced(x);
  }

  lemma NothingPlaced(x: nat)
    ensures P.LastOf([], x, 0) == 0
  {}

  function ReadPages(read: seq<byte>, args: seq<byte>): seq<nat>
  {
    GetPages(ZONE, TotalPageSize(|read|)) + GetPages(ARG_START, TotalPageSize(|args|))
  }

  function DataPages(read: seq<byte>, write: seq<byte>, z: nat): (pages: seq<nat>)
    ensures pages != []
  {
    GetPages(2 * ZONE + TotalZoneSize(|read|), TotalPageSize(|write|) + z * PAGE)
  }

  function StackPages(s: nat): seq<nat>
    requires s < DATA_SIZE
  {
    GetPages(STACK_END - TotalPageSize(s), TotalPageSize(s))
  }

  lemma ReadPagesAre(read: seq<byte>, args: seq<byte>, x: nat)
    requires |read| < DATA_SIZE && |args| <= DATA_SIZE
    ensures x / PAGE in ReadPages(read, args) <==> In(x, ReadRegion(read)) || In(x, ArgRegion(args))
  {
    hide GetPages, In;
    PagesOfRegion(ZONE, TotalPageSize(|read|), x);
    PagesOfRegion(ARG_START, TotalPageSize(|args|), x);
  }

  lemma WritePagesAre(read: seq<byte>, write: seq<byte>, z: nat, s: nat, x: nat)
    requires |read| < DATA_SIZE && |write| < DATA_SIZE && s < DATA_SIZE
    ensures x / PAGE in DataPages(read, write, z) + StackPages(s) <==> In(x, WriteRegion(read, write, z)) || In(x, StackRegion(s))
  {
    hide GetPages, In;
    ZonesArePages(|read|);
    PagesOfRegion(2 * ZONE + TotalZoneSize(|read|), TotalPageSize(|write|) + z * PAGE, x);
    PagesOfRegion(STACK_END - TotalPageSize(s), TotalPageSize(s), x);
  }

  lemma HeapAfterData(read: seq<byte>, write: seq<byte>, z: nat)
    ensures var pages := DataPages(read, write, z);
            var w := WriteRegion(read, write, z);
            (pages[|pages| - 1] + 1) * PAGE == w.start + w.size
  {
    ZonesArePages(|read|);
    PagesOfRegion(2 * ZONE + TotalZoneSize(|read|), TotalPageSize(|write|) + z * PAGE, 0);
  }

  /** Loading the blobs with these pages gives the initial memory. */
  lemma LoadedIsInitial(read: seq<byte>, write: seq<byte>, args: seq<byte>, z: nat, s: nat)
    requires Admissible(read, write, args, z, s)
    ensures var w := WriteRegion(read, write, z);
            var data := Placed(ZONE, read) + Placed(2 * ZONE + TotalZoneSize(|read|), write) + Placed(ARG_START, args);
            IsInitial(P.Loaded(data, ReadPages(read, args), DataPages(read, write, z) + StackPages(s), w.start + w.size),
                      read, write, args, z, s)
  {
    hide P.LastOf, InitialByte, TotalZoneSize, TotalPageSize, GetPages, Placed, ReadPages, DataPages, StackPages,
         ReadRegion, WriteRegion, StackRegion, ArgRegion;
    RegionsApart(read, write, args, z, s);
    var data := Placed(ZONE, read) + Placed(2 * ZONE + TotalZoneSize(|read|), write) + Placed(ARG_START, args);
    var w := WriteRegion(read, write, z);
    var m := P.Loaded(data, ReadPages(read, args), DataPages(read, write, z) + StackPages(s), w.start + w.size);
    forall x | 0 <= x < TWO32
      ensures m.bytes[x] == InitialByte(read, write, args, x)
    {
      PlacedBytes(read, write, args, x);
    }
    forall x: int
      ensures Allowed(m, x, true) <==> In(x, w) || In(x, StackRegion(s))
      ensures Allowed(m, x, false) <==> In(x, ReadRegion(read)) || In(x, w) || In(x, StackRegion(s)) || In(x, ArgRegion(args))
    {
      if 0 <= x < TWO32 {
        ReadPagesAre(read, args, x);
        WritePagesAre(read, write, z, s, x);
      }
    }
  }

  /** Builds the initial memory from the blobs of a program and its arguments. */
  method FromPc(read: seq<byte>, write: seq<byte>, args: seq<byte>, z: nat, s: nat) returns (m: P.Memory)
    requires Admissible(read, write, args, z, s)
    ensures fresh(m) && m.Valid() && IsInitial(m.flat, read, write, args, z, s)
  {
    hide GetPages, TotalPageSize, TotalZoneSize, P.LastOf, IsInitial, Placed, In;
    var memory := Assignments([], ZONE, read);
    var readPages := GetPages(ZONE, TotalPageSize(|read|));
    var writeStart := 2 * ZONE + TotalZoneSize(|read|);
    var writePages := GetPages(writeStart, TotalPageSize(|write|) + z * PAGE);
    memory := Assignments(memory, writeStart, write);
    var heap := (writePages[|writePages| - 1] + 1) * PAGE;
    var stackPages := GetPages(TWO32 - 2 * ZONE - DATA_SIZE - TotalPageSize(s), TotalPageSize(s));
    writePages := writePages + stackPages;
    var argStart := TWO32 - ZONE - DATA_SIZE;
    readPages := readPages + GetPages(argStart, TotalPageSize(|args|));
    memory := Assignments(memory, argStart, args);
    HeapAfterData(read, write, z);
    LoadedIsInitial(read, write, args, z, s);
    assert [] + Placed(ZONE, read) == Placed(ZONE, read);
    m := new P.Memory(memory, readPages, writePages, heap);
  }

  /** memory[start + i] = blob[i], in order. */
  method Assignments(memory: seq<(nat, byte)>, start: nat, blob: seq<byte>) returns (r: seq<(nat, byte)>)
    ensures r == memory + Placed(start, blob)
  {
    r := memory;
    for i := 0 to |blob|
      invariant r == memory + Placed(start, blob)[..i]
    {
      assert Placed(start, blob)[..i + 1] == Placed(start, blob)[..i] + [(start + i, blob[i])];
      r := r + [(start + i, blob[i])];
    }
    assert Placed(start, blob)[..|blob|] == Placed(start, blob);
  }

  // ------------------------------------------------------------ the initial registers

  method RegsFromPc(args: seq<byte>) returns (regs: seq<nat>)
    ensures regs == InitialRegisters(args)
  {
    var result := new nat[13](_ => 0);
    result[0] := TWO32 - TWO16;
    result[1] := TWO32 - 2 * ZONE - DATA_SIZE;
    result[7] := TWO32 - ZONE - DATA_SIZE;
    result[8] := |args|;
    regs := result[..];
  }

  function InitialRegisters(args: seq<byte>): seq<nat>
  {
    [Programs.HALT_ADDRESS, STACK_END, 0, 0, 0, 0, 0, ARG_START, |args|, 0, 0, 0, 0]
  }

  lemma StackBelowRegister1(m: Flat, read: seq<byte>, write: seq<byte>, args: seq<byte>, z: nat, s: nat)
    requires Admissible(read, write, args, z, s) && WellFormed(m) && IsInitial(m, read, write, args, z, s) && s > 0
    ensures forall x :: STACK_END - s <= x < STACK_END ==> Allowed(m, x, true) && m.bytes[x] == 0
  {
    hide TotalPageSize, TotalZoneSize, Allowed;
    RegionsApart(read, write, args, z, s);
    forall x | STACK_END - s <= x < STACK_END
      ensures Allowed(m, x, true) && m.bytes[x] == 0
    {
      assert In(x, StackRegion(s));
      assert m.bytes[x] == InitialByte(read, write, args, x);
    }
  }

  /** Between the heap break and the arguments exactly the stack is writable. */
  lemma StackIsAllThatIsWritable(m: Flat, read: seq<byte>, write: seq<byte>, args: seq<byte>, z: nat, s: nat, x: int)
    requires Admissible(read, write, args, z, s) && WellFormed(m) && IsInitial(m, read, write, args, z, s)
    requires m.heapBreak <= x < ARG_START
    ensures Allowed(m, x, true) <==> In(x, StackRegion(s))
  {
    hide TotalPageSize, TotalZoneSize, Allowed;
    RegionsApart(read, write, args, z, s);
  }

  lemma ArgBytes(m: Flat, read: seq<byte>, write: seq<byte>, args: seq<byte>, z: nat, s: nat)
    requires Admissible(read, write, args, z, s) && WellFormed(m) && IsInitial(m, read, write, args, z, s)
    ensures forall x :: ARG_START <= x < ARG_START + |args| ==>
              Allowed(m, x, false) && !Allowed(m, x, true) && m.bytes[x] == args[x - ARG_START]
  {
    hide TotalPageSize, TotalZoneSize, Allowed;
    RegionsApart(read, write, args, z, s);
    forall x | ARG_START <= x < ARG_START + |args|
      ensures Allowed(m, x, false) && !Allowed(m, x, true) && m.bytes[x] == args[x - ARG_START]
    {
      assert In(x, ArgRegion(args));
      assert m.bytes[x] == InitialByte(read, write, args, x);
    }
  }

  lemma ArgsAtRegister7(m: Flat, read: seq<byte>, write: seq<byte>, args: seq<byte>, z: nat, s: nat)
    requires Admissible(read, write, args, z, s) && WellFormed(m) && IsInitial(m, read, write, args, z, s)
    ensures args != [] ==> Read(m, ARG_START, |args|) == Bytes(args)
    ensures forall x :: ARG_START <= x < ARG_START + |args| ==> !Allowed(m, x, true)
  {
    hide IsInitial, Allowed;
    ArgBytes(m, read, write, args, z, s);
    if args != [] {
      NoFault(m, ARG_START, |args|, false);
      assert m.bytes[ARG_START..ARG_START + |args|] == args;
    }
  }

  /** Register 0 is the return address that halts. Register 1 is the top of the stack: the bytes below it
      are zero down to the stack size, and between the heap break and the arguments exactly those down to
      that size in whole pages are writable, or, for no stack, the page from it on. Register 7 with length
      register 8 is the argument blob, readable and not writable. */
  lemma RegistersPointAtMemory(m: Flat, read: seq<byte>, write: seq<byte>, args: seq<byte>, z: nat, s: nat)
    requires Admissible(read, write, args, z, s) && WellFormed(m) && IsInitial(m, read, write, args, z, s)
    ensures var regs := InitialRegisters(args);
            && |regs| == 13 && regs[0] == 0xFFFF_0000 && regs[1] == 0xFEFE_0000 && regs[7] == 0xFEFF_0000 && regs[8] == |args|
            && (forall i: nat :: i < 13 && i != 0 && i != 1 && i != 7 && i != 8 ==> regs[i] == 0)
            && (forall x :: regs[1] - s <= x < regs[1] ==> Allowed(m, x, true) && m.bytes[x] == 0)
            && (forall x :: m.heapBreak <= x < regs[7] ==>
                  (Allowed(m, x, true) <==>
                   if s > 0 then regs[1] - TotalPageSize(s) <= x < regs[1] else regs[1] <= x < regs[1] + PAGE))
            && (args != [] ==> Read(m, regs[7], regs[8]) == Bytes(args))
            && (forall x :: regs[7] <= x < regs[7] + regs[8] ==> !Allowed(m, x, true))
  {
    hide IsInitial, Allowed, Read, TotalPageSize;
    forall x | m.heapBreak <= x < ARG_START
      ensures Allowed(m, x, true) <==> In(x, StackRegion(s))
    {
      StackIsAllThatIsWritable(m, read, write, args, z, s, x);
    }
    if s > 0 {
      StackBelowRegister1(m, read, write, args, z, s);
    }
    ArgsAtRegister7(m, read, write, args, z, s);
  }

  /** The break is writable memory's end: the byte before it is writable, the byte at it is closed. */
  lemma HeapBreakIsFirstClosed(m: Flat, read: seq<byte>, write: seq<byte>, args: seq<byte>, z: nat, s: nat)
    requires Admissible(read, write, args, z, s) && WellFormed(m) && IsInitial(m, read, write, args, z, s)
    ensures m.heapBreak % PAGE == 0 && Allowed(m, m.heapBreak - 1, true) && !Allowed(m, m.heapBreak, false)
  {
    hide TotalPageSize, TotalZoneSize, Allowed;
    RegionsApart(read, write, args, z, s);
    RegionsAligned(read, write, args, z, s);
  }

  /** By address: read-only data at 2^16, writable data at the next multiple of 2^16 that leaves a whole
      one free, then z pages of heap and the break, arguments at 0xFEFF0000. */
  lemma MemoryByAddress(m: Flat, read: seq<byte>, write: seq<byte>, args: seq<byte>, z: nat, s: nat)
    requires Admissible(read, write, args, z, s) && WellFormed(m) && IsInitial(m, read, write, args, z, s)
    ensures var w := 0x2_0000 + (|read| + 0xFFFF) / 0x1_0000 * 0x1_0000;
            var size := (|write| + 4095) / 4096 + z;
            && (forall i: nat :: i < |read| ==>
                  m.bytes[0x1_0000 + i] == read[i] && Allowed(m, 0x1_0000 + i, false) && !Allowed(m, 0x1_0000 + i, true))
            && (forall i: nat :: i < |write| ==> m.bytes[w + i] == write[i])
            && m.heapBreak == w + 4096 * (if size == 0 then 1 else size)
            && (forall x :: w <= x < m.heapBreak ==> Allowed(m, x, true))
            && (forall i: nat :: i < |args| ==> m.bytes[0xFEFF_0000 + i] == args[i] && Allowed(m, 0xFEFF_0000 + i, false))
  {
    hide Allowed;
    RegionsApart(read, write, args, z, s);
    var w := 0x2_0000 + (|read| + 0xFFFF) / 0x1_0000 * 0x1_0000;
    forall i: nat | i < |read|
      ensures m.bytes[0x1_0000 + i] == read[i] && Allowed(m, 0x1_0000 + i, false) && !Allowed(m, 0x1_0000 + i, true)
    {
      assert In(0x1_0000 + i, ReadRegion(read));
      assert m.bytes[0x1_0000 + i] == InitialByte(read, write, args, 0x1_0000 + i);
    }
    forall i: nat | i < |write|
      ensures m.bytes[w + i] == write[i]
    {
      assert m.bytes[w + i] == InitialByte(read, write, args, w + i);
    }
    ArgBytes(m, read, write, args, z, s);
    forall i: nat | i < |args|
      ensures m.bytes[0xFEFF_0000 + i] == args[i] && Allowed(m, 0xFEFF_0000 + i, false)
    {
      assert ARG_START + i - ARG_START == i;
      assert m.bytes[ARG_START + i] == args[ARG_START + i - ARG_START];
    }
    forall x | w <= x < m.heapBreak
      ensures Allowed(m, x, true)
    {
      assert In(x, WriteRegion(read, write, z));
    }
  }
}
