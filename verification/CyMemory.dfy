/** The C memory: permission bits in 64-bit words, page ranges computed in 32-bit arithmetic, and
    reads and writes that check the whole range before copying. It is proved against the same flat
    memory as the paged one. */
module CyMemory {
  import opened Words
  import opened Wrappers
  import opened FlatMemory
  import opened WordMasks
  import P = PagedMemory

  const WORDS := 16384

  // ------------------------------------------------------------ page ranges

  /** First page and page count of a range, as 32-bit arithmetic gives them. */
  function FirstOf(start: nat): nat { start / PAGE }

  function CountOf(start: nat, length: nat): (n: nat)
    ensures n < TWO32
  {
    ((start + length - 1) % TWO32 / PAGE - start / PAGE + 1) % TWO32
  }

  /** The i-th page the loops visit. */
  function Visited(first: nat, i: nat): (pg: nat)
    ensures pg < TWO32
  {
    (first + i) % TWO32
  }

  lemma RangeInside(start: nat, length: nat)
    requires length > 0 && start + length <= TWO32
    ensures CountOf(start, length) == LastPage(start, length) - start / PAGE + 1
    ensures start / PAGE + CountOf(start, length) <= MAX_PAGES
  {}

  /** A range that runs past 2^32 has a count that wraps to more pages than there are. */
  lemma RangePastEnd(start: nat, length: nat)
    requires start < TWO32 && 0 < length < TWO31 && start + length > TWO32
    ensures start / PAGE + CountOf(start, length) > MAX_PAGES
  {
    var end := start + length - 1 - TWO32;
    assert (start + length - 1) % TWO32 == end;
  }

  /** Page permission with pages past the address space closed. */
  ghost predicate PageAllowed(m: Flat, pg: nat, write: bool)
    requires WellFormed(m)
  {
    pg < MAX_PAGES && (m.w[pg] || (!write && m.r[pg]))
  }

  ghost predicate AllVisited(m: Flat, first: nat, count: nat, write: bool)
    requires WellFormed(m)
  {
    forall i: nat :: i < count ==> PageAllowed(m, Visited(first, i), write)
  }

  /** The page check succeeds exactly when every byte of the range may be accessed, also for ranges
      past 2^32, where the wrapped page count makes it fail. */
  lemma CheckIsExact(m: Flat, a: nat, n: nat, write: bool)
    requires WellFormed(m) && a < TWO32 && 0 < n < TWO31
    ensures AllVisited(m, FirstOf(a), CountOf(a, n), write) <==> FirstFault(m, a, n, write) == None
  {
    hide FirstFault, CountOf;
    FaultInRange(m, a, n, write);
    if a + n <= TWO32 {
      RangeInside(a, n);
      CheckInside(m, a, n, write);
    } else {
      RangePastEnd(a, n);
      var i := MAX_PAGES - FirstOf(a);
      assert Visited(FirstOf(a), i) == MAX_PAGES;
      assert !AllVisited(m, FirstOf(a), CountOf(a, n), write);
    }
  }

  /** Ranges of 2^31 bytes and more reach only `is_accessible`. One that comes round to its own first
      page is judged by that page alone, one that comes round to the page before it by none. */
  lemma LongCheckIsExact(m: Flat, a: nat, n: nat, write: bool)
    requires WellFormed(m) && a < TWO32 && 0 < n < TWO32
    ensures AllVisited(m, FirstOf(a), CountOf(a, n), write)
       <==> if a + n <= TWO32 || WrappedLast(a, n) < FirstOf(a) - 1 then FirstFault(m, a, n, write) == None
            else if WrappedLast(a, n) == FirstOf(a) then PageAllowed(m, FirstOf(a), write) else true
  {
    hide FirstFault;
    FaultInRange(m, a, n, write);
    var first := FirstOf(a);
    if a + n <= TWO32 {
      RangeInside(a, n);
      CheckInside(m, a, n, write);
    } else {
      var end := a + n - 1 - TWO32;
      assert (a + n - 1) % TWO32 == end;
      var last := end / PAGE;
      CountPastEnd(first, last);
      if last == first {
        assert AllVisited(m, first, 1, write) <==> PageAllowed(m, Visited(first, 0), write);
      } else if last < first - 1 {
        assert Visited(first, MAX_PAGES - first) == MAX_PAGES;
      }
    }
  }

  lemma CheckInside(m: Flat, a: nat, n: nat, write: bool)
    requires WellFormed(m) && 0 < n && a + n <= TWO32
    requires CountOf(a, n) == LastPage(a, n) - a / PAGE + 1 && a / PAGE + CountOf(a, n) <= MAX_PAGES
    ensures AllVisited(m, FirstOf(a), CountOf(a, n), write) <==> forall x :: a <= x < a + n ==> Allowed(m, x, write)
  {
    hide CountOf;
    var first, count := FirstOf(a), CountOf(a, n);
    if AllVisited(m, first, count, write) {
      forall x | a <= x < a + n
        ensures Allowed(m, x, write)
      {
        assert Visited(first, x / PAGE - first) == x / PAGE;
      }
    }
    if forall x :: a <= x < a + n ==> Allowed(m, x, write) {
      forall i: nat | i < count
        ensures PageAllowed(m, Visited(first, i), write)
      {
        var x := if i == 0 then a else (first + i) * PAGE;
        assert x / PAGE == first + i == Visited(first, i);
        assert Allowed(m, x, write);
      }
    }
  }

  // ------------------------------------------------------------ specification of the operations

  /** Reads like the flat memory, but a refused read reports the start of the range. */
  ghost function ReadOrStart(m: Flat, a: nat, n: int): Fetched
    requires WellFormed(m)
  {
    if n > 0 && FirstFault(m, a, n, false).Some? then Fault(a) else FlatMemory.Read(m, a, n)
  }

  /** Writes all of the data, or changes nothing and reports the start of the range. */
  ghost function WriteAllOrNothing(m: Flat, a: nat, data: seq<byte>): (r: (Flat, Option<int>))
    requires WellFormed(m) && a < TWO32
    ensures WellFormed(r.0)
  {
    if FirstFault(m, a, |data|, true).Some? then (m, Some(a)) else FlatMemory.Write(m, a, data)
  }

  /** A write stores the data over exactly its range, or faults and changes nothing; it goes through
      exactly when every byte of the range may be written, which no range past 2^32 can. */
  lemma WriteIsAtomic(m: Flat, a: nat, data: seq<byte>)
    requires WellFormed(m) && a < TWO32 && data != []
    ensures var (m', fault) := WriteAllOrNothing(m, a, data);
            && (fault == None <==> forall x :: a <= x < a + |data| ==> Allowed(m, x, true))
            && (fault == None ==> a + |data| <= TWO32 && m' == m.(bytes := m'.bytes))
            && (fault == None ==> forall x :: 0 <= x < TWO32 ==>
                  m'.bytes[x] == if a <= x < a + |data| then data[x - a] else m.bytes[x])
            && (fault != None ==> m' == m && fault == Some(a))
            && (a + |data| > TWO32 ==> fault != None)
  {
    FaultInRange(m, a, |data|, true);
    assert a % TWO32 == a;
  }

  /** Page pg is among the count pages visited from `first` on, which wrap at 2^32. */
  predicate IsVisited(pg: nat, first: nat, count: nat)
  {
    (pg - first) % TWO32 < count
  }

  ghost function AlterVisited(m: Flat, first: nat, count: nat, access: Access): (m': Flat)
    requires WellFormed(m)
    ensures WellFormed(m')
  {
    m.(r := seq(MAX_PAGES, i requires 0 <= i < MAX_PAGES => if IsVisited(i, first, count) then access == READ else m.r[i]),
       w := seq(MAX_PAGES, i requires 0 <= i < MAX_PAGES => if IsVisited(i, first, count) then access == WRITE else m.w[i]))
  }

  /** The page of the last byte of a range that runs past 2^32, wrapped. */
  function WrappedLast(start: nat, length: nat): nat
    requires length > 0 && start + length > TWO32
  {
    (start + length - 1 - TWO32) / PAGE
  }

  /** The pages the loops visit for a range past 2^32: those from its first page up and those from 0 to
      its wrapped last one, unless it comes round to its own first page (one page is visited) or to the
      page before it (none is). */
  lemma VisitedPastEnd(start: nat, length: nat, pg: nat)
    requires start < TWO32 && 0 < length < TWO32 && start + length > TWO32 && pg < MAX_PAGES
    ensures var first, last := FirstOf(start), WrappedLast(start, length);
            last <= first
            && (IsVisited(pg, first, CountOf(start, length))
                <==> if last == first then pg == first else if last == first - 1 then false else pg >= first || pg <= last)
  {
    var end := start + length - 1 - TWO32;
    assert (start + length - 1) % TWO32 == end;
    var first, last := FirstOf(start), end / PAGE;
    CountPastEnd(first, last);
  }

  lemma CountPastEnd(first: nat, last: nat)
    requires last <= first < MAX_PAGES
    ensures (last as int - first + 1) % TWO32
         == if last == first then 1 else if last == first - 1 then 0 else TWO32 - (first - 1 - last)
  {}

  /** Pages that one of the two memories alters and the other does not. */
  predicate Differs(pg: nat, start: nat, length: nat)
  {
    var first := FirstOf(start);
    if length == 0 then
      if start == 0 then pg != 0 else start % PAGE == 0 && pg == first
    else if start + length <= TWO32 then false
    else
      var last := WrappedLast(start, length);
      if last == first then pg > first
      else if last == first - 1 then pg >= first
      else pg <= last
  }

  lemma DiffersExactly(start: nat, length: nat, pg: nat)
    requires start < TWO32 && length < TWO32 && pg < MAX_PAGES
    ensures Differs(pg, start, length) <==> IsVisited(pg, FirstOf(start), CountOf(start, length)) != InPages(pg, start, length)
  {
    var first, count := FirstOf(start), CountOf(start, length);
    if length == 0 {
      EmptyCount(start);
    } else if start + length <= TWO32 {
      RangeInside(start, length);
    } else {
      VisitedPastEnd(start, length, pg);
      assert LastPage(start, length) >= MAX_PAGES;
    }
  }

  lemma EmptyCount(start: nat)
    requires start < TWO32
    ensures CountOf(start, 0) == if start == 0 then MAX_PAGES else if start % PAGE == 0 then 0 else 1
  {}

  /** For every range, empty or wrapping, the C memory alters as the paged one does exactly when each page
      that only one of them touches has the permission already. */
  lemma AlterExactly(m: Flat, start: nat, length: nat, access: Access)
    requires WellFormed(m) && start < TWO32 && length < TWO32
    ensures AlterVisited(m, FirstOf(start), CountOf(start, length), access) == Alter(m, start, length, access)
       <==> forall pg: nat :: pg < MAX_PAGES && Differs(pg, start, length) ==> HasAlready(m, pg, access)
  {
    hide CountOf, IsVisited, InPages, Differs;
    var first, count := FirstOf(start), CountOf(start, length);
    var v, f := AlterVisited(m, first, count, access), Alter(m, start, length, access);
    forall pg: nat | pg < MAX_PAGES
      ensures (v.r[pg] == f.r[pg] && v.w[pg] == f.w[pg]) <==> (Differs(pg, start, length) ==> HasAlready(m, pg, access))
    {
      DiffersExactly(start, length, pg);
    }
    if forall pg: nat :: pg < MAX_PAGES && Differs(pg, start, length) ==> HasAlready(m, pg, access) {
      assert v.r == f.r && v.w == f.w;
    }
  }

  predicate HasAlready(m: Flat, pg: nat, access: Access)
    requires WellFormed(m) && pg < MAX_PAGES
  {
    m.r[pg] == (access == READ) && m.w[pg] == (access == WRITE)
  }

  /** For non-empty ranges inside the address space they alter the same pages. */
  lemma AlterInside(m: Flat, start: nat, length: nat, access: Access)
    requires WellFormed(m) && start < TWO32 && 0 < length < TWO32 && start + length <= TWO32
    ensures AlterVisited(m, FirstOf(start), CountOf(start, length), access) == Alter(m, start, length, access)
  {
    hide CountOf, IsVisited, InPages;
    AlterExactly(m, start, length, access);
  }

  /** Ranges for which both touch the same pages: non-empty ones inside the address space, empty ones off
      page boundaries, and those that go round from the last page to itself. */
  predicate SamePages(start: nat, length: nat)
  {
    if length == 0 then start % PAGE != 0
    else start + length <= TWO32 || FirstOf(start) == WrappedLast(start, length) == MAX_PAGES - 1
  }

  /** All pages closed. */
  ghost function Closed(): (m: Flat)
    ensures WellFormed(m) && forall pg: nat :: pg < MAX_PAGES ==> !m.r[pg] && !m.w[pg]
  {
    FlatMem(seq(TWO32, _ => 0), seq(MAX_PAGES, _ => false), seq(MAX_PAGES, _ => false), 0)
  }

  /** The two memories alter alike, whatever the memory holds and whatever the permission, exactly for
      those ranges. */
  lemma AlterAgrees(start: nat, length: nat)
    requires start < TWO32 && length < TWO32
    ensures SamePages(start, length)
       <==> forall m: Flat, access: Access | WellFormed(m) ::
              AlterVisited(m, FirstOf(start), CountOf(start, length), access) == Alter(m, start, length, access)
  {
    hide AlterVisited, Alter, Differs, CountOf, FirstOf, SamePages;
    NothingDiffers(start, length);
    if SamePages(start, length) {
      forall m: Flat, access: Access | WellFormed(m)
        ensures AlterVisited(m, FirstOf(start), CountOf(start, length), access) == Alter(m, start, length, access)
      {
        AlterExactly(m, start, length, access);
      }
    } else {
      var pg: nat :| pg < MAX_PAGES && Differs(pg, start, length);
      var m := Closed();
      AlterExactly(m, start, length, READ);
      assert !HasAlready(m, pg, READ);
    }
  }

  lemma NothingDiffers(start: nat, length: nat)
    requires start < TWO32 && length < TWO32
    ensures (forall pg: nat :: pg < MAX_PAGES ==> !Differs(pg, start, length)) <==> SamePages(start, length)
  {
    if length == 0 && start == 0 {
      assert Differs(1, start, length);
    } else if length == 0 {
      assert start % PAGE == 0 ==> Differs(FirstOf(start), start, length);
    } else if start + length > TWO32 {
      var first, last := FirstOf(start), WrappedLast(start, length);
      VisitedPastEnd(start, length, 0);
      if last == first {
        assert first + 1 < MAX_PAGES ==> Differs(first + 1, start, length);
      } else if last == first - 1 {
        assert Differs(first, start, length);
      } else {
        assert Differs(0, start, length);
      }
    }
  }

  // ------------------------------------------------------------ the class

  /** A range inside one page, by offsets. */
  lemma InOnePage(a: nat, n: nat, x: nat)
    requires a % PAGE + n <= PAGE
    ensures a <= x < a + n <==> x / PAGE == a / PAGE && a % PAGE <= x % PAGE < a % PAGE + n
    ensures x / PAGE == a / PAGE ==> x % PAGE - a % PAGE == x - a
  {}

  class Memory {
    var pages: map<nat, array<byte>>
    const rBits: array<nat>
    const wBits: array<nat>
    var heapBreak: nat

    /** The flat memory this one stands for. */
    ghost var flat: Flat

    ghost function Stored(): set<object>
      reads this
    {
      set pg | pg in pages :: pages[pg] as object
    }

    ghost predicate Shape()
      reads this, rBits, wBits
    {
      && rBits.Length == WORDS && wBits.Length == WORDS && rBits != wBits
      && (forall pg :: pg in pages ==> pages[pg].Length == PAGE)
      && (forall p, q :: p in pages && q in pages && p != q ==> pages[p] != pages[q])
      && WellFormed(flat) && heapBreak == flat.heapBreak
    }

    /** A bit for every page: word pg / 64, bit pg % 64. */
    ghost predicate BitsSound()
      requires Shape()
      reads this, rBits, wBits
    {
      && (forall i :: 0 <= i < WORDS ==> rBits[i] < Pow2(64) && wBits[i] < Pow2(64))
      && (forall pg: nat :: pg < MAX_PAGES ==> flat.r[pg] == PageBit(rBits[..], pg))
      && (forall pg: nat :: pg < MAX_PAGES ==> flat.w[pg] == PageBit(wBits[..], pg))
    }

    ghost predicate Represents()
      requires Shape()
      reads this, rBits, wBits, Stored()
    {
      forall x :: 0 <= x < TWO32 ==>
        flat.bytes[x] == if x / PAGE in pages then pages[x / PAGE][x % PAGE] else 0
    }

    ghost predicate Valid()
      reads this, rBits, wBits, Stored()
    {
      Shape() && BitsSound() && Represents()
    }

    /** All bits clear, then one bit for each allowed page, then the data byte by byte. */
    constructor (data: seq<(nat, byte)>, allowedRead: seq<nat>, allowedWrite: seq<nat>, heap: nat)
      requires forall i :: 0 <= i < |data| ==> data[i].0 < TWO32
      ensures Valid() && fresh(rBits) && fresh(wBits) && fresh(Stored())
      ensures flat == P.Loaded(data, allowedRead, allowedWrite, heap)
    {
      rBits := new nat[WORDS](_ => 0);
      wBits := new nat[WORDS](_ => 0);
      pages := map[];
      heapBreak := heap;
      flat := P.Loaded([], [], [], heap);
      new;
      AllClear();
      for i := 0 to |allowedRead|
        invariant Valid() && pages == map[]
        invariant flat == P.Loaded([], allowedRead[..i], [], heap)
      {
        SetAccess(allowedRead[i], false, true);
        AllowedNext(allowedRead, [], heap, i, false);
      }
      assert allowedRead[..|allowedRead|] == allowedRead;
      for i := 0 to |allowedWrite|
        invariant Valid() && pages == map[]
        invariant flat == P.Loaded([], allowedRead, allowedWrite[..i], heap)
      {
        SetAccess(allowedWrite[i], true, true);
        AllowedNext(allowedWrite, allowedRead, heap, i, true);
      }
      assert allowedWrite[..|allowedWrite|] == allowedWrite;
      for i := 0 to |data|
        invariant Valid() && fresh(Stored())
        invariant flat == P.Loaded(data[..i], allowedRead, allowedWrite, heap)
      {
        SetByte(data[i].0, data[i].1);
        LoadedNext(data, allowedRead, allowedWrite, heap, i);
      }
      assert data[..|data|] == data;
    }

    lemma AllClear()
      requires Shape() && Represents()
      requires flat.r == seq(MAX_PAGES, _ => false) && flat.w == seq(MAX_PAGES, _ => false)
      requires forall i :: 0 <= i < WORDS ==> rBits[i] == 0 && wBits[i] == 0
      ensures Valid()
    {
      forall pg: nat | pg < MAX_PAGES
        ensures !PageBit(rBits[..], pg) && !PageBit(wBits[..], pg)
      {
        BitOfZero(pg % 64);
      }
      Pow2Values();
    }

    method SetByte(addr: nat, value: byte)
      requires Valid() && addr < TWO32
      modifies this`pages, this`flat, Stored()
      ensures Valid() && fresh(Stored() - old(Stored()))
      ensures flat == Put(old(flat), addr, [value])
    {
      var page := PageFor(addr / PAGE);
      Poke(addr, [value]);
    }

    method ZeroMemoryRange(startPage: nat, numPages: nat)
      requires Valid() && startPage < TWO32 && numPages < TWO32
      modifies this`pages, this`flat, Stored()
      ensures Valid() && fresh(Stored() - old(Stored()))
      ensures flat == ZeroPages(old(flat), startPage, if startPage + numPages < TWO32 then numPages else 0)
    {
      ghost var m := flat;
      SameFlat(m, ZeroPages(m, startPage, 0));
      var end := (startPage + numPages) % TWO32;
      if end <= startPage {
        return;
      }
      for pg := startPage to end
        invariant Valid() && fresh(Stored() - old(Stored()))
        invariant flat == ZeroPages(m, startPage, pg - startPage)
      {
        ZeroPage(pg);
        SameFlat(flat, ZeroPages(m, startPage, pg + 1 - startPage));
      }
    }

    method ZeroPage(pg: nat)
      requires Valid()
      modifies this`pages, this`flat, Stored()
      ensures Valid() && fresh(Stored() - old(Stored()))
      ensures flat == ZeroPages(old(flat), pg, 1)
    {
      hide Bit, Pow2;
      var page := PageFor(pg);
      forall i | 0 <= i < PAGE {
        page[i] := 0;
      }
      flat := ZeroPages(flat, pg, 1);
    }

    /** May page pg be accessed? */
    method HasAccess(pg: nat, write: bool) returns (ok: bool)
      requires Valid()
      ensures ok == PageAllowed(flat, pg, write)
    {
      hide Pow2, Bitwise, Bit;
      if pg >= MAX_PAGES {
        return false;
      }
      var word, bit := pg / 64, pg % 64;
      TestBit(wBits[word], bit);
      TestBit(Bitwise(Or, rBits[word], wBits[word], 64), bit);
      BitwiseBit(Or, rBits[word], wBits[word], 64, bit);
      if write {
        ok := Bitwise(And, wBits[word], Mask(bit), 64) != 0;
      } else {
        ok := Bitwise(And, Bitwise(Or, rBits[word], wBits[word], 64), Mask(bit), 64) != 0;
      }
    }

    /** Sets or clears one page's bit in one of the two sets. */
    method SetAccess(pg: nat, write: bool, value: bool)
      requires Valid()
      modifies this`flat, rBits, wBits
      ensures Valid()
      ensures flat == if pg >= MAX_PAGES then old(flat)
                      else if write then old(flat).(w := old(flat).w[pg := value])
                      else old(flat).(r := old(flat).r[pg := value])
    {
      hide Pow2, Bitwise, Bit, Not;
      if pg >= MAX_PAGES {
        return;
      }
      var bits := if write then wBits else rBits;
      SetPageBit(bits, pg, value);
      flat := if write then flat.(w := flat.w[pg := value]) else flat.(r := flat.r[pg := value]);
    }

    static method SetPageBit(bits: array<nat>, pg: nat, value: bool)
      requires bits.Length == WORDS && pg < MAX_PAGES
      requires forall i :: 0 <= i < WORDS ==> bits[i] < Pow2(64)
      modifies bits
      ensures forall i :: 0 <= i < WORDS ==> bits[i] < Pow2(64)
      ensures forall q: nat :: q < MAX_PAGES ==> PageBit(bits[..], q) == if q == pg then value else PageBit(old(bits[..]), q)
    {
      hide Pow2, Bitwise, Bit, Not;
      var word, bit := pg / 64, pg % 64;
      ghost var was := bits[..];
      WordOps(bits[word], bit);
      NotFits(Mask(bit));
      if value {
        bits[word] := Bitwise(Or, bits[word], Mask(bit), 64);
      } else {
        bits[word] := Bitwise(And, bits[word], Not(Mask(bit), 64), 64);
      }
      forall q: nat | q < MAX_PAGES
        ensures PageBit(bits[..], q) == if q == pg then value else PageBit(was, q)
      {
        if q / 64 == word {
          assert (q == pg) == (q % 64 == bit);
          assert Bit(bits[word], q % 64) == if q % 64 == bit then value else Bit(was[word], q % 64);
        }
      }
    }

    /** Sets one page bit for every visited page. */
    method SetAccessRange(first: nat, count: nat, write: bool, value: bool)
      requires Valid() && count < TWO32
      modifies this`flat, rBits, wBits
      ensures Valid() && flat == WithBits(old(flat), first, count, write, value)
    {
      ghost var m := flat;
      WithNoBits(m, first, write, value);
      for i := 0 to count
        invariant Valid() && flat == WithBits(m, first, i, write, value)
      {
        SetAccess((first + i) % TWO32, write, value);
        WithNextBit(m, first, i, write, value);
      }
    }

    /** Fails on the first visited page that is closed. */
    method CheckAccess(first: nat, count: nat, write: bool) returns (ok: bool)
      requires Valid()
      ensures ok == AllVisited(flat, first, count, write)
    {
      for i := 0 to count
        invariant forall j: nat :: j < i ==> PageAllowed(flat, Visited(first, j), write)
      {
        var allowed := HasAccess((first + i) % TWO32, write);
        if !allowed {
          assert !PageAllowed(flat, Visited(first, i), write);
          return false;
        }
        assert PageAllowed(flat, Visited(first, i), write);
      }
      ok := true;
    }

    method AlterAccessibility(start: nat, length: nat, access: Access)
      requires Valid() && start < TWO32 && length < TWO32
      modifies this`flat, rBits, wBits
      ensures Valid() && flat == AlterVisited(old(flat), FirstOf(start), CountOf(start, length), access)
    {
      hide Pow2, Bit;
      ghost var m := flat;
      var first, count := FirstOf(start), CountOf(start, length);
      if access == WRITE {
        SetAccessRange(first, count, true, true);
        SetAccessRange(first, count, false, false);
      } else if access == READ {
        SetAccessRange(first, count, false, true);
        SetAccessRange(first, count, true, false);
      } else {
        SetAccessRange(first, count, false, false);
        SetAccessRange(first, count, true, false);
      }
      BothBits(m, flat, first, count, access);
    }

    method IsAccessible(address: nat, length: nat, write: bool) returns (ok: bool)
      requires Valid() && address < TWO32 && length < TWO32
      ensures ok <==> length == 0 || AllVisited(flat, FirstOf(address), CountOf(address, length), write)
    {
      if length == 0 {
        return true;
      }
      ok := CheckAccess(FirstOf(address), CountOf(address, length), write);
    }

    /** The stored page, made and zero-filled if it is missing. */
    method PageFor(pg: nat) returns (page: array<byte>)
      requires Valid()
      modifies this`pages
      ensures Valid() && pg in pages && pages[pg] == page
      ensures forall p :: p in old(pages) ==> p in pages && pages[p] == old(pages[p])
      ensures Stored() == old(Stored()) + {page} && fresh(Stored() - old(Stored()))
    {
      if pg in pages {
        page := pages[pg];
      } else {
        page := new byte[PAGE](_ => 0);
        pages := pages[pg := page];
      }
    }

    // ---------------------------------------------------------------- read

    /** Checks every page of the range, then copies page by page; pages never written read as zeros. */
    method Read(address: nat, length: int) returns (r: Fetched)
      requires Valid() && address < TWO32 && length < TWO31
      ensures r == ReadOrStart(flat, address, length)
    {
      hide FirstFault, CountOf, Visited, AllVisited, Bit, Pow2;
      if length <= 0 {
        return Bytes([]);
      }
      CheckIsExact(flat, address, length, false);
      var ok := CheckAccess(FirstOf(address), CountOf(address, length), false);
      if !ok {
        return Fault(address);
      }
      FaultInRange(flat, address, length, false);
      var out := CopyOut(address, length);
      r := Bytes(out);
    }

    method CopyOut(address: nat, length: nat) returns (s: seq<byte>)
      requires Valid() && address + length <= TWO32
      ensures s == flat.bytes[address..address + length]
    {
      hide Bit, Pow2;
      s := [];
      var cur, copied, remaining := address, 0, length;
      while remaining > 0
        invariant 0 <= copied && 0 <= remaining && copied + remaining == length
        invariant cur == address + copied && |flat.bytes| == TWO32
        invariant s == flat.bytes[address..cur]
      {
        var off := cur % PAGE;
        var chunk := if PAGE - off > remaining then remaining else PAGE - off;
        var part := PagePart(cur, chunk);
        Joined(flat.bytes, address, cur, cur + chunk);
        s := s + part;
        copied := copied + chunk;
        remaining := remaining - chunk;
        cur := cur + chunk;
      }
    }

    /** The part of one page, or zeros where no page is stored. */
    method PagePart(cur: nat, chunk: nat) returns (s: seq<byte>)
      requires Valid() && cur % PAGE + chunk <= PAGE && cur + chunk <= TWO32
      ensures s == flat.bytes[cur..cur + chunk]
    {
      var pg, off := cur / PAGE, cur % PAGE;
      PageSlice(cur, chunk);
      if pg in pages {
        s := pages[pg][off..off + chunk];
      } else {
        s := seq(chunk, _ => 0);
      }
    }

    lemma PageSlice(a: nat, n: nat)
      requires Valid() && a % PAGE + n <= PAGE && a + n <= TWO32
      ensures flat.bytes[a..a + n]
           == if a / PAGE in pages then pages[a / PAGE][a % PAGE..a % PAGE + n] else seq(n, _ => 0)
    {
      var s := if a / PAGE in pages then pages[a / PAGE][a % PAGE..a % PAGE + n] else seq(n, _ => 0);
      forall i | 0 <= i < n
        ensures flat.bytes[a + i] == s[i]
      {
        assert (a + i) / PAGE == a / PAGE && (a + i) % PAGE == a % PAGE + i;
      }
      assert flat.bytes[a..a + n] == s;
    }

    // ---------------------------------------------------------------- write

    /** Checks every page of the range, then copies page by page. */
    method Write(address: nat, data: seq<byte>) returns (fault: Option<int>)
      requires Valid() && address < TWO32 && |data| < TWO31
      modifies this`pages, this`flat, Stored()
      ensures Valid() && fresh(Stored() - old(Stored()))
      ensures (flat, fault) == WriteAllOrNothing(old(flat), address, data)
    {
      hide FirstFault, CountOf, Visited, AllVisited, Bit, Pow2;
      fault := None;
      ghost var m := flat;
      if data == [] {
        FaultInRange(m, address, 0, true);
        SameFlat(m, Put(m, address, []));
        return;
      }
      CheckIsExact(flat, address, |data|, true);
      var ok := CheckAccess(FirstOf(address), CountOf(address, |data|), true);
      if !ok {
        return Some(address);
      }
      FaultInRange(flat, address, |data|, true);
      CopyIn(address, data);
    }

    method CopyIn(address: nat, data: seq<byte>)
      requires Valid() && address + |data| <= TWO32
      modifies this`pages, this`flat, Stored()
      ensures Valid() && fresh(Stored() - old(Stored()))
      ensures flat == Put(old(flat), address, data)
    {
      hide BitsSound, Bit, Pow2;
      ghost var m := flat;
      var cur, copied, remaining := address, 0, |data|;
      SameFlat(m, Put(m, address, data[..0]));
      while remaining > 0
        invariant Valid() && fresh(Stored() - old(Stored()))
        invariant 0 <= copied && 0 <= remaining && copied + remaining == |data| && cur == address + copied
        invariant flat == Put(m, address, data[..copied])
      {
        var off := cur % PAGE;
        var chunk := if PAGE - off > remaining then remaining else PAGE - off;
        CopyChunk(cur, data[copied..copied + chunk]);
        P.PutPut(m, address, data, copied, chunk);
        copied := copied + chunk;
        remaining := remaining - chunk;
        cur := cur + chunk;
      }
      assert data[..copied] == data;
    }

    method CopyChunk(a: nat, data: seq<byte>)
      requires Valid() && a + |data| <= TWO32 && a % PAGE + |data| <= PAGE
      modifies this`pages, this`flat, Stored()
      ensures Valid() && fresh(Stored() - old(Stored()))
      ensures flat == Put(old(flat), a, data)
    {
      var page := PageFor(a / PAGE);
      Poke(a, data);
    }

    /** memcpy into one stored page. */
    method Poke(a: nat, data: seq<byte>)
      requires Valid() && a + |data| <= TWO32
      requires a / PAGE in pages && a % PAGE + |data| <= PAGE
      modifies this`flat, pages[a / PAGE]
      ensures Valid()
      ensures flat == Put(old(flat), a, data)
    {
      hide Pow2, Bit;
      var page, off := pages[a / PAGE], a % PAGE;
      forall i | 0 <= i < |data| {
        page[off + i] := data[i];
      }
      flat := Put(flat, a, data);
      forall x | 0 <= x < TWO32
        ensures flat.bytes[x] == if x / PAGE in pages then pages[x / PAGE][x % PAGE] else 0
      {
        InOnePage(a, |data|, x);
        if a <= x < a + |data| {
          assert page[off + (x - a)] == data[x - a];
        }
      }
    }
  }

  // ------------------------------------------------------------ facts about ranges of bits

  /** One permission set with a value on every visited page. */
  ghost function WithBits(m: Flat, first: nat, count: nat, write: bool, value: bool): (m': Flat)
    requires WellFormed(m)
    ensures WellFormed(m')
  {
    if write then
      m.(w := seq(MAX_PAGES, i requires 0 <= i < MAX_PAGES => if IsVisited(i, first, count) then value else m.w[i]))
    else
      m.(r := seq(MAX_PAGES, i requires 0 <= i < MAX_PAGES => if IsVisited(i, first, count) then value else m.r[i]))
  }

  lemma Joined(s: seq<byte>, a: nat, b: nat, c: nat)
    requires a <= b <= c <= |s|
    ensures s[a..b] + s[b..c] == s[a..c]
  {}

  lemma WithNoBits(m: Flat, first: nat, write: bool, value: bool)
    requires WellFormed(m)
    ensures WithBits(m, first, 0, write, value) == m
  {
    var v := WithBits(m, first, 0, write, value);
    assert v.r == m.r && v.w == m.w;
  }

  lemma VisitedNext(pg: nat, first: nat, i: nat)
    requires pg < MAX_PAGES && i < TWO32
    ensures IsVisited(pg, first, i + 1) <==> IsVisited(pg, first, i) || pg == Visited(first, i)
  {}

  lemma WithNextBit(m: Flat, first: nat, i: nat, write: bool, value: bool)
    requires WellFormed(m) && i < TWO32
    ensures var pg := Visited(first, i);
            var n := WithBits(m, first, i, write, value);
            WithBits(m, first, i + 1, write, value)
              == if pg >= MAX_PAGES then n else if write then n.(w := n.w[pg := value]) else n.(r := n.r[pg := value])
  {
    hide IsVisited, Visited;
    var pg := Visited(first, i);
    var n := WithBits(m, first, i, write, value);
    var v := WithBits(m, first, i + 1, write, value);
    var t := if pg >= MAX_PAGES then n else if write then n.(w := n.w[pg := value]) else n.(r := n.r[pg := value]);
    forall q: nat | q < MAX_PAGES
      ensures v.w[q] == t.w[q] && v.r[q] == t.r[q]
    {
      VisitedNext(q, first, i);
    }
    assert v.w == t.w && v.r == t.r;
  }

  lemma AllowedNext(allowed: seq<nat>, read: seq<nat>, heap: nat, i: nat, write: bool)
    requires i < |allowed|
    ensures var m := if write then P.Loaded([], read, allowed[..i], heap) else P.Loaded([], allowed[..i], [], heap);
            var n := if write then P.Loaded([], read, allowed[..i + 1], heap) else P.Loaded([], allowed[..i + 1], [], heap);
            var pg := allowed[i];
            n == if pg >= MAX_PAGES then m else if write then m.(w := m.w[pg := true]) else m.(r := m.r[pg := true])
  {
    assert allowed[..i + 1] == allowed[..i] + [allowed[i]];
    var pg := allowed[i];
    var m := if write then P.Loaded([], read, allowed[..i], heap) else P.Loaded([], allowed[..i], [], heap);
    var n := if write then P.Loaded([], read, allowed[..i + 1], heap) else P.Loaded([], allowed[..i + 1], [], heap);
    var t := if pg >= MAX_PAGES then m else if write then m.(w := m.w[pg := true]) else m.(r := m.r[pg := true]);
    assert n.r == t.r && n.w == t.w && n.bytes == t.bytes;
  }

  lemma LoadedNext(data: seq<(nat, byte)>, read: seq<nat>, write: seq<nat>, heap: nat, i: nat)
    requires i < |data| && data[i].0 < TWO32
    ensures P.Loaded(data[..i + 1], read, write, heap) == Put(P.Loaded(data[..i], read, write, heap), data[i].0, [data[i].1])
  {
    assert data[..i + 1] == data[..i] + [data[i]];
    SameFlat(P.Loaded(data[..i + 1], read, write, heap), Put(P.Loaded(data[..i], read, write, heap), data[i].0, [data[i].1]));
  }

  lemma BothBits(m: Flat, m': Flat, first: nat, count: nat, access: Access)
    requires WellFormed(m)
    requires m' == WithBits(WithBits(m, first, count, true, access == WRITE), first, count, false, access == READ)
          || m' == WithBits(WithBits(m, first, count, false, access == READ), first, count, true, access == WRITE)
    ensures m' == AlterVisited(m, first, count, access)
  {
    hide IsVisited;
    var v := AlterVisited(m, first, count, access);
    assert m'.r == v.r && m'.w == v.w;
  }

  /** Bit pg of a set kept in 64-bit words. */
  predicate PageBit(bits: seq<nat>, pg: nat)
    requires |bits| == WORDS && pg < MAX_PAGES
  {
    Bit(bits[pg / 64], pg % 64)
  }
}
