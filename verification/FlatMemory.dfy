/** The specification of guest memory: a flat map from addresses to bytes with one read bit and one
    write bit per page. No cache, no sparse pages: every byte's page is checked on every access. */
module FlatMemory {
  import opened Words
  import opened Wrappers

  const PAGE := 4096
  const MAX_PAGES := 0x10_0000

  datatype Access = READ | WRITE | NULL

  datatype Flat = FlatMem(bytes: seq<byte>, r: seq<bool>, w: seq<bool>, heapBreak: nat)

  predicate WellFormed(m: Flat)
  {
    |m.bytes| == TWO32 && |m.r| == MAX_PAGES && |m.w| == MAX_PAGES
  }

  /** Bytes read, or the address that faulted. */
  datatype Fetched = Bytes(data: seq<byte>) | Fault(addr: int)

  ghost predicate Allowed(m: Flat, x: int, write: bool)
    requires WellFormed(m)
  {
    var pg := x / PAGE;
    0 <= pg < MAX_PAGES && (m.w[pg] || (!write && m.r[pg]))
  }

  /** The least address of [a, a+n) that may not be accessed. */
  ghost function FirstFault(m: Flat, a: int, n: nat, write: bool): Option<int>
    requires WellFormed(m)
    decreases n
  {
    if n == 0 then None
    else if !Allowed(m, a, write) then Some(a)
    else FirstFault(m, a + 1, n - 1, write)
  }

  /** Overwrites the bytes from a on. */
  ghost function Put(m: Flat, a: int, data: seq<byte>): (m': Flat)
    requires WellFormed(m) && 0 <= a && a + |data| <= TWO32
    ensures WellFormed(m') && m' == m.(bytes := m'.bytes)
    ensures forall x :: 0 <= x < TWO32 ==> m'.bytes[x] == if a <= x < a + |data| then data[x - a] else m.bytes[x]
  {
    m.(bytes := seq(TWO32, x requires 0 <= x < TWO32 =>
                  if a <= x < a + |data| then data[x - a] else m.bytes[x]))
  }

  ghost function Read(m: Flat, address: int, length: int): Fetched
    requires WellFormed(m)
  {
    if length <= 0 then Bytes([])
    else
      var a := address % TWO32;
      FaultInRange(m, a, length, false);
      match FirstFault(m, a, length, false)
      case Some(x) => Fault(x)
      case None => Bytes(m.bytes[a..a + length])
  }

  /** The memory after a write and the address that faulted, if any: bytes below it are written. */
  ghost function Write(m: Flat, address: int, data: seq<byte>): (r: (Flat, Option<int>))
    requires WellFormed(m)
    ensures WellFormed(r.0)
  {
    var a := address % TWO32;
    var fault := FirstFault(m, a, |data|, true);
    FaultInRange(m, a, |data|, true);
    (Put(m, a, if fault.Some? then data[..fault.value - a] else data), fault)
  }

  ghost function ZeroPages(m: Flat, startPage: int, numPages: int): (m': Flat)
    requires WellFormed(m)
    ensures WellFormed(m')
  {
    m.(bytes := seq(TWO32, x requires 0 <= x < TWO32 =>
                  if startPage <= x / PAGE < startPage + numPages then 0 else m.bytes[x]))
  }

  function LastPage(start: int, length: int): int
  {
    (start + (if length < 1 then 1 else length) - 1) / PAGE
  }

  predicate InPages(pg: int, start: int, length: int)
  {
    start / PAGE <= pg <= LastPage(start, length)
  }

  /** Sets the permission of every page that [start, start+length) touches; a range of no bytes
      still touches the page of `start`. */
  ghost function Alter(m: Flat, start: int, length: int, access: Access): (m': Flat)
    requires WellFormed(m)
    ensures WellFormed(m')
  {
    m.(r := seq(MAX_PAGES, i requires 0 <= i < MAX_PAGES =>
                  if InPages(i, start, length) then access == READ else m.r[i]),
       w := seq(MAX_PAGES, i requires 0 <= i < MAX_PAGES =>
                  if InPages(i, start, length) then access == WRITE else m.w[i]))
  }

  /** Pages at or past 2^20 are not looked at. */
  ghost predicate IsAccessible(m: Flat, address: int, length: int, access: Access)
    requires WellFormed(m)
  {
    length <= 0 || access == NULL ||
    forall pg :: 0 <= pg < MAX_PAGES && InPages(pg, address, length) ==> m.w[pg] || (access == READ && m.r[pg])
  }

  // ------------------------------------------------------------ the fault law

  lemma {:induction false} FaultInRange(m: Flat, a: int, n: nat, write: bool)
    requires WellFormed(m)
    ensures match FirstFault(m, a, n, write)
            case None => (n > 0 ==> 0 <= a && a + n <= TWO32) && forall x :: a <= x < a + n ==> Allowed(m, x, write)
            case Some(f) => (f > a ==> 0 <= a) && f <= (if a < TWO32 then TWO32 else a) && a <= f < a + n && !Allowed(m, f, write)
                            && forall x :: a <= x < f ==> Allowed(m, x, write)
    decreases n
  {
    if n > 0 && Allowed(m, a, write) {
      FaultInRange(m, a + 1, n - 1, write);
    }
  }

  lemma FaultIsLeast(m: Flat, a: int, n: nat, write: bool, f: int)
    requires WellFormed(m)
    requires a <= f < a + n && !Allowed(m, f, write)
    requires forall x :: a <= x < f ==> Allowed(m, x, write)
    ensures FirstFault(m, a, n, write) == Some(f)
  {
    FaultInRange(m, a, n, write);
  }

  lemma NoFault(m: Flat, a: int, n: nat, write: bool)
    requires WellFormed(m)
    requires forall x :: a <= x < a + n ==> Allowed(m, x, write)
    ensures FirstFault(m, a, n, write) == None
  {
    FaultInRange(m, a, n, write);
  }

  /** A prefix that may be accessed does not move the first fault. */
  lemma {:induction false} FaultSkip(m: Flat, a: int, k: nat, n: nat, write: bool)
    requires WellFormed(m) && k <= n
    requires forall x :: a <= x < a + k ==> Allowed(m, x, write)
    ensures FirstFault(m, a, n, write) == FirstFault(m, a + k, n - k, write)
    decreases k
  {
    if k > 0 {
      assert Allowed(m, a, write);
      FaultSkip(m, a + 1, k - 1, n - 1, write);
    }
  }

  /** The fault law: a read reports the least address of an inaccessible page and otherwise returns
      the bytes; a write reports it too, has stored exactly the bytes below it and changed nothing else. */
  lemma FaultLaw(m: Flat, address: int, data: seq<byte>)
    requires WellFormed(m) && data != []
    ensures var a := address % TWO32;
            match Read(m, address, |data|)
            case Fault(f) => a <= f < a + |data| && !Allowed(m, f, false) && forall x :: a <= x < f ==> Allowed(m, x, false)
            case Bytes(s) => |s| == |data| && a + |data| <= TWO32 && forall i :: 0 <= i < |data| ==> Allowed(m, a + i, false) && s[i] == m.bytes[a + i]
    ensures var a := address % TWO32;
            var (m', fault) := Write(m, address, data);
            var top := if fault.Some? then fault.value else a + |data|;
            && a <= top <= TWO32 && (fault.Some? ==> top < a + |data| && !Allowed(m, top, true))
            && (forall x :: a <= x < top ==> Allowed(m, x, true) && m'.bytes[x] == data[x - a])
            && (forall x :: 0 <= x < TWO32 && !(a <= x < top) ==> m'.bytes[x] == m.bytes[x])
            && m'.r == m.r && m'.w == m.w && m'.heapBreak == m.heapBreak
  {
    var a := address % TWO32;
    FaultInRange(m, a, |data|, false);
    FaultInRange(m, a, |data|, true);
  }

  /** What was written is read back, whenever the write went through. */
  lemma ReadAfterWrite(m: Flat, address: int, data: seq<byte>)
    requires WellFormed(m) && data != []
    ensures var (m', fault) := Write(m, address, data);
            fault == None ==> WellFormed(m') && Read(m', address, |data|) == Bytes(data)
  {
    var a := address % TWO32;
    var (m', fault) := Write(m, address, data);
    if fault == None {
      FaultInRange(m, a, |data|, true);
      assert forall x :: a <= x < a + |data| ==> Allowed(m, x, true) && Allowed(m', x, false);
      NoFault(m', a, |data|, false);
      assert m'.bytes[a..a + |data|] == data;
    }
  }

  /** Which bytes may be read and written after a permission change: those of the pages from the first
      byte's to the last byte's, or of the first byte's alone for an empty range, as the permission says. */
  lemma AlterLaw(m: Flat, start: nat, length: nat, access: Access, x: nat)
    requires WellFormed(m) && x < 0x1_0000_0000
    ensures var m' := Alter(m, start, length, access);
            var touched := start / 4096 <= x / 4096 <= (if length == 0 then start else start + length - 1) / 4096;
            && m'.bytes == m.bytes && m'.heapBreak == m.heapBreak
            && (Allowed(m', x, true) <==> if touched then access == WRITE else m.w[x / 4096])
            && (Allowed(m', x, false) <==> if touched then access != NULL else m.w[x / 4096] || m.r[x / 4096])
  {}

  /** Zeroing pages clears their bytes and nothing else. */
  lemma ZeroLaw(m: Flat, startPage: nat, numPages: nat, x: nat)
    requires WellFormed(m) && x < 0x1_0000_0000
    ensures var m' := ZeroPages(m, startPage, numPages);
            && m'.bytes[x] == (if 4096 * startPage <= x < 4096 * (startPage + numPages) then 0 else m.bytes[x])
            && m'.r == m.r && m'.w == m.w && m'.heapBreak == m.heapBreak
  {}

  /** A range of no bytes, and any range when nothing is asked, is accessible. */
  lemma NothingAsked(m: Flat, address: int, length: int, access: Access)
    requires WellFormed(m) && (length <= 0 || access == NULL)
    ensures IsAccessible(m, address, length, access)
  {}

  /** For ranges inside the address space, `IsAccessible` predicts success exactly. */
  lemma AccessibleExactly(m: Flat, address: nat, data: seq<byte>)
    requires WellFormed(m) && data != [] && address + |data| <= TWO32
    ensures IsAccessible(m, address, |data|, READ) <==> Read(m, address, |data|).Bytes?
    ensures IsAccessible(m, address, |data|, WRITE) <==> Write(m, address, data).1 == None
  {
    assert address % TWO32 == address;
    AccessibleMeansAllowed(m, address, |data|, false);
    AccessibleMeansAllowed(m, address, |data|, true);
    FaultInRange(m, address, |data|, false);
    FaultInRange(m, address, |data|, true);
  }

  lemma AccessibleMeansAllowed(m: Flat, address: nat, n: nat, write: bool)
    requires WellFormed(m) && n > 0 && address + n <= TWO32
    ensures IsAccessible(m, address, n, if write then WRITE else READ)
       <==> forall x :: address <= x < address + n ==> Allowed(m, x, write)
  {
    if forall x :: address <= x < address + n ==> Allowed(m, x, write) {
      forall pg | 0 <= pg < MAX_PAGES && InPages(pg, address, n)
        ensures m.w[pg] || (!write && m.r[pg])
      {
        var x := if pg * PAGE < address then address else pg * PAGE;
        assert x / PAGE == pg && Allowed(m, x, write);
      }
    } else {
      var x :| address <= x < address + n && !Allowed(m, x, write);
      assert InPages(x / PAGE, address, n);
    }
  }

  /** Past the end of the address space the test only looks at the pages below it, so it predicts the
      access exactly when one of those is already closed: for every address below 2^32. */
  lemma AccessibleLaw(m: Flat, a: nat, n: nat, access: Access)
    requires WellFormed(m) && a < TWO32 && n > 0 && access != NULL
    ensures (IsAccessible(m, a, n, access) <==> FirstFault(m, a, n, access == WRITE) == None)
       <==> a + n <= TWO32 || !IsAccessible(m, a, TWO32 - a, access)
  {
    hide FirstFault;
    var write := access == WRITE;
    FaultInRange(m, a, n, write);
    if a + n <= TWO32 {
      AccessibleMeansAllowed(m, a, n, write);
    } else {
      assert !Allowed(m, TWO32, write);
      forall pg | 0 <= pg < MAX_PAGES
        ensures InPages(pg, a, n) == InPages(pg, a, TWO32 - a)
      {}
    }
  }

  /** From 2^32 on no page is looked at and the test is always true, while the access wraps: it succeeds
      exactly when the wrapped range lies inside the address space and tests as accessible. */
  lemma AccessibleWraps(m: Flat, a: nat, data: seq<byte>, access: Access)
    requires WellFormed(m) && a >= TWO32 && data != []
    ensures access != NULL ==> IsAccessible(m, a, |data|, access)
    ensures Read(m, a, |data|) == Read(m, a % TWO32, |data|) && Write(m, a, data) == Write(m, a % TWO32, data)
    ensures Read(m, a, |data|).Bytes? <==> a % TWO32 + |data| <= TWO32 && IsAccessible(m, a % TWO32, |data|, READ)
    ensures Write(m, a, data).1 == None <==> a % TWO32 + |data| <= TWO32 && IsAccessible(m, a % TWO32, |data|, WRITE)
  {
    hide FirstFault, Put;
    var w := a % TWO32;
    DivModUnique(w, TWO32, 0, w);
    NoPagesPast(a, |data|);
    if w + |data| <= TWO32 {
      AccessibleExactly(m, w, data);
    } else {
      FaultInRange(m, w, |data|, false);
      FaultInRange(m, w, |data|, true);
      assert !Allowed(m, TWO32, false) && !Allowed(m, TWO32, true);
    }
  }

  lemma NoPagesPast(a: nat, n: nat)
    requires a >= TWO32
    ensures forall pg :: 0 <= pg < MAX_PAGES ==> !InPages(pg, a, n)
  {}

  /** An input where they differ: with the last page open, a range one byte too long tests as accessible. */
  lemma AccessiblePastTheEnd(m: Flat)
    requires WellFormed(m) && m.w[MAX_PAGES - 1]
    ensures IsAccessible(m, TWO32 - 1, 2, READ) && Read(m, TWO32 - 1, 2) == Fault(TWO32)
  {
    assert Allowed(m, TWO32 - 1, false) && !Allowed(m, TWO32, false);
    FaultIsLeast(m, TWO32 - 1, 2, false, TWO32);
  }

  lemma SameFlat(m: Flat, m': Flat)
    requires WellFormed(m) && WellFormed(m')
    requires m.r == m'.r && m.w == m'.w && m.heapBreak == m'.heapBreak
    requires forall x :: 0 <= x < TWO32 ==> m.bytes[x] == m'.bytes[x]
    ensures m == m'
  {
    assert m.bytes == m'.bytes;
  }
}
