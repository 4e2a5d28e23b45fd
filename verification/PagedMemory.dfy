/** Sparse, page-mapped guest memory with per-page permission bits and a one-entry cache, the hot
    page, whose hits skip the permission check. Every operation is proved to do to the flat memory
    in the ghost field `flat` what the cache-free specification does. */
module PagedMemory {
  import opened Words
  import opened Wrappers
  import opened FlatMemory

  class Memory {
    var pages: map<int, array<byte>>
    var rPages: array<bool>
    var wPages: array<bool>
    var heapBreak: nat
    var hotNum: int
    var hotData: array?<byte>
    var hotWritable: bool

    /** The flat memory this sparse memory stands for. */
    ghost var flat: Flat

    ghost function Stored(): set<object>
      reads this
    {
      set pg | pg in pages :: pages[pg] as object
    }

    /** Everything the memory is made of. */
    ghost function Repr(): set<object>
      reads this
    {
      {this, rPages, wPages} + Stored()
    }

    /** Distinct page numbers never share an object; the permission bits are the flat memory's. */
    ghost predicate Shape()
      reads this, rPages, wPages
    {
      && rPages.Length == MAX_PAGES && wPages.Length == MAX_PAGES && rPages != wPages
      && (forall pg :: pg in pages ==> pages[pg].Length == PAGE)
      && (forall p, q :: p in pages && q in pages && p != q ==> pages[p] != pages[q])
      && WellFormed(flat) && rPages[..] == flat.r && wPages[..] == flat.w && heapBreak == flat.heapBreak
    }

    /** The hot page is the very object stored for a page that may be read, and its writable flag
        is that page's write bit. */
    ghost predicate HotPageSound()
      requires Shape()
      reads this, rPages, wPages
    {
      && (hotData == null ==> hotNum == -1 && !hotWritable)
      && (hotData != null ==>
            && hotNum in pages && hotData == pages[hotNum] && 0 <= hotNum < MAX_PAGES
            && (flat.r[hotNum] || flat.w[hotNum]) && hotWritable == flat.w[hotNum])
    }

    /** Every byte of the flat memory is the stored byte, or zero where no page is stored. */
    ghost predicate Represents()
      requires Shape()
      reads this, rPages, wPages, Stored()
    {
      forall x :: 0 <= x < TWO32 ==>
        flat.bytes[x] == if x / PAGE in pages then pages[x / PAGE][x % PAGE] else 0
    }

    ghost predicate Valid()
      reads this, rPages, wPages, Stored()
      ensures Valid() ==> WellFormed(flat)
    {
      Shape() && HotPageSound() && Represents()
    }

    constructor (data: seq<(nat, byte)>, allowedRead: seq<nat>, allowedWrite: seq<nat>, heap: nat)
      ensures Valid() && fresh(Repr())
      ensures flat == Loaded(data, allowedRead, allowedWrite, heap)
    {
      rPages := new bool[MAX_PAGES](_ => false);
      wPages := new bool[MAX_PAGES](_ => false);
      pages := map[];
      hotNum, hotData, hotWritable := -1, null, false;
      heapBreak := heap;
      flat := Loaded([], [], [], heap);
      new;
      SetBits(rPages, allowedRead);
      SetBits(wPages, allowedWrite);
      flat := Loaded([], allowedRead, allowedWrite, heap);
      assert rPages[..] == flat.r && wPages[..] == flat.w;
      BulkLoad(data);
      SameFlat(flat, Loaded(data, allowedRead, allowedWrite, heap));
    }

    static method SetBits(bits: array<bool>, allowed: seq<nat>)
      requires bits.Length == MAX_PAGES && forall i :: 0 <= i < MAX_PAGES ==> !bits[i]
      modifies bits
      ensures forall i :: 0 <= i < MAX_PAGES ==> bits[i] == (i in allowed)
    {
      for k := 0 to |allowed|
        invariant forall i :: 0 <= i < MAX_PAGES ==> bits[i] == (i in allowed[..k])
      {
        if allowed[k] < MAX_PAGES {
          bits[allowed[k]] := true;
        }
      }
      assert allowed[..|allowed|] == allowed;
    }

    method BulkLoad(data: seq<(nat, byte)>)
      requires Valid() && hotData == null
      modifies this`pages, this`flat, Stored()
      ensures Valid() && hotData == null && fresh(Stored() - old(Stored()))
      ensures flat == old(flat).(bytes := flat.bytes)
      ensures forall x :: 0 <= x < TWO32 ==> flat.bytes[x] == LastOf(data, x, old(flat).bytes[x])
    {
      var currentPage := -1;
      var pageData: array?<byte> := null;
      for k := 0 to |data|
        invariant Valid() && hotData == null && fresh(Stored() - old(Stored()))
        invariant pageData != null ==> currentPage in pages && pageData == pages[currentPage]
        invariant pageData == null ==> currentPage == -1
        invariant flat == old(flat).(bytes := flat.bytes)
        invariant forall x :: 0 <= x < TWO32 ==> flat.bytes[x] == LastOf(data[..k], x, old(flat).bytes[x])
      {
        var (addr, val) := data[k];
        var pageIdx := addr / PAGE;
        if pageIdx != currentPage {
          currentPage := pageIdx;
          pageData := PageFor(pageIdx);
        }
        LoadByte(addr, val);
        assert data[..k + 1] == data[..k] + [data[k]];
      }
      assert data[..|data|] == data;
    }

    /** Stores one byte of an existing page; a byte past the address space is stored unseen. */
    method LoadByte(addr: nat, val: byte)
      requires Valid() && addr / PAGE in pages
      modifies this`flat, pages[addr / PAGE]
      ensures Valid()
      ensures flat == if addr < TWO32 then Put(old(flat), addr, [val]) else old(flat)
    {
      var page := pages[addr / PAGE];
      page[addr % PAGE] := val;
      if addr < TWO32 {
        flat := Put(flat, addr, [val]);
      }
      forall x | 0 <= x < TWO32
        ensures flat.bytes[x] == if x / PAGE in pages then pages[x / PAGE][x % PAGE] else 0
      {
        assert x == x / PAGE * PAGE + x % PAGE && addr == addr / PAGE * PAGE + addr % PAGE;
      }
    }

    /** The stored page, made and zero-filled if it is missing. */
    method PageFor(pg: int) returns (page: array<byte>)
      requires Valid()
      modifies this`pages
      ensures Valid() && pg in pages && pages[pg] == page
      ensures forall p :: p in old(pages) ==> p in pages && pages[p] == old(pages[p])
      ensures Stored() == old(Stored()) + {page} && fresh(Stored() - old(Stored()))
    {
      if pg in pages {
        page := pages[pg];
      } else {
        page := new byte[PAGE](_ => 0);
        pages := pages[pg := page];
      }
    }

    // ---------------------------------------------------------------- read

    method Read(address: int, length: int) returns (r: Fetched)
      requires Valid()
      modifies this`hotNum, this`hotData, this`hotWritable
      ensures Valid() && Repr() == old(Repr())
      ensures r == FlatMemory.Read(flat, address, length)
    {
      if length <= 0 {
        return Bytes([]);
      }
      var a := address % TWO32;
      var pg, off := a / PAGE, a % PAGE;
      if pg == hotNum && hotData != null {
        if off + length <= PAGE {
          ReadsOnePage(address, length);
          return Bytes(hotData[off..off + length]);
        }
      }
      if a / PAGE == (a + length - 1) / PAGE {
        r := ReadSinglePage(address, length);
      } else {
        r := ReadMultipage(a, length);
      }
    }

    /** The single-page path: checks the permission and makes the page hot. */
    method ReadSinglePage(address: int, length: nat) returns (r: Fetched)
      requires Valid() && length > 0 && address % TWO32 % PAGE + length <= PAGE
      modifies this`hotNum, this`hotData, this`hotWritable
      ensures Valid()
      ensures r == FlatMemory.Read(flat, address, length)
    {
      var a := address % TWO32;
      var pg, off := a / PAGE, a % PAGE;
      if pg >= MAX_PAGES || !(rPages[pg] || wPages[pg]) {
        FaultIsLeast(flat, a, length, false, a);
        return Fault(a);
      }
      ReadsOnePage(address, length);
      if pg !in pages {
        return Bytes(seq(length, _ => 0));
      }
      hotNum := pg;
      hotData := pages[pg];
      hotWritable := wPages[pg];
      return Bytes(pages[pg][off..off + length]);
    }

    lemma ReadsOnePage(address: int, length: nat)
      requires Valid() && length > 0
      requires var a := address % TWO32;
               a % PAGE + length <= PAGE && (flat.w[a / PAGE] || flat.r[a / PAGE])
      ensures FlatMemory.Read(flat, address, length) == Bytes(StoredSlice(address % TWO32, length))
    {
      var a := address % TWO32;
      OnePage(flat, a, length, false);
      PageSlice(a, length);
    }

    lemma PageSlice(a: int, length: nat)
      requires Valid() && 0 <= a && length > 0 && a % PAGE + length <= PAGE && a + length <= TWO32
      ensures flat.bytes[a..a + length] == StoredSlice(a, length)
    {
      var s := StoredSlice(a, length);
      forall i | 0 <= i < length
        ensures flat.bytes[a + i] == s[i]
      {
        assert (a + i) / PAGE == a / PAGE && (a + i) % PAGE == a % PAGE + i;
      }
    }

    /** The bytes of a range inside one page as stored, or zeros. */
    ghost function StoredSlice(a: int, length: nat): (s: seq<byte>)
      requires Shape() && a % PAGE + length <= PAGE
      reads this, rPages, wPages, Stored()
      ensures |s| == length
    {
      if a / PAGE in pages then pages[a / PAGE][a % PAGE..a % PAGE + length] else seq(length, _ => 0)
    }

    method ReadMultipage(start: int, length: nat) returns (r: Fetched)
      requires Valid() && 0 <= start < TWO32 && length > 0
      ensures r == FlatMemory.Read(flat, start, length)
    {
      hide FirstFault;
      var result := new byte[length](_ => 0);
      var end := start + length;
      var address, cursor := start, 0;
      while address < end
        invariant start <= address <= end && cursor == address - start && address <= TWO32
        invariant forall x :: start <= x < address ==> Allowed(flat, x, false)
        invariant forall i :: 0 <= i < cursor ==> result[i] == flat.bytes[start + i]
        invariant forall i :: cursor <= i < length ==> result[i] == 0
      {
        var pg := address / PAGE;
        if pg >= MAX_PAGES || !(rPages[pg] || wPages[pg]) {
          FaultIsLeast(flat, start, length, false, address);
          return Fault(address);
        }
        var off := address % PAGE;
        var chunk := if PAGE - off < end - address then PAGE - off else end - address;
        OnePage(flat, address, chunk, false);
        CopyOut(result, cursor, address, chunk);
        cursor := cursor + chunk;
        address := address + chunk;
      }
      NoFault(flat, start, length, false);
      assert result[..] == flat.bytes[start..start + length];
      return Bytes(result[..]);
    }

    /** Copies one page's part of the range into the zero-filled result. */
    method CopyOut(result: array<byte>, cursor: nat, address: int, chunk: nat)
      requires Valid() && result !in Stored()
      requires 0 <= address && chunk > 0 && address % PAGE + chunk <= PAGE && address + chunk <= TWO32
      requires cursor + chunk <= result.Length
      requires forall i :: cursor <= i < cursor + chunk ==> result[i] == 0
      modifies result
      ensures forall i :: cursor <= i < cursor + chunk ==> result[i] == flat.bytes[address + (i - cursor)]
      ensures forall i :: 0 <= i < cursor || cursor + chunk <= i < result.Length ==> result[i] == old(result[i])
    {
      var pg, off := address / PAGE, address % PAGE;
      PageSlice(address, chunk);
      ghost var s := flat.bytes[address..address + chunk];
      if pg in pages {
        forall i | 0 <= i < chunk {
          result[cursor + i] := pages[pg][off + i];
        }
        forall i | 0 <= i < chunk
          ensures result[cursor + i] == s[i]
        {
          assert s[i] == pages[pg][off..off + chunk][i];
        }
      }
      forall i | cursor <= i < cursor + chunk
        ensures result[i] == flat.bytes[address + (i - cursor)]
      {
        var j := i - cursor;
        assert result[cursor + j] == s[j];
      }
    }

    // ---------------------------------------------------------------- write

    /** Returns the address that faulted, if any. */
    method Write(address: int, data: seq<byte>) returns (fault: Option<int>)
      requires Valid()
      modifies this`pages, this`hotNum, this`hotData, this`hotWritable, this`flat, Stored()
      ensures Valid() && fresh(Stored() - old(Stored()))
      ensures (flat, fault) == FlatMemory.Write(old(flat), address, data)
    {
      fault := None;
      ghost var m := flat;
      var a := address % TWO32;
      if data == [] {
        SameFlat(m, Put(m, a, []));
        return;
      }
      var pg, off := a / PAGE, a % PAGE;
      if pg == hotNum && hotWritable && hotData != null && off + |data| <= PAGE {
        OnePage(m, a, |data|, true);
        Poke(a, data);
        return;
      }
      if a / PAGE == (a + |data| - 1) / PAGE {
        fault := WriteSinglePage(address, data);
      } else {
        fault := WriteMultipage(a, data);
      }
    }

    /** The single-page path: checks the permission and makes the page hot and writable. */
    method WriteSinglePage(address: int, data: seq<byte>) returns (fault: Option<int>)
      requires Valid() && data != [] && address % TWO32 % PAGE + |data| <= PAGE
      modifies this`pages, this`hotNum, this`hotData, this`hotWritable, this`flat, Stored()
      ensures Valid() && fresh(Stored() - old(Stored()))
      ensures (flat, fault) == FlatMemory.Write(old(flat), address, data)
    {
      ghost var m := flat;
      var a := address % TWO32;
      var pg := a / PAGE;
      if pg >= MAX_PAGES || !wPages[pg] {
        FaultIsLeast(m, a, |data|, true, a);
        SameFlat(m, Put(m, a, data[..0]));
        return Some(a);
      }
      OnePage(m, a, |data|, true);
      var page := PageFor(pg);
      hotNum := pg;
      hotData := page;
      hotWritable := true;
      Poke(a, data);
      return None;
    }

    /** Overwrites part of one stored page. */
    method Poke(a: int, data: seq<byte>)
      requires Valid() && 0 <= a && a + |data| <= TWO32
      requires a / PAGE in pages && a % PAGE + |data| <= PAGE
      modifies this`flat, pages[a / PAGE]
      ensures Valid()
      ensures flat == Put(old(flat), a, data)
    {
      var page, off := pages[a / PAGE], a % PAGE;
      forall i | 0 <= i < |data| {
        page[off + i] := data[i];
      }
      flat := Put(flat, a, data);
      forall x | 0 <= x < TWO32
        ensures flat.bytes[x] == if x / PAGE in pages then pages[x / PAGE][x % PAGE] else 0
      {
        assert x == x / PAGE * PAGE + x % PAGE && a == a / PAGE * PAGE + off;
        if a <= x < a + |data| {
          assert x / PAGE == a / PAGE && page[off + (x - a)] == data[x - a];
        }
      }
    }

    method WriteChunk(a: int, data: seq<byte>)
      requires Valid() && 0 <= a && a + |data| <= TWO32 && a % PAGE + |data| <= PAGE
      modifies this`pages, this`flat, Stored()
      ensures Valid() && fresh(Stored() - old(Stored()))
      ensures flat == Put(old(flat), a, data)
    {
      var page := PageFor(a / PAGE);
      Poke(a, data);
    }

    method WriteMultipage(start: int, data: seq<byte>) returns (fault: Option<int>)
      requires Valid() && 0 <= start < TWO32 && data != []
      modifies this`pages, this`flat, Stored()
      ensures Valid() && fresh(Stored() - old(Stored()))
      ensures (flat, fault) == FlatMemory.Write(old(flat), start, data)
    {
      hide FirstFault;
      var end := start + |data|;
      var address, cursor := start, 0;
      ghost var m := flat;
      SameFlat(m, Put(m, start, data[..0]));
      while address < end
        invariant Valid() && fresh(Stored() - old(Stored()))
        invariant start <= address <= end && cursor == address - start && address <= TWO32
        invariant forall x :: start <= x < address ==> Allowed(m, x, true)
        invariant flat == Put(m, start, data[..cursor])
      {
        var pg := address / PAGE;
        if pg >= MAX_PAGES || !wPages[pg] {
          FaultIsLeast(m, start, |data|, true, address);
          return Some(address);
        }
        var off := address % PAGE;
        var chunk := if PAGE - off < end - address then PAGE - off else end - address;
        OnePage(m, address, chunk, true);
        WriteChunk(address, data[cursor..cursor + chunk]);
        PutPut(m, start, data, cursor, chunk);
        cursor := cursor + chunk;
        address := address + chunk;
      }
      NoFault(m, start, |data|, true);
      assert data[..cursor] == data;
      fault := None;
    }

    // ---------------------------------------------------------------- permissions

    method ZeroMemoryRange(startPage: int, numPages: int)
      requires Valid()
      modifies this`pages, this`flat, Stored()
      ensures Valid() && fresh(Stored() - old(Stored()))
      ensures flat == ZeroPages(old(flat), startPage, numPages)
    {
      ghost var m := flat;
      if numPages <= 0 {
        SameFlat(m, ZeroPages(m, startPage, numPages));
        return;
      }
      SameFlat(m, ZeroPages(m, startPage, 0));
      for pageIdx := startPage to startPage + numPages
        invariant Valid() && fresh(Stored() - old(Stored()))
        invariant flat == ZeroPages(m, startPage, pageIdx - startPage)
      {
        ZeroPage(pageIdx);
        SameFlat(flat, ZeroPages(m, startPage, pageIdx + 1 - startPage));
      }
    }

    method ZeroPage(pg: int)
      requires Valid()
      modifies this`pages, this`flat, Stored()
      ensures Valid() && fresh(Stored() - old(Stored()))
      ensures flat == ZeroPages(old(flat), pg, 1)
    {
      var page := PageFor(pg);
      forall i | 0 <= i < PAGE {
        page[i] := 0;
      }
      flat := ZeroPages(flat, pg, 1);
    }

    method AlterAccessibility(start: nat, length: int, access: Access)
      requires Valid()
      modifies this`hotNum, this`hotData, this`hotWritable, this`flat, rPages, wPages
      ensures Valid() && Repr() == old(Repr())
      ensures flat == Alter(old(flat), start, length, access)
    {
      var first, last := start / PAGE, LastPage(start, length);
      SetPermissions(first, last, access);
      DropHotPage(first, last);
      flat := Alter(flat, start, length, access);
      assert rPages[..] == flat.r && wPages[..] == flat.w;
    }

    method SetPermissions(first: nat, last: int, access: Access)
      requires rPages.Length == MAX_PAGES && wPages.Length == MAX_PAGES && rPages != wPages && first <= last + 1
      modifies rPages, wPages
      ensures forall i :: 0 <= i < MAX_PAGES ==>
                rPages[i] == (if first <= i <= last then access == READ else old(rPages[i]))
      ensures forall i :: 0 <= i < MAX_PAGES ==>
                wPages[i] == (if first <= i <= last then access == WRITE else old(wPages[i]))
    {
      for pg := first to last + 1
        invariant forall i :: 0 <= i < MAX_PAGES ==>
                    rPages[i] == (if first <= i < pg then access == READ else old(rPages[i]))
        invariant forall i :: 0 <= i < MAX_PAGES ==>
                    wPages[i] == (if first <= i < pg then access == WRITE else old(wPages[i]))
      {
        if pg < MAX_PAGES {
          var currentWrite, currentRead := wPages[pg], rPages[pg];
          var targetWrite, targetRead := access == WRITE, access == READ;
          if !(currentWrite == targetWrite && currentRead == targetRead) {
            if targetWrite {
              wPages[pg] := true;
              rPages[pg] := false;
            } else if targetRead {
              rPages[pg] := true;
              wPages[pg] := false;
            } else {
              rPages[pg] := false;
              wPages[pg] := false;
            }
          }
        }
      }
    }

    /** A range that includes the hot page drops it from the cache. */
    method DropHotPage(first: nat, last: int)
      modifies this`hotNum, this`hotData, this`hotWritable
      ensures if first <= old(hotNum) <= last && old(hotNum) < MAX_PAGES
              then hotNum == -1 && hotData == null && !hotWritable
              else hotNum == old(hotNum) && hotData == old(hotData) && hotWritable == old(hotWritable)
    {
      for pg := first to if first <= last + 1 then last + 1 else first
        invariant hotNum == old(hotNum) && hotData == old(hotData) && hotWritable == old(hotWritable)
        invariant !(first <= hotNum < pg && hotNum < MAX_PAGES)
      {
        if pg < MAX_PAGES && pg == hotNum {
          hotNum := -1;
          hotData := null;
          hotWritable := false;
          break;
        }
      }
    }

    method IsAccessible(address: nat, length: int, access: Access) returns (ok: bool)
      requires Valid()
      ensures ok == FlatMemory.IsAccessible(flat, address, length, access)
    {
      if length <= 0 {
        return true;
      }
      var first, last := address / PAGE, LastPage(address, length);
      if access == WRITE {
        return forall pg :: first <= pg <= last && pg < MAX_PAGES ==> wPages[pg];
      } else if access == READ {
        return forall pg :: first <= pg <= last && pg < MAX_PAGES ==> rPages[pg] || wPages[pg];
      }
      return true;
    }

    method SetHeapBreak(heap: nat)
      requires Valid()
      modifies this`heapBreak, this`flat
      ensures Valid() && flat == old(flat).(heapBreak := heap)
    {
      heapBreak := heap;
      flat := flat.(heapBreak := heap);
    }
  }

  // ------------------------------------------------------------ facts about the flat memory

  /** A range inside one page has that page's permission throughout. */
  lemma OnePage(m: Flat, a: int, length: nat, write: bool)
    requires WellFormed(m) && 0 <= a < TWO32 && 0 < length && a % PAGE + length <= PAGE
    requires m.w[a / PAGE] || (!write && m.r[a / PAGE])
    ensures FirstFault(m, a, length, write) == None && a + length <= TWO32
    ensures forall x :: a <= x < a + length ==> Allowed(m, x, write)
  {
    NoFault(m, a, length, write);
  }

  lemma PutPut(m: Flat, start: int, data: seq<byte>, cursor: nat, chunk: nat)
    requires WellFormed(m) && 0 <= start && cursor + chunk <= |data| && start + cursor + chunk <= TWO32
    ensures Put(Put(m, start, data[..cursor]), start + cursor, data[cursor..cursor + chunk])
         == Put(m, start, data[..cursor + chunk])
  {
    SameFlat(Put(Put(m, start, data[..cursor]), start + cursor, data[cursor..cursor + chunk]),
             Put(m, start, data[..cursor + chunk]));
  }

  // ------------------------------------------------------------ what the constructor builds

  /** The last value the list gives for address x. */
  ghost function LastOf(data: seq<(nat, byte)>, x: int, default: byte): byte
  {
    if data == [] then default
    else if data[|data| - 1].0 == x then data[|data| - 1].1
    else LastOf(data[..|data| - 1], x, default)
  }

  ghost function Loaded(data: seq<(nat, byte)>, allowedRead: seq<nat>, allowedWrite: seq<nat>, heap: nat): (m: Flat)
    ensures WellFormed(m)
  {
    FlatMem(seq(TWO32, x requires 0 <= x < TWO32 => LastOf(data, x, 0)),
            seq(MAX_PAGES, i requires 0 <= i < MAX_PAGES => i in allowedRead),
            seq(MAX_PAGES, i requires 0 <= i < MAX_PAGES => i in allowedWrite), heap)
  }
}
