/** The recompiler's index between bytecode positions and machine addresses: the one-pass skip scan,
    the addresses recorded while assembling, and the look-ups in both directions. How many bytes
    each instruction assembles to is a parameter. */
module AddressIndex {
  import opened Words
  import opened Wrappers
  import opened Programs

  // ------------------------------------------------------------ positions and addresses

  predicate IsOpcode(p: Program, i: int)
  {
    0 <= i < Size(p) && p.bitmask[i]
  }

  /** Opcode positions below i. */
  function Count(p: Program, i: nat): (n: nat)
    requires i <= Size(p)
    ensures n <= i
  {
    if i == 0 then 0 else Count(p, i - 1) + B2I(p.bitmask[i - 1])
  }

  lemma {:induction false} CountGrows(p: Program, i: nat, j: nat)
    requires i <= j <= Size(p)
    ensures Count(p, i) <= Count(p, j)
    ensures i < j && p.bitmask[i] ==> Count(p, i) < Count(p, j)
    decreases j
  {
    if i < j {
      CountGrows(p, i, j - 1);
    }
  }

  /** The machine address at which the code for position i begins. */
  function Address(p: Program, cost: seq<nat>, i: nat): nat
    requires |cost| == Size(p) && i <= Size(p)
  {
    if i == 0 then 0 else Address(p, cost, i - 1) + (if p.bitmask[i - 1] then cost[i - 1] else 0)
  }

  lemma {:induction false} AddressesGrow(p: Program, cost: seq<nat>, i: nat, j: nat)
    requires |cost| == Size(p) && i <= j <= Size(p)
    ensures Address(p, cost, i) <= Address(p, cost, j)
    ensures i < j && p.bitmask[i] && cost[i] > 0 ==> Address(p, cost, i) < Address(p, cost, j)
    decreases j
  {
    if i < j {
      AddressesGrow(p, cost, i, j - 1);
    }
  }

  /** The last opcode position below n that satisfies the address bound; zero when there is none. */
  function LastWithin(p: Program, cost: seq<nat>, x: int, n: nat): (r: nat)
    requires |cost| == Size(p) && n <= Size(p)
    ensures r > 0 ==> r < n
  {
    if n == 0 then 0
    else if p.bitmask[n - 1] && Address(p, cost, n - 1) <= x then n - 1
    else LastWithin(p, cost, x, n - 1)
  }

  /** Machine address to bytecode position. */
  function MsnToPvm(p: Program, cost: seq<nat>, x: int): nat
    requires |cost| == Size(p)
  {
    LastWithin(p, cost, x, Size(p))
  }

  /** The last opcode position at or below pc. */
  function OpcodeBelow(p: Program, pc: int): (r: Option<nat>)
    ensures r.Some? ==> r.value <= pc && IsOpcode(p, r.value)
    ensures forall i :: (r.Some? ==> r.value < i) && i <= pc ==> !IsOpcode(p, i)
    decreases if pc < 0 then 0 else pc + 1
  {
    if pc < 0 then None else if IsOpcode(p, pc) then Some(pc) else OpcodeBelow(p, pc - 1)
  }

  /** Bytecode position to machine address. */
  function PvmToMsn(p: Program, cost: seq<nat>, pc: int): nat
    requires |cost| == Size(p)
  {
    match OpcodeBelow(p, pc)
    case None => 0
    case Some(i) => Address(p, cost, i)
  }

  // ------------------------------------------------------------ the two maps

  /** Some opcode's address does not exceed x. */
  ghost predicate PastFirst(p: Program, cost: seq<nat>, x: int)
    requires |cost| == Size(p)
  {
    exists i: nat :: IsOpcode(p, i) && Address(p, cost, i) <= x
  }

  lemma {:induction false} LastWithinIsLast(p: Program, cost: seq<nat>, x: int, n: nat, i: nat)
    requires |cost| == Size(p) && n <= Size(p)
    requires i < n && p.bitmask[i] && Address(p, cost, i) <= x
    ensures var r := LastWithin(p, cost, x, n);
            i <= r < n && p.bitmask[r] && Address(p, cost, r) <= x
  {
    if i < n - 1 && !(p.bitmask[n - 1] && Address(p, cost, n - 1) <= x) {
      LastWithinIsLast(p, cost, x, n - 1, i);
    }
  }

  /** The maps are adjoint: an opcode's code begins at or before x exactly when the opcode is at or
      before the position x maps to. */
  lemma Adjoint(p: Program, cost: seq<nat>, pc: nat, x: int)
    requires |cost| == Size(p) && IsOpcode(p, pc) && PastFirst(p, cost, x)
    ensures PvmToMsn(p, cost, pc) <= x <==> pc <= MsnToPvm(p, cost, x)
  {
    var first: nat :| IsOpcode(p, first) && Address(p, cost, first) <= x;
    LastWithinIsLast(p, cost, x, Size(p), first);
    if Address(p, cost, pc) <= x {
      LastWithinIsLast(p, cost, x, Size(p), pc);
    }
    if pc <= MsnToPvm(p, cost, x) {
      AddressesGrow(p, cost, pc, MsnToPvm(p, cost, x));
    }
  }

  /** No code is emitted from position i on. */
  ghost predicate NothingFrom(p: Program, cost: seq<nat>, i: nat)
    requires |cost| == Size(p)
  {
    forall k: nat :: i <= k && IsOpcode(p, k) ==> cost[k] == 0
  }

  /** Addresses stay the same over a stretch exactly when its opcodes assemble to nothing. */
  lemma {:induction false} AddressStays(p: Program, cost: seq<nat>, i: nat, n: nat)
    requires |cost| == Size(p) && i <= n <= Size(p)
    ensures Address(p, cost, i) == Address(p, cost, n) <==> forall k: nat :: i <= k < n && IsOpcode(p, k) ==> cost[k] == 0
    decreases n
  {
    if i < n {
      AddressStays(p, cost, i, n - 1);
      AddressesGrow(p, cost, i, n - 1);
    }
  }

  /** A position's code begins at the end of all code exactly when nothing is emitted from the opcode it
      is rounded down to on. */
  lemma AtTheEnd(p: Program, cost: seq<nat>, pc: nat)
    requires |cost| == Size(p)
    ensures var below := OpcodeBelow(p, pc);
            PvmToMsn(p, cost, pc) == Address(p, cost, Size(p))
            <==> NothingFrom(p, cost, if below.Some? then below.value else 0)
  {
    hide Address, OpcodeBelow;
    var below := OpcodeBelow(p, pc);
    StartsAtZero(p, cost);
    AddressStays(p, cost, if below.Some? then below.value else 0, Size(p));
  }

  lemma StartsAtZero(p: Program, cost: seq<nat>)
    requires |cost| == Size(p)
    ensures Address(p, cost, 0) == 0
  {}

  predicate LaterOpcode(p: Program, i: nat)
  {
    i < Size(p) && NextOpcode(p, i + 1) < Size(p)
  }

  /** Up to the next opcode, addresses stay at the end of this one's code. */
  lemma {:induction false} NextAddress(p: Program, cost: seq<nat>, i: nat, k: nat)
    requires |cost| == Size(p) && IsOpcode(p, i) && i < k <= NextOpcode(p, i + 1)
    ensures Address(p, cost, k) == Address(p, cost, i) + cost[i]
    decreases k
  {
    if i + 1 < k {
      assert !OpcodeAt(p, k - 1);
      NextAddress(p, cost, i, k - 1);
    }
  }

  /** Mapping an opcode position to its address and back gives the same position exactly when its
      code takes room or no opcode follows it. */
  lemma RoundTripExactly(p: Program, cost: seq<nat>, pc: nat)
    requires |cost| == Size(p) && IsOpcode(p, pc)
    ensures MsnToPvm(p, cost, PvmToMsn(p, cost, pc)) == pc <==> cost[pc] > 0 || !LaterOpcode(p, pc)
  {
    var x := Address(p, cost, pc);
    LastWithinIsLast(p, cost, x, Size(p), pc);
    var r := MsnToPvm(p, cost, x);
    var next := NextOpcode(p, pc + 1);
    NextAddress(p, cost, pc, next);
    if r > pc {
      assert OpcodeAt(p, r);
      assert r >= next;
      AddressesGrow(p, cost, next, r);
    } else if next < Size(p) && cost[pc] == 0 {
      LastWithinIsLast(p, cost, x, Size(p), next);
    }
  }

  /** The bytes assembled for each opcode: the gas check and what its handler emits, `sizes` being None
      where there is no handler. */
  function Costs(prologue: nat, sizes: seq<Option<nat>>): (cost: seq<nat>)
    ensures |cost| == |sizes| && forall i: nat :: i < |sizes| ==> cost[i] >= prologue
  {
    seq(|sizes|, i requires 0 <= i < |sizes| => prologue + (if sizes[i].Some? then sizes[i].value else 0))
  }

  /** A gas check of at least one byte gives every instruction room, whatever its handler emits, so
      addresses rise strictly and the maps undo each other on opcode positions. */
  lemma RoundTripWithGas(p: Program, prologue: nat, sizes: seq<Option<nat>>, pc: nat)
    requires |sizes| == Size(p) && IsOpcode(p, pc) && prologue > 0
    ensures var cost := Costs(prologue, sizes);
            && (forall j: nat :: pc < j && IsOpcode(p, j) ==> PvmToMsn(p, cost, pc) < PvmToMsn(p, cost, j))
            && MsnToPvm(p, cost, PvmToMsn(p, cost, pc)) == pc
  {
    hide Costs;
    var cost := Costs(prologue, sizes);
    forall j: nat | pc < j && IsOpcode(p, j)
      ensures Address(p, cost, pc) < Address(p, cost, j)
    {
      AddressesGrow(p, cost, pc, j);
    }
    RoundTripExactly(p, cost, pc);
  }

  /** From a machine address there and back: the start of the instruction the address lies in. */
  lemma RoundsDown(p: Program, cost: seq<nat>, x: int)
    requires |cost| == Size(p) && PastFirst(p, cost, x)
    ensures var pc := MsnToPvm(p, cost, x);
            IsOpcode(p, pc) && PvmToMsn(p, cost, pc) <= x
            && forall j: nat :: pc < j && IsOpcode(p, j) ==> x < PvmToMsn(p, cost, j)
  {
    var first: nat :| IsOpcode(p, first) && Address(p, cost, first) <= x;
    LastWithinIsLast(p, cost, x, Size(p), first);
    var pc := MsnToPvm(p, cost, x);
    forall j: nat | pc < j && IsOpcode(p, j)
      ensures x < Address(p, cost, j)
    {
      if Address(p, cost, j) <= x {
        LastWithinIsLast(p, cost, x, Size(p), j);
      }
    }
  }

  /** Without the gas check an instruction can assemble to nothing, and is then lost: a move of a
      register to itself (opcode 100) emits no code, so the trap after it, one byte of code, begins at
      the same address. */
  lemma RoundTripNeedsRoom()
    ensures var p := ProgramData(0, [], [100, 0x11, 0], [true, false, true]);
            var cost: seq<nat> := [0, 0, 1];
            && Decode(p, 0).Some? && Decode(p, 0).value.fn == Unary(Move)
            && Decode(p, 0).value.args.ra == Decode(p, 0).value.args.rd
            && Decode(p, 2).Some? && Decode(p, 2).value.fn == Trap
            && MsnToPvm(p, cost, PvmToMsn(p, cost, 0)) == 2
  {
    hide *;
    SelfMoveDecodes();
    SelfMoveIsLost();
  }

  lemma SelfMoveDecodes()
    ensures var p := ProgramData(0, [], [100, 0x11, 0], [true, false, true]);
            && Decode(p, 0).Some? && Decode(p, 0).value.fn == Unary(Move)
            && Decode(p, 0).value.args.ra == Decode(p, 0).value.args.rd
            && Decode(p, 2).Some? && Decode(p, 2).value.fn == Trap
  {
    hide Skip, NextOpcode, Pow2, Imm, ImmX, Signed;
    var p := ProgramData(0, [], [100, 0x11, 0], [true, false, true]);
    assert FnAt(p, 0) == Some(Unary(Move)) && FnAt(p, 2) == Some(Trap);
  }

  lemma SelfMoveIsLost()
    ensures var p := ProgramData(0, [], [100, 0x11, 0], [true, false, true]);
            var cost: seq<nat> := [0, 0, 1];
            MsnToPvm(p, cost, PvmToMsn(p, cost, 0)) == 2
  {
    hide Dispatch, Skip, NextOpcode, Pow2;
    var p := ProgramData(0, [], [100, 0x11, 0], [true, false, true]);
    var cost: seq<nat> := [0, 0, 1];
    assert Address(p, cost, 1) == 0 && Address(p, cost, 2) == 0;
    assert PvmToMsn(p, cost, 0) == 0;
    assert LastWithin(p, cost, 0, 3) == 2;
  }

  // ------------------------------------------------------------ skip

  /** What the reverse pass stores. */
  function ReverseSkip(p: Program, i: nat): nat
    requires i < Size(p)
  {
    var next := NextOpcode(p, i + 1);
    if next == Size(p) then 0 else if next - i - 1 < MAX_SKIP then next - i - 1 else MAX_SKIP
  }

  /** The reverse pass agrees with the interpreter's skip wherever another opcode follows, and at the
      last byte; everywhere else the interpreter counts on to the end of code and the pass says zero. */
  lemma SkipsAgreeExactly(p: Program, i: nat)
    requires i < Size(p)
    ensures ReverseSkip(p, i) == Skip(p, i) <==> LaterOpcode(p, i) || i == Size(p) - 1
  {}

  // ------------------------------------------------------------ the class

  /** bisect_right: how many elements of a sorted list are at most x. */
  method BisectRight(bp: seq<nat>, x: int) returns (pos: nat)
    requires forall i, j :: 0 <= i < j < |bp| ==> bp[i] < bp[j]
    ensures pos <= |bp|
    ensures forall i :: 0 <= i < pos ==> bp[i] <= x
    ensures forall i :: pos <= i < |bp| ==> x < bp[i]
  {
    var lo, hi := 0, |bp|;
    while lo < hi
      invariant 0 <= lo <= hi <= |bp|
      invariant forall i :: 0 <= i < lo ==> bp[i] <= x
      invariant forall i :: hi <= i < |bp| ==> x < bp[i]
    {
      var mid := (lo + hi) / 2;
      if x < bp[mid] {
        hi := mid;
      } else {
        lo := mid + 1;
      }
    }
    pos := lo;
  }

  /** The code address of opcode position i is in both tables. */
  ghost predicate InTables(p: Program, cost: seq<nat>, i: nat, pvmToMsn: seq<nat>, msnToPvm: map<nat, nat>)
    requires |cost| == Size(p) && i < Size(p)
  {
    Count(p, i) < |pvmToMsn| && pvmToMsn[Count(p, i)] == Address(p, cost, i) && Address(p, cost, i) in msnToPvm
  }

  /** Of the first n positions, i is the last opcode whose code begins at a. */
  ghost predicate MapsBack(p: Program, cost: seq<nat>, n: nat, a: nat, i: nat)
    requires |cost| == Size(p) && n <= Size(p)
  {
    i < n && p.bitmask[i] && Address(p, cost, i) == a && i == LastWithin(p, cost, a, n)
  }

  /** Everything recorded while assembling the first n positions. */
  ghost predicate Recorded(p: Program, cost: seq<nat>, n: nat, pvmToMsn: seq<nat>, msnToPvm: map<nat, nat>)
    requires |cost| == Size(p) && n <= Size(p)
  {
    && (forall i: nat :: i < n && p.bitmask[i] ==> InTables(p, cost, i, pvmToMsn, msnToPvm))
    && (forall a: nat :: a in msnToPvm ==> MapsBack(p, cost, n, a, msnToPvm[a]))
  }

  lemma MapsBackStill(p: Program, cost: seq<nat>, n: nat, a: nat, i: nat)
    requires |cost| == Size(p) && n < Size(p) && MapsBack(p, cost, n, a, i)
    requires p.bitmask[n] ==> a != Address(p, cost, n)
    ensures MapsBack(p, cost, n + 1, a, i)
  {
    AddressesGrow(p, cost, i, n);
  }

  lemma InTablesStill(p: Program, cost: seq<nat>, i: nat, n: nat, pvmToMsn: seq<nat>, msnToPvm: map<nat, nat>, x: nat)
    requires |cost| == Size(p) && i < n < Size(p) && p.bitmask[i] && InTables(p, cost, i, pvmToMsn, msnToPvm)
    requires Count(p, n) < |pvmToMsn|
    ensures InTables(p, cost, i, pvmToMsn[Count(p, n) := x], msnToPvm[x := n])
  {
    hide Address, Count;
    CountGrows(p, i, n);
  }

  lemma InTablesNow(p: Program, cost: seq<nat>, n: nat, pvmToMsn: seq<nat>, msnToPvm: map<nat, nat>)
    requires |cost| == Size(p) && n < Size(p) && Count(p, n) < |pvmToMsn|
    ensures var here := Address(p, cost, n); InTables(p, cost, n, pvmToMsn[Count(p, n) := here], msnToPvm[here := n])
  {
    hide Address, Count;
  }

  lemma RecordNext(p: Program, cost: seq<nat>, n: nat, pvmToMsn: seq<nat>, msnToPvm: map<nat, nat>)
    requires |cost| == Size(p) && n < Size(p) && p.bitmask[n] && Count(p, n) < |pvmToMsn|
    requires Recorded(p, cost, n, pvmToMsn, msnToPvm)
    ensures var here := Address(p, cost, n);
            Recorded(p, cost, n + 1, pvmToMsn[Count(p, n) := here], msnToPvm[here := n])
  {
    hide Address, Count, LastWithin, InTables, MapsBack;
    var here := Address(p, cost, n);
    var recorded := msnToPvm[here := n];
    forall i: nat | i < n + 1 && p.bitmask[i]
      ensures InTables(p, cost, i, pvmToMsn[Count(p, n) := here], recorded)
    {
      if i < n {
        InTablesStill(p, cost, i, n, pvmToMsn, msnToPvm, here);
      } else {
        InTablesNow(p, cost, n, pvmToMsn, msnToPvm);
      }
    }
    forall a: nat | a in recorded
      ensures MapsBack(p, cost, n + 1, a, recorded[a])
    {
      if a == here {
        HereIsLast(p, cost, n);
      } else {
        MapsBackStill(p, cost, n, a, recorded[a]);
      }
    }
  }

  lemma HereIsLast(p: Program, cost: seq<nat>, n: nat)
    requires |cost| == Size(p) && n < Size(p) && p.bitmask[n]
    ensures MapsBack(p, cost, n + 1, Address(p, cost, n), n)
  {}

  lemma RecordNothing(p: Program, cost: seq<nat>, n: nat, pvmToMsn: seq<nat>, msnToPvm: map<nat, nat>)
    requires |cost| == Size(p) && n < Size(p) && !p.bitmask[n]
    requires Recorded(p, cost, n, pvmToMsn, msnToPvm)
    ensures Recorded(p, cost, n + 1, pvmToMsn, msnToPvm)
  {
    hide Address, Count, LastWithin;
    forall a: nat | a in msnToPvm
      ensures MapsBack(p, cost, n + 1, a, msnToPvm[a])
    {
      MapsBackStill(p, cost, n, a, msnToPvm[a]);
    }
    forall i: nat | i < n + 1 && p.bitmask[i]
      ensures InTables(p, cost, i, pvmToMsn, msnToPvm)
    {}
  }

  lemma NoneBefore(p: Program, cost: seq<nat>)
    requires |cost| == Size(p)
    ensures Count(p, 0) == 0 && Address(p, cost, 0) == 0
  {}

  /** One position further. */
  lemma NextPosition(p: Program, cost: seq<nat>, i: nat)
    requires |cost| == Size(p) && i < Size(p)
    ensures Count(p, i + 1) == Count(p, i) + B2I(p.bitmask[i])
    ensures Address(p, cost, i + 1) == Address(p, cost, i) + (if p.bitmask[i] then cost[i] else 0)
  {}

  predicate Increasing(s: seq<nat>)
  {
    forall i, j :: 0 <= i < j < |s| ==> s[i] < s[j]
  }

  /** sorted() of a set of addresses. */
  method Sorted(keys: set<nat>) returns (s: seq<nat>)
    ensures Increasing(s) && forall a: nat :: a in s <==> a in keys
  {
    s := [];
    var rest := keys;
    while rest != {}
      invariant rest <= keys && Increasing(s)
      invariant forall a: nat :: a in keys <==> a in rest || a in s
      invariant forall i, b: nat :: 0 <= i < |s| && b in rest ==> s[i] < b
      decreases rest
    {
      var least := Least(rest);
      s := s + [least];
      rest := rest - {least};
    }
  }

  method Least(s: set<nat>) returns (m: nat)
    requires s != {}
    ensures m in s && forall a: nat :: a in s ==> m <= a
  {
    m :| m in s;
    var rest := s - {m};
    while rest != {}
      invariant m in s && rest <= s
      invariant forall a: nat :: a in s && a !in rest ==> m <= a
      decreases rest
    {
      var a :| a in rest;
      if a < m {
        m := a;
      }
      rest := rest - {a};
    }
  }

  class RecompilerProgram {
    const p: Program

    var skipCache: seq<nat>
    var validOffsets: set<int>
    var bitmaskIndex: seq<int>
    var pvmToMsn: seq<nat>
    var msnToPvm: map<nat, nat>
    var breakpoints: seq<nat>
    var panicOffset: Option<nat>
    var haltOffset: Option<nat>

    /** The look-up structures built from the bitmask. */
    ghost predicate Valid()
      reads this
    {
      && |skipCache| == Size(p) && (forall i: nat :: i < Size(p) ==> skipCache[i] == ReverseSkip(p, i))
      && (forall i :: i in validOffsets <==> IsOpcode(p, i))
      && |bitmaskIndex| == Size(p)
      && (forall i: nat :: i < Size(p) ==> bitmaskIndex[i] == if p.bitmask[i] then Count(p, i) else -1)
      && |pvmToMsn| == Count(p, Size(p))
    }

    /** The program has been assembled with these costs. */
    ghost predicate Assembled(cost: seq<nat>)
      reads this
    {
      && |cost| == Size(p)
      && Recorded(p, cost, Size(p), pvmToMsn, msnToPvm)
      && Increasing(breakpoints) && (forall a: nat :: a in breakpoints <==> a in msnToPvm)
    }

    constructor (program: Program)
      ensures p == program && Valid() && msnToPvm == map[] && breakpoints == [] && panicOffset == None
    {
      p := program;
      skipCache, validOffsets, bitmaskIndex := [], {}, [];
      msnToPvm, breakpoints, panicOffset, haltOffset := map[], [], None, None;
      pvmToMsn := [];
      new;
      BuildSkips();
      BuildIndex();
    }

    /** One pass from the end, remembering the nearest opcode to the right. */
    method BuildSkips()
      modifies this`skipCache
      ensures |skipCache| == Size(p) && forall i: nat :: i < Size(p) ==> skipCache[i] == ReverseSkip(p, i)
    {
      var n := Size(p);
      var cache := seq(n, _ => 0);
      var lastValid := n;
      var i := n;
      while i > 0
        invariant i <= n && |cache| == n
        invariant i < n ==> lastValid == NextOpcode(p, i + 1)
        invariant i == n ==> lastValid == n
        invariant forall k: nat :: i <= k < n ==> cache[k] == ReverseSkip(p, k)
      {
        i := i - 1;
        if i < n - 1 && p.bitmask[i + 1] {
          lastValid := i + 1;
        }
        cache := cache[i := if lastValid < n then Smaller(24, lastValid - i - 1) else 0];
      }
      skipCache := cache;
    }

    method BuildIndex()
      modifies this`validOffsets, this`bitmaskIndex, this`pvmToMsn
      ensures forall i :: i in validOffsets <==> IsOpcode(p, i)
      ensures |bitmaskIndex| == Size(p)
      ensures forall i: nat :: i < Size(p) ==> bitmaskIndex[i] == if p.bitmask[i] then Count(p, i) else -1
      ensures |pvmToMsn| == Count(p, Size(p))
    {
      hide Count;
      var n := Size(p);
      var index: seq<int> := seq(n, _ => 0);
      var counter := 0;
      NoneBefore(p, seq(n, _ => 0));
      var i := 0;
      validOffsets := {};
      while i < n
        invariant i <= n && |index| == n && counter == Count(p, i)
        invariant forall k :: k in validOffsets <==> IsOpcode(p, k) && k < i
        invariant forall k: nat :: k < i ==> index[k] == if p.bitmask[k] then Count(p, k) else -1
      {
        NextPosition(p, seq(n, _ => 0), i);
        if p.bitmask[i] {
          validOffsets := validOffsets + {i};
          index := index[i := counter];
          counter := counter + 1;
        } else {
          index := index[i := -1];
        }
        i := i + 1;
      }
      bitmaskIndex := index;
      pvmToMsn := seq(counter, _ => 0);
    }

    method Skip(pc: nat) returns (s: nat)
      requires Valid()
      ensures s == if pc < Size(p) then ReverseSkip(p, pc) else 0
    {
      s := if pc < |skipCache| then skipCache[pc] else 0;
    }

    /** Emits every opcode in order and records where its code begins. `sizes` gives the bytes its
        handler emits, None where the table has no handler; `prologue` the bytes of the gas check. */
    method Assemble(prologue: nat, sizes: seq<Option<nat>>) returns (ok: bool, ghost cost: seq<nat>)
      requires Valid() && |sizes| == Size(p) && msnToPvm == map[]
      modifies this`pvmToMsn, this`msnToPvm, this`breakpoints, this`panicOffset, this`haltOffset
      ensures Valid()
      ensures ok <==> forall i: nat :: IsOpcode(p, i) ==> sizes[i].Some?
      ensures cost == Costs(prologue, sizes)
      ensures ok ==> Assembled(cost)
      ensures ok ==> panicOffset == Some(Address(p, cost, Size(p)))
                     && haltOffset == Some(Address(p, cost, Size(p)) + 1)
    {
      cost := Costs(prologue, sizes);
      ok := Record(prologue, sizes, cost);
      if ok {
        breakpoints := Sorted(msnToPvm.Keys);
      }
    }

    /** The assembling loop. */
    method Record(prologue: nat, sizes: seq<Option<nat>>, ghost cost: seq<nat>) returns (ok: bool)
      requires Valid() && |sizes| == Size(p) && msnToPvm == map[] && cost == Costs(prologue, sizes)
      modifies this`pvmToMsn, this`msnToPvm, this`panicOffset, this`haltOffset
      ensures |pvmToMsn| == old(|pvmToMsn|)
      ensures ok <==> forall i: nat :: IsOpcode(p, i) ==> sizes[i].Some?
      ensures ok ==> Recorded(p, cost, Size(p), pvmToMsn, msnToPvm)
      ensures ok ==> panicOffset == Some(Address(p, cost, Size(p)))
                     && haltOffset == Some(Address(p, cost, Size(p)) + 1)
    {
      hide Count, Address, ReverseSkip, MapsBack, InTables;
      NoneBefore(p, cost);
      var counter, index, here := 0, 0, 0;
      while counter < Size(p)
        invariant counter <= Size(p) && index == Count(p, counter) && here == Address(p, cost, counter)
        invariant |pvmToMsn| == Count(p, Size(p))
        invariant Recorded(p, cost, counter, pvmToMsn, msnToPvm)
        invariant forall i: nat :: i < counter && p.bitmask[i] ==> sizes[i].Some?
      {
        NextPosition(p, cost, counter);
        if p.bitmask[counter] {
          CountGrows(p, counter, Size(p));
          RecordNext(p, cost, counter, pvmToMsn, msnToPvm);
          pvmToMsn := pvmToMsn[index := here];
          msnToPvm := msnToPvm[here := counter];
          index := index + 1;
          if sizes[counter].None? {
            assert IsOpcode(p, counter);
            return false;
          }
          here := here + prologue + sizes[counter].value;
        } else {
          RecordNothing(p, cost, counter, pvmToMsn, msnToPvm);
        }
        counter := counter + 1;
      }
      panicOffset := Some(here);
      haltOffset := Some(here + 1);
      ok := true;
    }

    /** The position whose code an address lies in; zero before the first. */
    method MsnToPvmIndex(x: int, ghost cost: seq<nat>) returns (r: nat)
      requires Valid() && Assembled(cost)
      ensures r == MsnToPvm(p, cost, x)
    {
      hide Count, Address, ReverseSkip, LastWithin;
      if x in msnToPvm {
        assert MapsBack(p, cost, Size(p), x, msnToPvm[x]);
        return msnToPvm[x];
      }
      if breakpoints == [] || x < breakpoints[0] {
        forall i: nat | IsOpcode(p, i)
          ensures x < Address(p, cost, i)
        {
          assert InTables(p, cost, i, pvmToMsn, msnToPvm);
          assert Address(p, cost, i) in breakpoints;
        }
        NothingWithin(p, cost, x, Size(p));
        return 0;
      }
      var pos := BisectRight(breakpoints, x);
      var closest := breakpoints[pos - 1];
      assert closest in breakpoints;
      r := msnToPvm[closest];
      assert MapsBack(p, cost, Size(p), closest, r);
      forall i: nat | IsOpcode(p, i)
        ensures Address(p, cost, i) <= closest || x < Address(p, cost, i)
      {
        assert InTables(p, cost, i, pvmToMsn, msnToPvm);
        assert Address(p, cost, i) in breakpoints;
      }
      ClosestIsLast(cost, x, closest, Size(p));
    }

    lemma NothingWithin(p: Program, cost: seq<nat>, x: int, n: nat)
      requires |cost| == Size(p) && n <= Size(p)
      requires forall i: nat :: IsOpcode(p, i) ==> x < Address(p, cost, i)
      ensures LastWithin(p, cost, x, n) == 0
    {}

    /** No recorded address lies between the closest one and x, so both map to the same position. */
    lemma {:induction false} ClosestIsLast(cost: seq<nat>, x: int, closest: nat, n: nat)
      requires |cost| == Size(p) && n <= Size(p) && closest <= x
      requires forall i: nat :: IsOpcode(p, i) ==> Address(p, cost, i) <= closest || x < Address(p, cost, i)
      ensures LastWithin(p, cost, x, n) == LastWithin(p, cost, closest, n)
      decreases n
    {
      if n > 0 && p.bitmask[n - 1] {
        assert IsOpcode(p, n - 1);
      }
      if n > 0 {
        ClosestIsLast(cost, x, closest, n - 1);
      }
    }

    /** Where the code of the instruction at or before pc begins; zero before the first opcode. */
    method PvmToMsnIndex(pc: int, ghost cost: seq<nat>) returns (r: nat)
      requires Valid() && Assembled(cost)
      ensures r == PvmToMsn(p, cost, pc)
    {
      var at := pc;
      if pc !in validOffsets {
        while at >= 0 && at !in validOffsets
          invariant at <= pc && OpcodeBelow(p, at) == OpcodeBelow(p, pc)
          decreases if at < 0 then 0 else at + 1
        {
          at := at - 1;
        }
        if at < 0 {
          return 0;
        }
      }
      CountGrows(p, at, Size(p));
      assert InTables(p, cost, at, pvmToMsn, msnToPvm);
      r := pvmToMsn[bitmaskIndex[at]];
    }
  }

  function Smaller(a: int, b: int): int { if a <= b then a else b }
}
