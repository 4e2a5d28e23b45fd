/** Whole histories: any sequence of requests to the paged memory is answered as the flat memory, which
    checks every page and caches nothing, answers it, whatever the hot page did in between; any sequence
    to the C memory is answered by its own specification; and the two agree on histories without faults. */
module MemoryTraces {
  import opened Words
  import opened Wrappers
  import opened FlatMemory
  import P = PagedMemory
  import C = CyMemory

  datatype Request =
    | AskRead(address: nat, length: nat)
    | AskWrite(address: nat, data: seq<byte>)
    | AskZero(startPage: nat, numPages: nat)
    | AskAlter(start: nat, length: nat, access: Access)
    | AskAccessible(address: nat, length: nat, access: Access)

  datatype Answer = Fetch(fetched: Fetched) | Stored(fault: Option<int>) | Done | Accessible(ok: bool)

  /** Which memory answers. */
  datatype Kind = Paged | Cy

  /** One request against the flat memory. */
  ghost function Answered(m: Flat, q: Request): (r: (Flat, Answer))
    requires WellFormed(m)
    ensures WellFormed(r.0)
  {
    match q
    case AskRead(a, n) => (m, Fetch(Read(m, a, n)))
    case AskWrite(a, data) => var (m', fault) := Write(m, a, data); (m', Stored(fault))
    case AskZero(pg, n) => (ZeroPages(m, pg, n), Done)
    case AskAlter(a, n, access) => (Alter(m, a, n, access), Done)
    case AskAccessible(a, n, access) => (m, Accessible(IsAccessible(m, a, n, access)))
  }

  /** Requests whose arguments the C signatures can hold. */
  predicate Typed(q: Request)
  {
    match q
    case AskRead(a, n) => a < TWO32 && n < TWO31
    case AskWrite(a, data) => a < TWO32 && |data| < TWO31
    case AskZero(pg, n) => pg < TWO32 && n < TWO32
    case AskAlter(a, n, _) => a < TWO32 && n < TWO32
    case AskAccessible(a, n, _) => a < TWO32 && n < TWO32
  }

  /** One request as the C memory answers it: whole ranges are checked first, faults report the start,
      page counts wrap at 2^32. */
  ghost function AnsweredByC(m: Flat, q: Request): (r: (Flat, Answer))
    requires WellFormed(m) && Typed(q)
    ensures WellFormed(r.0)
  {
    match q
    case AskRead(a, n) => (m, Fetch(C.ReadOrStart(m, a, n)))
    case AskWrite(a, data) => var (m', fault) := C.WriteAllOrNothing(m, a, data); (m', Stored(fault))
    case AskZero(pg, n) => (ZeroPages(m, pg, if pg + n < TWO32 then n else 0), Done)
    case AskAlter(a, n, access) => (C.AlterVisited(m, C.FirstOf(a), C.CountOf(a, n), access), Done)
    case AskAccessible(a, n, access) =>
      (m, Accessible(n == 0 || C.AllVisited(m, C.FirstOf(a), C.CountOf(a, n), access == WRITE)))
  }

  ghost function AnsweredBy(k: Kind, m: Flat, q: Request): (r: (Flat, Answer))
    requires WellFormed(m) && (k == Cy ==> Typed(q))
    ensures WellFormed(r.0)
  {
    if k == Cy then AnsweredByC(m, q) else Answered(m, q)
  }

  ghost predicate Fits(k: Kind, qs: seq<Request>)
  {
    k == Cy ==> forall q <- qs :: Typed(q)
  }

  ghost function History(k: Kind, m: Flat, qs: seq<Request>): (r: (Flat, seq<Answer>))
    requires WellFormed(m) && Fits(k, qs)
    ensures WellFormed(r.0) && |r.1| == |qs|
    decreases |qs|
  {
    if qs == [] then (m, [])
    else
      var (before, answers) := History(k, m, qs[..|qs| - 1]);
      var (after, answer) := AnsweredBy(k, before, qs[|qs| - 1]);
      (after, answers + [answer])
  }

  lemma NoHistory(k: Kind, m: Flat)
    requires WellFormed(m)
    ensures History(k, m, []) == (m, [])
  {}

  lemma HistorySnoc(k: Kind, m: Flat, qs: seq<Request>, q: Request)
    requires WellFormed(m) && Fits(k, qs + [q])
    ensures Fits(k, qs) && (k == Cy ==> Typed(q))
    ensures var (before, answers) := History(k, m, qs);
            History(k, m, qs + [q]) == (AnsweredBy(k, before, q).0, answers + [AnsweredBy(k, before, q).1])
  {
    hide AnsweredBy, Typed;
    assert (qs + [q])[..|qs|] == qs;
    assert q in qs + [q];
    forall r | r in qs
      ensures r in qs + [q]
    {}
  }

  // ------------------------------------------------------------ serving

  method ServePaged(memory: P.Memory, q: Request) returns (r: Answer)
    requires memory.Valid()
    modifies memory.Repr()
    ensures memory.Valid() && fresh(memory.Repr() - old(memory.Repr()))
    ensures (memory.flat, r) == Answered(old(memory.flat), q)
  {
    match q {
      case AskRead(a, n) => var f := memory.Read(a, n); r := Fetch(f);
      case AskWrite(a, data) => var f := memory.Write(a, data); r := Stored(f);
      case AskZero(pg, n) => memory.ZeroMemoryRange(pg, n); r := Done;
      case AskAlter(a, n, access) => memory.AlterAccessibility(a, n, access); r := Done;
      case AskAccessible(a, n, access) => var ok := memory.IsAccessible(a, n, access); r := Accessible(ok);
    }
  }

  /** Serves a whole history. */
  method ReplayPaged(memory: P.Memory, qs: seq<Request>) returns (answers: seq<Answer>)
    requires memory.Valid()
    modifies memory.Repr()
    ensures memory.Valid() && fresh(memory.Repr() - old(memory.Repr()))
    ensures (memory.flat, answers) == History(Paged, old(memory.flat), qs)
  {
    hide Answered, History;
    answers := [];
    ghost var m := memory.flat;
    NoHistory(Paged, m);
    for k := 0 to |qs|
      invariant memory.Valid() && fresh(memory.Repr() - old(memory.Repr()))
      invariant (memory.flat, answers) == History(Paged, m, qs[..k])
    {
      var r := ServePaged(memory, qs[k]);
      answers := answers + [r];
      HistorySnoc(Paged, m, qs[..k], qs[k]);
      assert qs[..k + 1] == qs[..k] + [qs[k]];
    }
    assert qs[..|qs|] == qs;
  }

  method ServeC(memory: C.Memory, q: Request) returns (r: Answer)
    requires memory.Valid() && Typed(q)
    modifies memory, memory.rBits, memory.wBits, memory.Stored()
    ensures memory.Valid() && fresh(memory.Stored() - old(memory.Stored()))
    ensures (memory.flat, r) == AnsweredByC(old(memory.flat), q)
  {
    hide FirstFault, C.CountOf, C.AllVisited;
    match q {
      case AskRead(a, n) => var f := memory.Read(a, n); r := Fetch(f);
      case AskWrite(a, data) => var f := memory.Write(a, data); r := Stored(f);
      case AskZero(pg, n) => memory.ZeroMemoryRange(pg, n); r := Done;
      case AskAlter(a, n, access) => memory.AlterAccessibility(a, n, access); r := Done;
      case AskAccessible(a, n, access) => var ok := memory.IsAccessible(a, n, access == WRITE); r := Accessible(ok);
    }
  }

  /** Any history, faults and wrapping ranges included, is answered as the C memory's specification
      answers it. */
  method ReplayC(memory: C.Memory, qs: seq<Request>) returns (answers: seq<Answer>)
    requires memory.Valid() && forall q <- qs :: Typed(q)
    modifies memory, memory.rBits, memory.wBits, memory.Stored()
    ensures memory.Valid() && fresh(memory.Stored() - old(memory.Stored()))
    ensures (memory.flat, answers) == History(Cy, old(memory.flat), qs)
  {
    hide AnsweredByC, History, Typed;
    answers := [];
    ghost var m := memory.flat;
    NoHistory(Cy, m);
    for k := 0 to |qs|
      invariant memory.Valid() && fresh(memory.Stored() - old(memory.Stored()))
      invariant Fits(Cy, qs[..k]) && (memory.flat, answers) == History(Cy, m, qs[..k])
    {
      assert qs[..k + 1] == qs[..k] + [qs[k]];
      assert Typed(qs[k]);
      var r := ServeC(memory, qs[k]);
      answers := answers + [r];
      HistorySnoc(Cy, m, qs[..k], qs[k]);
    }
    assert qs[..|qs|] == qs;
  }

  // ------------------------------------------------------------ where the two memories agree

  /** Requests inside the address space, on real access kinds. */
  predicate Plain(q: Request)
  {
    Typed(q)
    && match q
       case AskZero(pg, n) => pg + n < TWO32
       case AskAlter(a, n, _) => 0 < n && a + n <= TWO32
       case AskAccessible(a, n, access) => a + n <= TWO32 && access != NULL
       case _ => true
  }

  predicate Faultless(r: Answer)
  {
    match r
    case Fetch(f) => f.Bytes?
    case Stored(fault) => fault == None
    case _ => true
  }

  lemma AccessibleIsNoFault(m: Flat, a: nat, n: nat, access: Access)
    requires WellFormed(m) && access != NULL && a + n <= TWO32
    ensures IsAccessible(m, a, n, access) <==> n == 0 || FirstFault(m, a, n, access == WRITE) == None
  {
    if n > 0 {
      AccessibleMeansAllowed(m, a, n, access == WRITE);
      FaultInRange(m, a, n, access == WRITE);
    }
  }

  lemma NoFaultInRead(m: Flat, a: nat, n: nat)
    requires WellFormed(m) && a < TWO32
    ensures n > 0 && Read(m, a, n).Bytes? ==> FirstFault(m, a, n, false) == None
  {
    hide FirstFault;
    assert a % TWO32 == a;
  }

  lemma NoFaultInWrite(m: Flat, a: nat, data: seq<byte>)
    requires WellFormed(m) && a < TWO32
    ensures Write(m, a, data).1 == None ==> FirstFault(m, a, |data|, true) == None
  {
    hide FirstFault;
    assert a % TWO32 == a;
  }

  /** Where the flat memory answers without a fault, the C memory answers the same. */
  lemma SameAnswer(m: Flat, q: Request)
    requires WellFormed(m) && Plain(q) && Faultless(Answered(m, q).1)
    ensures AnsweredByC(m, q) == Answered(m, q)
  {
    hide FirstFault, C.CountOf, C.AllVisited;
    match q {
      case AskRead(a, n) => NoFaultInRead(m, a, n);
      case AskWrite(a, data) => NoFaultInWrite(m, a, data);
      case AskZero(pg, n) =>
      case AskAlter(a, n, access) => C.AlterInside(m, a, n, access);
      case AskAccessible(a, n, access) => SameTest(m, a, n, access);
    }
  }

  lemma SameTest(m: Flat, a: nat, n: nat, access: Access)
    requires WellFormed(m) && a < TWO32 && n < TWO32 && a + n <= TWO32 && access != NULL
    ensures (n == 0 || C.AllVisited(m, C.FirstOf(a), C.CountOf(a, n), access == WRITE)) <==> IsAccessible(m, a, n, access)
  {
    hide FirstFault, C.CountOf, C.AllVisited;
    AccessibleIsNoFault(m, a, n, access);
    if n > 0 {
      C.LongCheckIsExact(m, a, n, access == WRITE);
    }
  }

  /** No request of the history faults. */
  ghost predicate AllFaultless(m: Flat, qs: seq<Request>)
    requires WellFormed(m)
  {
    forall r <- History(Paged, m, qs).1 :: Faultless(r)
  }

  lemma FaultlessPrefix(m: Flat, qs: seq<Request>, q: Request)
    requires WellFormed(m) && AllFaultless(m, qs + [q])
    ensures AllFaultless(m, qs) && Faultless(Answered(History(Paged, m, qs).0, q).1)
  {
    hide Answered, History;
    HistorySnoc(Paged, m, qs, q);
    var (before, answers) := History(Paged, m, qs);
    var last := Answered(before, q).1;
    forall r | r in answers
      ensures Faultless(r)
    {
      assert r in answers + [last];
    }
    assert last in answers + [last];
  }

  /** Any history inside the address space that the flat memory, and so the paged one, serves without a
      fault, the C memory serves with the same answers, contents and permissions. */
  lemma {:induction false} HistoriesAgree(m: Flat, qs: seq<Request>)
    requires WellFormed(m) && (forall q <- qs :: Plain(q)) && AllFaultless(m, qs)
    ensures Fits(Cy, qs) && History(Cy, m, qs) == History(Paged, m, qs)
    decreases |qs|
  {
    hide Answered, AnsweredByC, History;
    if qs == [] {
      NoHistory(Cy, m);
      NoHistory(Paged, m);
    } else {
      var front, q := qs[..|qs| - 1], qs[|qs| - 1];
      assert qs == front + [q] && q in qs;
      FaultlessPrefix(m, front, q);
      HistoriesAgree(m, front);
      HistorySnoc(Cy, m, front, q);
      HistorySnoc(Paged, m, front, q);
      SameAnswer(History(Paged, m, front).0, q);
    }
  }
}
