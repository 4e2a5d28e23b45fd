/** The interpreter's handlers on the live register list and the paged memory. Each does exactly what
    `Exec` says, including what it leaves behind when it raises. */
module Handlers {
  import opened Words
  import opened Wrappers
  import opened Isa
  import opened Programs
  import opened Engine
  import opened Machine
  import opened BitTricks
  import FM = FlatMemory
  import PM = PagedMemory

  /** What a handler returns, or the exception it raises. */
  datatype Returned = Ret(status: Status, pc: nat) | Err(error: Error)

  ghost predicate Matches(o: Outcome<State>, r: Returned, regs: seq<nat>, mem: FM.Flat)
  {
    match o
    case Next(status, c) => r == Ret(status, c.pc) && regs == c.state.regs && mem == c.state.mem
    case Raised(e, s) => r == Err(e) && regs == s.regs && mem == s.mem
  }

  // ------------------------------------------------------------ memory access

  method LoadInto(i: Inst, rd: RegIndex, address: int, size: nat, signed: bool, viaChi: bool,
                  registers: array<nat>, memory: PM.Memory) returns (r: Returned)
    requires registers.Length == REGISTERS && memory.Valid() && size <= 8
    modifies registers, memory`hotNum, memory`hotData, memory`hotWritable
    ensures memory.Valid()
    ensures Matches(Loading(i, rd, address, size, signed, old(registers[..]), old(memory.flat)), r, registers[..], memory.flat)
  {
    hide Chi, ZInv, Signed;
    var fetched := memory.Read(address, size);
    match fetched {
      case Fault(x) => return Err(PageFault(x));
      case Bytes(data) =>
        ReadSize(memory.flat, address, size);
        var value := FromLe(data);
        ChiSignExtends(value, size);
        ZInvOf64(Signed(value, size));
        registers[rd] := if !signed then value else if viaChi then Chi(value, size) else ZInv(Signed(value, size), 8);
        return Ret(Continue, Following(i));
    }
  }

  lemma ReadSize(m: Mem, address: int, size: nat)
    ensures FM.Read(m, address, size).Bytes? ==> |FM.Read(m, address, size).data| == size
  {
    FM.FaultInRange(m, address % TWO32, size, false);
  }

  method StoreFrom(i: Inst, address: int, value: nat, size: nat, registers: array<nat>, memory: PM.Memory)
    returns (r: Returned)
    requires registers.Length == REGISTERS && memory.Valid()
    modifies memory`pages, memory`hotNum, memory`hotData, memory`hotWritable, memory`flat, memory.Stored()
    ensures memory.Valid() && fresh(memory.Stored() - old(memory.Stored()))
    ensures registers[..] == old(registers[..])
    ensures Matches(Storing(i, address, value, size, registers[..], old(memory.flat)), r, registers[..], memory.flat)
  {
    ToLeTruncates(value, size);
    ghost var before := registers[..];
    var fault := memory.Write(address, ToLe(value % Pow2(8 * size), size));
    assert registers[..] == before;
    if fault.Some? {
      return Err(PageFault(fault.value));
    }
    return Ret(Continue, Following(i));
  }

  /** Encoding in n bytes keeps the value modulo 2^(8n). */
  lemma {:induction false} ToLeTruncates(value: nat, n: nat)
    ensures value % Pow2(8 * n) >= 0 && ToLe(value % Pow2(8 * n), n) == ToLe(value, n)
    decreases n
  {
    if n > 0 {
      Pow2Values();
      Pow2Add(8, 8 * (n - 1));
      ModByByte(value, Pow2(8 * (n - 1)));
      ToLeTruncates(value / 256, n - 1);
    }
  }

  lemma ModByByte(v: nat, p: nat)
    requires p > 0
    ensures v % (256 * p) >= 0
    ensures (v % (256 * p)) % 256 == v % 256 && (v % (256 * p)) / 256 == (v / 256) % p
  {
    QuotRem(v / 256, p);
    QuotIsDiv(v / 256, p);
    var q, r := Quot(v / 256, p), Rem(v / 256, p);
    MulAssoc(q, 256, p);
    MulSwap(q, 256, p);
    DivModUnique(v, 256 * p, q, 256 * r + v % 256);
  }

  method GrowHeap(i: Inst, registers: array<nat>, memory: PM.Memory) returns (r: Returned)
    requires registers.Length == REGISTERS && memory.Valid()
    modifies registers, memory`hotNum, memory`hotData, memory`hotWritable, memory`flat, memory`heapBreak,
             memory.rPages, memory.wPages
    ensures memory.Valid()
    ensures var mem, ra := old(memory.flat), old(registers[..])[i.args.ra];
            var heap := mem.heapBreak + ra;
            Matches(Go(i, old(registers[..])[i.args.rd := heap], FM.Alter(mem, mem.heapBreak, ra, FM.WRITE).(heapBreak := heap)),
                    r, registers[..], memory.flat)
  {
    var req := registers[i.args.ra];
    ghost var before := registers[..];
    memory.AlterAccessibility(memory.heapBreak, req, FM.WRITE);
    memory.SetHeapBreak(memory.heapBreak + req);
    assert registers[..] == before;
    registers[i.args.rd] := memory.heapBreak;
    return Ret(Continue, Following(i));
  }
}
