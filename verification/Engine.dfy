/** The block engine and the single-step machine over any instruction set, and the theorems that
    relate them. `Machine` gives the PVM's instruction set; `BlockInterpreter` proves that the
    imperative engine computes `Interp`. */
module Engine {
  import opened Wrappers

  datatype Status = Continue | Halt | Host(arg: int)

  /** `Crash` is any exception other than the two the engine handles. */
  datatype Error = Panic | PageFault(addr: int) | Crash

  datatype Config<S> = Config(pc: nat, state: S)

  /** A handler returns a status and the next configuration, or raises, leaving behind the state it
      had already changed. */
  datatype Outcome<S> = Next(status: Status, config: Config<S>) | Raised(error: Error, state: S)

  /** An instruction set as the engine sees it: fetching and decoding at a position, where an
      instruction sits and what follows it, whether it ends a block, and what its handler does.
      `entries` are the positions where a block may begin; nothing can be fetched from `limit` on. */
  datatype Semantics<!I(!new), !S(!new)> = Semantics(
    fetch: nat -> Option<I>, at: I -> nat, following: I -> nat, ends: I -> bool,
    run: (I, S) -> Outcome<S>, entries: set<int>, limit: nat)

  /** Instructions lie below the limit and are followed by later positions; one that does not end a
      block continues there; one that does continues there or at an entry. */
  ghost predicate Lawful<I(!new), S(!new)>(m: Semantics<I, S>)
  {
    && (forall pc: nat :: m.fetch(pc).Some? ==>
          pc < m.limit && m.at(m.fetch(pc).value) == pc && m.following(m.fetch(pc).value) > pc)
    && (forall i, s :: Lands(m, i, m.run(i, s)))
  }

  ghost predicate Lands<I(!new), S(!new)>(m: Semantics<I, S>, i: I, o: Outcome<S>)
  {
    o.Next? && o.status == Continue ==>
      o.config.pc == m.following(i) || (m.ends(i) && o.config.pc in m.entries)
  }

  /** Every instruction costs one unit of gas. */
  const GAS := 1

  // ------------------------------------------------------------ the single-step machine

  /** Fetch, decode and run the instruction at c.pc. */
  ghost function Step<I(!new), S(!new)>(m: Semantics<I, S>, c: Config<S>): Outcome<S>
  {
    match m.fetch(c.pc)
    case None => Raised(Crash, c.state)
    case Some(i) => m.run(i, c.state)
  }

  /** The configuration after n steps that all continued. */
  ghost function After<I(!new), S(!new)>(m: Semantics<I, S>, c: Config<S>, n: nat): Option<Config<S>>
    decreases n
  {
    if n == 0 then Some(c)
    else
      match Step(m, c)
      case Next(Continue, c') => After(m, c', n - 1)
      case _ => None
  }

  /** The n-th step from c is reached and yields o. */
  ghost predicate LastStep<I(!new), S(!new)>(m: Semantics<I, S>, c: Config<S>, n: int, o: Outcome<S>)
  {
    n >= 1 && After(m, c, n - 1).Some? && Step(m, After(m, c, n - 1).value) == o
  }

  lemma {:induction false} AfterAdd<I(!new), S(!new)>(m: Semantics<I, S>, c: Config<S>, j: nat, k: nat)
    requires After(m, c, j).Some?
    ensures After(m, c, j + k) == After(m, After(m, c, j).value, k)
    decreases j
  {
    if j > 0 {
      AfterAdd(m, Step(m, c).config, j - 1, k);
    }
  }

  lemma {:induction false} AfterPrefix<I(!new), S(!new)>(m: Semantics<I, S>, c: Config<S>, j: nat, k: nat)
    requires j <= k && After(m, c, k).Some?
    ensures After(m, c, j).Some?
    decreases j
  {
    if j > 0 {
      AfterPrefix(m, Step(m, c).config, j - 1, k - 1);
    }
  }

  lemma StepsThrough<I(!new), S(!new)>(m: Semantics<I, S>, c: Config<S>, n: nat, c': Config<S>)
    requires LastStep(m, c, n, Next(Continue, c'))
    ensures After(m, c, n) == Some(c')
  {
    AfterAdd(m, c, n - 1, 1);
    assert After(m, After(m, c, n - 1).value, 1) == After(m, c', 0);
  }

  lemma LastStepFrom<I(!new), S(!new)>(m: Semantics<I, S>, c: Config<S>, j: nat, d: Config<S>, n: int, o: Outcome<S>)
    requires After(m, c, j) == Some(d) && LastStep(m, d, n, o)
    ensures LastStep(m, c, j + n, o)
  {
    AfterAdd(m, c, j, n - 1);
  }

  // ------------------------------------------------------------ blocks

  /** The instructions from pc up to the first that ends a block; None where compiling raises. */
  ghost function Compile<I(!new), S(!new)>(m: Semantics<I, S>, pc: nat): (r: Option<seq<I>>)
    requires Lawful(m)
    ensures r.Some? ==> r.value != []
    decreases if pc < m.limit then m.limit - pc else 0
  {
    match m.fetch(pc)
    case None => None
    case Some(i) =>
      if m.ends(i) then Some([i])
      else
        match Compile(m, m.following(i))
        case None => None
        case Some(rest) => Some([i] + rest)
  }

  /** How a block run ends: it leaves with a status and a charge, or breaks off with an exception
      after `done` completed instructions. */
  datatype BlockRun<S> =
    | Leaves(status: Status, config: Config<S>, charge: nat)
    | Breaks(error: Error, state: S, done: nat)

  /** Runs the block from its i-th instruction on. */
  ghost function RunBlock<I(!new), S(!new)>(m: Semantics<I, S>, b: seq<I>, i: nat, s: S): (r: BlockRun<S>)
    requires i < |b|
    ensures r.Leaves? ==> i < r.charge <= |b| * GAS
    decreases |b| - i
  {
    match m.run(b[i], s)
    case Raised(e, s') => Breaks(e, s', i)
    case Next(status, c) =>
      if m.ends(b[i]) then Leaves(status, c, |b| * GAS)
      else if status != Continue then Leaves(status, c, i + 1)
      else if i + 1 == |b| then Leaves(status, c, |b| * GAS)
      else RunBlock(m, b, i + 1, c.state)
  }

  // ------------------------------------------------------------ the engine

  datatype ExitStatus = Halted | HostCall(arg: int) | OutOfGas | Faulted(error: Error)

  datatype Exit<S> = Exit(status: ExitStatus, config: Config<S>, gas: int)

  /** The engine's loop: run the block at c.pc, charge it, go on. A block that breaks off is neither
      charged nor advanced past, but its completed instructions keep their effects. */
  ghost function Interp<I(!new), S(!new)>(m: Semantics<I, S>, c: Config<S>, gas: int): Exit<S>
    requires Lawful(m)
    decreases if gas < 0 then 0 else gas + 1
  {
    match Compile(m, c.pc)
    case None => Exit(Faulted(Crash), c, gas)
    case Some(b) =>
      match RunBlock(m, b, 0, c.state)
      case Breaks(e, s, _) => Exit(Faulted(e), Config(c.pc, s), gas)
      case Leaves(status, c', charge) =>
        var rest := gas - charge;
        if rest < 0 then Exit(OutOfGas, c', rest)
        else
          match status
          case Halt => Exit(Halted, c', rest)
          case Host(x) => Exit(HostCall(x), c', rest)
          case Continue => Interp(m, c', rest)
  }

  /** A loop head: the configuration and the gas left when the loop comes round. */
  datatype Head<S> = Head(config: Config<S>, gas: int)

  ghost function Heads<I(!new), S(!new)>(m: Semantics<I, S>, c: Config<S>, gas: int): (hs: seq<Head<S>>)
    requires Lawful(m)
    ensures hs != [] && hs[0] == Head(c, gas)
    decreases if gas < 0 then 0 else gas + 1
  {
    match Compile(m, c.pc)
    case None => [Head(c, gas)]
    case Some(b) =>
      match RunBlock(m, b, 0, c.state)
      case Breaks(_, _, _) => [Head(c, gas)]
      case Leaves(status, c', charge) =>
        [Head(c, gas)] + (if gas - charge >= 0 && status == Continue then Heads(m, c', gas - charge) else [])
  }

  ghost function LastHead<I(!new), S(!new)>(m: Semantics<I, S>, c: Config<S>, gas: int): Head<S>
    requires Lawful(m)
  {
    var hs := Heads(m, c, gas);
    hs[|hs| - 1]
  }

  // ------------------------------------------------------------ a block is a run of steps

  /** A compiled block holds, in order, exactly the instructions stepping would decode. */
  lemma {:induction false} CompiledBlockShape<I(!new), S(!new)>(m: Semantics<I, S>, pc: nat, b: seq<I>)
    requires Lawful(m) && Compile(m, pc) == Some(b)
    ensures m.at(b[0]) == pc && m.ends(b[|b| - 1])
    ensures forall k :: 0 <= k < |b| ==> m.fetch(m.at(b[k])) == Some(b[k])
    ensures forall k :: 0 <= k < |b| - 1 ==> !m.ends(b[k]) && m.at(b[k + 1]) == m.following(b[k])
    decreases if pc < m.limit then m.limit - pc else 0
  {
    var i := m.fetch(pc).value;
    if !m.ends(i) {
      CompiledBlockShape(m, m.following(i), b[1..]);
    }
  }

  /** The instruction at c.pc ends a block. */
  ghost predicate EndsBlock<I(!new), S(!new)>(m: Semantics<I, S>, c: Config<S>)
  {
    m.fetch(c.pc).Some? && m.ends(m.fetch(c.pc).value)
  }

  /** A run of block b from its i-th instruction, told in steps from configuration c. */
  ghost predicate RunIsSteps<I(!new), S(!new)>(m: Semantics<I, S>, b: seq<I>, i: nat, c: Config<S>, run: BlockRun<S>)
  {
    match run
    case Leaves(status, c', charge) =>
      && LastStep(m, c, charge - i, Next(status, c'))
      && (status == Continue ==> EndsBlock(m, After(m, c, charge - i - 1).value))
    case Breaks(e, s, done) =>
      && done < |b| && LastStep(m, c, done - i + 1, Raised(e, s))
      && forall t: nat :: t < done - i ==> GoesOn(m, c, t)
  }

  /** The t-th configuration from c is reached, and its instruction does not end a block. */
  ghost predicate GoesOn<I(!new), S(!new)>(m: Semantics<I, S>, c: Config<S>, t: nat)
  {
    After(m, c, t).Some? && !EndsBlock(m, After(m, c, t).value)
  }

  /** Running a compiled block from its i-th instruction is stepping from there. */
  lemma {:induction false} BlockIsSteps<I(!new), S(!new)>(m: Semantics<I, S>, pc: nat, b: seq<I>, i: nat, s: S)
    requires Lawful(m) && Compile(m, pc) == Some(b) && i < |b|
    ensures RunIsSteps(m, b, i, Config(m.at(b[i]), s), RunBlock(m, b, i, s))
    decreases |b| - i
  {
    CompiledBlockShape(m, pc, b);
    var o := m.run(b[i], s);
    var c := Config(m.at(b[i]), s);
    assert Lands(m, b[i], o);
    AfterNone(m, c);
    assert LastStep(m, c, 1, o) by {
      assert Step(m, c) == o;
    }
    if o.Next? && o.status == Continue && i + 1 < |b| {
      var c' := o.config;
      assert c' == Config(m.at(b[i + 1]), c'.state);
      BlockIsSteps(m, pc, b, i + 1, c'.state);
      ShiftRun(m, b, i, c, c', RunBlock(m, b, i + 1, c'.state));
    }
  }

  lemma ShiftRun<I(!new), S(!new)>(m: Semantics<I, S>, b: seq<I>, i: nat, c: Config<S>, c': Config<S>, run: BlockRun<S>)
    requires Step(m, c) == Next(Continue, c') && RunIsSteps(m, b, i + 1, c', run) && !EndsBlock(m, c)
    ensures RunIsSteps(m, b, i, c, run)
  {
    assert After(m, c, 1) == Some(c') by {
      assert After(m, c', 0) == Some(c');
    }
    match run {
      case Leaves(status, d, charge) =>
        LastStepFrom(m, c, 1, c', charge - i - 1, Next(status, d));
        AfterAdd(m, c, 1, charge - i - 2);
      case Breaks(e, s, done) =>
        LastStepFrom(m, c, 1, c', done - i, Raised(e, s));
        forall t: nat | t < done - i
          ensures GoesOn(m, c, t)
        {
          if t > 0 {
            assert GoesOn(m, c', t - 1);
          }
        }
    }
  }

  // ------------------------------------------------------------ whole runs

  /** Head h lies on the stepper's path from c, as many steps on as gas has been charged. */
  ghost predicate OnPath<I(!new), S(!new)>(m: Semantics<I, S>, c: Config<S>, gas: int, h: Head<S>)
  {
    h.gas <= gas && After(m, c, gas - h.gas) == Some(h.config)
  }

  /** At every loop head the state and pc are those of stepping as many times as gas has been charged,
      and the step into every later head is that of an instruction ending a block. */
  lemma {:induction false} HeadsAreSteps<I(!new), S(!new)>(m: Semantics<I, S>, c: Config<S>, gas: int, k: nat)
    requires Lawful(m) && k < |Heads(m, c, gas)|
    ensures OnPath(m, c, gas, Heads(m, c, gas)[k])
    ensures k > 0 ==> 0 <= Heads(m, c, gas)[k].gas < gas
    ensures k > 0 ==> EntersBlock(m, c, gas - Heads(m, c, gas)[k].gas, Heads(m, c, gas)[k].config)
    decreases k
  {
    hide After, Heads, Compile, RunBlock;
    if k == 0 {
      AfterNone(m, c);
    } else {
      var c', charge := FirstBlock(m, c, gas);
      var h := Heads(m, c', gas - charge)[k - 1];
      assert Heads(m, c, gas)[k] == h;
      HeadsAreSteps(m, c', gas - charge, k - 1);
      AfterAdd(m, c, charge, gas - charge - h.gas);
      if k > 1 {
        LastStepFrom(m, c, charge, c', gas - charge - h.gas, Next(Continue, h.config));
        AfterAdd(m, c, charge, gas - charge - h.gas - 1);
      }
    }
  }

  /** The n-th step from c is that of an instruction ending a block, and continues at d. */
  ghost predicate EntersBlock<I(!new), S(!new)>(m: Semantics<I, S>, c: Config<S>, n: int, d: Config<S>)
  {
    LastStep(m, c, n, Next(Continue, d)) && EndsBlock(m, After(m, c, n - 1).value)
  }

  lemma AfterNone<I(!new), S(!new)>(m: Semantics<I, S>, c: Config<S>)
    ensures After(m, c, 0) == Some(c)
  {}

  /** What the first block does when the loop comes round again. */
  lemma FirstBlock<I(!new), S(!new)>(m: Semantics<I, S>, c: Config<S>, gas: int) returns (next: Config<S>, charge: nat)
    requires Lawful(m) && |Heads(m, c, gas)| > 1
    ensures charge > 0 && gas - charge >= 0 && After(m, c, charge) == Some(next)
    ensures Heads(m, c, gas) == [Head(c, gas)] + Heads(m, next, gas - charge)
    ensures Interp(m, c, gas) == Interp(m, next, gas - charge)
    ensures EntersBlock(m, c, charge, next)
  {
    hide After;
    var b := Compile(m, c.pc).value;
    CompiledBlockShape(m, c.pc, b);
    BlockIsSteps(m, c.pc, b, 0, c.state);
    var run := RunBlock(m, b, 0, c.state);
    next, charge := run.config, run.charge;
    StepsThrough(m, c, charge, next);
  }

  /** The engine ends as its last block does. */
  lemma {:induction false} EndsWithLastHead<I(!new), S(!new)>(m: Semantics<I, S>, c: Config<S>, gas: int)
    requires Lawful(m)
    ensures var h := LastHead(m, c, gas);
            Interp(m, c, gas) == Interp(m, h.config, h.gas) && Heads(m, h.config, h.gas) == [h]
    decreases if gas < 0 then 0 else gas + 1
  {
    hide After, Interp;
    if |Heads(m, c, gas)| > 1 {
      var c', charge := FirstBlock(m, c, gas);
      EndsWithLastHead(m, c', gas - charge);
      assert LastHead(m, c, gas) == LastHead(m, c', gas - charge);
    }
  }

  /** The meaning of an exit x of a run from c whose last block began at h. The gas used on HALT, HOST
      and OUT_OF_GAS is the number of steps taken, and the last of them produced the exit; the
      OUT_OF_GAS deficit is within the last block's charge. On a fault the gas used counts the steps of
      completed blocks, the pc is that of the faulting block, and the state is that of the faulting
      step, which lies inside that block. */
  ghost predicate ExitExplained<I(!new), S(!new)>(m: Semantics<I, S>, c: Config<S>, gas: int, h: Head<S>, x: Exit<S>)
    requires Lawful(m)
  {
    var used := gas - x.gas;
    var block := Compile(m, h.config.pc);
    match x.status
    case Halted => x.gas >= 0 && LastStep(m, c, used, Next(Halt, x.config))
    case HostCall(a) => x.gas >= 0 && LastStep(m, c, used, Next(Host(a), x.config))
    case OutOfGas =>
      && x.gas < 0 && block.Some? && x.gas >= h.gas - |block.value| * GAS
      && exists s :: LastStep(m, c, used, Next(s, x.config)) && (s == Continue ==> EntersBlock(m, c, used, x.config))
    case Faulted(e) =>
      && x.gas == h.gas && x.config.pc == h.config.pc
      && match block
         case None => e == Crash && x.config == h.config
         case Some(b) => exists n :: used < n <= used + |b| && BreaksAfter(m, c, used, n, e, x.config.state)
  }

  /** The n-th step raises, and no instruction from the used-th configuration on to it ends a block. */
  ghost predicate BreaksAfter<I(!new), S(!new)>(m: Semantics<I, S>, c: Config<S>, used: int, n: int, e: Error, s: S)
  {
    LastStep(m, c, n, Raised(e, s)) && forall t: nat :: used <= t < n - 1 ==> GoesOn(m, c, t)
  }

  /** Every exit of every run is explained by its last loop head, which the stepper also reaches. */
  lemma ExitMeaning<I(!new), S(!new)>(m: Semantics<I, S>, c: Config<S>, gas: int)
    requires Lawful(m)
    ensures OnPath(m, c, gas, LastHead(m, c, gas))
    ensures LastHead(m, c, gas).gas >= (if gas < 0 then gas else 0)
    ensures ExitExplained(m, c, gas, LastHead(m, c, gas), Interp(m, c, gas))
  {
    hide After, Step, Heads, Compile, RunBlock, Interp;
    var h := LastHead(m, c, gas);
    HeadsAreSteps(m, c, gas, |Heads(m, c, gas)| - 1);
    EndsWithLastHead(m, c, gas);
    LastBlock(m, c, gas, h);
  }

  /** A run with no further loop head exits as its only block does. */
  lemma LastBlock<I(!new), S(!new)>(m: Semantics<I, S>, c: Config<S>, gas: int, h: Head<S>)
    requires Lawful(m) && OnPath(m, c, gas, h) && Heads(m, h.config, h.gas) == [h]
    ensures ExitExplained(m, c, gas, h, Interp(m, h.config, h.gas))
  {
    hide After, Step, RunBlock;
    var d := h.config;
    var used := gas - h.gas;
    if Compile(m, d.pc).Some? {
      var b := Compile(m, d.pc).value;
      CompiledBlockShape(m, d.pc, b);
      BlockIsSteps(m, d.pc, b, 0, d.state);
      match RunBlock(m, b, 0, d.state) {
        case Breaks(e, s, done) =>
          LastStepFrom(m, c, used, d, done + 1, Raised(e, s));
          forall t: nat | used <= t < used + done
            ensures GoesOn(m, c, t)
          {
            assert GoesOn(m, d, t - used);
            AfterAdd(m, c, used, t - used);
          }
          assert BreaksAfter(m, c, used, used + done + 1, e, s);
        case Leaves(status, c', charge) =>
          LastStepFrom(m, c, used, d, charge, Next(status, c'));
          AfterAdd(m, c, used, charge - 1);
      }
    }
  }

  lemma LastStepUnique<I(!new), S(!new)>(m: Semantics<I, S>, c: Config<S>, j: int, o: Outcome<S>, k: int, o': Outcome<S>)
    requires LastStep(m, c, j, o) && LastStep(m, c, k, o')
    requires !(o.Next? && o.status == Continue)
    ensures k <= j && (k == j ==> o == o')
  {
    if k > j {
      AfterAdd(m, c, j - 1, 1);
      AfterPrefix(m, c, j, k - 1);
    }
  }

  lemma BothEnd<I(!new), S(!new)>(m: Semantics<I, S>, c: Config<S>, j: int, o: Outcome<S>, k: int, o': Outcome<S>)
    requires LastStep(m, c, j, o) && LastStep(m, c, k, o')
    requires !(o.Next? && o.status == Continue) && !(o'.Next? && o'.status == Continue)
    ensures j == k && o == o'
  {
    LastStepUnique(m, c, j, o, k, o');
    LastStepUnique(m, c, k, o', j, o);
  }

  /** Exit x, with `left` gas, is how outcome o of the stepper's last step ends a run. */
  ghost predicate EndsAs<S(!new)>(o: Outcome<S>, x: Exit<S>, left: int)
  {
    match o
    case Next(Halt, c) => x == Exit(Halted, c, left)
    case Next(Host(a), c) => x == Exit(HostCall(a), c, left)
    case Next(Continue, _) => false
    case Raised(e, s) => x.status == Faulted(e) && x.config.state == s
  }

  // ------------------------------------------------------------ gas

  /** Of n steps, those up to the last instruction that ends a block: the steps of completed blocks. */
  ghost function Completed<I(!new), S(!new)>(m: Semantics<I, S>, c: Config<S>, n: nat): (k: nat)
    requires After(m, c, n).Some?
    ensures k <= n
    decreases n
  {
    if n == 0 then 0
    else
      AfterPrefix(m, c, n - 1, n);
      if EndsBlock(m, After(m, c, n - 1).value) then n else Completed(m, c, n - 1)
  }

  /** No block is completed later. */
  lemma {:induction false} CompletedIsLast<I(!new), S(!new)>(m: Semantics<I, S>, c: Config<S>, n: nat, j: nat)
    requires After(m, c, n).Some? && j <= n
    ensures 0 < j && After(m, c, j - 1).Some? && EndsBlock(m, After(m, c, j - 1).value) ==> j <= Completed(m, c, n)
    ensures (forall t: nat :: j <= t < n ==> GoesOn(m, c, t)) ==> Completed(m, c, n) <= j
    decreases n
  {
    hide After, EndsBlock;
    if j < n {
      AfterPrefix(m, c, n - 1, n);
      CompletedIsLast(m, c, n - 1, j);
      assert (forall t: nat :: j <= t < n ==> GoesOn(m, c, t)) ==> GoesOn(m, c, n - 1);
    }
  }

  /** The gas lets the engine come to outcome o of the n-th step: it must cover all n steps, but for an
      exception, which is not charged, only those of the blocks completed before. */
  ghost predicate GasCovers<I(!new), S(!new)>(m: Semantics<I, S>, c: Config<S>, gas: int, n: nat, o: Outcome<S>)
    requires LastStep(m, c, n, o)
  {
    if o.Raised? then Completed(m, c, n - 1) <= gas else n <= gas
  }

  /** Whatever ends the stepper's run after n steps ends the engine's run in the same way, with the same
      state, whenever the gas covers them and compiling the last block does not raise. */
  lemma ExitsCoincide<I(!new), S(!new)>(m: Semantics<I, S>, c: Config<S>, gas: nat, n: nat, o: Outcome<S>)
    requires Lawful(m) && LastStep(m, c, n, o) && !(o.Next? && o.status == Continue)
    requires GasCovers(m, c, gas, n, o) && Compile(m, LastHead(m, c, gas).config.pc).Some?
    ensures EndsAs(o, Interp(m, c, gas), gas - n)
  {
    hide After, Step, Heads, Compile, RunBlock, Interp, EndsBlock, Completed;
    ExitMeaning(m, c, gas);
    var x := Interp(m, c, gas);
    var used := gas - x.gas;
    match x.status {
      case Halted => BothEnd(m, c, n, o, used, Next(Halt, x.config));
      case HostCall(a) => BothEnd(m, c, n, o, used, Next(Host(a), x.config));
      case OutOfGas =>
        OutOfGasMeans(m, c, gas, n, o);
        assert false;
      case Faulted(e) =>
        var h := LastHead(m, c, gas);
        var k :| used < k <= used + |Compile(m, h.config.pc).value| && BreaksAfter(m, c, used, k, e, x.config.state);
        BothEnd(m, c, n, o, k, Raised(e, x.config.state));
    }
  }

  /** The engine only runs out of gas when it does not cover the stepper's end. */
  lemma OutOfGasMeans<I(!new), S(!new)>(m: Semantics<I, S>, c: Config<S>, gas: nat, n: nat, o: Outcome<S>)
    requires Lawful(m) && LastStep(m, c, n, o) && !(o.Next? && o.status == Continue)
    requires Interp(m, c, gas).status == OutOfGas
    ensures !GasCovers(m, c, gas, n, o)
  {
    hide After, Step, Heads, Compile, RunBlock, Interp, EndsBlock, Completed;
    ExitMeaning(m, c, gas);
    var x := Interp(m, c, gas);
    var used := gas - x.gas;
    var s :| LastStep(m, c, used, Next(s, x.config)) && (s == Continue ==> EntersBlock(m, c, used, x.config));
    LastStepUnique(m, c, n, o, used, Next(s, x.config));
    if o.Raised? {
      if s != Continue {
        BothEnd(m, c, n, o, used, Next(s, x.config));
      }
      CompletedIsLast(m, c, n - 1, used);
    }
  }

  /** A fault the two agree on lies behind completed blocks that the gas covered. */
  lemma FaultIsCovered<I(!new), S(!new)>(m: Semantics<I, S>, c: Config<S>, gas: nat, n: nat, o: Outcome<S>)
    requires Lawful(m) && LastStep(m, c, n, o) && o.Raised? && o.error != Crash
    requires EndsAs(o, Interp(m, c, gas), gas - n)
    ensures GasCovers(m, c, gas, n, o)
  {
    hide After, Step, Heads, Compile, RunBlock, Interp, EndsBlock, Completed;
    ExitMeaning(m, c, gas);
    var x := Interp(m, c, gas);
    var h := LastHead(m, c, gas);
    var used := gas - x.gas;
    var k :| used < k <= used + |Compile(m, h.config.pc).value| && BreaksAfter(m, c, used, k, o.error, x.config.state);
    BothEnd(m, c, n, o, k, Raised(o.error, x.config.state));
    CompletedIsLast(m, c, n - 1, used);
  }

  /** Every block the run comes to compiles. */
  ghost predicate ReachedBlocksCompile<I(!new), S(!new)>(m: Semantics<I, S>, c: Config<S>, gas: int)
    requires Lawful(m)
  {
    forall h <- Heads(m, c, gas) :: Compile(m, h.config.pc).Some?
  }

  /** All blocks but the last compiled, or the run would not have come to the next. */
  lemma {:induction false} OnlyLastMatters<I(!new), S(!new)>(m: Semantics<I, S>, c: Config<S>, gas: int)
    requires Lawful(m)
    ensures ReachedBlocksCompile(m, c, gas) <==> Compile(m, LastHead(m, c, gas).config.pc).Some?
    decreases if gas < 0 then 0 else gas + 1
  {
    hide Compile, RunBlock, Heads, Interp, After, Step;
    var hs := Heads(m, c, gas);
    if |hs| == 1 {
      assert hs == [Head(c, gas)];
    } else {
      var c', charge := FirstBlock(m, c, gas);
      OnlyLastMatters(m, c', gas - charge);
      FirstCompiles(m, c, gas);
      SplitHeads(m, c, gas, Heads(m, c', gas - charge));
    }
  }

  lemma SplitHeads<I(!new), S(!new)>(m: Semantics<I, S>, c: Config<S>, gas: int, rest: seq<Head<S>>)
    requires Lawful(m) && rest != [] && Heads(m, c, gas) == [Head(c, gas)] + rest && Compile(m, c.pc).Some?
    ensures ReachedBlocksCompile(m, c, gas) <==> forall h <- rest :: Compile(m, h.config.pc).Some?
    ensures LastHead(m, c, gas) == rest[|rest| - 1]
  {
    hide Compile, Heads;
    var hs := Heads(m, c, gas);
    forall h | h in rest
      ensures h in hs
    {}
  }

  lemma FirstCompiles<I(!new), S(!new)>(m: Semantics<I, S>, c: Config<S>, gas: int)
    requires Lawful(m) && |Heads(m, c, gas)| > 1
    ensures Compile(m, c.pc).Some?
  {
    hide Compile, RunBlock;
  }

  /** Whatever ends the stepper's run, other than an unforeseen exception, ends the engine's run in the
      same way exactly when the gas covers it and every block the engine comes to compiles. */
  lemma ExitsCoincideExactly<I(!new), S(!new)>(m: Semantics<I, S>, c: Config<S>, gas: nat, n: nat, o: Outcome<S>)
    requires Lawful(m) && LastStep(m, c, n, o) && !(o.Next? && o.status == Continue)
    requires !(o.Raised? && o.error == Crash)
    ensures EndsAs(o, Interp(m, c, gas), gas - n) <==> GasCovers(m, c, gas, n, o) && ReachedBlocksCompile(m, c, gas)
  {
    hide After, Step, Heads, Compile, RunBlock, LastStep, Interp, Completed;
    OnlyLastMatters(m, c, gas);
    var h := LastHead(m, c, gas);
    if Compile(m, h.config.pc).Some? {
      if GasCovers(m, c, gas, n, o) {
        ExitsCoincide(m, c, gas, n, o);
      } else if o.Raised? && EndsAs(o, Interp(m, c, gas), gas - n) {
        FaultIsCovered(m, c, gas, n, o);
      } else {
        ExitMeaning(m, c, gas);
      }
    } else {
      EndsWithLastHead(m, c, gas);
      NoBlock(m, h.config, h.gas);
    }
  }

  lemma NoBlock<I(!new), S(!new)>(m: Semantics<I, S>, c: Config<S>, gas: int)
    requires Lawful(m) && Compile(m, c.pc).None?
    ensures Interp(m, c, gas) == Exit(Faulted(Crash), c, gas)
  {}

  /** The outer loop comes round at most gas + 1 times. */
  lemma {:induction false} LoopBound<I(!new), S(!new)>(m: Semantics<I, S>, c: Config<S>, gas: nat)
    requires Lawful(m)
    ensures |Heads(m, c, gas)| <= gas + 1
    decreases gas
  {
    hide After, Step, Heads, Compile, RunBlock, Interp;
    if |Heads(m, c, gas)| > 1 {
      var c', charge := FirstBlock(m, c, gas);
      LoopBound(m, c', gas - charge);
    }
  }
}
