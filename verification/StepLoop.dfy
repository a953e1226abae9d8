/** The interpreter loops: one instruction at a time, and threaded through the instruction cache. */
module StepLoop {
  import opened Words

  const ICACHE_ENTRIES := 1024
  const NO_TAG: u64 := 0xFFFF_FFFF_FFFF_FFFF

  function IcacheIndex(addr: u64): nat {
    addr / 4 % ICACHE_ENTRIES
  }

  datatype Entry<I> = Entry(tag: u64, data: I)

  /** Translating and decoding at an address. A tracer may forbid keeping the result. */
  datatype Fetched<W, I> = Fetched(world: W, insn: I, keep: bool) | FetchFault(world: W)

  /** Executing one instruction, which may flush the cache on the way, even when it traps. */
  datatype Executed<W> = Next(world: W, pc: u64, flush: bool) | ExecFault(world: W, flush: bool)

  /** What the loops call: everything but the cache, the program counter and the counting is in W. */
  datatype Core<!W, !I> = Core(fetch: (W, u64) -> Fetched<W, I>, exec: (W, I, u64) -> Executed<W>)

  datatype Cpu<W, I> = Cpu(world: W, cache: seq<Entry<I>>, pc: u64)

  datatype Stop = Done | FetchTrap | ExecTrap

  // --- One instruction ---

  datatype Accessed<W, I> = Instruction(cpu: Cpu<W, I>, insn: I) | NoInstruction(cpu: Cpu<W, I>)

  /** access_icache: a hit costs nothing, a miss fetches into the entry it maps to. */
  function Access<W, I>(core: Core<W, I>, c: Cpu<W, I>): Accessed<W, I>
    requires |c.cache| == ICACHE_ENTRIES
  {
    var idx := IcacheIndex(c.pc);
    if c.cache[idx].tag == c.pc then Instruction(c, c.cache[idx].data)
    else
      match core.fetch(c.world, c.pc)
      case FetchFault(world) => NoInstruction(c.(world := world))
      case Fetched(world, insn, keep) =>
        Instruction(c.(world := world, cache := c.cache[idx := Entry(if keep then c.pc else NO_TAG, insn)]), insn)
  }

  function Flushed<I>(cache: seq<Entry<I>>, flush: bool): (r: seq<Entry<I>>)
    ensures |r| == |cache|
    ensures forall i :: 0 <= i < |r| ==> r[i] == if flush then cache[i].(tag := NO_TAG) else cache[i]
  {
    if flush then seq(|cache|, i requires 0 <= i < |cache| => cache[i].(tag := NO_TAG)) else cache
  }

  function Execute<W, I>(core: Core<W, I>, c: Cpu<W, I>, insn: I): (Cpu<W, I>, Stop) {
    match core.exec(c.world, insn, c.pc)
    case Next(world, pc, flush) => (Cpu(world, Flushed(c.cache, flush), pc), Done)
    case ExecFault(world, flush) => (Cpu(world, Flushed(c.cache, flush), c.pc), ExecTrap)
  }

  function StepOne<W, I>(core: Core<W, I>, c: Cpu<W, I>): (r: (Cpu<W, I>, Stop))
    requires |c.cache| == ICACHE_ENTRIES
    ensures |r.0.cache| == ICACHE_ENTRIES
  {
    match Access(core, c)
    case NoInstruction(d) => (d, FetchTrap)
    case Instruction(d, insn) => Execute(core, d, insn)
  }

  /** Up to n instructions, one at a time: the final state, how many completed, and why it stopped. */
  function RunOne<W, I>(core: Core<W, I>, c: Cpu<W, I>, n: nat): (Cpu<W, I>, nat, Stop)
    requires |c.cache| == ICACHE_ENTRIES
    decreases n
  {
    if n == 0 then (c, 0, Done)
    else
      var (d, stop) := StepOne(core, c);
      if stop != Done then (d, 0, stop)
      else
        Completed(RunOne(core, d, n - 1))
  }

  /** The same through the threaded loop: an access, then the entry it leads to. */
  function RunThreaded<W, I>(core: Core<W, I>, c: Cpu<W, I>, n: nat): (Cpu<W, I>, nat, Stop)
    requires |c.cache| == ICACHE_ENTRIES
    decreases n, 1
  {
    if n == 0 then (c, 0, Done)
    else
      match Access(core, c)
      case NoInstruction(d) => (d, 0, FetchTrap)
      case Instruction(d, _) => RunEntry(core, d, IcacheIndex(c.pc), n)
  }

  /** Execute entry i, then fall into the next one if its tag is the new pc. */
  function RunEntry<W, I>(core: Core<W, I>, c: Cpu<W, I>, i: nat, n: nat): (Cpu<W, I>, nat, Stop)
    requires |c.cache| == ICACHE_ENTRIES && i < ICACHE_ENTRIES && n > 0
    decreases n, 0
  {
    var step := Execute(core, c, c.cache[i].data);
    if step.1 != Done then (step.0, 0, step.1)
    else if n == 1 || i == ICACHE_ENTRIES - 1 || step.0.cache[i + 1].tag != step.0.pc then
      Completed(RunThreaded(core, step.0, n - 1))
    else Completed(RunEntry(core, step.0, i + 1, n - 1))
  }

  /** One more completed instruction before a run. */
  function Completed<W, I>(run: (Cpu<W, I>, nat, Stop)): (Cpu<W, I>, nat, Stop) {
    (run.0, run.1 + 1, run.2)
  }

  /** What the debug loop counts: an instruction that traps as well. */
  function DebugCount<W, I>(run: (Cpu<W, I>, nat, Stop)): nat {
    run.1 + if run.2 == Done then 0 else 1
  }

  /** What the threaded loop counts: an instruction that traps in execution, with the checker on. */
  function ThreadedCount<W, I>(run: (Cpu<W, I>, nat, Stop), checker: bool): nat {
    run.1 + if checker && run.2 == ExecTrap then 1 else 0
  }

  lemma CountsAre<W, I>(run: (Cpu<W, I>, nat, Stop), checker: bool)
    ensures DebugCount(run) <= run.1 + if run.2 == Done then 0 else 1
    ensures ThreadedCount(run, checker) <= run.1 + if run.2 == Done then 0 else 1
  {
  }

  /** No more than n instructions complete, and fewer when one traps. */
  lemma {:induction false} RunOneBound<W, I>(core: Core<W, I>, c: Cpu<W, I>, n: nat)
    requires |c.cache| == ICACHE_ENTRIES
    ensures var (_, k, stop) := RunOne(core, c, n); if stop == Done then k == n else k < n
    decreases n
  {
    if n > 0 {
      var (d, stop) := StepOne(core, c);
      if stop == Done {
        RunOneBound(core, d, n - 1);
      }
    }
  }

  lemma {:induction false} RunThreadedBound<W, I>(core: Core<W, I>, c: Cpu<W, I>, n: nat)
    requires |c.cache| == ICACHE_ENTRIES
    ensures var (_, k, stop) := RunThreaded(core, c, n); if stop == Done then k == n else k < n
    decreases n, 1
  {
    if n > 0 && Access(core, c).Instruction? {
      RunEntryBound(core, Access(core, c).cpu, IcacheIndex(c.pc), n);
    }
  }

  lemma {:induction false} RunEntryBound<W, I>(core: Core<W, I>, c: Cpu<W, I>, i: nat, n: nat)
    requires |c.cache| == ICACHE_ENTRIES && i < ICACHE_ENTRIES && n > 0
    ensures var (_, k, stop) := RunEntry(core, c, i, n); if stop == Done then k == n else k < n
    decreases n, 0
  {
    var (d, stop) := Execute(core, c, c.cache[i].data);
    if stop == Done {
      if n == 1 || i == ICACHE_ENTRIES - 1 || d.cache[i + 1].tag != d.pc {
        RunThreadedBound(core, d, n - 1);
      } else {
        RunEntryBound(core, d, i + 1, n - 1);
      }
    }
  }

  // --- What makes falling through right ---

  /** A tag that can match sits where its address maps. */
  ghost predicate CacheOk<I>(cache: seq<Entry<I>>) {
    && |cache| == ICACHE_ENTRIES
    && forall i :: 0 <= i < ICACHE_ENTRIES && cache[i].tag != NO_TAG ==> IcacheIndex(cache[i].tag) == i
  }

  lemma AccessKeepsCache<W, I>(core: Core<W, I>, c: Cpu<W, I>)
    requires CacheOk(c.cache)
    ensures CacheOk(Access(core, c).cpu.cache)
  {
  }

  /** Going on with entry i is what an access would do: always at an ordinary pc, and at the one that
      marks empty entries when that pc's own entry is empty and holds the same instruction. */
  ghost predicate FallsRight<I>(cache: seq<Entry<I>>, i: nat, pc: u64)
    requires |cache| == ICACHE_ENTRIES && i < ICACHE_ENTRIES
  {
    pc != NO_TAG || (cache[ICACHE_ENTRIES - 1].tag == NO_TAG && cache[ICACHE_ENTRIES - 1].data == cache[i].data)
  }

  /** The entry the threaded loop falls into is the one an access would find, at no cost, exactly then. */
  lemma FallThroughHits<W, I>(core: Core<W, I>, c: Cpu<W, I>, i: nat)
    requires CacheOk(c.cache) && i < ICACHE_ENTRIES && c.cache[i].tag == c.pc
    ensures Access(core, c) == Instruction(c, c.cache[i].data) <==> FallsRight(c.cache, i, c.pc)
  {
    NoTagIndex();
    if c.pc == NO_TAG && c.cache[ICACHE_ENTRIES - 1].tag != NO_TAG && Access(core, c).Instruction? {
      assert Access(core, c).cpu.cache[ICACHE_ENTRIES - 1].tag == NO_TAG;
    }
  }

  lemma NoTagIndex()
    ensures IcacheIndex(NO_TAG) == ICACHE_ENTRIES - 1
  {
  }

  /** Every fall from one entry into the next, in a threaded run, goes right. */
  ghost predicate RightFalls<W, I>(core: Core<W, I>, c: Cpu<W, I>, n: nat)
    requires |c.cache| == ICACHE_ENTRIES
    decreases n, 1
  {
    n > 0 ==>
      match Access(core, c)
      case NoInstruction(_) => true
      case Instruction(d, _) => EntryFalls(core, d, IcacheIndex(c.pc), n)
  }

  ghost predicate EntryFalls<W, I>(core: Core<W, I>, c: Cpu<W, I>, i: nat, n: nat)
    requires |c.cache| == ICACHE_ENTRIES && i < ICACHE_ENTRIES && n > 0
    decreases n, 0
  {
    var (d, stop) := Execute(core, c, c.cache[i].data);
    stop == Done ==>
      if n == 1 || i == ICACHE_ENTRIES - 1 || d.cache[i + 1].tag != d.pc then RightFalls(core, d, n - 1)
      else FallsRight(d.cache, i + 1, d.pc) && EntryFalls(core, d, i + 1, n - 1)
  }

  lemma ExecuteKeepsCache<W, I>(core: Core<W, I>, c: Cpu<W, I>, insn: I)
    requires CacheOk(c.cache)
    ensures CacheOk(Execute(core, c, insn).0.cache)
  {
  }

  /** The threaded run is the one-at-a-time run as long as every fall goes right. */
  lemma {:induction false} ThreadedIsOne<W, I>(core: Core<W, I>, c: Cpu<W, I>, n: nat)
    requires CacheOk(c.cache) && RightFalls(core, c, n)
    ensures RunThreaded(core, c, n) == RunOne(core, c, n)
    decreases n, 1
  {
    if n > 0 {
      AccessKeepsCache(core, c);
      if Access(core, c).Instruction? {
        EntryIsOne(core, c, Access(core, c).cpu, IcacheIndex(c.pc), n);
      }
    }
  }

  lemma {:induction false} EntryIsOne<W, I>(core: Core<W, I>, c: Cpu<W, I>, d: Cpu<W, I>, i: nat, n: nat)
    requires |c.cache| == |d.cache| == ICACHE_ENTRIES && CacheOk(d.cache) && i < ICACHE_ENTRIES && n > 0
    requires Access(core, c) == Instruction(d, d.cache[i].data) && EntryFalls(core, d, i, n)
    ensures RunEntry(core, d, i, n) == RunOne(core, c, n)
    decreases n, 0
  {
    hide Access, Execute, CacheOk, FallsRight;
    StepOneIs(core, c);
    ExecuteKeepsCache(core, d, d.cache[i].data);
    var (e, stop) := StepOne(core, c);
    if stop == Done {
      if n == 1 || i == ICACHE_ENTRIES - 1 || e.cache[i + 1].tag != e.pc {
        ThreadedIsOne(core, e, n - 1);
      } else {
        FallThroughHits(core, e, i + 1);
        EntryIsOne(core, e, e, i + 1, n - 1);
      }
    }
  }

  // --- And only then ---

  /** log tells from the world which instructions were executed, and no instruction is fetched from the
      address that marks an empty entry, which is misaligned. */
  ghost predicate Records<W(!new), I(!new)>(core: Core<W, I>, log: W -> seq<I>) {
    && (forall w: W, pc: u64 :: log(core.fetch(w, pc).world) == log(w))
    && (forall w: W, i: I, pc: u64 :: log(core.exec(w, i, pc).world) == log(w) + [i])
    && (forall w: W :: core.fetch(w, NO_TAG).FetchFault?)
  }

  lemma LogOf<W(!new), I(!new)>(core: Core<W, I>, log: W -> seq<I>, c: Cpu<W, I>, insn: I)
    requires Records(core, log) && |c.cache| == ICACHE_ENTRIES
    ensures log(Access(core, c).cpu.world) == log(c.world) && |Access(core, c).cpu.cache| == ICACHE_ENTRIES
    ensures log(Execute(core, c, insn).0.world) == log(c.world) + [insn]
    ensures |Execute(core, c, insn).0.cache| == ICACHE_ENTRIES
  {
  }

  /** A run only adds to the log. */
  lemma {:induction false} OneExtends<W(!new), I(!new)>(core: Core<W, I>, log: W -> seq<I>, c: Cpu<W, I>, n: nat)
    requires Records(core, log) && |c.cache| == ICACHE_ENTRIES
    ensures log(c.world) <= log(RunOne(core, c, n).0.world)
    ensures n > 0 && Access(core, c).Instruction? ==>
      log(c.world) + [Access(core, c).insn] <= log(RunOne(core, c, n).0.world)
    ensures n > 0 && Access(core, c).NoInstruction? ==> log(RunOne(core, c, n).0.world) == log(c.world)
    decreases n
  {
    hide Access, Execute, Records;
    if n > 0 {
      StepOneIs(core, c);
      var a := Access(core, c);
      if a.Instruction? {
        LogOf(core, log, c, a.insn);
        LogOf(core, log, a.cpu, a.insn);
        var (d, stop) := StepOne(core, c);
        if stop == Done {
          OneExtends(core, log, d, n - 1);
        }
      } else {
        NoInsnLog(core, log, c);
      }
    }
  }

  lemma NoInsnLog<W(!new), I(!new)>(core: Core<W, I>, log: W -> seq<I>, c: Cpu<W, I>)
    requires Records(core, log) && |c.cache| == ICACHE_ENTRIES
    ensures log(Access(core, c).cpu.world) == log(c.world)
  {
  }

  lemma {:induction false} ThreadedExtends<W(!new), I(!new)>(core: Core<W, I>, log: W -> seq<I>, c: Cpu<W, I>, n: nat)
    requires Records(core, log) && |c.cache| == ICACHE_ENTRIES
    ensures log(c.world) <= log(RunThreaded(core, c, n).0.world)
    decreases n, 1
  {
    hide Access, Execute, Records;
    if n > 0 {
      NoInsnLog(core, log, c);
      if Access(core, c).Instruction? {
        LogOf(core, log, c, Access(core, c).insn);
        EntryExtends(core, log, Access(core, c).cpu, IcacheIndex(c.pc), n);
      }
    }
  }

  lemma {:induction false} EntryExtends<W(!new), I(!new)>(core: Core<W, I>, log: W -> seq<I>, c: Cpu<W, I>,
                                                          i: nat, n: nat)
    requires Records(core, log) && |c.cache| == ICACHE_ENTRIES && i < ICACHE_ENTRIES && n > 0
    ensures log(c.world) + [c.cache[i].data] <= log(RunEntry(core, c, i, n).0.world)
    decreases n, 0
  {
    hide Access, Execute, Records;
    LogOf(core, log, c, c.cache[i].data);
    var (d, stop) := Execute(core, c, c.cache[i].data);
    if stop == Done {
      if n == 1 || i == ICACHE_ENTRIES - 1 || d.cache[i + 1].tag != d.pc {
        ThreadedExtends(core, log, d, n - 1);
      } else {
        EntryExtends(core, log, d, i + 1, n - 1);
      }
    }
  }

  /** After a fall that goes wrong the next instruction in the log is another one, or there is none. */
  lemma WrongFallDiffers<W(!new), I(!new)>(core: Core<W, I>, log: W -> seq<I>, c: Cpu<W, I>, i: nat, n: nat)
    requires Records(core, log) && CacheOk(c.cache) && i < ICACHE_ENTRIES && n > 0
    requires c.cache[i].tag == c.pc && !FallsRight(c.cache, i, c.pc)
    ensures RunEntry(core, c, i, n) != RunOne(core, c, n)
  {
    NoTagIndex();
    OneExtends(core, log, c, n);
    EntryExtends(core, log, c, i, n);
    var one, threaded := log(RunOne(core, c, n).0.world), log(RunEntry(core, c, i, n).0.world);
    var k := |log(c.world)|;
    assert threaded[k] == (log(c.world) + [c.cache[i].data])[k];
    if Access(core, c).Instruction? {
      assert one[k] == (log(c.world) + [Access(core, c).insn])[k];
    }
  }

  /** The two runs agree exactly when every fall of the threaded one goes right. */
  lemma {:induction false} ThreadedIffRight<W(!new), I(!new)>(core: Core<W, I>, log: W -> seq<I>, c: Cpu<W, I>, n: nat)
    requires CacheOk(c.cache) && Records(core, log)
    ensures RunThreaded(core, c, n) == RunOne(core, c, n) <==> RightFalls(core, c, n)
    decreases n, 1
  {
    hide Records;
    if n > 0 {
      AccessKeepsCache(core, c);
      if Access(core, c).Instruction? {
        EntryIffRight(core, log, c, Access(core, c).cpu, IcacheIndex(c.pc), n);
      }
    }
  }

  lemma {:induction false} EntryIffRight<W(!new), I(!new)>(core: Core<W, I>, log: W -> seq<I>, c: Cpu<W, I>,
                                                           d: Cpu<W, I>, i: nat, n: nat)
    requires |c.cache| == |d.cache| == ICACHE_ENTRIES && CacheOk(d.cache) && i < ICACHE_ENTRIES && n > 0
    requires Records(core, log) && Access(core, c) == Instruction(d, d.cache[i].data)
    ensures RunEntry(core, d, i, n) == RunOne(core, c, n) <==> EntryFalls(core, d, i, n)
    decreases n, 0
  {
    hide Access, Execute, CacheOk, FallsRight, Records;
    StepOneIs(core, c);
    ExecuteKeepsCache(core, d, d.cache[i].data);
    var (e, stop) := StepOne(core, c);
    if stop == Done {
      if n == 1 || i == ICACHE_ENTRIES - 1 || e.cache[i + 1].tag != e.pc {
        ThreadedIffRight(core, log, e, n - 1);
      } else if FallsRight(e.cache, i + 1, e.pc) {
        FallThroughHits(core, e, i + 1);
        EntryIffRight(core, log, e, e, i + 1, n - 1);
      } else {
        WrongFallDiffers(core, log, e, i + 1, n - 1);
      }
    }
  }

  // --- When no fall can go wrong ---

  /** No instruction of the run jumps to the address that marks an empty entry. */
  ghost predicate Sane<W, I>(core: Core<W, I>, c: Cpu<W, I>, n: nat)
    requires |c.cache| == ICACHE_ENTRIES
    decreases n
  {
    n > 0 ==>
      var (d, stop) := StepOne(core, c);
      stop == Done ==> d.pc != NO_TAG && Sane(core, d, n - 1)
  }

  lemma {:induction false} SaneFallsRight<W, I>(core: Core<W, I>, c: Cpu<W, I>, n: nat)
    requires CacheOk(c.cache) && Sane(core, c, n)
    ensures RightFalls(core, c, n)
    decreases n, 1
  {
    if n > 0 {
      AccessKeepsCache(core, c);
      if Access(core, c).Instruction? {
        SaneEntryFalls(core, c, Access(core, c).cpu, IcacheIndex(c.pc), n);
      }
    }
  }

  lemma {:induction false} SaneEntryFalls<W, I>(core: Core<W, I>, c: Cpu<W, I>, d: Cpu<W, I>, i: nat, n: nat)
    requires |c.cache| == |d.cache| == ICACHE_ENTRIES && CacheOk(d.cache) && i < ICACHE_ENTRIES && n > 0
    requires Access(core, c) == Instruction(d, d.cache[i].data) && Sane(core, c, n)
    ensures EntryFalls(core, d, i, n)
    decreases n, 0
  {
    hide Access, Execute, CacheOk;
    StepOneIs(core, c);
    ExecuteKeepsCache(core, d, d.cache[i].data);
    var (e, stop) := StepOne(core, c);
    if stop == Done {
      if n == 1 || i == ICACHE_ENTRIES - 1 || e.cache[i + 1].tag != e.pc {
        SaneFallsRight(core, e, n - 1);
      } else {
        FallThroughHits(core, e, i + 1);
        SaneEntryFalls(core, e, e, i + 1, n - 1);
      }
    }
  }

  /** Where an instruction at pc sends control. */
  datatype Jump = Fall | Branch(taken: bool, imm: int) | Jal(imm: int) | Jalr(rs1: u64, imm: int) | Sret(epc: u64)

  /** sext_xlen */
  function SextXlen(x: int, xpr64: bool): u64 {
    var low := x % 0x1_0000_0000;
    if xpr64 then Wrap64(x) else if low >= 0x8000_0000 then low + 0xFFFF_FFFF_0000_0000 else low
  }

  function Target(j: Jump, pc: u64, xpr64: bool): u64 {
    match j
    case Fall => SextXlen(pc + 4, xpr64)
    case Branch(taken, imm) => SextXlen(if taken then pc as int + imm else pc as int + 4, xpr64)
    case Jal(imm) => SextXlen(pc as int + imm, xpr64)
    case Jalr(rs1, imm) =>
      var x := Wrap64(rs1 as int + imm);
      SextXlen(x - x % 2, xpr64)
    case Sret(epc) => SextXlen(epc, xpr64)
  }

  /** The immediates of branches and of JAL are even. */
  predicate Encodable(j: Jump) {
    match j
    case Branch(_, imm) => imm % 2 == 0
    case Jal(imm) => imm % 2 == 0
    case _ => true
  }

  /** Of all of them only SRET reaches the address that marks an empty entry, and only from EPC. */
  lemma OnlySret(j: Jump, pc: u64, xpr64: bool)
    requires pc % 4 == 0 && Encodable(j)
    ensures Target(j, pc, xpr64) == NO_TAG <==> j.Sret? && SextXlen(j.epc, xpr64) == NO_TAG
    ensures j.Sret? ==>
      (SextXlen(j.epc, xpr64) == NO_TAG <==> if xpr64 then j.epc == NO_TAG else j.epc % 0x1_0000_0000 == 0xFFFF_FFFF)
  {
  }

  /** Fetches fault at misaligned addresses, and jump says where each instruction goes: never, by SRET,
      to the address that marks an empty entry. */
  ghost predicate Jumps<W(!new), I(!new)>(core: Core<W, I>, xpr64: bool, jump: (W, I, u64) -> Jump) {
    && (forall w: W, pc: u64 :: pc % 4 != 0 ==> core.fetch(w, pc).FetchFault?)
    && (forall w: W, i: I, pc: u64 ::
          && Encodable(jump(w, i, pc))
          && (core.exec(w, i, pc).Next? ==> core.exec(w, i, pc).pc == Target(jump(w, i, pc), pc, xpr64)))
    && (forall w: W, i: I, pc: u64 :: jump(w, i, pc).Sret? ==> SextXlen(jump(w, i, pc).epc, xpr64) != NO_TAG)
  }

  ghost predicate AlignedTags<I>(cache: seq<Entry<I>>) {
    forall i :: 0 <= i < |cache| && cache[i].tag != NO_TAG ==> cache[i].tag % 4 == 0
  }

  lemma AlignedStep<W(!new), I(!new)>(core: Core<W, I>, xpr64: bool, jump: (W, I, u64) -> Jump, c: Cpu<W, I>)
    requires Jumps(core, xpr64, jump) && CacheOk(c.cache) && AlignedTags(c.cache) && c.pc != NO_TAG
    ensures var (d, stop) := StepOne(core, c);
            CacheOk(d.cache) && AlignedTags(d.cache) && (stop == Done ==> d.pc != NO_TAG)
  {
    AccessKeepsCache(core, c);
    if Access(core, c).Instruction? {
      var a := Access(core, c);
      ExecuteKeepsCache(core, a.cpu, a.insn);
      OnlySret(jump(a.cpu.world, a.insn, c.pc), c.pc, xpr64);
      hide Target, SextXlen, Encodable;
      assert c.pc % 4 == 0;
    }
  }

  /** So unless SRET finds EPC all ones, the two loops agree on every run. */
  lemma {:induction false} JumpsAreSane<W(!new), I(!new)>(core: Core<W, I>, xpr64: bool, jump: (W, I, u64) -> Jump,
                                                          c: Cpu<W, I>, n: nat)
    requires Jumps(core, xpr64, jump) && CacheOk(c.cache) && AlignedTags(c.cache) && c.pc != NO_TAG
    ensures Sane(core, c, n) && RunThreaded(core, c, n) == RunOne(core, c, n)
    decreases n
  {
    hide Jumps, AlignedTags;
    if n > 0 {
      AlignedStep(core, xpr64, jump, c);
      var (d, stop) := StepOne(core, c);
      if stop == Done {
        JumpsAreSane(core, xpr64, jump, d, n - 1);
      }
    }
    SaneFallsRight(core, c, n);
    ThreadedIsOne(core, c, n);
  }

  // --- An instruction after which the two differ ---

  /** Every entry holds an instruction with its own position for a name. */
  function NamedCache(): seq<Entry<nat>> {
    seq(ICACHE_ENTRIES, i requires 0 <= i < ICACHE_ENTRIES => Entry(4 * i, i))
  }

  /** Instruction 0 is SRET with EPC all ones: it flushes the cache and jumps to the address that marks
      an empty entry. The world is the list of instructions executed. */
  function Jumping(): Core<seq<nat>, nat> {
    Core((world: seq<nat>, _: u64) => FetchFault(world),
         (world: seq<nat>, insn: nat, pc: u64) =>
           Next(world + [insn], if insn == 0 then NO_TAG else pc, insn == 0))
  }

  function Log(): seq<nat> -> seq<nat> {
    (world: seq<nat>) => world
  }

  /** At that address every entry's tag matches: the threaded loop goes on with entry 1, whatever it last
      held, where a single step looks at the address's own entry, the last. */
  lemma EmptyTagMisleads()
    ensures var c := Cpu([], NamedCache(), 0);
            && CacheOk(c.cache) && Records(Jumping(), Log())
            && RightFalls(Jumping(), c, 1) && !RightFalls(Jumping(), c, 2)
            && RunThreaded(Jumping(), c, 2).0.world == [0, 1]
            && RunOne(Jumping(), c, 2).0.world == [0, 1023]
  {
    hide *;
    var core, c := Jumping(), Cpu([], NamedCache(), 0);
    NamedCacheIs();
    var d := Cpu([0], Flushed(NamedCache(), true), NO_TAG);
    FlushedIs();
    JumpingIs(c);
    JumpingIs(d);
    JumpingRecords();
    var e := Cpu([0, 1], d.cache, NO_TAG);
    var f := Cpu([0, 1023], d.cache, NO_TAG);
    assert [0] + [1] == [0, 1] && [0] + [1023] == [0, 1023] && [] + [0] == [0];
    FirstSteps(core, c, d, e, f);
    ThreadedIffRight(core, Log(), c, 2);
    OneStepFalls(core, c);
  }

  lemma JumpingRecords()
    ensures Records(Jumping(), Log())
  {
  }

  /** A run of one instruction has no fall to go wrong. */
  lemma OneStepFalls<W, I>(core: Core<W, I>, c: Cpu<W, I>)
    requires |c.cache| == ICACHE_ENTRIES
    ensures RightFalls(core, c, 1)
  {
    hide Execute;
    if Access(core, c).Instruction? {
      assert EntryFalls(core, Access(core, c).cpu, IcacheIndex(c.pc), 1);
    }
  }

  lemma NamedCacheIs()
    ensures var s := NamedCache(); CacheOk(s) && s[0] == Entry(0, 0)
    ensures IcacheIndex(0) == 0 && IcacheIndex(NO_TAG) == 1023
  {
  }

  lemma FlushedIs()
    ensures |NamedCache()| == ICACHE_ENTRIES
    ensures var s := Flushed(NamedCache(), true);
            |s| == ICACHE_ENTRIES && s[1] == Entry(NO_TAG, 1) && s[1023] == Entry(NO_TAG, 1023)
  {
  }

  lemma JumpingIs(c: Cpu<seq<nat>, nat>)
    ensures Execute(Jumping(), c, 0) == (Cpu(c.world + [0], Flushed(c.cache, true), NO_TAG), Done)
    ensures Execute(Jumping(), c, 1) == (Cpu(c.world + [1], c.cache, c.pc), Done)
    ensures Execute(Jumping(), c, 1023) == (Cpu(c.world + [1023], c.cache, c.pc), Done)
  {
  }

  lemma FirstSteps<W, I>(core: Core<W, I>, c: Cpu<W, I>, d: Cpu<W, I>, e: Cpu<W, I>, f: Cpu<W, I>)
    requires |c.cache| == |d.cache| == |e.cache| == |f.cache| == ICACHE_ENTRIES && c.cache[0].tag == c.pc == 0
        && IcacheIndex(0) == 0
    requires IcacheIndex(NO_TAG) == 1023 && d.pc == NO_TAG && d.cache[1].tag == d.cache[1023].tag == NO_TAG
    requires Execute(core, c, c.cache[0].data) == (d, Done)
    requires Execute(core, d, d.cache[1].data) == (e, Done) && Execute(core, d, d.cache[1023].data) == (f, Done)
    ensures RunThreaded(core, c, 2).0 == e && RunOne(core, c, 2).0 == f
  {
    hide Execute, IcacheIndex;
    assert Access(core, c) == Instruction(c, c.cache[0].data);
    assert Access(core, d) == Instruction(d, d.cache[1023].data);
    assert StepOne(core, c) == (d, Done) && StepOne(core, d) == (f, Done);
    assert RunEntry(core, d, 1, 1) == (e, 1, Done);
    assert RunEntry(core, c, 0, 2) == (e, 2, Done);
    assert RunOne(core, d, 1) == (f, 1, Done);
  }

  // --- Following a run step by step ---

  /** The whole run, seen from k completed instructions in. */
  ghost predicate Ahead<W, I>(whole: (Cpu<W, I>, nat, Stop), rest: (Cpu<W, I>, nat, Stop), k: nat) {
    whole.0 == rest.0 && whole.1 == k + rest.1 && whole.2 == rest.2
  }

  lemma AheadStep<W, I>(core: Core<W, I>, whole: (Cpu<W, I>, nat, Stop), c: Cpu<W, I>, n: nat, k: nat)
    requires |c.cache| == ICACHE_ENTRIES && Ahead(whole, RunOne(core, c, n), k)
    ensures n == 0 ==> whole == (c, k, Done)
    ensures n > 0 ==>
      var (d, stop) := StepOne(core, c);
      |d.cache| == ICACHE_ENTRIES && if stop == Done then Ahead(whole, RunOne(core, d, n - 1), k + 1)
          else whole == (d, k, stop)
  {
    hide StepOne;
  }

  lemma ThreadedStep<W, I>(core: Core<W, I>, whole: (Cpu<W, I>, nat, Stop), c: Cpu<W, I>, n: nat, k: nat)
    requires |c.cache| == ICACHE_ENTRIES && Ahead(whole, RunThreaded(core, c, n), k)
    ensures n == 0 ==> whole == (c, k, Done)
    ensures n > 0 ==>
      var a := Access(core, c);
      if a.NoInstruction? then whole == (a.cpu, k, FetchTrap)
      else |a.cpu.cache| == ICACHE_ENTRIES && Ahead(whole, RunEntry(core, a.cpu, IcacheIndex(c.pc), n), k)
  {
    hide RunEntry;
  }

  lemma EntryStep<W, I>(core: Core<W, I>, whole: (Cpu<W, I>, nat, Stop), c: Cpu<W, I>, i: nat, n: nat, k: nat)
    requires |c.cache| == ICACHE_ENTRIES && i < ICACHE_ENTRIES && n > 0 && Ahead(whole, RunEntry(core, c, i, n), k)
    ensures var (d, stop) := Execute(core, c, c.cache[i].data);
            && |d.cache| == ICACHE_ENTRIES
            && if stop != Done then whole == (d, k, stop)
               else if n == 1 || i == ICACHE_ENTRIES - 1 || d.cache[i + 1].tag != d.pc
               then Ahead(whole, RunThreaded(core, d, n - 1), k + 1)
               else Ahead(whole, RunEntry(core, d, i + 1, n - 1), k + 1)
  {
    hide RunThreaded;
  }

  lemma StartAhead<W, I>(core: Core<W, I>, c: Cpu<W, I>, n: nat)
    requires |c.cache| == ICACHE_ENTRIES
    ensures Ahead(RunOne(core, c, n), RunOne(core, c, n), 0)
    ensures Ahead(RunThreaded(core, c, n), RunThreaded(core, c, n), 0)
  {
    hide RunOne, RunThreaded;
  }

  lemma StepOneIs<W, I>(core: Core<W, I>, c: Cpu<W, I>)
    requires |c.cache| == ICACHE_ENTRIES
    ensures StepOne(core, c) ==
      match Access(core, c) case NoInstruction(d) => (d, FetchTrap) case Instruction(d, insn) => Execute(core, d, insn)
  {
    hide Access, Execute;
  }

  // --- The loops ---

  class Processor<!W(!new), !I(!new)> {
    const core: Core<W, I>
    var world: W
    var pc: u64
    const icache: array<Entry<I>>

    function State(): Cpu<W, I>
      reads this, icache
    {
      Cpu(world, icache[..], pc)
    }

    ghost predicate Valid()
      reads this, icache
    {
      icache.Length == ICACHE_ENTRIES && CacheOk(icache[..])
    }

    constructor (core: Core<W, I>, world: W, blank: I, pc: u64)
      ensures Valid() && fresh(icache) && this.core == core && this.world == world && this.pc == pc
    {
      this.core := core;
      this.world := world;
      this.pc := pc;
      icache := new Entry<I>[ICACHE_ENTRIES](_ => Entry(NO_TAG, blank));
    }

    method FlushIcache(flush: bool)
      modifies icache
      ensures icache[..] == Flushed(old(icache[..]), flush)
    {
      if flush {
        forall i | 0 <= i < icache.Length {
          icache[i] := icache[i].(tag := NO_TAG);
        }
      }
    }

    /** The entry for pc, filled on a miss; its position unless the fetch faulted. */
    method AccessIcache() returns (idx: nat, ok: bool)
      requires Valid()
      modifies this`world, icache
      ensures Valid() && idx == IcacheIndex(pc)
      ensures State() == Access(core, old(State())).cpu
      ensures ok <==> Access(core, old(State())).Instruction?
      ensures ok ==> icache[idx].data == Access(core, old(State())).insn
    {
      AccessKeepsCache(core, State());
      idx := IcacheIndex(pc);
      ok := true;
      if icache[idx].tag != pc {
        match core.fetch(world, pc) {
          case FetchFault(w) =>
            world := w;
            ok := false;
          case Fetched(w, insn, keep) =>
            world := w;
            icache[idx] := Entry(if keep then pc else NO_TAG, insn);
        }
      }
    }

    /** execute_insn, and what it leaves of the cache. */
    method ExecuteInsn(insn: I) returns (ok: bool)
      requires Valid()
      modifies this`world, this`pc, icache
      ensures Valid()
      ensures (State(), if ok then Done else ExecTrap) == Execute(core, old(State()), insn)
    {
      match core.exec(world, insn, pc) {
        case Next(w, next, flush) =>
          FlushIcache(flush);
          world, pc := w, next;
          ok := true;
        case ExecFault(w, flush) =>
          FlushIcache(flush);
          world := w;
          ok := false;
      }
    }

    /** The debug loop. An instruction is counted before it is fetched, so one that traps counts too. */
    method StepDebug(n: nat) returns (instret: nat, stop: Stop)
      requires Valid()
      modifies this`world, this`pc, icache
      ensures Valid()
      ensures var run := RunOne(core, old(State()), n);
              State() == run.0 && stop == run.2 && instret == run.1 + (if stop == Done then 0 else 1) <= n
      ensures stop == Done ==> instret == n
    {
      hide RunOne, StepOne, Access, Execute, Ahead;
      RunOneBound(core, State(), n);
      instret, stop := 0, Done;
      ghost var whole := RunOne(core, State(), n);
      StartAhead(core, State(), n);
      while instret < n
        invariant Valid() && instret <= n && Ahead(whole, RunOne(core, State(), n - instret), instret)
      {
        AheadStep(core, whole, State(), n - instret, instret);
        StepOneIs(core, State());
        instret := instret + 1;
        var idx, ok := AccessIcache();
        if !ok {
          return instret, FetchTrap;
        }
        ok := ExecuteInsn(icache[idx].data);
        if !ok {
          return instret, ExecTrap;
        }
      }
      AheadStep(core, whole, State(), 0, instret);
    }

    /** The threaded loop: after the first access each turn falls into the next entry as long as its
        tag is the new pc. With the checker on an instruction is counted before it executes. */
    method StepThreaded(n: nat, checker: bool) returns (instret: nat, stop: Stop)
      requires Valid()
      modifies this`world, this`pc, icache
      ensures Valid()
      ensures var run := RunThreaded(core, old(State()), n);
              && State() == run.0 && stop == run.2
              && instret == run.1 + (if checker && stop == ExecTrap then 1 else 0) <= n
      ensures stop == Done ==> instret == n
      ensures old(RightFalls(core, State(), n)) ==> RunThreaded(core, old(State()), n) == RunOne(core, old(State()), n)
      ensures forall log: W -> seq<I> :: Records(core, log) ==>
        old(RightFalls(core, State(), n)) == (RunThreaded(core, old(State()), n) == RunOne(core, old(State()), n))
    {
      hide RunOne, RunThreaded, RunEntry, StepOne, Access, Execute, Ahead, RightFalls, Records;
      instret, stop := 0, Done;
      ghost var whole := RunThreaded(core, State(), n);
      RunThreadedBound(core, State(), n);
      if RightFalls(core, State(), n) {
        ThreadedIsOne(core, State(), n);
      }
      forall log: W -> seq<I> | Records(core, log)
        ensures RunThreaded(core, State(), n) == RunOne(core, State(), n) <==> RightFalls(core, State(), n)
      {
        ThreadedIffRight(core, log, State(), n);
      }
      StartAhead(core, State(), n);
      while instret < n
        invariant Valid() && instret <= n && Ahead(whole, RunThreaded(core, State(), n - instret), instret)
      {
        ThreadedStep(core, whole, State(), n - instret, instret);
        var idx, ok := AccessIcache();
        if !ok {
          return instret, FetchTrap;
        }
        while true
          invariant Valid() && instret < n && 0 <= idx < icache.Length
          invariant Ahead(whole, RunEntry(core, State(), idx, n - instret), instret)
          decreases n - instret
        {
          EntryStep(core, whole, State(), idx, n - instret, instret);
          if checker {
            instret := instret + 1;
          }
          ok := ExecuteInsn(icache[idx].data);
          if !ok {
            return instret, ExecTrap;
          }
          if !checker {
            instret := instret + 1;
          }
          if instret == n || idx == ICACHE_ENTRIES - 1 || icache[idx + 1].tag != pc {
            break;
          }
          idx := idx + 1;
        }
      }
      ThreadedStep(core, whole, State(), 0, instret);
    }
  }
}
