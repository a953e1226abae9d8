/** The interpreter without an instruction cache, and exactly when the loops run as it does. */
module UncachedLoop {
  import opened Words
  import opened StepLoop

  datatype Halted<W> = Halted(world: W, pc: u64, count: nat, stop: Stop)

  /** Up to n instructions, each fetched at its pc. */
  function RunUncached<W, I>(core: Core<W, I>, w: W, pc: u64, n: nat): Halted<W>
    decreases n
  {
    if n == 0 then Halted(w, pc, 0, Done)
    else
      match core.fetch(w, pc)
      case FetchFault(v) => Halted(v, pc, 0, FetchTrap)
      case Fetched(v, insn, _) =>
        match core.exec(v, insn, pc)
        case ExecFault(u, _) => Halted(u, pc, 0, ExecTrap)
        case Next(u, next, _) =>
          var h := RunUncached(core, u, next, n - 1);
          h.(count := h.count + 1)
  }

  // --- What a fetch may change, and what may change a fetch ---

  ghost predicate SameFetch<W, I, V>(view: W -> V, f: Fetched<W, I>, g: Fetched<W, I>) {
    && f.Fetched? == g.Fetched? && view(f.world) == view(g.world)
    && (f.Fetched? ==> f.insn == g.insn && f.keep == g.keep)
  }

  ghost predicate SameExec<W, V>(view: W -> V, e: Executed<W>, f: Executed<W>) {
    e.Next? == f.Next? && e.flush == f.flush && view(e.world) == view(f.world) && (e.Next? ==> e.pc == f.pc)
  }

  /** What a fetch at a yields may be kept, and is insn. */
  ghost predicate Yields<W, I>(core: Core<W, I>, w: W, a: u64, insn: I) {
    var f := core.fetch(w, a);
    f.Fetched? && f.keep && f.insn == insn
  }

  /** view is all that matters of the world: a fetch that may be kept leaves it alone, and until an
      instruction reports a flush every such fetch goes on yielding the same. Misaligned fetches fault. */
  ghost predicate Transparent<W(!new), I(!new), V>(core: Core<W, I>, view: W -> V) {
    && (forall v: W, w: W, pc: u64 :: view(v) == view(w) ==> SameFetch(view, core.fetch(v, pc), core.fetch(w, pc)))
    && (forall v: W, w: W, i: I, pc: u64 ::
          view(v) == view(w) ==> SameExec(view, core.exec(v, i, pc), core.exec(w, i, pc)))
    && (forall w: W, pc: u64 ::
          core.fetch(w, pc).Fetched? && core.fetch(w, pc).keep ==> view(core.fetch(w, pc).world) == view(w))
    && (forall w: W, pc: u64, a: u64, insn: I ::
          Yields(core, w, a, insn) ==> Yields(core, core.fetch(w, pc).world, a, insn))
    && (forall w: W, i: I, pc: u64, a: u64, insn: I ::
          Yields(core, w, a, insn) && !core.exec(w, i, pc).flush ==> Yields(core, core.exec(w, i, pc).world, a, insn))
    && (forall w: W :: core.fetch(w, NO_TAG).FetchFault?)
  }

  /** Every entry with a tag holds what a fetch at that tag yields. */
  ghost predicate CacheHolds<W, I>(core: Core<W, I>, c: Cpu<W, I>) {
    && |c.cache| == ICACHE_ENTRIES
    && forall i :: 0 <= i < ICACHE_ENTRIES && c.cache[i].tag != NO_TAG ==>
         Yields(core, c.world, c.cache[i].tag, c.cache[i].data)
  }

  /** The pc is the address that marks empty entries, and its entry is empty: the access then hits. */
  ghost predicate EmptyHit<W, I>(c: Cpu<W, I>)
    requires |c.cache| == ICACHE_ENTRIES
  {
    c.pc == NO_TAG && c.cache[ICACHE_ENTRIES - 1].tag == NO_TAG
  }

  lemma AccessFetches<W(!new), I(!new), V>(core: Core<W, I>, view: W -> V, c: Cpu<W, I>, w: W)
    requires Transparent(core, view) && CacheHolds(core, c) && view(c.world) == view(w)
    ensures CacheHolds(core, Access(core, c).cpu) && Access(core, c).cpu.pc == c.pc
    ensures EmptyHit(c) ==> Access(core, c).Instruction? && core.fetch(w, c.pc).FetchFault?
    ensures !EmptyHit(c) ==>
      && Access(core, c).Instruction? == core.fetch(w, c.pc).Fetched?
      && view(Access(core, c).cpu.world) == view(core.fetch(w, c.pc).world)
      && (Access(core, c).Instruction? ==> Access(core, c).insn == core.fetch(w, c.pc).insn)
  {
    NoTagIndex();
    var idx := IcacheIndex(c.pc);
    var f, g := core.fetch(c.world, c.pc), core.fetch(w, c.pc);
    assert SameFetch(view, f, g);
    var d := Access(core, c).cpu;
    if c.cache[idx].tag == c.pc {
      if c.pc != NO_TAG {
        assert Yields(core, c.world, c.pc, c.cache[idx].data);
      }
    } else {
      forall i | 0 <= i < ICACHE_ENTRIES && d.cache[i].tag != NO_TAG
        ensures Yields(core, d.world, d.cache[i].tag, d.cache[i].data)
      {
        if i == idx && f.Fetched? {
          assert SameFetch(view, core.fetch(d.world, c.pc), f);
        } else {
          assert Yields(core, c.world, c.cache[i].tag, c.cache[i].data);
        }
      }
    }
  }

  lemma ExecuteHolds<W(!new), I(!new), V>(core: Core<W, I>, view: W -> V, c: Cpu<W, I>, insn: I, w: W)
    requires Transparent(core, view) && CacheHolds(core, c) && view(c.world) == view(w)
    ensures CacheHolds(core, Execute(core, c, insn).0)
    ensures SameExec(view, core.exec(c.world, insn, c.pc), core.exec(w, insn, c.pc))
  {
    var e := core.exec(c.world, insn, c.pc);
    var d := Execute(core, c, insn).0;
    forall i | 0 <= i < ICACHE_ENTRIES && d.cache[i].tag != NO_TAG
      ensures Yields(core, d.world, d.cache[i].tag, d.cache[i].data)
    {
      assert !e.flush && d.cache[i] == c.cache[i];
      assert Yields(core, c.world, c.cache[i].tag, c.cache[i].data);
    }
  }

  // --- Whole runs ---

  ghost predicate NoEmptyHit<W, I>(core: Core<W, I>, c: Cpu<W, I>, n: nat)
    requires |c.cache| == ICACHE_ENTRIES
    decreases n
  {
    n > 0 ==>
      !EmptyHit(c)
      && var (d, stop) := StepOne(core, c);
         stop == Done ==> NoEmptyHit(core, d, n - 1)
  }

  /** The same state but for the cache, the same count and the same stop. */
  ghost predicate SameEnd<W, I, V>(view: W -> V, run: (Cpu<W, I>, nat, Stop), h: Halted<W>) {
    view(run.0.world) == view(h.world) && run.0.pc == h.pc && run.1 == h.count && run.2 == h.stop
  }

  /** The loop that accesses the cache ends as the one without it exactly when no access hits an empty
      entry, and leaves a cache that still holds what fetches yield. */
  lemma {:induction false} CachedIsUncached<W(!new), I(!new), V>(core: Core<W, I>, view: W -> V, c: Cpu<W, I>, w: W,
                                                                 n: nat)
    requires Transparent(core, view) && CacheHolds(core, c) && view(c.world) == view(w)
    ensures SameEnd(view, RunOne(core, c, n), RunUncached(core, w, c.pc, n)) <==> NoEmptyHit(core, c, n)
    ensures CacheHolds(core, RunOne(core, c, n).0)
    decreases n
  {
    hide Transparent, CacheHolds, Access, Execute, EmptyHit;
    if n > 0 {
      HoldsSize(core, c);
      AccessFetches(core, view, c, w);
      StepOneIs(core, c);
      var a, f := Access(core, c), core.fetch(w, c.pc);
      HoldsSize(core, a.cpu);
      if a.Instruction? {
        ExecuteHolds(core, view, a.cpu, a.insn, a.cpu.world);
        ExecuteIs(core, a.cpu, a.insn);
        var (d, stop) := StepOne(core, c);
        HoldsSize(core, d);
        var u := if EmptyHit(c) then d.world else core.exec(f.world, a.insn, c.pc).world;
        if !EmptyHit(c) {
          ExecuteHolds(core, view, a.cpu, a.insn, f.world);
        }
        if stop == Done {
          CachedIsUncached(core, view, d, u, n - 1);
        }
      }
    }
  }

  lemma HoldsSize<W, I>(core: Core<W, I>, c: Cpu<W, I>)
    requires CacheHolds(core, c)
    ensures |c.cache| == ICACHE_ENTRIES
  {
  }

  lemma ExecuteIs<W, I>(core: Core<W, I>, c: Cpu<W, I>, insn: I)
    ensures var e, (d, stop) := core.exec(c.world, insn, c.pc), Execute(core, c, insn);
            && d.world == e.world && (stop == if e.Next? then Done else ExecTrap)
            && d.pc == if e.Next? then e.pc else c.pc
  {
  }

  /** So a run that never jumps to that address, in either loop, is the uncached one. */
  lemma {:induction false} SaneIsUncached<W(!new), I(!new), V>(core: Core<W, I>, view: W -> V, c: Cpu<W, I>, n: nat)
    requires Transparent(core, view) && CacheHolds(core, c) && CacheOk(c.cache) && Sane(core, c, n) && c.pc != NO_TAG
    ensures SameEnd(view, RunOne(core, c, n), RunUncached(core, c.world, c.pc, n))
    ensures SameEnd(view, RunThreaded(core, c, n), RunUncached(core, c.world, c.pc, n))
  {
    hide Transparent, CacheHolds, CacheOk, SameEnd;
    HoldsSize(core, c);
    SaneHitsNothingEmpty(core, c, n);
    CachedIsUncached(core, view, c, c.world, n);
    SaneFallsRight(core, c, n);
    ThreadedIsOne(core, c, n);
  }

  lemma {:induction false} SaneHitsNothingEmpty<W, I>(core: Core<W, I>, c: Cpu<W, I>, n: nat)
    requires |c.cache| == ICACHE_ENTRIES && Sane(core, c, n) && c.pc != NO_TAG
    ensures NoEmptyHit(core, c, n)
    decreases n
  {
    hide StepOne;
    if n > 0 {
      StepOneSize(core, c);
      var (d, stop) := StepOne(core, c);
      if stop == Done {
        SaneHitsNothingEmpty(core, d, n - 1);
      }
    }
  }

  lemma StepOneSize<W, I>(core: Core<W, I>, c: Cpu<W, I>)
    requires |c.cache| == ICACHE_ENTRIES
    ensures |StepOne(core, c).0.cache| == ICACHE_ENTRIES
  {
  }

  /** The cache a processor starts with. */
  lemma EmptyCacheHolds<W, I>(core: Core<W, I>, c: Cpu<W, I>)
    requires |c.cache| == ICACHE_ENTRIES && forall i :: 0 <= i < ICACHE_ENTRIES ==> c.cache[i].tag == NO_TAG
    ensures CacheHolds(core, c)
  {
  }

  // --- Where entries lie ---

  /** The next instruction's entry is the next one, where the threaded loop looks. */
  lemma NextEntry(pc: u64)
    requires pc + 4 < 0x1_0000_0000_0000_0000
    ensures IcacheIndex(pc + 4) == if IcacheIndex(pc) == ICACHE_ENTRIES - 1 then 0 else IcacheIndex(pc) + 1
  {
  }

  /** 1024 consecutive instructions have entries of their own. */
  lemma EntriesApart(a: u64, b: u64)
    requires a % 4 == b % 4 == 0 && a < b < a + 4 * ICACHE_ENTRIES
    ensures IcacheIndex(a) != IcacheIndex(b)
  {
  }
}
