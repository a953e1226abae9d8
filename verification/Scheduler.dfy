/** Round-robin scheduling of the cores in the functional simulator. */
module Scheduler {
  import opened Words
  import StepLoop

  const INTERLEAVE: nat := 50

  datatype Sched = Sched(currentStep: nat, idleCycles: nat, currentProc: nat, ticks: nat) {
    ghost predicate InRange(procs: nat) {
      currentStep < INTERLEAVE && idleCycles < INTERLEAVE && currentProc < procs
    }
  }

  function Min(x: int, y: int): int {
    if x < y then x else y
  }

  /** How many instructions the current core is asked for when want are left. */
  function Allowed(s: Sched, want: nat): int {
    Min(want, INTERLEAVE - s.currentStep)
  }

  function NextProc(proc: nat, procs: nat): nat {
    if proc + 1 == procs then 0 else proc + 1
  }

  /** One call of a core's step, which retires no more than it is asked for. The turn passes when the
      quantum is reached exactly, so a core that overran it would never pass the turn on. */
  function After(s: Sched, procs: nat, want: nat, instret: nat): Sched
    requires s.InRange(procs) && instret <= Allowed(s, want)
  {
    var step, idle := s.currentStep + instret, if instret != 0 then 0 else s.idleCycles + 1;
    if step == INTERLEAVE || idle == INTERLEAVE then Sched(0, 0, NextProc(s.currentProc, procs), s.ticks + 1)
    else Sched(step, idle, s.currentProc, s.ticks)
  }

  /** The quantum and the idle count stay below 50. */
  lemma AfterInRange(s: Sched, procs: nat, want: nat, instret: nat)
    requires s.InRange(procs) && instret <= Allowed(s, want)
    ensures After(s, procs, want, instret).InRange(procs)
    ensures s.currentStep + instret <= INTERLEAVE
  {
  }

  // --- The cores: core(call, steps) is what the call retires when asked for steps ---

  ghost predicate Obeys(core: (nat, nat) -> nat) {
    forall call, steps :: core(call, steps) <= steps
  }

  /** A processor in either of its loops, in whatever state each call finds it, retires at most what
      it is asked for. */
  lemma ProcessorObeys<W, I>(p: StepLoop.Core<W, I>, cpus: nat -> StepLoop.Cpu<W, I>, checker: bool, call: nat,
      steps: nat)
    requires |cpus(call).cache| == StepLoop.ICACHE_ENTRIES
    ensures StepLoop.DebugCount(StepLoop.RunOne(p, cpus(call), steps)) <= steps
    ensures StepLoop.ThreadedCount(StepLoop.RunThreaded(p, cpus(call), steps), checker) <= steps
  {
    hide *;
    StepLoop.RunOneBound(p, cpus(call), steps);
    StepLoop.RunThreadedBound(p, cpus(call), steps);
    StepLoop.CountsAre(StepLoop.RunOne(p, cpus(call), steps), checker);
    StepLoop.CountsAre(StepLoop.RunThreaded(p, cpus(call), steps), checker);
  }

  // --- Every turn ends ---

  /** Quantum left, then idling left, as one number. */
  function Remaining(s: Sched): int {
    (INTERLEAVE - 1 - s.currentStep) * INTERLEAVE + INTERLEAVE - s.idleCycles
  }

  lemma RemainingBounds(s: Sched, procs: nat)
    requires s.InRange(procs)
    ensures 1 <= Remaining(s) <= 2500
  {
  }

  /** A call either ends the turn, with one tick, or leaves less of it. */
  lemma TurnShrinks(s: Sched, procs: nat, want: nat, instret: nat)
    requires s.InRange(procs) && instret <= Allowed(s, want)
    ensures var t := After(s, procs, want, instret);
            if t.ticks == s.ticks then t.currentProc == s.currentProc && Remaining(t) < Remaining(s)
            else t == Sched(0, 0, NextProc(s.currentProc, procs), s.ticks + 1)
  {
  }

  /** One call, the call-th of the run, when want(call) instructions are left to ask for. */
  function CallCore(s: Sched, procs: nat, want: nat -> nat, core: (nat, nat) -> nat, call: nat): (t: Sched)
    requires s.InRange(procs) && Obeys(core)
    ensures t.InRange(procs)
  {
    AfterInRange(s, procs, want(call), core(call, Allowed(s, want(call))));
    After(s, procs, want(call), core(call, Allowed(s, want(call))))
  }

  /** k calls. */
  function Iterate(s: Sched, procs: nat, want: nat -> nat, core: (nat, nat) -> nat, call: nat, k: nat): (t: Sched)
    requires s.InRange(procs) && Obeys(core)
    ensures t.InRange(procs)
    decreases k
  {
    if k == 0 then s else Iterate(CallCore(s, procs, want, core, call), procs, want, core, call + 1, k - 1)
  }

  lemma {:induction false} IterateAdd(s: Sched, procs: nat, want: nat -> nat, core: (nat, nat) -> nat, call: nat,
      j: nat, k: nat)
    requires s.InRange(procs) && Obeys(core)
    ensures Iterate(s, procs, want, core, call, j + k)
         == Iterate(Iterate(s, procs, want, core, call, j), procs, want, core, call + j, k)
    decreases j
  {
    hide CallCore, Obeys, Sched.InRange;
    if j > 0 {
      IterateAdd(CallCore(s, procs, want, core, call), procs, want, core, call + 1, j - 1, k);
      assert call + 1 + (j - 1) == call + j;
    }
  }

  /** However the cores behave, the turn passes to the next core, with exactly one tick, in at most
      Remaining calls. */
  lemma {:induction false} TurnPasses(s: Sched, procs: nat, want: nat -> nat, core: (nat, nat) -> nat, call: nat)
      returns (k: nat)
    requires s.InRange(procs) && Obeys(core)
    ensures 1 <= k <= Remaining(s)
    ensures Iterate(s, procs, want, core, call, k) == Sched(0, 0, NextProc(s.currentProc, procs), s.ticks + 1)
    ensures forall j :: 0 <= j < k ==>
              var t := Iterate(s, procs, want, core, call, j); t.ticks == s.ticks && t.currentProc == s.currentProc
    decreases Remaining(s)
  {
    hide Obeys;
    RemainingBounds(s, procs);
    var t := CallCore(s, procs, want, core, call);
    CallShrinks(s, procs, want, core, call);
    if t.ticks != s.ticks {
      k := 1;
    } else {
      RemainingBounds(t, procs);
      var m := TurnPasses(t, procs, want, core, call + 1);
      k := m + 1;
      forall j | 0 <= j < k
        ensures var u := Iterate(s, procs, want, core, call, j); u.ticks == s.ticks && u.currentProc == s.currentProc
      {
        if j > 0 {
          assert Iterate(s, procs, want, core, call, j) == Iterate(t, procs, want, core, call + 1, j - 1);
        }
      }
    }
  }

  lemma CallShrinks(s: Sched, procs: nat, want: nat -> nat, core: (nat, nat) -> nat, call: nat)
    requires s.InRange(procs) && Obeys(core)
    ensures var t := CallCore(s, procs, want, core, call);
            if t.ticks == s.ticks then t.currentProc == s.currentProc && Remaining(t) < Remaining(s)
            else t == Sched(0, 0, NextProc(s.currentProc, procs), s.ticks + 1)
  {
    TurnShrinks(s, procs, want(call), core(call, Allowed(s, want(call))));
  }

  /** The turns core must wait for. */
  function TurnsAway(from: nat, core: nat, procs: nat): int {
    if core >= from then core - from else core + procs - from
  }

  /** Every core gets a turn within 2500 calls for each core before it. */
  lemma {:induction false} EveryCoreRuns(s: Sched, procs: nat, want: nat -> nat, core: (nat, nat) -> nat, call: nat,
      proc: nat)
    returns (k: nat)
    requires s.InRange(procs) && Obeys(core) && proc < procs
    ensures Iterate(s, procs, want, core, call, k).currentProc == proc
    ensures k <= 2500 * TurnsAway(s.currentProc, proc, procs)
    decreases TurnsAway(s.currentProc, proc, procs)
  {
    hide Obeys;
    if s.currentProc == proc {
      k := 0;
    } else {
      var j := TurnPasses(s, procs, want, core, call);
      RemainingBounds(s, procs);
      var m := EveryCoreRuns(Iterate(s, procs, want, core, call, j), procs, want, core, call + j, proc);
      k := j + m;
      IterateAdd(s, procs, want, core, call, j, m);
    }
  }

  // --- sim_t::step ---

  /** What step(n) does: the core calls it makes, each asking for what is left of n. */
  function StepFrom(s: Sched, procs: nat, left: nat, core: (nat, nat) -> nat, call: nat): (r: (Sched, nat))
    requires s.InRange(procs) && Obeys(core)
    ensures r.0.InRange(procs)
    decreases left
  {
    if left == 0 then (s, call)
    else
      AfterInRange(s, procs, left, core(call, Allowed(s, left)));
      StepFrom(After(s, procs, left, core(call, Allowed(s, left))), procs, left - Allowed(s, left), core, call + 1)
  }

  lemma StepFromIs(s: Sched, procs: nat, left: nat, core: (nat, nat) -> nat, call: nat)
    requires s.InRange(procs) && Obeys(core)
    ensures left == 0 ==> StepFrom(s, procs, left, core, call) == (s, call)
    ensures left > 0 ==>
      var t := After(s, procs, left, core(call, Allowed(s, left)));
      t.InRange(procs) && 0 < Allowed(s, left) <= left
      && StepFrom(s, procs, left, core, call) == StepFrom(t, procs, left - Allowed(s, left), core, call + 1)
  {
    AfterInRange(s, procs, left, core(call, Allowed(s, left)));
  }

  /** step(n) is k calls, with 1 <= k <= n unless n is zero, so every bound on calls bounds it. */
  lemma {:induction false} StepIsIterate(s: Sched, procs: nat, n: nat, core: (nat, nat) -> nat, call: nat)
    returns (want: nat -> nat, k: nat)
    requires s.InRange(procs) && Obeys(core)
    ensures k <= n && (n > 0 ==> k >= 1)
    ensures StepFrom(s, procs, n, core, call) == (Iterate(s, procs, want, core, call, k), call + k)
    decreases n
  {
    hide *;
    if n == 0 {
      want, k := _ => 0, 0;
      StepFromIs(s, procs, n, core, call);
      NoCalls(s, procs, want, core, call);
    } else {
      var t, left := FirstStep(s, procs, n, core, call);
      var later, m := StepIsIterate(t, procs, left, core, call + 1);
      want := Precede(s, t, procs, n, later, core, call, m);
      k := m + 1;
    }
  }

  lemma FirstStep(s: Sched, procs: nat, n: nat, core: (nat, nat) -> nat, call: nat) returns (t: Sched, left: nat)
    requires s.InRange(procs) && Obeys(core) && n > 0
    ensures left < n && t.InRange(procs) && core(call, Allowed(s, n)) <= Allowed(s, n)
    ensures t == After(s, procs, n, core(call, Allowed(s, n)))
    ensures StepFrom(s, procs, n, core, call) == StepFrom(t, procs, left, core, call + 1)
  {
    StepFromIs(s, procs, n, core, call);
    hide StepFrom, After;
    t := After(s, procs, n, core(call, Allowed(s, n)));
    left := n - Allowed(s, n);
  }

  /** One call, asking for n, before those of later. */
  lemma Precede(s: Sched, t: Sched, procs: nat, n: nat, later: nat -> nat, core: (nat, nat) -> nat, call: nat, m: nat)
    returns (want: nat -> nat)
    requires s.InRange(procs) && t.InRange(procs) && Obeys(core) && core(call, Allowed(s, n)) <= Allowed(s, n)
    requires t == After(s, procs, n, core(call, Allowed(s, n)))
    ensures Iterate(s, procs, want, core, call, m + 1) == Iterate(t, procs, later, core, call + 1, m)
  {
    hide *;
    want := i => if i == call then n else later(i);
    SameCalls(t, procs, later, want, core, call + 1, m);
    FirstCall(s, procs, want, core, call, m);
  }

  lemma NoCalls(s: Sched, procs: nat, want: nat -> nat, core: (nat, nat) -> nat, call: nat)
    requires s.InRange(procs) && Obeys(core)
    ensures Iterate(s, procs, want, core, call, 0) == s
  {
  }

  lemma FirstCall(s: Sched, procs: nat, want: nat -> nat, core: (nat, nat) -> nat, call: nat, k: nat)
    requires s.InRange(procs) && Obeys(core)
    ensures var t := After(s, procs, want(call), core(call, Allowed(s, want(call))));
            t.InRange(procs) && Iterate(s, procs, want, core, call, k + 1) == Iterate(t, procs, want, core, call + 1, k)
  {
    AfterInRange(s, procs, want(call), core(call, Allowed(s, want(call))));
    hide After, Allowed;
  }

  lemma {:induction false} SameCalls(s: Sched, procs: nat, want: nat -> nat, want': nat -> nat,
      core: (nat, nat) -> nat, call: nat, k: nat)
    requires s.InRange(procs) && Obeys(core) && forall i :: i >= call ==> want(i) == want'(i)
    ensures Iterate(s, procs, want, core, call, k) == Iterate(s, procs, want', core, call, k)
    decreases k
  {
    hide Obeys, Sched.InRange, After, Allowed;
    if k > 0 {
      SameCalls(CallCore(s, procs, want, core, call), procs, want, want', core, call + 1, k - 1);
    }
  }

  /** k calls of step, the i-th asking for sizes(i) instructions. */
  function Steps(s: Sched, procs: nat, sizes: nat -> nat, core: (nat, nat) -> nat, call: nat, i: nat,
      k: nat): (r: (Sched, nat))
    requires s.InRange(procs) && Obeys(core)
    ensures r.0.InRange(procs)
    decreases k
  {
    if k == 0 then (s, call)
    else
      var r := StepFrom(s, procs, sizes(i), core, call);
      Steps(r.0, procs, sizes, core, r.1, i + 1, k - 1)
  }

  /** A call of step either ends a turn or leaves less of it. */
  lemma {:induction false} StepShrinks(s: Sched, procs: nat, n: nat, core: (nat, nat) -> nat, call: nat)
    requires s.InRange(procs) && Obeys(core)
    ensures var t := StepFrom(s, procs, n, core, call).0;
            && t.ticks >= s.ticks
            && (t.ticks == s.ticks ==> t.currentProc == s.currentProc && Remaining(t) <= Remaining(s))
            && (t.ticks == s.ticks && n > 0 ==> Remaining(t) < Remaining(s))
    decreases n
  {
    if n > 0 {
      StepFromIs(s, procs, n, core, call);
      TurnShrinks(s, procs, n, core(call, Allowed(s, n)));
      StepShrinks(After(s, procs, n, core(call, Allowed(s, n))), procs, n - Allowed(s, n), core, call + 1);
    }
  }

  /** Whatever is asked of each call of step, at most 2500 of them see the turn pass. */
  lemma {:induction false} StepsPassTurn(s: Sched, procs: nat, sizes: nat -> nat, core: (nat, nat) -> nat, call: nat,
      i: nat)
    returns (k: nat)
    requires s.InRange(procs) && Obeys(core) && forall j :: sizes(j) > 0
    ensures 1 <= k <= Remaining(s) && Steps(s, procs, sizes, core, call, i, k).0.ticks > s.ticks
    decreases Remaining(s)
  {
    hide Obeys;
    RemainingBounds(s, procs);
    StepShrinks(s, procs, sizes(i), core, call);
    var r := StepFrom(s, procs, sizes(i), core, call);
    if r.0.ticks > s.ticks {
      k := 1;
      assert Steps(r.0, procs, sizes, core, r.1, i + 1, 0) == r;
    } else {
      RemainingBounds(r.0, procs);
      var m := StepsPassTurn(r.0, procs, sizes, core, r.1, i + 1);
      k := m + 1;
    }
  }

  // --- Two kinds of cores ---

  /** n instructions on from s: the turn, the quantum and the ticks they make, after one call per quantum. */
  ghost predicate Shares(s: Sched, procs: nat, n: nat, calls: nat, t: Sched)
    requires procs > 0
  {
    var total := s.currentStep + n;
    && t.currentStep == total % 50 && t.ticks == s.ticks + total / 50
    && t.currentProc == (s.currentProc + total / 50) % procs
    && t.idleCycles == (if n == 0 then s.idleCycles else 0)
    && calls == if n == 0 then 0 else (total - 1) / 50 + 1
  }

  /** Cores that always retire what they are asked for share the instructions in quanta of 50. */
  lemma {:induction false} BusyCores(s: Sched, procs: nat, n: nat, core: (nat, nat) -> nat, call: nat)
    requires s.InRange(procs) && forall i, steps :: core(i, steps) == steps
    ensures var (t, last) := StepFrom(s, procs, n, core, call); last >= call && Shares(s, procs, n, last - call, t)
    decreases n
  {
    if s.currentStep + n < 50 {
      WithinQuantum(s, procs, n, core, call);
    } else {
      FirstLeft(s, procs, n, core, call);
      var next := Sched(0, 0, NextProc(s.currentProc, procs), s.ticks + 1);
      BusyCores(next, procs, n - (50 - s.currentStep), core, call + 1);
      hide *;
      var (t, last) := StepFrom(s, procs, n, core, call);
      QuantumOn(s, procs, n, next, last - call - 1, t);
    }
  }

  lemma WithinQuantum(s: Sched, procs: nat, n: nat, core: (nat, nat) -> nat, call: nat)
    requires s.InRange(procs) && (forall i, steps :: core(i, steps) == steps) && s.currentStep + n < 50
    ensures var (t, last) := StepFrom(s, procs, n, core, call); last >= call && Shares(s, procs, n, last - call, t)
  {
    Turned(s.currentProc, procs, 0);
    StepFromIs(s, procs, n, core, call);
    if n > 0 {
      assert After(s, procs, n, n) == Sched(s.currentStep + n, 0, s.currentProc, s.ticks);
      StepFromIs(After(s, procs, n, n), procs, 0, core, call + 1);
    }
  }

  lemma QuantumOn(s: Sched, procs: nat, n: nat, next: Sched, calls: nat, t: Sched)
    requires s.currentStep < 50 <= s.currentStep + n && s.currentProc < procs
    requires next == Sched(0, 0, NextProc(s.currentProc, procs), s.ticks + 1)
    requires Shares(next, procs, n - (50 - s.currentStep), calls, t)
    ensures Shares(s, procs, n, calls + 1, t)
  {
    hide NextProc;
    var total := s.currentStep + n;
    Turned(s.currentProc, procs, total / 50);
    assert (total - 50) / 50 == total / 50 - 1 && (total - 50) % 50 == total % 50;
    assert total > 50 ==> (total - 51) / 50 == (total - 1) / 50 - 1;
  }

  lemma FirstLeft(s: Sched, procs: nat, n: nat, core: (nat, nat) -> nat, call: nat)
    requires s.InRange(procs) && s.currentStep + n >= 50 && forall i, steps :: core(i, steps) == steps
    ensures var t := Sched(0, 0, NextProc(s.currentProc, procs), s.ticks + 1);
            && t.InRange(procs)
            && StepFrom(s, procs, n, core, call) == StepFrom(t, procs, n - (50 - s.currentStep), core, call + 1)
  {
    StepFromIs(s, procs, n, core, call);
  }

  lemma Turned(proc: nat, procs: nat, k: nat)
    requires proc < procs
    ensures k == 0 ==> (proc + k) % procs == proc
    ensures k > 0 ==> (NextProc(proc, procs) + (k - 1)) % procs == (proc + k) % procs
  {
    if k > 0 && proc + 1 == procs {
      hide *;
      var q, r := (k - 1) / procs, (k - 1) % procs;
      assert proc + k == (q + 1) * procs + r;
      Euclid(proc + k, procs, q + 1, r);
      NextProcIs(proc, procs);
    }
  }

  lemma NextProcIs(proc: nat, procs: nat)
    ensures NextProc(proc, procs) == if proc + 1 == procs then 0 else proc + 1
  {
  }

  /** Cores that retire nothing give their turn up at the fiftieth call in a row, and not before. */
  lemma {:induction false} IdleCores(s: Sched, procs: nat, want: nat -> nat, core: (nat, nat) -> nat, call: nat, k: nat)
    requires s.InRange(procs) && (forall i, steps :: core(i, steps) == 0) && k <= 50 - s.idleCycles
    ensures Iterate(s, procs, want, core, call, k)
         == if k == 50 - s.idleCycles then Sched(0, 0, (s.currentProc + 1) % procs, s.ticks + 1)
            else s.(idleCycles := s.idleCycles + k)
    decreases k
  {
    hide *;
    if k == 0 {
      NoCalls(s, procs, want, core, call);
      StillIdle(s, procs);
    } else {
      IdleCall(s, procs, want(call), core, call);
      FirstCall(s, procs, want, core, call, k - 1);
      var t := After(s, procs, want(call), 0);
      if s.idleCycles + 1 < 50 {
        IdleCores(t, procs, want, core, call + 1, k - 1);
      } else {
        NoCalls(t, procs, want, core, call + 1);
      }
    }
  }

  lemma StillIdle(s: Sched, procs: nat)
    requires s.InRange(procs)
    ensures s.idleCycles < 50
  {
  }

  lemma IdleCall(s: Sched, procs: nat, want: nat, core: (nat, nat) -> nat, call: nat)
    requires s.InRange(procs) && forall i, steps :: core(i, steps) == 0
    ensures Obeys(core) && 0 <= Allowed(s, want) && core(call, Allowed(s, want)) == 0 && s.idleCycles < 50
    ensures var t := After(s, procs, want, 0);
            && t.InRange(procs)
            && t == if s.idleCycles == 49 then Sched(0, 0, (s.currentProc + 1) % procs, s.ticks + 1)
                    else s.(idleCycles := s.idleCycles + 1)
  {
    Turned(s.currentProc, procs, 1);
    Turned(if s.currentProc + 1 == procs then 0 else s.currentProc + 1, procs, 0);
  }

  class Sim {
    const procs: nat
    var currentStep: nat
    var idleCycles: nat
    var currentProc: nat
    var ticks: nat
    /** How many core calls were made. */
    var calls: nat

    function State(): Sched
      reads this
    {
      Sched(currentStep, idleCycles, currentProc, ticks)
    }

    constructor (procs: nat)
      ensures this.procs == (if procs < 1 then 1 else procs)
      ensures State() == Sched(0, 0, 0, 0) && State().InRange(this.procs) && calls == 0
    {
      this.procs := if procs < 1 then 1 else procs;
      currentStep, idleCycles, currentProc, ticks, calls := 0, 0, 0, 0, 0;
    }

    /** core stands for the cores, htifTick for the host interface, neither of which is modelled. */
    method Step(n: nat, core: (nat, nat) -> nat, htifTick: nat -> bool) returns (htifReturn: bool)
      requires State().InRange(procs) && Obeys(core)
      modifies this
      ensures State().InRange(procs)
      ensures (State(), calls) == StepFrom(old(State()), procs, n, core, old(calls))
      ensures htifReturn == (ticks == old(ticks) || htifTick(ticks))
    {
      hide StepFrom, After, Allowed, Obeys;
      htifReturn := true;
      ghost var start := State();
      var i := 0;
      while i < n
        invariant 0 <= i <= n && State().InRange(procs)
        invariant StepFrom(State(), procs, n - i, core, calls) == StepFrom(start, procs, n, core, old(calls))
        invariant htifReturn == (ticks == old(ticks) || htifTick(ticks)) && ticks >= old(ticks)
      {
        StepFromIs(State(), procs, n - i, core, calls);
        var steps := Allowed(State(), n - i);
        htifReturn := CallCore(n - i, core, htifReturn, htifTick);
        i := i + steps;
      }
      StepFromIs(State(), procs, 0, core, calls);
    }

    /** One turn of the loop: the current core, then perhaps a tick and the next core. */
    method CallCore(want: nat, core: (nat, nat) -> nat, htif: bool, htifTick: nat -> bool) returns (htifReturn: bool)
      requires State().InRange(procs) && Obeys(core) && want > 0
      modifies this
      ensures core(old(calls), Allowed(old(State()), want)) <= Allowed(old(State()), want)
      ensures State() == After(old(State()), procs, want, core(old(calls), Allowed(old(State()), want)))
      ensures State().InRange(procs) && calls == old(calls) + 1
      ensures ticks == old(ticks) || ticks == old(ticks) + 1
      ensures htifReturn == if ticks == old(ticks) then htif else htifTick(ticks)
    {
      htifReturn := htif;
      var instret := core(calls, Allowed(State(), want));
      calls := calls + 1;
      if instret != 0 {
        idleCycles := 0;
      } else {
        idleCycles := idleCycles + 1;
      }
      currentStep := currentStep + instret;
      if currentStep == INTERLEAVE || idleCycles == INTERLEAVE {
        currentStep, idleCycles := 0, 0;
        currentProc := currentProc + 1;
        if currentProc == procs {
          currentProc := 0;
        }
        ticks := ticks + 1;
        htifReturn := htifTick(ticks);
      }
    }
  }
}
