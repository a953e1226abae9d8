/** The lockstep checker's ring: filled by the functional simulator, drained by checkInstruction. */
module DebugRing {
  import opened Words

  // --- Entries ---

  datatype Operand = Operand(n: nat, value: u64, valid: bool)

  datatype OperandType = Dest | Source1 | Source2 | Source3

  datatype Push = Push(kind: OperandType, n: nat, value: u64)

  /** What push_state_actual copies, the register files apart. */
  datatype ArchState = ArchState(pc: u64, epc: u64, badvaddr: u64, evec: u64, ptbr: u64, pcrK0: u64, pcrK1: u64,
                                 cause: u64, tohost: u64, fromhost: u64, count: u64, compare: u32,
                                 sr: u32, fflags: u32, frm: u32, loadReservation: u64)

  const RESET := ArchState(0x2000, 0, 0, 0, 0, 0, 0, 0, 0, 0, 0, 0, 0x61, 0, 0, 0xFFFF_FFFF_FFFF_FFFF)

  datatype Entry = Entry(entryId: nat, valid: bool, pc: u64, nextPc: u64, inst: u64, flags: u32, latency: u32,
                         sequence: nat, exception: bool, state: ArchState,
                         numRdst: nat, rdst: Operand, numRsrc: nat, rsrc: seq<Operand>, numRsrcA: nat) {
    /** Every counted source is a valid one. */
    ghost predicate Ok() {
      |rsrc| == 3 && numRsrc <= Valids(rsrc)
    }

    function View(): Record {
      Record(pc, nextPc, inst, flags, latency, sequence, exception,
             if numRdst > 0 then Written(rdst.n, rdst.value) else NotWritten, state)
    }
  }

  datatype Destination = Written(n: nat, value: u64) | NotWritten

  /** What an entry says of one instruction of the functional simulator. */
  datatype Record = Record(pc: u64, nextPc: u64, inst: u64, flags: u32, latency: u32, sequence: nat, exception: bool,
                           dest: Destination, state: ArchState)

  function Valids(ops: seq<Operand>): nat
    requires |ops| == 3
  {
    Bit(ops[0].valid) + Bit(ops[1].valid) + Bit(ops[2].valid)
  }

  function Cleared(ops: seq<Operand>): (r: seq<Operand>)
    ensures |r| == |ops| && forall i :: 0 <= i < |r| ==> r[i] == ops[i].(valid := false)
  {
    seq(|ops|, i requires 0 <= i < |ops| => ops[i].(valid := false))
  }

  /** An entry taken for a new instruction; what is not reset stays from its last use. */
  function Started(e: Entry, sequence: nat): Entry {
    e.(exception := false, numRdst := 0, numRsrc := 0, numRsrcA := 0, sequence := sequence,
       rsrc := Cleared(e.rsrc), rdst := e.rdst.(valid := false))
  }

  function SourceIndex(kind: OperandType): (i: nat)
    ensures i < 3
  {
    match kind case Source2 => 1 case Source3 => 2 case _ => 0
  }

  /** An operand not pushed before. A destination marks the first source as pushed, not itself. */
  function Pushed(e: Entry, p: Push): Entry
    requires |e.rsrc| == 3
  {
    var i := SourceIndex(p.kind);
    if p.kind == Dest then
      if e.rdst.valid then e
      else e.(rdst := Operand(p.n, p.value, false), rsrc := e.rsrc[0 := e.rsrc[0].(valid := true)],
          numRdst := e.numRdst + 1)
    else if e.rsrc[i].valid then e
    else e.(rsrc := e.rsrc[i := Operand(p.n, p.value, true)], numRsrc := e.numRsrc + 1)
  }

  /** Both of push_operand_actual's bounds: there is one destination, and sources never pass three. */
  predicate CanPush(e: Entry, p: Push) {
    |e.rsrc| == 3 && if p.kind == Dest then e.rdst.valid || e.numRdst < 1
        else e.rsrc[SourceIndex(p.kind)].valid || e.numRsrc < 3
  }

  /** One push: for a source the bound always holds; for a destination, when none was pushed before. */
  lemma PushFits(e: Entry, p: Push)
    requires e.Ok() && (p.kind == Dest ==> e.numRdst == 0)
    ensures CanPush(e, p) && Pushed(e, p).Ok()
  {
  }

  /** What one push counts: a destination, or the source it makes valid. */
  lemma PushCounts(e: Entry, p: Push)
    requires |e.rsrc| == 3
    ensures |Pushed(e, p).rsrc| == 3 && Pushed(e, p).numRsrcA == e.numRsrcA
    ensures p.kind == Dest ==> Pushed(e, p).numRsrc == e.numRsrc
    ensures p.kind != Dest ==> Pushed(e, p).numRsrc - e.numRsrc == Valids(Pushed(e, p).rsrc) - Valids(e.rsrc)
    ensures Pushed(e, p).numRdst == e.numRdst + if p.kind == Dest && !e.rdst.valid then 1 else 0
  {
  }

  // --- Events ---

  /** One call of the functional simulator's step. An interrupt is taken before an entry is started,
      a trap inside an instruction after; a serialising instruction is retried at its own address. state is
      the simulator's own at the end of the call. */
  datatype Event =
    | Idle
    | Retire(inst: u64, next: u64, pushes: seq<Push>, state: ArchState)
    | Exception(inst: u64, handler: u64, pushes: seq<Push>, state: ArchState)
    | Serialize(inst: u64, pushes: seq<Push>, state: ArchState)
    | Interrupt(inst: u64, handler: u64, state: ArchState)

  predicate OneDest(pushes: seq<Push>) {
    pushes == [] || (OneDest(pushes[1..]) && (pushes[0].kind == Dest ==> NoDest(pushes[1..])))
  }

  predicate NoDest(pushes: seq<Push>) {
    forall i :: 0 <= i < |pushes| ==> pushes[i].kind != Dest
  }

  /** An instruction writes at most one register. */
  predicate Proper(e: Event) {
    match e
    case Retire(_, _, pushes, _) => OneDest(pushes)
    case Exception(_, _, pushes, _) => OneDest(pushes)
    case Serialize(_, pushes, _) => OneDest(pushes)
    case _ => true
  }

  ghost predicate AllProper(events: seq<Event>) {
    forall i :: 0 <= i < |events| ==> Proper(events[i])
  }

  function DestOf(pushes: seq<Push>): Destination {
    if pushes == [] then NotWritten
    else if pushes[0].kind == Dest then Written(pushes[0].n, pushes[0].value)
    else DestOf(pushes[1..])
  }

  /** The destination is the register written first, if one is. */
  lemma {:induction false} DestMeans(pushes: seq<Push>)
    ensures DestOf(pushes) == NotWritten <==> NoDest(pushes)
    ensures forall k: nat :: k < |pushes| && pushes[k].kind == Dest && NoDest(pushes[..k]) ==>
              DestOf(pushes) == Written(pushes[k].n, pushes[k].value)
    decreases |pushes|
  {
    if pushes != [] {
      NoDestSplit(pushes);
      DestMeans(pushes[1..]);
      forall k: nat | k < |pushes| && pushes[k].kind == Dest && NoDest(pushes[..k])
        ensures DestOf(pushes) == Written(pushes[k].n, pushes[k].value)
      {
        if k > 0 {
          NoDestSplit(pushes[..k]);
          assert pushes[..k][1..] == pushes[1..][..k - 1] && pushes[k] == pushes[1..][k - 1];
        }
      }
    }
  }

  // --- The queue the ring stands for ---

  datatype Run = Run(queue: seq<Record>, pc: u64, sequence: nat, events: seq<Event>)

  /** The effect of one event on the queue and on the simulator's pc. */
  function Happens(queue: seq<Record>, pc: u64, sequence: nat, e: Event): (seq<Record>, u64, nat) {
    match e
    case Idle => (queue, pc, sequence)
    case Retire(inst, next, pushes, state) =>
      (queue + [Record(pc, next, inst, 0, 0, sequence + 1, false, DestOf(pushes), state)], next, sequence + 1)
    case Exception(inst, handler, pushes, state) =>
      (queue + [Record(pc, handler, inst, 0, 0, sequence + 1, true, DestOf(pushes), state)], handler, sequence + 1)
    case Serialize(inst, pushes, state) =>
      (queue + [Record(pc, pc, inst, 0, 0, sequence + 1, false, DestOf(pushes), state)], pc, sequence + 1)
    case Interrupt(inst, handler, state) =>
      (if queue == [] then queue
       else
         var l := |queue| - 1;
         queue[l := Record(pc, handler, inst, 0, 0, queue[l].sequence, true, queue[l].dest, state)], handler, sequence)
  }

  /** What each event means: where the simulator goes on, and what it leaves at the young end. An entry is
      for the pc the event began at and continues where the simulator does. */
  lemma HappensMeans(queue: seq<Record>, pc: u64, sequence: nat, e: Event)
    ensures var (q, p, n) := Happens(queue, pc, sequence, e);
            && p == (match e
                     case Idle => pc
                     case Retire(_, next, _, _) => next
                     case Exception(_, handler, _, _) => handler
                     case Serialize(_, _, _) => pc
                     case Interrupt(_, handler, _) => handler)
            && (e.Retire? || e.Exception? || e.Serialize? ==>
                  |q| == |queue| + 1 && q[..|queue|] == queue && n == sequence + 1 && q[|queue|].sequence == n)
            && (e.Idle? || e.Interrupt? ==> |q| == |queue| && n == sequence)
            && (e.Interrupt? && queue != [] ==>
                  && q[..|q| - 1] == queue[..|q| - 1] && q[|q| - 1].sequence == queue[|q| - 1].sequence
                  && q[|q| - 1].dest == queue[|q| - 1].dest)
            && (!e.Idle? && q != [] ==>
                  var r := q[|q| - 1];
                  && r.pc == pc && r.nextPc == p && (r.exception <==> e.Exception? || e.Interrupt?)
                  && r.inst == e.inst && r.state == e.state && r.flags == 0 && r.latency == 0
                  && (!e.Interrupt? ==> r.dest == DestOf(e.pushes)))
            && (e.Idle? ==> q == queue)
  {
  }

  function Next(s: Run): Run
    requires s.events != []
  {
    var (queue, pc, sequence) := Happens(s.queue, s.pc, s.sequence, s.events[0]);
    Run(queue, pc, sequence, s.events[1..])
  }

  /** Stepping while there is room and the simulator still runs. */
  function Fed(s: Run, size: nat): Run
    decreases |s.events|
  {
    if |s.queue| < size && s.events != [] then Fed(Next(s), size) else s
  }

  /** The ring never overflows, and stops filling only when full or when the simulator is done. */
  lemma {:induction false} FedFits(s: Run, size: nat)
    requires |s.queue| <= size
    ensures var t := Fed(s, size); |s.queue| <= |t.queue| <= size && (t.events == [] || |t.queue| == size)
    ensures AllProper(s.events) ==> AllProper(Fed(s, size).events)
    decreases |s.events|
  {
    if |s.queue| < size && s.events != [] {
      FedFits(Next(s), size);
    }
  }

  // --- Runs without interrupts ---

  ghost predicate Calm(events: seq<Event>) {
    forall i :: 0 <= i < |events| ==> !events[i].Interrupt?
  }

  /** Each record continues where the one before ended, from arch to the simulator's pc. */
  ghost predicate Tracks(arch: u64, queue: seq<Record>, pc: u64)
    decreases |queue|
  {
    if queue == [] then arch == pc else queue[0].pc == arch && Tracks(queue[0].nextPc, queue[1..], pc)
  }

  lemma {:induction false} TracksAppend(arch: u64, queue: seq<Record>, pc: u64, r: Record)
    requires Tracks(arch, queue, pc) && r.pc == pc
    ensures Tracks(arch, queue + [r], r.nextPc)
    decreases |queue|
  {
    if queue == [] {
      assert Tracks(r.nextPc, [], r.nextPc);
    } else {
      TracksAppend(queue[0].nextPc, queue[1..], pc, r);
      assert (queue + [r])[1..] == queue[1..] + [r];
    }
  }

  lemma {:induction false} TracksJoin(arch: u64, first: seq<Record>, middle: u64, later: seq<Record>, pc: u64)
    requires Tracks(arch, first, middle) && Tracks(middle, later, pc)
    ensures Tracks(arch, first + later, pc)
    decreases |first|
  {
    if first == [] {
      assert first + later == later;
    } else {
      TracksJoin(first[0].nextPc, first[1..], middle, later, pc);
      assert (first + later)[1..] == first[1..] + later;
    }
  }

  /** An interrupt overwrites the youngest entry, so tracking survives it exactly when that entry was
      for the interrupted pc, or when there is no entry and the handler is the interrupted pc. */
  lemma {:induction false} InterruptTracks(arch: u64, queue: seq<Record>, pc: u64, sequence: nat, inst: u64,
      handler: u64, state: ArchState)
    requires Tracks(arch, queue, pc)
    ensures var (q, p, _) := Happens(queue, pc, sequence, Interrupt(inst, handler, state));
            Tracks(arch, q, p) <==> if queue == [] then handler == pc else queue[|queue| - 1].pc == pc
    decreases |queue|
  {
    if |queue| == 1 {
      var r := Record(pc, handler, inst, 0, 0, queue[0].sequence, true, queue[0].dest, state);
      assert queue[0 := r] == [r];
      assert Tracks(r.nextPc, [], handler);
    } else if |queue| > 1 {
      var rest, l := queue[1..], |queue| - 1;
      InterruptTracks(queue[0].nextPc, rest, pc, sequence, inst, handler, state);
      var r := Record(pc, handler, inst, 0, 0, queue[l].sequence, true, queue[l].dest, state);
      assert queue[l := r][1..] == rest[l - 1 := r];
    }
  }

  /** All the simulator still has to say after the queue. */
  ghost function Produced(pc: u64, sequence: nat, events: seq<Event>): seq<Record>
    decreases |events|
  {
    if events == [] then []
    else
      var (queue, next, n) := Happens([], pc, sequence, events[0]);
      queue + Produced(next, n, events[1..])
  }

  ghost function Stream(s: Run): seq<Record> {
    s.queue + Produced(s.pc, s.sequence, s.events)
  }

  /** A step without an interrupt appends what it produces. */
  lemma NextCalm(arch: u64, s: Run)
    requires Tracks(arch, s.queue, s.pc) && s.events != [] && !s.events[0].Interrupt?
    ensures var t := Next(s); Tracks(arch, t.queue, t.pc) && Stream(t) == Stream(s) && s.queue <= t.queue
  {
    hide Tracks;
    var (produced, pc, n) := Happens([], s.pc, s.sequence, s.events[0]);
    assert Next(s).queue == s.queue + produced;
    assert |produced| <= 1;
    if produced != [] {
      TracksAppend(arch, s.queue, s.pc, produced[0]);
    }
  }

  /** Feeding only moves records from the stream's front to the queue's end, and keeps tracking. */
  lemma {:induction false} FedTracks(arch: u64, s: Run, size: nat)
    requires Tracks(arch, s.queue, s.pc) && Calm(s.events)
    ensures var t := Fed(s, size);
            && Tracks(arch, t.queue, t.pc) && Calm(t.events) && s.queue <= t.queue
            && Stream(t) == Stream(s)
    decreases |s.events|
  {
    if |s.queue| < size && s.events != [] {
      NextCalm(arch, s);
      FedTracks(arch, Next(s), size);
    }
  }

  // --- Runs with interrupts ---

  /** An interrupt finds the youngest entry to be for the interrupted pc, or none and its handler there. */
  ghost predicate Harmless(s: Run)
    requires s.events != []
  {
    s.events[0].Interrupt? ==>
      if s.queue == [] then s.events[0].handler == s.pc else s.queue[|s.queue| - 1].pc == s.pc
  }

  ghost predicate FeedsHarmlessly(s: Run, size: nat)
    decreases |s.events|
  {
    |s.queue| < size && s.events != [] ==> Harmless(s) && FeedsHarmlessly(Next(s), size)
  }

  /** Every state passed through while filling is on track. */
  ghost predicate TracksThroughout(arch: u64, s: Run, size: nat)
    decreases |s.events|
  {
    Tracks(arch, s.queue, s.pc) && (|s.queue| < size && s.events != [] ==> TracksThroughout(arch, Next(s), size))
  }

  lemma NextTracks(arch: u64, s: Run)
    requires Tracks(arch, s.queue, s.pc) && s.events != []
    ensures Tracks(arch, Next(s).queue, Next(s).pc) <==> Harmless(s)
  {
    hide Tracks;
    if s.events[0].Interrupt? {
      InterruptTracks(arch, s.queue, s.pc, s.sequence, s.events[0].inst, s.events[0].handler, s.events[0].state);
    } else {
      NextCalm(arch, s);
    }
  }

  /** Filling stays on track throughout exactly when each interrupt it meets is harmless. */
  lemma {:induction false} HarmlessTracks(arch: u64, s: Run, size: nat)
    requires Tracks(arch, s.queue, s.pc)
    ensures TracksThroughout(arch, s, size) <==> FeedsHarmlessly(s, size)
    ensures FeedsHarmlessly(s, size) ==> Tracks(arch, Fed(s, size).queue, Fed(s, size).pc)
    decreases |s.events|
  {
    hide Harmless, Next;
    if |s.queue| < size && s.events != [] {
      NextTracks(arch, s);
      NextFewer(s);
      if Harmless(s) {
        HarmlessTracks(arch, Next(s), size);
      } else {
        assert !TracksThroughout(arch, Next(s), size);
      }
    }
  }

  lemma NextFewer(s: Run)
    requires s.events != []
    ensures Next(s).events == s.events[1..]
  {
  }

  lemma {:induction false} CalmHarmless(s: Run, size: nat)
    requires Calm(s.events)
    ensures FeedsHarmlessly(s, size)
    decreases |s.events|
  {
    if |s.queue| < size && s.events != [] {
      CalmHarmless(Next(s), size);
    }
  }

  // --- Draining the queue ---

  /** What is left once the refilled queue's front is popped. */
  ghost function Popped(s: Run, size: nat): Run {
    var fed := Fed(s, size);
    if fed.queue == [] then fed else fed.(queue := fed.queue[1..])
  }

  /** The fronts of k pops, each after a refill, and what is left. */
  ghost function Drained(s: Run, size: nat, k: nat): (seq<Record>, Run)
    decreases k
  {
    if k == 0 || Fed(s, size).queue == [] then ([], s)
    else
      var (fronts, rest) := Drained(Popped(s, size), size, k - 1);
      ([Fed(s, size).queue[0]] + fronts, rest)
  }

  /** Each interrupt met while k entries are drained is harmless. */
  ghost predicate DrainsHarmlessly(s: Run, size: nat, k: nat)
    decreases k
  {
    k > 0 && s.queue != [] ==> FeedsHarmlessly(s, size) && DrainsHarmlessly(Popped(s, size), size, k - 1)
  }

  lemma PoppedStream(s: Run, size: nat)
    requires Fed(s, size).queue != []
    ensures [Fed(s, size).queue[0]] + Stream(Popped(s, size)) == Stream(Fed(s, size))
  {
    var fed := Fed(s, size);
    assert fed.queue == [fed.queue[0]] + fed.queue[1..];
  }

  /** Without interrupts, what is drained is the next of all the simulator produces, in order. */
  lemma {:induction false} CalmDrains(arch: u64, s: Run, size: nat, k: nat)
    requires Tracks(arch, s.queue, s.pc) && Calm(s.events)
    ensures var (fronts, rest) := Drained(s, size, k); fronts + Stream(rest) == Stream(s) && Calm(rest.events)
    ensures DrainsHarmlessly(s, size, k)
    decreases k
  {
    hide Stream;
    FedTracks(arch, s, size);
    CalmHarmless(s, size);
    if k > 0 && Fed(s, size).queue != [] {
      var front := Fed(s, size).queue[0];
      PoppedStream(s, size);
      CalmDrains(front.nextPc, Popped(s, size), size, k - 1);
      var (fronts, rest) := Drained(Popped(s, size), size, k - 1);
      assert [front] + (fronts + Stream(rest)) == [front] + fronts + Stream(rest);
    } else if k > 0 && s.queue != [] {
      assert false;
    } else {
      assert [] + Stream(s) == Stream(s);
    }
  }

  // --- The ring's active part ---

  /** The i-th oldest entry's index. */
  function Slot(size: nat, head: nat, i: nat): nat {
    if head + i < size then head + i else head + i - size
  }

  /** The records of n entries from head on. */
  ghost function Window(db: seq<Entry>, head: nat, n: nat): (w: seq<Record>)
    requires head < |db| && n <= |db|
    ensures |w| == n
  {
    seq(n, i requires 0 <= i < n => db[Slot(|db|, head, i)].View())
  }

  lemma WindowGrows(was: seq<Entry>, now: seq<Entry>, head: nat, n: nat)
    requires head < |was| == |now| && n < |was|
    requires forall k :: 0 <= k < |was| && k != Slot(|was|, head, n) ==> now[k].View() == was[k].View()
    ensures Window(now, head, n + 1) == Window(was, head, n) + [now[Slot(|was|, head, n)].View()]
  {
    hide Entry.View;
  }

  lemma WindowLast(was: seq<Entry>, now: seq<Entry>, head: nat, n: nat)
    requires head < |was| == |now| && 0 < n <= |was|
    requires forall k :: 0 <= k < |was| && k != Slot(|was|, head, n - 1) ==> now[k].View() == was[k].View()
    ensures Window(now, head, n) == Window(was, head, n)[n - 1 := now[Slot(|was|, head, n - 1)].View()]
    ensures Window(was, head, n)[n - 1] == was[Slot(|was|, head, n - 1)].View()
  {
    hide Entry.View;
  }

  lemma WindowSame(was: seq<Entry>, now: seq<Entry>, head: nat, n: nat)
    requires head < |was| == |now| && n <= |was|
    requires forall k :: 0 <= k < |was| ==> now[k].View() == was[k].View()
    ensures Window(now, head, n) == Window(was, head, n)
  {
    hide Entry.View;
  }

  lemma WindowDrops(db: seq<Entry>, head: nat, n: nat)
    requires head < |db| && 0 < n <= |db|
    ensures Window(db, head, n)[0] == db[head].View()
    ensures Window(db, Slot(|db|, head, 1), n - 1) == Window(db, head, n)[1..]
  {
    hide Entry.View;
  }

  // --- The ring ---

  /** The entries once the one at tail is taken for a new instruction. */
  function Restarted(db: seq<Entry>, head: nat, tail: nat, sequence: nat): seq<Entry>
    requires head < |db| && tail < |db|
  {
    var marked := db[head := db[head].(valid := true)];
    marked[tail := Started(marked[tail], sequence)]
  }

  lemma RestartedIs(db: seq<Entry>, head: nat, tail: nat, sequence: nat)
    requires head < |db| && tail < |db|
    requires forall i :: 0 <= i < |db| ==> db[i].entryId == i && db[i].Ok()
    ensures var r, marked := Restarted(db, head, tail, sequence), db[head := db[head].(valid := true)];
            && r == marked[tail := Started(marked[tail], sequence)]
            && (forall i :: 0 <= i < |db| ==> r[i].entryId == i && r[i].Ok())
            && (forall i :: 0 <= i < |db| && i != tail ==> r[i].View() == db[i].View())
            && r[tail].View() == Started(db[tail], sequence).View()
  {
    hide Entry.Ok, Entry.View;
    var marked := db[head := db[head].(valid := true)];
    MarkedIs(db[head]);
    StartedIs(db[tail], sequence);
    StartedIs(marked[tail], sequence);
  }

  /** Nothing is recorded in it yet. */
  lemma StartedFields(e: Entry, sequence: nat)
    requires |e.rsrc| == 3
    ensures var s := Started(e, sequence);
            && s.numRdst == s.numRsrc == s.numRsrcA == 0 && !s.exception && s.sequence == sequence
            && !s.rdst.valid && |s.rsrc| == 3 && !s.rsrc[0].valid && !s.rsrc[1].valid && !s.rsrc[2].valid
  {
  }

  lemma EntryOkSize(e: Entry)
    requires e.Ok()
    ensures |e.rsrc| == 3
  {
  }

  lemma MarkedIs(e: Entry)
    requires e.Ok()
    ensures e.(valid := true).Ok() && e.(valid := true).View() == e.View()
  {
  }

  lemma StartedIs(e: Entry, sequence: nat)
    requires e.Ok()
    ensures Started(e, sequence).Ok() && Started(e, sequence).entryId == e.entryId
    ensures Started(e.(valid := true), sequence).View() == Started(e, sequence).View()
  {
  }

  class DebugBuffer {
    const size: nat
    const db: array<Entry>
    var head: nat
    var tail: nat
    var length: nat
    var instSequence: nat

    ghost predicate Valid()
      reads this, db
    {
      && size > 0 && db.Length == size && head < size && length <= size
      && tail == (if length == 0 then (if head == 0 then size - 1 else head - 1) else Slot(size, head, length - 1))
      && forall i :: 0 <= i < size ==> db[i].entryId == i && db[i].Ok()
    }

    /** The entries between head and tail, oldest first. */
    ghost function Contents(): (c: seq<Record>)
      reads this, db
      requires Valid()
      ensures |c| == length
    {
      Window(db[..], head, length)
    }

    constructor (windowSize: nat)
      requires windowSize > 0
      ensures Valid() && Contents() == [] && size == windowSize && instSequence == 0 && fresh(db)
      ensures forall i :: 0 <= i < size ==>
                && !db[i].valid && db[i].numRdst == 0
                && db[i].state == ArchState(0x2000, 0, 0, 0, 0, 0, 0, 0, 0, 0, 0, 0, 0x61, 0, 0, 0xFFFF_FFFF_FFFF_FFFF)
    {
      size := windowSize;
      var blank := Operand(0, 0, false);
      db := new Entry[windowSize]((i: nat) =>
        Entry(i, false, 0, 0, 0, 0, 0, 0, false, RESET, 0, blank, 0, [blank, blank, blank], 0));
      head, tail, length, instSequence := 0, windowSize - 1, 0, 0;
    }

    /** MOD of a step past an index, the size being a power of two. */
    function Bump(i: nat): nat {
      if i + 1 >= size then i + 1 - size else i + 1
    }

    predicate Hungry()
      reads this
    {
      length < size
    }

    ghost function Youngest(): Entry
      reads this, db
      requires Valid()
    {
      db[tail]
    }

    lemma Sized()
      requires Valid()
      ensures |db[..]| == db.Length == size && length <= size
      ensures forall i :: 0 <= i < size ==> db[..][i].entryId == i && db[..][i].Ok()
    {
      hide Entry.Ok;
    }

    /** A new youngest entry. The valid mark goes to the head. */
    method Start()
      requires Valid() && length < size
      modifies this`length, this`tail, this`instSequence, db
      ensures Valid() && length == old(length) + 1 && instSequence == old(instSequence) + 1
      ensures db[..] == Restarted(old(db[..]), head, tail, instSequence)
      ensures var e := Youngest();
              && e.numRdst == e.numRsrc == e.numRsrcA == 0 && !e.exception && e.sequence == instSequence
              && !e.rdst.valid && |e.rsrc| == 3 && !e.rsrc[0].valid && !e.rsrc[1].valid && !e.rsrc[2].valid
      ensures Contents() == old(Contents()) + [Started(old(db[..])[tail], instSequence).View()]
    {
      hide Window, Started, Entry.Ok, Entry.View, Restarted;
      ghost var was := db[..];
      length := length + 1;
      tail := Bump(tail);
      assert db[tail].entryId == tail;
      RestartedIs(was, head, tail, instSequence + 1);
      db[head] := db[head].(valid := true);
      instSequence := instSequence + 1;
      db[tail] := Started(db[tail], instSequence);
      assert db[..] == Restarted(was, head, tail, instSequence);
      WindowGrows(was, db[..], head, length - 1);
      EntryOkSize(was[tail]);
      StartedFields(was[tail], instSequence);
      StartedFields(was[tail].(valid := true), instSequence);
    }

    /** Writes to the youngest entry, which with an empty ring is one that was popped already. */
    method Overwrite(e: Entry)
      requires Valid() && e.Ok() && e.entryId == tail
      modifies db
      ensures Valid() && db[..] == old(db[..])[tail := e]
      ensures Contents() == if length == 0 then [] else old(Contents())[length - 1 := e.View()]
      ensures length > 0 ==> old(Contents())[length - 1] == old(db[tail]).View()
    {
      hide Window, Entry.Ok, Entry.View;
      ghost var was := db[..];
      db[tail] := e;
      if length > 0 {
        WindowLast(was, db[..], head, length);
      }
    }

    method PushInstrActual(inst: u64, flags: u32, latency: u32, pc: u64, nextPc: u64)
      requires Valid()
      modifies db
      ensures Valid() && db[..] == old(db[..])[tail := Recorded(old(db[tail]), inst, flags, latency, pc, nextPc)]
      ensures Contents() == if length == 0 then [] else
                old(Contents())[length - 1 := Recorded(old(Youngest()), inst, flags, latency, pc, nextPc).View()]
      ensures length > 0 ==> old(Contents())[length - 1] == old(Youngest()).View()
      ensures var e := Youngest();
              && e.inst == inst && e.flags == flags && e.latency == latency && e.pc == pc && e.nextPc == nextPc
              && e.sequence == old(Youngest().sequence) && e.exception == old(Youngest().exception)
              && e.rdst == old(Youngest().rdst) && e.rsrc == old(Youngest().rsrc)
    {
      Overwrite(Recorded(db[tail], inst, flags, latency, pc, nextPc));
    }

    method PushExceptionActual(handler: u64)
      requires Valid()
      modifies db
      ensures Valid() && db[..] == old(db[..])[tail := old(db[tail]).(exception := true, nextPc := handler)]
      ensures Contents() == if length == 0 then [] else
                old(Contents())[length - 1 := old(Contents())[length - 1].(exception := true, nextPc := handler)]
    {
      Overwrite(db[tail].(exception := true, nextPc := handler));
    }

    method PushStateActual(state: ArchState)
      requires Valid()
      modifies db
      ensures Valid() && db[..] == old(db[..])[tail := old(db[tail]).(state := state)]
      ensures Contents() == if length == 0 then [] else
                old(Contents())[length - 1 := old(Contents())[length - 1].(state := state)]
    {
      Overwrite(db[tail].(state := state));
    }

    /** The source's bounds are asserted before the entry changes. */
    method PushOperandActual(p: Push)
      requires Valid() && (p.kind == Dest ==> Youngest().numRdst == 0)
      modifies db
      ensures Valid() && db[..] == old(db[..])[tail := Pushed(old(db[tail]), p)]
      ensures Youngest() == Pushed(old(Youngest()), p)
      ensures Contents() == if length == 0 then [] else old(Contents())[length - 1 := Youngest().View()]
    {
      PushFits(db[tail], p);
      assert CanPush(db[tail], p);
      Overwrite(Pushed(db[tail], p));
    }

    /** The entry start has just taken. */
    lemma Fresh(was: seq<Entry>, pushes: seq<Push>) returns (e: Entry)
      requires Valid() && |was| == size && db[..] == Restarted(was, head, tail, instSequence) && OneDest(pushes)
      requires forall i :: 0 <= i < size ==> was[i].entryId == i && was[i].Ok()
      ensures e == Youngest() && |e.rsrc| == 3 && e.numRdst == 0 && !e.exception && e.sequence == instSequence
      ensures Ready(e, pushes) && e.View() == Started(was[tail], instSequence).View()
    {
      e := db[tail];
      assert e == db[..][tail];
      var marked := was[head := was[head].(valid := true)];
      StartedReady(marked[tail], instSequence, pushes);
    }

    /** Clears the head's valid mark. */
    method Unmark()
      requires Valid()
      modifies db
      ensures Valid() && Contents() == old(Contents()) && db[..] == old(db[..])[head := old(db[head]).(valid := false)]
    {
      hide Window;
      ghost var was := db[..];
      db[head] := db[head].(valid := false);
      WindowSame(was, db[..], head, length);
    }

    /** The head entry's index, once its pc is the one expected. */
    method First(pc: u64) returns (i: nat)
      requires Valid() && length > 0 && pc == Contents()[0].pc
      ensures i == head
    {
      WindowDrops(db[..], head, length);
      assert pc == db[head].pc;
      i := head;
    }

    /** Drops the head entry; its contents stay where they are. */
    method Drop() returns (i: nat)
      requires Valid() && length > 0
      modifies this`length, this`head
      ensures Valid() && length == old(length) - 1 && i == old(head)
      ensures Contents() == old(Contents())[1..] && db[i].View() == old(Contents())[0]
    {
      hide Window, Entry.Ok, Entry.View;
      WindowDrops(db[..], head, length);
      i := head;
      length := length - 1;
      head := Bump(head);
    }
  }

  /** What push_instr_actual fills in. */
  function Recorded(e: Entry, inst: u64, flags: u32, latency: u32, pc: u64, nextPc: u64): Entry {
    e.(inst := inst, flags := flags, latency := latency, pc := pc, nextPc := nextPc)
  }

  // --- An instruction's operands, one after the other ---

  function PushAll(e: Entry, pushes: seq<Push>): Entry
    requires |e.rsrc| == 3
    decreases |pushes|
  {
    if pushes == [] then e else PushAll(Pushed(e, pushes[0]), pushes[1..])
  }

  /** The bound asserted for each operand holds. */
  ghost predicate AllFit(e: Entry, pushes: seq<Push>)
    requires |e.rsrc| == 3
    decreases |pushes|
  {
    pushes == [] || (CanPush(e, pushes[0]) && AllFit(Pushed(e, pushes[0]), pushes[1..]))
  }

  /** An instruction's operands meet their bounds exactly when there is at most one destination: the first
      never becomes valid, so the bound fails at the second. No instruction of the simulator writes two. */
  lemma FitsIffOneDest(e: Entry, pushes: seq<Push>)
    requires e.Ok() && !e.rdst.valid && e.numRdst == 0
    ensures AllFit(e, pushes) <==> OneDest(pushes)
  {
    FitsFrom(e, pushes);
  }

  lemma {:induction false} FitsFrom(e: Entry, pushes: seq<Push>)
    requires e.Ok() && !e.rdst.valid && e.numRdst <= 1
    ensures AllFit(e, pushes) <==> if e.numRdst == 0 then OneDest(pushes) else NoDest(pushes)
    decreases |pushes|
  {
    if pushes != [] {
      NoDestSplit(pushes);
      if !(pushes[0].kind == Dest && e.numRdst == 1) {
        PushFits(e, pushes[0]);
        PushedRdst(e, pushes[0]);
        hide Pushed, CanPush, Entry.Ok;
        FitsFrom(Pushed(e, pushes[0]), pushes[1..]);
        if NoDest(pushes[1..]) {
          NoDestIsOneDest(pushes[1..]);
        }
      }
    }
  }

  lemma PushedRdst(e: Entry, p: Push)
    requires |e.rsrc| == 3 && !e.rdst.valid
    ensures !Pushed(e, p).rdst.valid && Pushed(e, p).numRdst == e.numRdst + if p.kind == Dest then 1 else 0
  {
  }

  lemma NoDestSplit(pushes: seq<Push>)
    requires pushes != []
    ensures NoDest(pushes) <==> pushes[0].kind != Dest && NoDest(pushes[1..])
  {
    if pushes[0].kind != Dest && NoDest(pushes[1..]) {
      forall i | 0 <= i < |pushes| ensures pushes[i].kind != Dest {
        assert i > 0 ==> pushes[i] == pushes[1..][i - 1];
      }
    }
  }

  lemma {:induction false} NoDestIsOneDest(pushes: seq<Push>)
    requires NoDest(pushes)
    ensures OneDest(pushes)
  {
    if pushes != [] {
      NoDestSplit(pushes);
      NoDestIsOneDest(pushes[1..]);
    }
  }

  /** An operand of this kind is first pushed as operand k. */
  ghost predicate FirstOf(pushes: seq<Push>, kind: OperandType, k: nat) {
    k < |pushes| && pushes[k].kind == kind && forall j :: 0 <= j < k ==> pushes[j].kind != kind
  }

  /** Sources 2 and 3 end up as they were first pushed. */
  lemma {:induction false} LaterSourceRecorded(e: Entry, pushes: seq<Push>, kind: OperandType, k: nat)
    requires |e.rsrc| == 3 && !e.rdst.valid && (kind == Source2 || kind == Source3)
    requires !e.rsrc[if kind == Source2 then 1 else 2].valid && FirstOf(pushes, kind, k)
    ensures |PushAll(e, pushes).rsrc| == 3
    ensures PushAll(e, pushes).rsrc[if kind == Source2 then 1 else 2] == Operand(pushes[k].n, pushes[k].value, true)
    decreases |pushes|
  {
    if k == 0 {
      SourceKept(Pushed(e, pushes[0]), pushes[1..], kind);
    } else {
      assert FirstOf(pushes[1..], kind, k - 1);
      LaterSourceRecorded(Pushed(e, pushes[0]), pushes[1..], kind, k - 1);
    }
  }

  /** One that is not pushed stays as the last use left it, not valid. */
  lemma {:induction false} LaterSourceMissing(e: Entry, pushes: seq<Push>, kind: OperandType)
    requires |e.rsrc| == 3 && (kind == Source2 || kind == Source3)
    requires forall j :: 0 <= j < |pushes| ==> pushes[j].kind != kind
    ensures |PushAll(e, pushes).rsrc| == 3
    ensures var i := if kind == Source2 then 1 else 2; PushAll(e, pushes).rsrc[i] == e.rsrc[i]
    decreases |pushes|
  {
    if pushes != [] {
      assert forall j :: 0 <= j < |pushes[1..]| ==> pushes[1..][j] == pushes[j + 1];
      LaterSourceMissing(Pushed(e, pushes[0]), pushes[1..], kind);
    }
  }

  lemma {:induction false} SourceKept(e: Entry, pushes: seq<Push>, kind: OperandType)
    requires |e.rsrc| == 3 && (kind == Source2 || kind == Source3) && e.rsrc[if kind == Source2 then 1 else 2].valid
    ensures |PushAll(e, pushes).rsrc| == 3
    ensures var i := if kind == Source2 then 1 else 2; PushAll(e, pushes).rsrc[i] == e.rsrc[i]
    decreases |pushes|
  {
    if pushes != [] {
      SourceKept(Pushed(e, pushes[0]), pushes[1..], kind);
    }
  }

  /** It ends up recorded exactly when no destination was pushed before it, since a destination marks it as
      pushed; otherwise the entry keeps what its last use left. Every instruction reads before it writes. */
  lemma FirstSourceRecorded(e: Entry, pushes: seq<Push>, k: nat)
    requires |e.rsrc| == 3 && !e.rsrc[0].valid && !e.rdst.valid && FirstOf(pushes, Source1, k)
    ensures |PushAll(e, pushes).rsrc| == 3
    ensures PushAll(e, pushes).rsrc[0]
         == if NoDest(pushes[..k]) then Operand(pushes[k].n, pushes[k].value, true) else e.rsrc[0].(valid := true)
    ensures (e.rsrc[0].n, e.rsrc[0].value) != (pushes[k].n, pushes[k].value) ==>
      (PushAll(e, pushes).rsrc[0] == Operand(pushes[k].n, pushes[k].value, true) <==> NoDest(pushes[..k]))
  {
    FirstSourceFrom(e, pushes, k);
  }

  lemma {:induction false} FirstSourceFrom(e: Entry, pushes: seq<Push>, k: nat)
    requires |e.rsrc| == 3 && !e.rsrc[0].valid && !e.rdst.valid && FirstOf(pushes, Source1, k)
    ensures |PushAll(e, pushes).rsrc| == 3
    ensures PushAll(e, pushes).rsrc[0]
         == if NoDest(pushes[..k]) then Operand(pushes[k].n, pushes[k].value, true) else e.rsrc[0].(valid := true)
    decreases |pushes|
  {
    if k > 0 {
      NoDestSplit(pushes[..k]);
      assert pushes[..k][1..] == pushes[1..][..k - 1];
    }
    if k == 0 || pushes[0].kind == Dest {
      SourceStays(Pushed(e, pushes[0]), pushes[1..]);
    } else {
      assert FirstOf(pushes[1..], Source1, k - 1);
      FirstSourceFrom(Pushed(e, pushes[0]), pushes[1..], k - 1);
    }
  }

  /** Once marked as pushed, the first source stays as it is. */
  lemma {:induction false} SourceStays(e: Entry, pushes: seq<Push>)
    requires |e.rsrc| == 3 && e.rsrc[0].valid
    ensures |PushAll(e, pushes).rsrc| == 3 && PushAll(e, pushes).rsrc[0] == e.rsrc[0]
    decreases |pushes|
  {
    if pushes != [] {
      SourceStays(Pushed(e, pushes[0]), pushes[1..]);
    }
  }

  /** No more destinations can come than one. */
  ghost predicate Ready(e: Entry, pushes: seq<Push>) {
    |e.rsrc| == 3 && !e.rdst.valid && if e.numRdst == 0 then OneDest(pushes) else NoDest(pushes)
  }

  lemma ReadyIs(e: Entry, pushes: seq<Push>)
    requires Ready(e, pushes)
    ensures |e.rsrc| == 3
  {
  }

  lemma PushAllNone(e: Entry)
    requires |e.rsrc| == 3
    ensures PushAll(e, []) == e
  {
  }

  lemma ReadyStep(e: Entry, pushes: seq<Push>)
    requires Ready(e, pushes) && pushes != []
    ensures |Pushed(e, pushes[0]).rsrc| == 3 && Ready(Pushed(e, pushes[0]), pushes[1..])
    ensures pushes[0].kind == Dest ==> e.numRdst == 0
    ensures PushAll(e, pushes) == PushAll(Pushed(e, pushes[0]), pushes[1..])
  {
  }

  lemma {:induction false} PushAllView(e: Entry, pushes: seq<Push>)
    requires Ready(e, pushes)
    ensures PushAll(e, pushes).View() == if e.numRdst == 0 then e.View().(dest := DestOf(pushes)) else e.View()
    decreases |pushes|
  {
    if pushes != [] {
      ReadyStep(e, pushes);
      PushAllView(Pushed(e, pushes[0]), pushes[1..]);
      if pushes[0].kind == Dest {
        NoDestAgain(pushes[1..]);
      }
    }
  }

  lemma {:induction false} NoDestAgain(pushes: seq<Push>)
    requires NoDest(pushes)
    ensures DestOf(pushes) == NotWritten
  {
    if pushes != [] {
      NoDestAgain(pushes[1..]);
    }
  }

  lemma StartedReady(e: Entry, sequence: nat, pushes: seq<Push>)
    requires |e.rsrc| == 3 && OneDest(pushes)
    ensures Ready(Started(e, sequence), pushes) && Started(e, sequence).numRdst == 0
    ensures var v := Started(e, sequence).View(); v.sequence == sequence && !v.exception
  {
  }

  // --- The functional simulator and the checker around the ring ---

  /** One call of checkInstruction: the pipeline's pc, destination and value, and its control registers.
      A fission's second half has no entry of its own. */
  datatype Check = Check(pc: u64, dest: nat, value: u64, micro: ArchState, isFission: bool)

  /** What check_state compares, which is not all that was copied. */
  predicate SameControl(micro: ArchState, isa: ArchState) {
    && micro.badvaddr == isa.badvaddr && micro.tohost == isa.tohost && micro.fromhost == isa.fromhost
    && micro.count == isa.count && micro.sr == isa.sr && micro.fflags == isa.fflags && micro.frm == isa.frm
  }

  predicate Passes(r: Record, c: Check) {
    c.pc == r.pc && (r.dest == NotWritten || r.dest == Written(c.dest, c.value)) && SameControl(c.micro, r.state)
  }

  /** Whether any of the registers compared differs. */
  function CheckState(micro: ArchState, isa: ArchState): (fail: bool)
    ensures fail <==> !SameControl(micro, isa)
  {
    || micro.badvaddr != isa.badvaddr || micro.tohost != isa.tohost || micro.fromhost != isa.fromhost
    || micro.count != isa.count || micro.sr != isa.sr || micro.fflags != isa.fflags || micro.frm != isa.frm
  }

  /** How many entries the checks ask for. */
  function EntriesAsked(checks: seq<Check>): nat {
    if checks == [] then 0 else (if checks[0].isFission then 0 else 1) + EntriesAsked(checks[1..])
  }

  lemma EntriesAskedSplit(checks: seq<Check>)
    requires checks != []
    ensures EntriesAsked(checks) == (if checks[0].isFission then 0 else 1) + EntriesAsked(checks[1..])
  {
  }

  /** Each check but a fission's against the next record. */
  predicate Agree(checks: seq<Check>, checked: seq<Record>, verdicts: seq<bool>)
    decreases |checks|
  {
    if checks == [] then checked == [] && verdicts == []
    else if checks[0].isFission then verdicts != [] && verdicts[0] && Agree(checks[1..], checked, verdicts[1..])
    else
      && checked != [] && verdicts != [] && verdicts[0] == Passes(checked[0], checks[0])
      && Agree(checks[1..], checked[1..], verdicts[1..])
  }

  // --- What decides a verdict ---

  datatype StateField =
    | PcField | EpcField | BadVAddrField | EvecField | PtbrField | K0Field | K1Field | CauseField
    | ToHostField | FromHostField | CountField | CompareField | SrField | FflagsField | FrmField | ReservationField

  const COMPARED := {BadVAddrField, ToHostField, FromHostField, CountField, SrField, FflagsField, FrmField}

  /** s with one field taken from t. */
  function With(s: ArchState, field: StateField, t: ArchState): ArchState {
    match field
    case PcField => s.(pc := t.pc)
    case EpcField => s.(epc := t.epc)
    case BadVAddrField => s.(badvaddr := t.badvaddr)
    case EvecField => s.(evec := t.evec)
    case PtbrField => s.(ptbr := t.ptbr)
    case K0Field => s.(pcrK0 := t.pcrK0)
    case K1Field => s.(pcrK1 := t.pcrK1)
    case CauseField => s.(cause := t.cause)
    case ToHostField => s.(tohost := t.tohost)
    case FromHostField => s.(fromhost := t.fromhost)
    case CountField => s.(count := t.count)
    case CompareField => s.(compare := t.compare)
    case SrField => s.(sr := t.sr)
    case FflagsField => s.(fflags := t.fflags)
    case FrmField => s.(frm := t.frm)
    case ReservationField => s.(loadReservation := t.loadReservation)
  }

  /** A check that carries the record's own pc, destination and value. */
  predicate Carries(c: Check, r: Record) {
    !c.isFission && c.pc == r.pc && (r.dest.Written? ==> c.dest == r.dest.n && c.value == r.dest.value)
  }

  /** With the record's own state too it passes. Another value in one field makes it fail exactly when the
      field is one of seven. */
  lemma FieldDecides(c: Check, r: Record, verdict: bool, field: StateField, t: ArchState)
    requires Agree([c], [r], [verdict]) && Carries(c, r) && c.micro == With(r.state, field, t)
    ensures c.micro == r.state ==> verdict
    ensures c.micro != r.state ==>
      (!verdict <==> field in COMPARED)
  {
  }

  /** Nothing that differs in a field that counts can pass, whatever else does. */
  lemma PassesOnly(c: Check, r: Record, verdict: bool)
    requires Agree([c], [r], [verdict]) && !c.isFission && verdict
    ensures Carries(c, r)
    ensures forall field :: field in COMPARED ==> With(r.state, field, c.micro) == r.state
  {
  }

  /** And what agrees in all of those passes. */
  lemma PassesWhenever(c: Check, r: Record, verdict: bool)
    requires Agree([c], [r], [verdict]) && Carries(c, r)
    requires forall field :: field in COMPARED ==> With(r.state, field, c.micro) == r.state
    ensures verdict
  {
    assert With(r.state, BadVAddrField, c.micro) == With(r.state, ToHostField, c.micro) == r.state;
    assert With(r.state, FromHostField, c.micro) == With(r.state, CountField, c.micro) == r.state;
    assert With(r.state, SrField, c.micro) == With(r.state, FflagsField, c.micro) == r.state;
    assert With(r.state, FrmField, c.micro) == r.state;
  }

  class Checker {
    const ring: DebugBuffer
    var simPc: u64
    var archPc: u64
    /** What the functional simulator will do, one event a step; it runs until there are none left. */
    var events: seq<Event>

    ghost predicate Valid()
      reads this, ring, ring.db
    {
      ring.Valid() && AllProper(events)
    }

    ghost function State(): Run
      reads this, ring, ring.db
      requires Valid()
    {
      Run(ring.Contents(), simPc, ring.instSequence, events)
    }

    /** Each entry of the ring continues the one before it, and the oldest is at arch_pc. */
    ghost predicate InStep()
      reads this, ring, ring.db
      requires Valid()
    {
      Tracks(archPc, ring.Contents(), simPc)
    }

    constructor (windowSize: nat, pc: u64, events: seq<Event>)
      requires windowSize > 0 && AllProper(events)
      ensures Valid() && InStep() && ring.Contents() == [] && ring.size == windowSize
      ensures simPc == archPc == pc && this.events == events && fresh(ring) && fresh(ring.db)
    {
      ring := new DebugBuffer(windowSize);
      simPc, archPc, this.events := pc, pc, events;
    }

    predicate Running()
      reads this
    {
      events != []
    }

    /** One step of the functional simulator, as processor_t::step calls the ring. */
    method Step()
      requires Valid() && Running() && ring.Hungry()
      modifies this`simPc, this`events, ring, ring.db
      ensures Valid() && State() == Next(old(State())) && ring.head == old(ring.head)
    {
      hide DebugBuffer.Contents, DebugBuffer.Valid, DestOf;
      ghost var was, pc, sequence := ring.Contents(), simPc, ring.instSequence;
      assert Proper(events[0]);
      match events[0] {
        case Idle =>
        case Retire(inst, next, pushes, state) =>
          Complete(inst, next, pushes, state);
          simPc := next;
        case Exception(inst, handler, pushes, state) =>
          Except(inst, handler, pushes, state);
        case Serialize(inst, pushes, state) =>
          Complete(inst, simPc, pushes, state);
        case Interrupt(inst, handler, state) =>
          TakeInterrupt(inst, handler, state);
      }
      NextIs(was, pc, sequence, events, ring.Contents(), simPc, ring.instSequence);
      events := events[1..];
    }

    /** An instruction that ends without a trap, and the state it leaves. */
    method Complete(inst: u64, next: u64, pushes: seq<Push>, state: ArchState)
      requires ring.Valid() && ring.Hungry() && OneDest(pushes)
      modifies ring, ring.db
      ensures ring.Valid() && ring.head == old(ring.head) && ring.instSequence == old(ring.instSequence) + 1
      ensures ring.Contents()
           == old(ring.Contents()) + [Record(simPc, next, inst, 0, 0, ring.instSequence, false, DestOf(pushes), state)]
    {
      hide DebugBuffer.Contents, DebugBuffer.Valid, DestOf;
      ghost var was := ring.Contents();
      ghost var left := Enter(inst, next, pushes);
      ring.PushStateActual(state);
      LastReplaced(was, Record(simPc, next, inst, 0, 0, ring.instSequence, false, DestOf(pushes), left),
                   Record(simPc, next, inst, 0, 0, ring.instSequence, false, DestOf(pushes), state));
    }

    /** The handler of a trap inside an instruction. */
    method Except(inst: u64, handler: u64, pushes: seq<Push>, state: ArchState)
      requires ring.Valid() && ring.Hungry() && OneDest(pushes)
      modifies this`simPc, ring, ring.db
      ensures ring.Valid() && ring.head == old(ring.head) && ring.instSequence == old(ring.instSequence) + 1
      ensures simPc == handler
      ensures ring.Contents() == old(ring.Contents())
           + [Record(old(simPc), handler, inst, 0, 0, ring.instSequence, true, DestOf(pushes), state)]
    {
      hide DebugBuffer.Contents, DebugBuffer.Valid, DestOf;
      ghost var was, n, dest, pc := ring.Contents(), ring.instSequence + 1, DestOf(pushes), simPc;
      ghost var left := Enter(inst, simPc, pushes);
      ghost var trapped := Record(pc, handler, inst, 0, 0, n, true, dest, left);
      LastReplaced(was, Record(pc, pc, inst, 0, 0, n, false, dest, left), trapped);
      simPc := handler;
      ring.PushExceptionActual(handler);
      LastReplaced(was, trapped, Record(pc, handler, inst, 0, 0, n, true, dest, state));
      ring.PushStateActual(state);
    }

    /** The same handler for an interrupt, which has started no entry. */
    method TakeInterrupt(inst: u64, handler: u64, state: ArchState)
      requires ring.Valid()
      modifies this`simPc, ring.db
      ensures ring.Valid() && simPc == handler
      ensures ring.Contents()
           == Happens(old(ring.Contents()), old(simPc), ring.instSequence, Interrupt(inst, handler, state)).0
    {
      hide DebugBuffer.Contents, DebugBuffer.Valid, Entry.View, Recorded;
      ghost var was, youngest, pc := ring.Contents(), ring.Youngest(), simPc;
      ring.PushInstrActual(inst, 0, 0, simPc, simPc);
      simPc := handler;
      ring.PushExceptionActual(handler);
      ring.PushStateActual(state);
      ThriceReplaced(was, youngest, inst, pc, handler, state);
    }

    lemma LastReplaced(s: seq<Record>, r: Record, t: Record)
      ensures (s + [r])[|s + [r]| - 1] == r && (s + [r])[|s + [r]| - 1 := t] == s + [t]
    {
    }

    lemma ThriceReplaced(s: seq<Record>, youngest: Entry, inst: u64, pc: u64, handler: u64, state: ArchState)
      requires s != [] ==> s[|s| - 1] == youngest.View()
      ensures s != [] ==>
        var l := |s| - 1;
        var t := s[l := Recorded(youngest, inst, 0, 0, pc, pc).View()];
        var u := t[l := t[l].(exception := true, nextPc := handler)];
        u[l := u[l].(state := state)]
          == s[l := Record(pc, handler, inst, 0, 0, s[l].sequence, true, s[l].dest, state)]
    {
    }

    lemma NextIs(was: seq<Record>, pc: u64, sequence: nat, events: seq<Event>, now: seq<Record>, nextPc: u64,
        nextSequence: nat)
      requires events != [] && (now, nextPc, nextSequence) == Happens(was, pc, sequence, events[0])
      ensures Run(now, nextPc, nextSequence, events[1..]) == Next(Run(was, pc, sequence, events))
    {
      hide Happens;
    }

    /** start, the operands the instruction pushes, and what push_instr_actual then fills in; the state is
        still what the entry's last use left. */
    method Enter(inst: u64, next: u64, pushes: seq<Push>) returns (ghost left: ArchState)
      requires ring.Valid() && ring.Hungry() && OneDest(pushes)
      modifies ring, ring.db
      ensures ring.Valid() && ring.head == old(ring.head) && ring.instSequence == old(ring.instSequence) + 1
      ensures ring.Contents()
           == old(ring.Contents()) + [Record(simPc, next, inst, 0, 0, ring.instSequence, false, DestOf(pushes), left)]
    {
      hide DebugBuffer.Contents, DebugBuffer.Valid, Ready, PushAll, Started, Restarted, Entry.View, Recorded;
      ghost var was, before := ring.Contents(), ring.db[..];
      ring.Sized();
      ring.Start();
      ghost var first := ring.Fresh(before, pushes);
      PushOperands(pushes, was);
      ghost var e := ring.Youngest();
      ring.PushInstrActual(inst, 0, 0, simPc, next);
      LastReplaced(was, e.View(), Recorded(e, inst, 0, 0, simPc, next).View());
      EnteredView(first, e, pushes, inst, simPc, next);
      left := first.state;
    }

    /** What the instruction's operands do to the youngest entry. */
    method PushOperands(pushes: seq<Push>, ghost was: seq<Record>)
      requires ring.Valid() && Ready(ring.Youngest(), pushes)
      requires ring.length == |was| + 1 && ring.Contents() == was + [ring.Youngest().View()]
      modifies ring.db
      ensures ring.Valid() && |old(ring.Youngest()).rsrc| == 3
          && ring.Youngest() == PushAll(old(ring.Youngest()), pushes)
      ensures ring.Contents() == was + [ring.Youngest().View()]
    {
      hide DebugBuffer.Contents, DebugBuffer.Valid, Ready, PushAll, Pushed, Entry.View;
      ghost var first := ring.Youngest();
      ReadyIs(first, pushes);
      var i := 0;
      assert pushes[i..] == pushes;
      while i < |pushes|
        invariant ring.Valid() && 0 <= i <= |pushes| && ring.Contents() == was + [ring.Youngest().View()]
        invariant Ready(ring.Youngest(), pushes[i..]) && |ring.Youngest().rsrc| == 3
        invariant PushAll(ring.Youngest(), pushes[i..]) == PushAll(first, pushes)
      {
        assert pushes[i..][0] == pushes[i] && pushes[i..][1..] == pushes[i + 1..];
        ghost var e := ring.Youngest();
        ReadyStep(e, pushes[i..]);
        ring.PushOperandActual(pushes[i]);
        LastReplaced(was, e.View(), Pushed(e, pushes[i]).View());
        i := i + 1;
      }
      assert pushes[i..] == [];
      PushAllNone(ring.Youngest());
    }

    lemma EnteredView(first: Entry, e: Entry, pushes: seq<Push>, inst: u64, pc: u64, next: u64)
      requires Ready(first, pushes) && first.numRdst == 0 && !first.exception && e == PushAll(first, pushes)
      ensures Recorded(e, inst, 0, 0, pc, next).View()
          == Record(pc, next, inst, 0, 0, first.sequence, false, DestOf(pushes), first.state)
    {
      PushAllView(first, pushes);
    }

    /** The filling loop shared by run_ahead and pop: start's assertion holds at every call. */
    method Feed()
      requires Valid()
      modifies this`simPc, this`events, ring, ring.db
      ensures Valid() && State() == Fed(old(State()), ring.size) && ring.head == old(ring.head)
    {
      ghost var start := State();
      while ring.Hungry() && Running()
        invariant Valid() && Fed(State(), ring.size) == Fed(start, ring.size) && ring.head == old(ring.head)
        decreases |events|
      {
        Step();
      }
    }

    /** pop(i): refill, then drop the head. What is returned is the index, and its contents are
        still the dropped entry's. */
    method Pop(i: nat) returns (actual: nat)
      requires Valid() && i == ring.head && (ring.length > 0 || Fed(State(), ring.size).queue != [])
      modifies this`simPc, this`events, ring, ring.db
      ensures Valid() && actual == i < ring.size
      ensures var fed := Fed(old(State()), ring.size);
              fed.queue != [] && State() == fed.(queue := fed.queue[1..]) && ring.db[actual].View() == fed.queue[0]
    {
      FedFits(State(), ring.size);
      ring.Unmark();
      Feed();
      actual := ring.Drop();
    }

    /** Checks the oldest entry, and moves arch_pc to where it ended. */
    method CheckInstruction(c: Check) returns (passed: bool, ghost checked: seq<Record>)
      requires Valid() && InStep() && (c.isFission || (ring.length > 0 && FeedsHarmlessly(State(), ring.size)))
      modifies this, ring, ring.db
      ensures Valid() && InStep() && Agree([c], checked, [passed])
      ensures Tracks(old(archPc), checked, archPc)
      ensures if c.isFission then checked == [] && State() == old(State())
              else
                && Fed(old(State()), ring.size).queue != [] && checked == [Fed(old(State()), ring.size).queue[0]]
                && State() == Popped(old(State()), ring.size)
      ensures (checked, State()) == Drained(old(State()), ring.size, if c.isFission then 0 else 1)
      ensures ring.length > 0 ==> archPc == ring.Contents()[0].pc
    {
      hide DebugBuffer.Contents, DebugBuffer.Valid, Passes, Agree, Popped, FeedsHarmlessly;
      if c.isFission {
        passed, checked := true, [];
        FissionAgrees(c);
        assert Tracks(archPc, [], archPc);
      } else {
        ghost var r;
        ghost var s := State();
        passed, r := CheckHead(c);
        checked := [r];
        SingleAgrees(c, checked, passed);
        assert Tracks(archPc, [], archPc) && checked[1..] == [];
        assert Drained(Popped(s, ring.size), ring.size, 0) == ([], State());
        assert [r] + [] == [r];
      }
    }

    method CheckHead(c: Check) returns (passed: bool, ghost r: Record)
      requires Valid() && InStep() && ring.length > 0 && FeedsHarmlessly(State(), ring.size)
      modifies this, ring, ring.db
      ensures Valid() && InStep() && passed == Passes(r, c)
      ensures Fed(old(State()), ring.size).queue != [] && r == Fed(old(State()), ring.size).queue[0]
      ensures r.pc == old(archPc) && archPc == r.nextPc && State() == Popped(old(State()), ring.size)
    {
      hide DebugBuffer.Contents, DebugBuffer.Valid, Passes, Fed, Entry.View, FeedsHarmlessly;
      ring.Sized();
      HarmlessTracks(archPc, State(), ring.size);
      FedFits(State(), ring.size);
      var dbIndex := ring.First(archPc);
      var actual := Pop(dbIndex);
      ring.Sized();
      var e := ring.db[actual];
      r := e.View();
      ViewIs(e);
      archPc := e.nextPc;
      passed := c.pc == e.pc;
      if passed && e.numRdst > 0 {
        passed := c.dest == e.rdst.n && c.value == e.rdst.value;
      }
      passed := passed && !CheckState(c.micro, e.state);
      PassesWhen(e, c);
    }

    /** A record is what the entry holds. */
    lemma ViewIs(e: Entry)
      ensures var r := e.View();
              && r.pc == e.pc && r.nextPc == e.nextPc && r.inst == e.inst
              && r.flags == e.flags && r.latency == e.latency && r.sequence == e.sequence
              && r.exception == e.exception && r.state == e.state
              && (r.dest.Written? <==> e.numRdst > 0)
              && (r.dest.Written? ==> r.dest.n == e.rdst.n && r.dest.value == e.rdst.value)
    {
    }

    /** A sequence of checks, as long as the ring has an entry for them: arch_pc follows every one, and the
        records checked are, in order, those drained. Interrupts may come while they are harmless; without
        any, what is checked is the next of all the functional simulator produces. */
    method CheckAll(checks: seq<Check>) returns (verdicts: seq<bool>, ghost checked: seq<Record>)
      requires Valid() && InStep() && DrainsHarmlessly(State(), ring.size, EntriesAsked(checks))
      modifies this, ring, ring.db
      ensures Valid() && InStep()
      ensures |verdicts| <= |checks| && Agree(checks[..|verdicts|], checked, verdicts)
      ensures |verdicts| < |checks| ==> ring.length == 0 && !checks[|verdicts|].isFission
      ensures Tracks(old(archPc), checked, archPc)
      ensures (checked, State()) == Drained(old(State()), ring.size, |checked|)
      ensures Calm(old(events)) ==> checked + Stream(State()) == Stream(old(State()))
      decreases |checks|
    {
      hide DebugBuffer.Contents, DebugBuffer.Valid, Passes, Agree, Stream, Popped, FeedsHarmlessly, Calm, Fed;
      ghost var s, arch := State(), archPc;
      verdicts, checked := [], [];
      if checks == [] || (ring.length == 0 && !checks[0].isFission) {
        NothingAgrees();
        assert Tracks(archPc, [], archPc) && checks[..0] == [];
      } else {
        EntriesAskedSplit(checks);
        var passed;
        ghost var first;
        passed, first := CheckInstruction(checks[0]);
        ghost var middle, t := archPc, State();
        var rest;
        ghost var later;
        rest, later := CheckAll(checks[1..]);
        verdicts, checked := [passed] + rest, first + later;
        TracksJoin(arch, first, middle, later, archPc);
        AgreeJoin(checks, first, passed, later, rest);
        DrainedJoin(s, t, ring.size, first, later, State());
      }
      if Calm(s.events) {
        CalmDrains(arch, s, ring.size, |checked|);
      }
    }

    lemma NothingAgrees()
      ensures Agree([], [], [])
    {
    }

    lemma DrainedJoin(s: Run, t: Run, size: nat, first: seq<Record>, later: seq<Record>, u: Run)
      requires (later, u) == Drained(t, size, |later|) && |first| <= 1
      requires if first == [] then t == s
               else Fed(s, size).queue != [] && first == [Fed(s, size).queue[0]] && t == Popped(s, size)
      ensures (first + later, u) == Drained(s, size, |first + later|)
    {
      hide Fed, Popped;
      if first == [] {
        assert first + later == later;
      } else {
        assert |first + later| - 1 == |later|;
      }
    }

    lemma AgreeJoin(checks: seq<Check>, first: seq<Record>, passed: bool, later: seq<Record>, rest: seq<bool>)
      requires checks != [] && |rest| < |checks| && Agree([checks[0]], first, [passed])
      requires Agree(checks[1..][..|rest|], later, rest)
      ensures Agree(checks[..|rest| + 1], first + later, [passed] + rest)
    {
      var all, verdicts := checks[..|rest| + 1], [passed] + rest;
      assert all[1..] == checks[1..][..|rest|] && verdicts[1..] == rest;
      assert [checks[0]][1..] == [] && [passed][1..] == [];
      if !checks[0].isFission {
        assert first[1..] == [];
        assert (first + later)[1..] == later;
      } else {
        assert first + later == later;
      }
    }

    lemma FissionAgrees(c: Check)
      ensures c.isFission ==> Agree([c], [], [true])
    {
      assert Agree([], [], []);
    }

    lemma PassesWhen(e: Entry, c: Check)
      ensures Passes(e.View(), c)
         <==> c.pc == e.pc && (e.numRdst > 0 ==> c.dest == e.rdst.n && c.value == e.rdst.value)
              && !CheckState(c.micro, e.state)
    {
    }

    lemma SingleAgrees(c: Check, checked: seq<Record>, passed: bool)
      requires !c.isFission && |checked| == 1 && passed == Passes(checked[0], c)
      ensures Agree([c], checked, [passed])
    {
      assert Agree([], [], []);
    }
  }
}
