/** The write-back cache simulator: set-associative with random replacement, and fully associative. */
module CacheSim {
  import opened Powers
  import opened Words
  import opened Primitives

  const VALID: u64 := 0x8000_0000_0000_0000
  const DIRTY: u64 := 0x4000_0000_0000_0000

  // --- Tags: a line number below 2^62 with the valid and dirty bits above it ---

  predicate IsValid(tag: u64) {
    tag / VALID % 2 == 1
  }

  predicate IsDirty(tag: u64) {
    tag / DIRTY % 2 == 1
  }

  function Line(tag: u64): u64 {
    tag % DIRTY
  }

  /** tag & ~DIRTY */
  function Cleaned(tag: u64): u64 {
    if IsDirty(tag) then tag - DIRTY else tag
  }

  /** tag | DIRTY */
  function Dirtied(tag: u64): (r: u64)
    ensures IsDirty(r) && Line(r) == Line(tag) && (IsValid(r) <==> IsValid(tag))
  {
    if IsDirty(tag) then tag else tag + DIRTY
  }

  lemma TagOf(line: u64, tag: u64)
    requires line < DIRTY
    ensures var t := line + VALID; t < 0x1_0000_0000_0000_0000 && IsValid(t) && !IsDirty(t) && Line(t) == line
    ensures line + VALID == Cleaned(tag) <==> IsValid(tag) && Line(tag) == line
    ensures tag == 0 ==> !IsValid(tag)
  {
  }

  // --- The pseudo-random replacement ---

  class Lfsr {
    var reg: bv32

    ghost predicate Valid()
      reads this
    {
      reg != 0
    }

    constructor ()
      ensures Valid() && reg == 1
    {
      reg := 1;
    }

    /** Never reaches zero, where it would stay. */
    method Next() returns (r: bv32)
      requires Valid()
      modifies this
      ensures Valid() && r == reg == NextReg(old(reg))
    {
      NonZero(reg);
      reg := (reg >> 1) ^ (-(reg & 1) & 0xd000_0001);
      r := reg;
    }

    /** lfsr.next() % ways */
    method Pick(ways: nat) returns (way: nat)
      requires Valid() && ways > 0
      modifies this
      ensures Valid() && reg == NextReg(old(reg)) && way < ways && way == reg as nat % ways
    {
      var r := Next();
      way := r as nat % ways;
    }
  }

  function NextReg(reg: bv32): bv32 {
    (reg >> 1) ^ (if reg & 1 == 1 then 0xd000_0001 else 0)
  }

  lemma NonZero(reg: bv32)
    ensures (reg >> 1) ^ (-(reg & 1) & 0xd000_0001) == NextReg(reg)
    ensures reg != 0 ==> NextReg(reg) != 0
  {
  }

  /** The bit shifted out is fed back into bits 31, 30, 28 and 0. */
  lemma Taps(reg: bv32)
    ensures reg & 1 == 0 ==> NextReg(reg) << 1 == reg
    ensures reg & 1 == 1 ==> (NextReg(reg) ^ ((1 << 31) | (1 << 30) | (1 << 28) | 1)) << 1 == reg - 1
  {
  }

  /** The register runs backwards too: no two states lead to the same one, so a run only cycles. */
  lemma NextIsInjective(a: bv32, b: bv32)
    ensures NextReg(a) == NextReg(b) ==> a == b
  {
  }

  // --- Requests ---

  datatype Request = Request(addr: u64, bytes: nat, store: bool)

  function Count(log: seq<Request>, store: bool): nat {
    if log == [] then 0 else Count(log[..|log| - 1], store) + (if log[|log| - 1].store == store then 1 else 0)
  }

  function Bytes(log: seq<Request>, store: bool): nat {
    if log == [] then 0
    else Bytes(log[..|log| - 1], store) + (if log[|log| - 1].store == store then log[|log| - 1].bytes else 0)
  }

  /** The requests of a kind, counted one by one. */
  lemma {:induction false} CountIsSize(log: seq<Request>, store: bool)
    ensures Count(log, store) == |set i | 0 <= i < |log| && log[i].store == store|
    decreases |log|
  {
    if log != [] {
      var n := |log| - 1;
      var rest := log[..n];
      CountIsSize(rest, store);
      var s, t := set i | 0 <= i < |rest| && rest[i].store == store, set i | 0 <= i < |log| && log[i].store == store;
      assert t == s + if log[n].store == store then {n} else {};
    }
  }

  /** Bytes add up over runs, and those of one request are its own. */
  lemma {:induction false} BytesAddUp(log: seq<Request>, more: seq<Request>, store: bool)
    ensures Bytes(log + more, store) == Bytes(log, store) + Bytes(more, store)
    ensures |more| == 1 ==> Bytes(more, store) == if more[0].store == store then more[0].bytes else 0
    decreases |more|
  {
    if more == [] {
      assert log + more == log;
    } else {
      var n := |more| - 1;
      BytesAddUp(log, more[..n], store);
      assert (log + more)[..|log + more| - 1] == log + more[..n];
      assert |more| == 1 ==> more[..n] == [];
    }
  }

  lemma CountOne(log: seq<Request>, r: Request, store: bool)
    ensures Count(log + [r], store) == Count(log, store) + (if r.store == store then 1 else 0)
    ensures Bytes(log + [r], store) == Bytes(log, store) + (if r.store == store then r.bytes else 0)
  {
    assert (log + [r])[..|log|] == log;
  }

  // --- What an access does to the set of lines and to the set of dirty lines ---

  /** The lines a cache holds and those of them that are dirty. */
  datatype Lines = Lines(resident: set<nat>, dirty: set<nat>)

  /** A hit changes nothing but the line's dirty bit; a miss replaces at most one line, victim, by the line. */
  ghost predicate Accesses(before: Lines, after: Lines, line: nat, store: bool, victim: set<nat>) {
    && victim <= before.resident && |victim| <= 1 && line !in victim
    && (line in before.resident ==> victim == {})
    && after.resident == before.resident - victim + {line}
    && after.dirty == before.dirty - victim + if store then {line} else {}
  }

  /** addr & ~(linesz - 1) */
  function LineStart(addr: u64, linesz: nat): u64
    requires linesz > 0
  {
    addr - addr % linesz
  }

  lemma HitAccess(was: Lines, now: Lines, line: nat, store: bool)
    requires line in was.resident && was.dirty <= was.resident
    requires now == Lines(was.resident, was.dirty + if store then {line} else {})
    ensures Accesses(was, now, line, store, {})
  {
  }

  lemma MissAccess(was: Lines, now: Lines, line: nat, victim: set<nat>)
    requires line !in was.resident && victim <= was.resident && |victim| <= 1
    requires now == Lines(was.resident - victim + {line}, was.dirty - victim)
    ensures Accesses(was, now, line, false, victim)
  {
    assert was.dirty - victim + {} == was.dirty - victim;
  }

  lemma MarkedAccess(was: Lines, mid: Lines, now: Lines, line: nat, victim: set<nat>)
    requires Accesses(was, mid, line, false, victim) && now == Lines(mid.resident, mid.dirty + {line})
    ensures Accesses(was, now, line, true, victim)
  {
  }

  /** What a miss asks of the next level: write the victim back if it is dirty, then read the line. */
  function Misses(span: nat, linesz: nat, addr: u64, writeback: bool, victim: u64): seq<Request>
    requires linesz > 0
  {
    (if writeback then [Request(Wrap64(victim * span), linesz, true)] else [])
        + [Request(LineStart(addr, linesz), linesz, false)]
  }

  /** The requests of a miss on addr: last a read of the aligned block around addr, and before it, if the
      victim was dirty, a write at the start of the victim's line. A line spans two blocks. */
  ghost predicate MissRequests(requests: seq<Request>, span: nat, linesz: nat, addr: u64, victim: set<nat>,
                               dirty: set<nat>)
    requires linesz > 0 && span > 0
  {
    && 1 <= |requests| <= 2 && (|requests| == 2 <==> victim * dirty != {})
    && var r := requests[|requests| - 1];
       && !r.store && r.bytes == linesz && r.addr % linesz == 0 && r.addr <= addr < r.addr + linesz
       && (|requests| == 2 ==>
             var w := requests[0];
             w.store && w.bytes == linesz && w.addr % span == 0 && victim == {w.addr / span})
  }

  lemma MissesMean(span: nat, linesz: nat, addr: u64, victim: set<nat>, dirty: set<nat>, v: u64)
    requires linesz > 0 && span > 0 && v * span < 0x1_0000_0000_0000_0000
    requires victim == {} || victim == {v as nat}
    ensures MissRequests(Misses(span, linesz, addr, victim * dirty != {}, v), span, linesz, addr, victim, dirty)
  {
    hide *;
    BlockStart(addr, linesz);
    LineBack(span, v);
    MissesAre(span, linesz, addr, victim * dirty != {}, v);
    var requests := Misses(span, linesz, addr, victim * dirty != {}, v);
    if victim * dirty != {} {
      assert victim == {v as nat};
    }
    MissRequestsIs(requests, span, linesz, addr, victim, dirty);
  }

  lemma MissRequestsIs(requests: seq<Request>, span: nat, linesz: nat, addr: u64, victim: set<nat>, dirty: set<nat>)
    requires linesz > 0 && span > 0
    requires 1 <= |requests| <= 2 && (|requests| == 2 <==> victim * dirty != {})
    requires var r := requests[|requests| - 1];
             !r.store && r.bytes == linesz && r.addr % linesz == 0 && r.addr <= addr < r.addr + linesz
    requires |requests| == 2 ==>
               var w := requests[0]; w.store && w.bytes == linesz && w.addr % span == 0 && victim == {w.addr / span}
    ensures MissRequests(requests, span, linesz, addr, victim, dirty)
  {
  }

  lemma MissesAre(span: nat, linesz: nat, addr: u64, writeback: bool, v: u64)
    requires linesz > 0
    ensures var m := Misses(span, linesz, addr, writeback, v);
            && |m| == (if writeback then 2 else 1) && m[|m| - 1] == Request(LineStart(addr, linesz), linesz, false)
            && (writeback ==> m[0] == Request(Wrap64(v * span), linesz, true))
  {
    hide Wrap64, LineStart;
  }

  lemma BlockStart(addr: u64, linesz: nat)
    requires linesz > 0
    ensures LineStart(addr, linesz) % linesz == 0 && LineStart(addr, linesz) <= addr < LineStart(addr, linesz) + linesz
  {
    var q := addr / linesz;
    assert addr - addr % linesz == q * linesz;
    hide *;
    Euclid(q * linesz, linesz, q, 0);
    LineStartIs(addr, linesz, q * linesz);
  }

  lemma LineStartIs(addr: u64, linesz: nat, start: int)
    requires linesz > 0 && start == addr - addr % linesz
    ensures LineStart(addr, linesz) == start && 0 <= addr % linesz < linesz
  {
  }

  lemma LineBack(span: nat, v: u64)
    requires span > 0 && v * span < 0x1_0000_0000_0000_0000
    ensures Wrap64(v * span) % span == 0 && Wrap64(v * span) / span == v
  {
    ProductNonnegative(v, span);
    WrapFits(v * span);
    hide *;
    Euclid(v * span, span, v, 0);
  }

  lemma WrapFits(x: int)
    requires 0 <= x < 0x1_0000_0000_0000_0000
    ensures Wrap64(x) == x
  {
  }

  /** A write-back of linesz bytes reaches an address of its line exactly when it is in the lower block. */
  lemma WriteBackReaches(w: Request, span: nat, linesz: nat, a: u64)
    requires linesz > 0 && span == 2 * linesz && w.addr % span == 0 && a / span == w.addr / span
    ensures w.addr <= a < w.addr + linesz <==> a % span < linesz
  {
    assert a == a / span * span + a % span;
    assert w.addr == w.addr / span * span;
  }

  /** Dirty lines plus write-backs so far equal the times a clean or absent line became dirty. */
  lemma Conservation(before: Lines, after: Lines, line: nat, store: bool, victim: set<nat>)
    requires Accesses(before, after, line, store, victim) && before.dirty <= before.resident
    ensures after.dirty <= after.resident
    ensures |after.dirty| + |victim * before.dirty| == |before.dirty|
        + (if store && line !in before.dirty then 1 else 0)
  {
    var kept := before.dirty - victim;
    assert before.dirty == kept + victim * before.dirty;
    assert kept !! victim * before.dirty;
    if store && line !in before.dirty {
      assert after.dirty == kept + {line};
    } else {
      assert after.dirty == kept;
    }
  }

  // --- The tag array, set by set ---

  ghost predicate Placed(tags: seq<u64>, sets: nat, ways: nat, span: nat)
    requires ways > 0 && sets > 0
  {
    && |tags| == sets * ways
    && forall p :: 0 <= p < |tags| && IsValid(tags[p]) ==>
         Line(tags[p]) % sets == p / ways && Line(tags[p]) * span < 0x1_0000_0000_0000_0000
  }

  /** No line is held twice. */
  ghost predicate Distinct(tags: seq<u64>) {
    forall p, q :: 0 <= p < q < |tags| && IsValid(tags[p]) && IsValid(tags[q]) ==> Line(tags[p]) != Line(tags[q])
  }

  ghost function LinesOf(tags: seq<u64>): Lines {
    Lines(set p | 0 <= p < |tags| && IsValid(tags[p]) :: Line(tags[p]),
          set p | 0 <= p < |tags| && IsValid(tags[p]) && IsDirty(tags[p]) :: Line(tags[p]))
  }

  function Victim(tag: u64): set<nat> {
    if IsValid(tag) then {Line(tag)} else {}
  }

  lemma Marked(tags: seq<u64>, sets: nat, ways: nat, span: nat, p: nat)
    requires ways > 0 && sets > 0 && Placed(tags, sets, ways, span) && Distinct(tags)
    requires p < |tags| && IsValid(tags[p])
    ensures var t := tags[p := Dirtied(tags[p])];
            && Placed(t, sets, ways, span) && Distinct(t)
            && LinesOf(t) == Lines(LinesOf(tags).resident, LinesOf(tags).dirty + {Line(tags[p])})
  {
    hide IsValid, IsDirty, Line, Dirtied;
    var t := tags[p := Dirtied(tags[p])];
    forall l ensures l in LinesOf(t).resident <==> l in LinesOf(tags).resident {
      if l in LinesOf(t).resident {
        var q :| 0 <= q < |t| && IsValid(t[q]) && Line(t[q]) == l;
        assert IsValid(tags[q]) && Line(tags[q]) == l;
      }
      if l in LinesOf(tags).resident {
        var q :| 0 <= q < |tags| && IsValid(tags[q]) && Line(tags[q]) == l;
        assert IsValid(t[q]) && Line(t[q]) == l;
      }
    }
    forall l ensures l in LinesOf(t).dirty <==> l in LinesOf(tags).dirty + {Line(tags[p])} {
      if l in LinesOf(t).dirty {
        var q :| 0 <= q < |t| && IsValid(t[q]) && IsDirty(t[q]) && Line(t[q]) == l;
        assert q == p || IsDirty(tags[q]);
      }
      if l in LinesOf(tags).dirty {
        var q :| 0 <= q < |tags| && IsValid(tags[q]) && IsDirty(tags[q]) && Line(tags[q]) == l;
        assert IsValid(t[q]) && IsDirty(t[q]) && Line(t[q]) == l;
      }
      assert IsValid(t[p]) && IsDirty(t[p]) && Line(t[p]) == Line(tags[p]);
    }
  }

  lemma Replaced(tags: seq<u64>, sets: nat, ways: nat, span: nat, p: nat, line: u64)
    requires ways > 0 && sets > 0 && Placed(tags, sets, ways, span) && Distinct(tags)
    requires p < |tags| && line < DIRTY && line !in LinesOf(tags).resident
    requires line % sets == p / ways && line * span < 0x1_0000_0000_0000_0000
    ensures var t := tags[p := line + VALID]; var v := Victim(tags[p]);
            && Placed(t, sets, ways, span) && Distinct(t)
            && LinesOf(t) == Lines(LinesOf(tags).resident - v + {line}, LinesOf(tags).dirty - v)
  {
    TagOf(line, 0);
    hide IsValid, IsDirty, Line;
    forall q | 0 <= q < |tags| && q != p && IsValid(tags[q])
      ensures Line(tags[q]) != line && Line(tags[q]) !in Victim(tags[p])
    {
      assert Line(tags[q]) in LinesOf(tags).resident;
    }
    ReplacedResident(tags, p, line);
    ReplacedDirty(tags, p, line);
  }

  lemma ReplacedResident(tags: seq<u64>, p: nat, line: u64)
    requires p < |tags| && line < DIRTY
    requires forall q :: 0 <= q < |tags| && q != p && IsValid(tags[q]) ==> Line(tags[q]) !in Victim(tags[p])
    ensures LinesOf(tags[p := line + VALID]).resident == LinesOf(tags).resident - Victim(tags[p]) + {line}
  {
    TagOf(line, 0);
    hide IsValid, IsDirty, Line;
    var t, v := tags[p := line + VALID], Victim(tags[p]);
    forall l ensures l in LinesOf(t).resident <==> l in LinesOf(tags).resident - v + {line} {
      if l in LinesOf(t).resident {
        var q :| 0 <= q < |t| && IsValid(t[q]) && Line(t[q]) == l;
        assert q == p || (IsValid(tags[q]) && Line(tags[q]) == l);
      }
      if l in LinesOf(tags).resident - v {
        var q :| 0 <= q < |tags| && IsValid(tags[q]) && Line(tags[q]) == l;
        assert q != p && IsValid(t[q]) && Line(t[q]) == l;
      }
      assert IsValid(t[p]) && Line(t[p]) == line;
    }
  }

  lemma ReplacedDirty(tags: seq<u64>, p: nat, line: u64)
    requires p < |tags| && line < DIRTY
    requires forall q :: 0 <= q < |tags| && q != p && IsValid(tags[q]) ==> Line(tags[q]) !in Victim(tags[p])
    ensures LinesOf(tags[p := line + VALID]).dirty == LinesOf(tags).dirty - Victim(tags[p])
  {
    TagOf(line, 0);
    hide IsValid, IsDirty, Line;
    var t, v := tags[p := line + VALID], Victim(tags[p]);
    forall l ensures l in LinesOf(t).dirty <==> l in LinesOf(tags).dirty - v {
      if l in LinesOf(t).dirty {
        var q :| 0 <= q < |t| && IsValid(t[q]) && IsDirty(t[q]) && Line(t[q]) == l;
        assert q != p && IsValid(tags[q]) && IsDirty(tags[q]) && Line(tags[q]) == l;
      }
      if l in LinesOf(tags).dirty - v {
        var q :| 0 <= q < |tags| && IsValid(tags[q]) && IsDirty(tags[q]) && Line(tags[q]) == l;
        assert q != p && IsValid(t[q]) && IsDirty(t[q]) && Line(t[q]) == l;
      }
    }
  }

  lemma DirtyResident(tags: seq<u64>)
    ensures LinesOf(tags).dirty <= LinesOf(tags).resident
  {
    hide IsValid, IsDirty, Line;
  }

  /** The victim is dirty exactly when its tag says so. */
  lemma VictimDirty(tags: seq<u64>, p: nat)
    requires Distinct(tags) && p < |tags|
    ensures Victim(tags[p]) * LinesOf(tags).dirty == if IsDirty(tags[p]) then Victim(tags[p]) else {}
    ensures Victim(tags[p]) <= LinesOf(tags).resident && |Victim(tags[p])| <= 1
  {
    hide IsValid, IsDirty, Line;
    if IsValid(tags[p]) {
      assert Line(tags[p]) in LinesOf(tags).resident;
      if Line(tags[p]) in LinesOf(tags).dirty {
        var q :| 0 <= q < |tags| && IsValid(tags[q]) && IsDirty(tags[q]) && Line(tags[q]) == Line(tags[p]);
        assert q == p;
      }
    }
  }

  // --- Slots ---

  lemma Slot(sets: nat, ways: nat, idx: nat, i: nat)
    requires idx < sets && i < ways
    ensures 0 <= idx * ways + i < sets * ways && (idx * ways + i) / ways == idx && (idx * ways + i) % ways == i
  {
    hide *;
    Euclid(idx * ways + i, ways, idx, i);
    SlotBounds(sets, ways, idx);
  }

  lemma SlotBounds(sets: nat, ways: nat, idx: nat)
    requires idx < sets
    ensures 0 <= idx * ways && idx * ways + ways <= sets * ways
  {
    hide *;
    ProductMono(idx + 1, sets, ways);
    ProductNonnegative(idx, ways);
    NextProduct(idx, ways);
  }

  lemma NextProduct(x: int, y: int)
    ensures (x + 1) * y == x * y + y
  {
  }

  /** The slots from base on do not hold the line. */
  ghost predicate Absent(tags: seq<u64>, base: nat, n: nat, line: nat) {
    forall p :: base <= p < base + n && p < |tags| ==> !(IsValid(tags[p]) && Line(tags[p]) == line)
  }

  /** A line not found in its set is not held at all. */
  lemma NotInSet(tags: seq<u64>, sets: nat, ways: nat, span: nat, idx: nat, line: nat)
    requires ways > 0 && sets > 0 && Placed(tags, sets, ways, span) && idx == line % sets
    requires idx * ways >= 0 && Absent(tags, idx * ways, ways, line)
    ensures line !in LinesOf(tags).resident
  {
    hide IsValid, IsDirty, Line;
    forall p | 0 <= p < |tags| && IsValid(tags[p]) ensures Line(tags[p]) != line {
      InSlot(p, ways);
    }
  }

  lemma InSlot(p: nat, ways: nat)
    requires ways > 0
    ensures p / ways * ways <= p < p / ways * ways + ways
  {
    hide *;
    assert p == p / ways * ways + p % ways;
  }

  // --- The caches ---

  lemma Appended(s: seq<Request>, t: seq<Request>)
    ensures |s + t| >= |s| && (s + t)[..|s|] == s && (s + t)[|s|..] == t
  {
  }

  lemma NoRequests(before: seq<Request>)
    ensures before[|before|..] == [] && before[..|before|] == before
  {
  }

  class Cache {
    const sets: nat
    const ways: nat
    const linesz: nat
    const idxShift: nat
    const tags: array<u64>
    const lfsr: Lfsr
    var missHandler: Cache?
    var readAccesses: nat
    var readMisses: nat
    var bytesRead: nat
    var writeAccesses: nat
    var writeMisses: nat
    var bytesWritten: nat
    var writebacks: nat
    /** The requests served, those passed on for misses, and how often a line became dirty. */
    ghost var received: seq<Request>
    ghost var sent: seq<Request>
    ghost var dirtied: nat
    ghost var Repr: set<object>

    ghost function Held(): Lines
      reads this, tags
    {
      LinesOf(tags[..])
    }

    ghost predicate Valid()
      reads this, Repr
      decreases Repr, 1
    {
      (missHandler != null ==> missHandler in Repr) && Linked() && Chained() && Shape() && Logged(0) && Conserved()
    }

    /** The next level is a separate cache. */
    ghost predicate Linked()
      reads this`missHandler, this`Repr, missHandler
    {
      && this in Repr && tags in Repr && lfsr in Repr
      && (missHandler != null ==>
            missHandler in Repr && missHandler in missHandler.Repr && missHandler.Repr <= Repr
            && {this, tags, lfsr} !! missHandler.Repr)
    }

    ghost predicate Chained()
      requires Linked()
      reads this`missHandler, this`Repr, missHandler, if missHandler == null then {} else missHandler.Repr
      decreases Repr, 0
    {
      missHandler != null ==> missHandler.Valid()
    }

    ghost predicate Shape()
      reads this, tags, lfsr
    {
      && lfsr.Valid() && sets > 0 && ways > 0 && linesz >= 8 && Exp2(idxShift) == 2 * linesz
      && Placed(tags[..], sets, ways, Exp2(idxShift)) && Distinct(tags[..])
    }

    /** The counters are what the logs say; ahead misses still have their read to send. */
    ghost predicate Logged(ahead: nat)
      reads this
    {
      && readAccesses == Count(received, false) && writeAccesses == Count(received, true)
      && bytesRead == Bytes(received, false) && bytesWritten == Bytes(received, true)
      && readMisses + writeMisses == Count(sent, false) + ahead && writebacks == Count(sent, true)
    }

    /** Lines became dirty as often as they are dirty now or were written back. */
    ghost predicate Conserved()
      reads this, tags
    {
      writebacks + |LinesOf(tags[..]).dirty| == dirtied
    }

    /** idx_shift counts the bits of linesz, so it is one more than its logarithm. */
    constructor (sets: nat, ways: nat, linesz: nat, ghost k: nat)
      requires sets > 0 && ways > 0 && linesz >= 8 && linesz == Exp2(k)
      ensures Valid() && fresh(Repr) && missHandler == null && Held() == Lines({}, {})
      ensures this.sets == sets && this.ways == ways && this.linesz == linesz && received == sent == [] && dirtied == 0
    {
      hide IsValid, IsDirty, Line;
      this.sets, this.ways, this.linesz := sets, ways, linesz;
      var shift, x := 0, linesz;
      ghost var left := k + 1;
      while x != 0
        invariant 0 <= x && 0 <= left && shift + left == k + 1
        invariant if left == 0 then x == 0 else x == Exp2(left - 1)
        decreases x
      {
        x, shift, left := x / 2, shift + 1, left - 1;
      }
      idxShift := shift;
      ProductNonnegative(sets, ways);
      tags := new u64[sets * ways](_ => 0);
      lfsr := new Lfsr();
      missHandler := null;
      readAccesses, readMisses, bytesRead := 0, 0, 0;
      writeAccesses, writeMisses, bytesWritten, writebacks := 0, 0, 0, 0;
      received, sent, dirtied := [], [], 0;
      Repr := {this, tags, lfsr};
      new;
      TagOf(0, 0);
      Exp2Double(k);
      assert LinesOf(tags[..]) == Lines({}, {});
    }

    method SetMissHandler(mh: Cache)
      requires Valid() && mh.Valid() && Repr !! mh.Repr && missHandler == null
      modifies this
      ensures Valid() && missHandler == mh && Repr == old(Repr) + mh.Repr
      ensures tags[..] == old(tags[..]) && received == old(received) && sent == old(sent)
    {
      missHandler := mh;
      Repr := Repr + mh.Repr;
    }

    function LineOf(addr: u64): nat
    {
      QuotientNonnegative(addr, Exp2(idxShift));
      addr / Exp2(idxShift)
    }

    /** Where the line is held. The address is masked to a set by the number of sets, a power of two. */
    method CheckTag(addr: u64) returns (found: bool, p: nat)
      requires Shape()
      ensures found <==> LineOf(addr) in Held().resident
      ensures found ==> p < tags.Length && IsValid(tags[p]) && Line(tags[p]) == LineOf(addr)
    {
      hide IsValid, IsDirty, Line, Cleaned, Placed, Distinct;
      var line := LineOf(addr);
      LineBounds(addr, idxShift, linesz);
      var idx := line % sets;
      var tag := line + VALID;
      SetBounds(tags[..], sets, ways, Exp2(idxShift), idx);
      var i := 0;
      while i < ways
        invariant 0 <= i <= ways && Absent(tags[..], idx * ways, i, line)
      {
        p := idx * ways + i;
        TagOf(line, tags[p]);
        if tag == Cleaned(tags[p]) {
          return true, p;
        }
        i := i + 1;
      }
      NotInSet(tags[..], sets, ways, Exp2(idxShift), idx, line);
      found, p := false, 0;
    }

    /** Some way of the set, chosen by the register, now holds the line, clean. */
    method Victimize(addr: u64) returns (victim: u64, ghost p: nat)
      requires Shape()
      modifies tags, lfsr
      ensures lfsr.Valid() && lfsr.reg == NextReg(old(lfsr.reg))
      ensures p < tags.Length && p / ways == LineOf(addr) % sets && p % ways == lfsr.reg as nat % ways
      ensures victim == old(tags[p]) && LineOf(addr) < DIRTY && tags[..] == old(tags[..])[p := LineOf(addr) + VALID]
    {
      hide IsValid, IsDirty, Line, Distinct, Placed, Exp2;
      var line := LineOf(addr);
      LineBounds(addr, idxShift, linesz);
      PlacedSize(tags[..], sets, ways, Exp2(idxShift));
      var idx := line % sets;
      var way := lfsr.Pick(ways);
      Slot(sets, ways, idx, way);
      p := idx * ways + way;
      victim := tags[idx * ways + way];
      tags[idx * ways + way] := line + VALID;
    }

    /** What one access does: to the lines held, to the counters, and to the next level, which sees
        one read per miss and before it one write, at the victim's address, per write-back. */
    ghost predicate Accessed(was: Lines, now: Lines, addr: u64, store: bool, victim: set<nat>, requests: seq<Request>)
    {
      && linesz > 0 && sets > 0
      && Accesses(was, now, LineOf(addr), store, victim)
      && (forall v :: v in victim ==> v % sets == LineOf(addr) % sets)
      && (LineOf(addr) in was.resident ==> requests == [])
      && (LineOf(addr) !in was.resident ==> exists v: u64 ::
            && (victim == {} || victim == {v as nat}) && v * Exp2(idxShift) < 0x1_0000_0000_0000_0000
            && requests == Misses(Exp2(idxShift), linesz, addr, victim * was.dirty != {}, v))
    }

    /** What an access asks of the next level, by address. */
    lemma AccessedRequests(was: Lines, now: Lines, addr: u64, store: bool, victim: set<nat>, requests: seq<Request>)
      requires Accessed(was, now, addr, store, victim, requests) && Exp2(idxShift) == 2 * linesz
      ensures LineOf(addr) !in was.resident ==> MissRequests(requests, 2 * linesz, linesz, addr, victim, was.dirty)
      ensures LineOf(addr) in was.resident ==> requests == []
    {
      if LineOf(addr) !in was.resident {
        var v: u64 :| (victim == {} || victim == {v as nat}) && v * Exp2(idxShift) < 0x1_0000_0000_0000_0000
          && requests == Misses(Exp2(idxShift), linesz, addr, victim * was.dirty != {}, v);
        MissesMean(Exp2(idxShift), linesz, addr, victim, was.dirty, v);
      }
    }

    /** A line is the two blocks it starts with: nothing but its number tells where an address is held. */
    lemma LineSpans(addr: u64, line: nat)
      requires linesz > 0 && Exp2(idxShift) == 2 * linesz
      ensures LineOf(addr) == line <==> line * (2 * linesz) <= addr < (line + 1) * (2 * linesz)
    {
      LineOfIs(addr);
      QuotientIs(addr, 2 * linesz, line);
    }

    method Access(addr: u64, bytes: nat, store: bool) returns (ghost victim: set<nat>)
      requires Valid()
      modifies Repr
      decreases Repr, 3
      ensures Valid() && Repr == old(Repr) && missHandler == old(missHandler)
      ensures LineOf(addr) in Held().resident
      ensures received == old(received) + [Request(addr, bytes, store)]
      ensures |sent| >= |old(sent)| && sent[..|old(sent)|] == old(sent)
      ensures Accessed(old(Held()), Held(), addr, store, victim, sent[|old(sent)|..])
      ensures linesz > 0 && (LineOf(addr) !in old(Held()).resident ==>
                MissRequests(sent[|old(sent)|..], 2 * linesz, linesz, addr, victim, old(Held()).dirty))
      ensures missHandler != null ==> missHandler.received == old(missHandler.received) + sent[|old(sent)|..]
      ensures dirtied == old(dirtied) + if store && LineOf(addr) !in old(Held().dirty) then 1 else 0
      ensures lfsr.reg == if LineOf(addr) in old(Held().resident) then old(lfsr.reg) else NextReg(old(lfsr.reg))
      ensures var miss := if LineOf(addr) in old(Held().resident) then 0 else 1;
              && readMisses == old(readMisses) + (if store then 0 else miss)
              && writeMisses == old(writeMisses) + (if store then miss else 0)
    {
      hide IsValid, IsDirty, Line, Dirtied, Misses, LinesOf, Logged, Conserved, Shape, Chained, Accessed, LineOf,
          MissRequests, Exp2;
      ghost var was, before := Held(), sent;
      HandlerApart();
      Record(Request(addr, bytes, store));
      victim := {};
      var found, p := CheckTag(addr);
      NoRequests(before);
      if found {
        AccessedHit(was, was, addr, false);
        if store {
          MarkDirty(p);
          AccessedHit(was, Held(), addr, true);
        }
        return;
      }
      CountMiss(store);
      victim := Refill(addr);
      AccessedLine(was, Held(), addr, false, victim, sent[|before|..]);
      if store {
        ghost var mid := Held();
        HandlerApart();
        found, p := CheckTag(addr);
        MarkDirty(p);
        AccessedThenMarked(was, mid, Held(), addr, victim, sent[|before|..]);
      }
      AccessedRequests(was, Held(), addr, store, victim, sent[|before|..]);
    }

    lemma HandlerApart()
      requires Valid()
      ensures missHandler != null ==> missHandler != this
      ensures Held().dirty <= Held().resident && linesz > 0 && Exp2(idxShift) == 2 * linesz
    {
      hide LinesOf;
      DirtyResident(tags[..]);
    }

    lemma AccessedHit(was: Lines, now: Lines, addr: u64, store: bool)
      requires Shape() && LineOf(addr) in was.resident && was.dirty <= was.resident
      requires now == Lines(was.resident, was.dirty + if store then {LineOf(addr)} else {})
      ensures Accessed(was, now, addr, store, {}, [])
    {
      hide Placed, Distinct, LineOf, Misses;
    }

    lemma AccessedLine(was: Lines, now: Lines, addr: u64, store: bool, victim: set<nat>, requests: seq<Request>)
      requires Accessed(was, now, addr, store, victim, requests) && was.dirty <= was.resident
      ensures LineOf(addr) in now.resident
      ensures LineOf(addr) !in was.resident && !store ==> LineOf(addr) !in now.dirty
    {
      hide LineOf, Misses;
    }

    lemma AccessedThenMarked(was: Lines, mid: Lines, now: Lines, addr: u64, victim: set<nat>, requests: seq<Request>)
      requires Accessed(was, mid, addr, false, victim, requests)
      requires now == Lines(mid.resident, mid.dirty + {LineOf(addr)})
      ensures Accessed(was, now, addr, true, victim, requests)
    {
      hide LineOf, Misses;
    }

    method CountMiss(store: bool)
      requires Valid()
      modifies this`readMisses, this`writeMisses
      ensures OneMissAhead()
      ensures readMisses == old(readMisses) + (if store then 0 else 1)
          && writeMisses == old(writeMisses) + (if store then 1 else 0)
    {
      hide IsValid, IsDirty, Line, Placed, Distinct, Count, Bytes, LinesOf;
      if store {
        writeMisses := writeMisses + 1;
      } else {
        readMisses := readMisses + 1;
      }
    }

    /** Valid, but for the miss whose read is still to be sent. */
    ghost predicate OneMissAhead()
      reads this, Repr
    {
      (missHandler != null ==> missHandler in Repr) && Linked() && Chained() && Shape() && Logged(1) && Conserved()
    }

    /** A miss replaces a line, writes it back if it was dirty, and reads the new one. */
    method Refill(addr: u64) returns (ghost victim: set<nat>)
      requires OneMissAhead() && LineOf(addr) !in Held().resident
      modifies Repr
      decreases Repr, 2
      ensures Valid() && Repr == old(Repr) && missHandler == old(missHandler)
      ensures received == old(received) && dirtied == old(dirtied) && lfsr.reg == NextReg(old(lfsr.reg))
      ensures readMisses == old(readMisses) && writeMisses == old(writeMisses)
      ensures |sent| >= |old(sent)| && sent[..|old(sent)|] == old(sent)
      ensures Accessed(old(Held()), Held(), addr, false, victim, sent[|old(sent)|..])
      ensures missHandler != null ==> missHandler.received == old(missHandler.received) + sent[|old(sent)|..]
    {
      hide IsValid, IsDirty, Line, Misses, LinesOf, LineOf, Placed, Distinct, Accessed, Logged, Chained;
      var tag;
      ghost var p;
      tag, p := Victimize(addr);
      victim := Victim(tag);
      var writeback := IsValid(tag) && IsDirty(tag);
      Refilled(old(tags[..]), tags[..], p, addr, writeback);
      Forward(addr, writeback, Line(tag));
      Appended(old(sent), Misses(Exp2(idxShift), linesz, addr, writeback, Line(tag)));
    }

    /** The requests of a miss, in order. */
    method Forward(addr: u64, writeback: bool, line: u64)
      requires Linked() && Chained() && Logged(1) && linesz > 0
      modifies this`sent, this`writebacks, if missHandler == null then {} else missHandler.Repr
      decreases Repr, 1
      ensures Linked() && Chained() && Logged(0) && writebacks == old(writebacks) + if writeback then 1 else 0
      ensures sent == old(sent) + Misses(Exp2(idxShift), linesz, addr, writeback, line)
      ensures missHandler != null ==>
        missHandler.received == old(missHandler.received) + Misses(Exp2(idxShift), linesz, addr, writeback, line)
    {
      hide Exp2, Wrap64, Count, Bytes;
      if writeback {
        var r := Request(Wrap64(line * Exp2(idxShift)), linesz, true);
        CountOne(sent, r, true);
        CountOne(sent, r, false);
        Send(r);
        writebacks := writebacks + 1;
      }
      var r := Request(LineStart(addr, linesz), linesz, false);
      CountOne(sent, r, true);
      CountOne(sent, r, false);
      Send(r);
    }

    /** The tags after a victim gave way to the line, still clean. */
    lemma Refilled(was: seq<u64>, now: seq<u64>, p: nat, addr: u64, writeback: bool)
      requires sets > 0 && ways > 0 && linesz >= 8 && Exp2(idxShift) == 2 * linesz
      requires Placed(was, sets, ways, Exp2(idxShift)) && Distinct(was) && LineOf(addr) !in LinesOf(was).resident
      requires p < |was| && p / ways == LineOf(addr) % sets && LineOf(addr) < DIRTY
          && now == was[p := LineOf(addr) + VALID]
      requires writeback <==> IsValid(was[p]) && IsDirty(was[p])
      ensures Placed(now, sets, ways, Exp2(idxShift)) && Distinct(now)
      ensures |LinesOf(now).dirty| + (if writeback then 1 else 0) == |LinesOf(was).dirty|
      ensures forall requests :: requests == Misses(Exp2(idxShift), linesz, addr, writeback, Line(was[p])) ==>
                Accessed(LinesOf(was), LinesOf(now), addr, false, Victim(was[p]), requests)
    {
      hide IsValid, IsDirty, Line, Placed, Distinct, LinesOf, LineOf, Misses, Exp2, Accessed, Accesses;
      LineBounds(addr, idxShift, linesz);
      LineOfIs(addr);
      VictimFits(was, p);
      Replaced(was, sets, ways, Exp2(idxShift), p, LineOf(addr));
      VictimDirty(was, p);
      DirtyResident(was);
      var victim := Victim(was[p]);
      MissAccess(LinesOf(was), LinesOf(now), LineOf(addr), victim);
      Conservation(LinesOf(was), LinesOf(now), LineOf(addr), false, victim);
      var v: u64 := if IsValid(was[p]) then Line(was[p]) else 0;
      SameMisses(addr, writeback, Line(was[p]), v);
      AccessedMiss(LinesOf(was), LinesOf(now), addr, victim, writeback, v);
    }

    lemma AccessedMiss(was: Lines, now: Lines, addr: u64, victim: set<nat>, writeback: bool, v: u64)
      requires linesz > 0 && sets > 0 && LineOf(addr) !in was.resident
          && Accesses(was, now, LineOf(addr), false, victim)
      requires (victim == {} || victim == {v as nat}) && v * Exp2(idxShift) < 0x1_0000_0000_0000_0000
      requires (forall x :: x in victim ==> x % sets == LineOf(addr) % sets) && writeback == (victim * was.dirty != {})
      ensures Accessed(was, now, addr, false, victim, Misses(Exp2(idxShift), linesz, addr, writeback, v))
    {
      hide Misses, LineOf, Exp2, Accesses;
    }

    lemma SameMisses(addr: u64, writeback: bool, v: u64, w: u64)
      requires linesz > 0
      ensures !writeback || v == w ==>
        Misses(Exp2(idxShift), linesz, addr, writeback, v) == Misses(Exp2(idxShift), linesz, addr, writeback, w)
    {
      hide Exp2, Wrap64;
    }

    lemma LineOfIs(addr: u64)
      ensures LineOf(addr) == addr / Exp2(idxShift)
    {
    }

    lemma VictimFits(was: seq<u64>, p: nat)
      requires sets > 0 && ways > 0 && Placed(was, sets, ways, Exp2(idxShift)) && p < |was|
      ensures IsValid(was[p]) ==> Line(was[p]) * Exp2(idxShift) < 0x1_0000_0000_0000_0000
      ensures Victim(was[p]) == if IsValid(was[p]) then {Line(was[p]) as nat} else {}
      ensures IsValid(was[p]) <==> |Victim(was[p])| == 1
      ensures IsValid(was[p]) <==> Victim(was[p]) != {}
      ensures forall x :: x in Victim(was[p]) ==> x % sets == p / ways
    {
      hide Exp2, IsValid, Line;
    }

    /** Any sequence of accesses to a cache that alone feeds its next level: that level has served one
        read per miss and one write per write-back, and no dirty line has been lost. */
    method Run(requests: seq<Request>)
      requires Valid() && missHandler != null && missHandler.received == sent
      modifies Repr
      ensures Valid() && missHandler == old(missHandler) && received == old(received) + requests
      ensures missHandler.received == sent && missHandler.Valid()
      ensures missHandler.readAccesses == readMisses + writeMisses && missHandler.writeAccesses == writebacks
      ensures writebacks + |Held().dirty| == dirtied && Held().dirty <= Held().resident
    {
      hide IsValid, IsDirty, Line, LinesOf, Count, Bytes, Shape, Accessed, LineOf;
      var i := 0;
      while i < |requests|
        invariant 0 <= i <= |requests| && Valid() && missHandler == old(missHandler)
        invariant missHandler.received == sent && Repr == old(Repr)
        invariant received == old(received) + requests[..i]
      {
        ghost var before, served := sent, missHandler.received;
        ghost var victim := Access(requests[i].addr, requests[i].bytes, requests[i].store);
        assert sent == before + sent[|before|..];
        assert requests[..i + 1] == requests[..i] + [requests[i]];
        i := i + 1;
      }
      assert requests[..i] == requests;
      HandlerApart();
    }

    method Record(r: Request)
      requires Valid()
      modifies this`received, this`readAccesses, this`bytesRead, this`writeAccesses, this`bytesWritten
      ensures Valid() && received == old(received) + [r]
    {
      hide IsValid, IsDirty, Line, Placed, Distinct, Count, Bytes;
      CountOne(received, r, true);
      CountOne(received, r, false);
      received := received + [r];
      if r.store {
        writeAccesses, bytesWritten := writeAccesses + 1, bytesWritten + r.bytes;
      } else {
        readAccesses, bytesRead := readAccesses + 1, bytesRead + r.bytes;
      }
    }

    /** tags[p] |= DIRTY */
    method MarkDirty(p: nat)
      requires Valid() && p < tags.Length && IsValid(tags[p])
      modifies this`dirtied, tags
      ensures Valid()
      ensures var line := old(Line(tags[p]));
              && Held() == Lines(old(Held().resident), old(Held().dirty) + {line})
              && dirtied == old(dirtied) + if line in old(Held().dirty) then 0 else 1
    {
      hide IsValid, IsDirty, Line, Placed, Distinct, Count, Bytes, Dirtied;
      Marked(tags[..], sets, ways, Exp2(idxShift), p);
      ghost var was, line := LinesOf(tags[..]).dirty, Line(tags[p]);
      tags[p] := Dirtied(tags[p]);
      if line in was {
        assert was + {line} == was;
      } else {
        dirtied := dirtied + 1;
      }
    }

    method Send(r: Request)
      requires Linked() && Chained()
      modifies this`sent, if missHandler == null then {} else missHandler.Repr
      decreases Repr, 0
      ensures Linked() && Chained() && sent == old(sent) + [r]
      ensures missHandler != null ==> missHandler.Repr == old(missHandler.Repr)
      ensures missHandler != null ==> missHandler.received == old(missHandler.received) + [r]
    {
      sent := sent + [r];
      if missHandler != null {
        ghost var victim := missHandler.Access(r.addr, r.bytes, r.store);
      }
    }
  }

  lemma LineBounds(addr: u64, shift: nat, linesz: nat)
    requires linesz >= 8 && Exp2(shift) == 2 * linesz
    ensures 0 <= addr / Exp2(shift) < DIRTY && addr / Exp2(shift) * Exp2(shift) < 0x1_0000_0000_0000_0000
  {
    hide *;
    var p := Exp2(shift);
    var q := addr / p;
    assert addr == q * p + addr % p;
    QuotientNonnegative(addr, p);
    ProductMono(16, p, q);
    DirtyIs();
  }

  lemma DirtyIs()
    ensures DIRTY == 0x4000_0000_0000_0000
  {
  }

  lemma PlacedSize(tags: seq<u64>, sets: nat, ways: nat, span: nat)
    requires ways > 0 && sets > 0 && Placed(tags, sets, ways, span)
    ensures |tags| == sets * ways
  {
  }

  lemma SetBounds(tags: seq<u64>, sets: nat, ways: nat, span: nat, idx: nat)
    requires ways > 0 && idx < sets && Placed(tags, sets, ways, span)
    ensures 0 <= idx * ways && idx * ways + ways <= |tags|
  {
    hide IsValid, Line;
    SlotBounds(sets, ways, idx);
  }

  lemma QuotientIs(x: nat, p: nat, q: nat)
    requires p > 0
    ensures x / p == q <==> q * p <= x < (q + 1) * p
  {
    hide *;
    var t := x / p;
    assert x == t * p + x % p;
    NextProduct(q, p);
    NextProduct(t, p);
    if q * p <= x < (q + 1) * p {
      Euclid(x, p, q, x - q * p);
    }
  }

  // --- The fully associative variant ---

  ghost function LinesIn(tags: map<nat, u64>): Lines {
    Lines(tags.Keys, set k | k in tags && IsDirty(tags[k]))
  }

  /** Each tag is filed under its own line. */
  ghost predicate Keyed(tags: map<nat, u64>, ways: nat, span: nat) {
    && |tags| <= ways
    && forall k :: k in tags ==> IsValid(tags[k]) && Line(tags[k]) == k && k * span < 0x1_0000_0000_0000_0000
  }

  lemma MarkedKey(tags: map<nat, u64>, ways: nat, span: nat, k: nat)
    requires Keyed(tags, ways, span) && k in tags
    ensures var t := tags[k := Dirtied(tags[k])];
            Keyed(t, ways, span) && LinesIn(t) == Lines(LinesIn(tags).resident, LinesIn(tags).dirty + {k})
  {
    hide IsValid, IsDirty, Line, Dirtied;
    var t := tags[k := Dirtied(tags[k])];
    assert t.Keys == tags.Keys;
    assert |t| == |t.Keys| == |tags.Keys| == |tags|;
    assert LinesIn(t).dirty == LinesIn(tags).dirty + {k};
  }

  lemma RemovedKey(tags: map<nat, u64>, ways: nat, span: nat, k: nat)
    requires Keyed(tags, ways, span) && k in tags
    ensures var t := tags - {k};
            && Keyed(t, ways, span) && |t| < ways
            && LinesIn(t) == Lines(LinesIn(tags).resident - {k}, LinesIn(tags).dirty - {k})
  {
    hide IsValid, IsDirty, Line;
    var t := tags - {k};
    assert t.Keys == tags.Keys - {k};
    assert |t| == |t.Keys| < |tags.Keys| == |tags|;
  }

  lemma InsertedKey(tags: map<nat, u64>, ways: nat, span: nat, line: nat)
    requires Keyed(tags, ways, span) && |tags| < ways && line !in tags && line < DIRTY
        && line * span < 0x1_0000_0000_0000_0000
    ensures var t := tags[line := line + VALID];
            Keyed(t, ways, span) && LinesIn(t) == Lines(LinesIn(tags).resident + {line}, LinesIn(tags).dirty)
  {
    TagOf(line, 0);
    hide IsValid, IsDirty, Line;
    var t := tags[line := line + VALID];
    assert t.Keys == tags.Keys + {line};
    assert |t| == |t.Keys| == |tags.Keys| + 1 == |tags| + 1;
  }

  /** With room left the line is simply added. */
  lemma AddedKey(t: map<nat, u64>, ways: nat, span: nat, line: nat)
    requires Keyed(t, ways, span) && |t| != ways
    requires line !in t && line < DIRTY && line * span < 0x1_0000_0000_0000_0000
    ensures var n := t[line := line + VALID];
            Keyed(n, ways, span) && Accesses(LinesIn(t), LinesIn(n), line, false, {})
                && LinesIn(n).dirty == LinesIn(t).dirty
  {
    hide IsValid, IsDirty, Line, LinesIn, Keyed, Accesses;
    KeyedSize(t, ways, span);
    InsertedKey(t, ways, span, line);
    NoVictim(LinesIn(t), LinesIn(t[line := line + VALID]), line);
  }

  lemma NoVictim(was: Lines, now: Lines, line: nat)
    requires line !in was.resident && now == Lines(was.resident + {line}, was.dirty)
    ensures Accesses(was, now, line, false, {})
  {
  }

  /** Otherwise the victim makes room for it. */
  lemma ReplacedKey(t: map<nat, u64>, ways: nat, span: nat, k: nat, line: nat)
    requires Keyed(t, ways, span) && k in t
    requires line !in t && line < DIRTY && line * span < 0x1_0000_0000_0000_0000
    ensures var n := (t - {k})[line := line + VALID];
            && Keyed(n, ways, span) && Accesses(LinesIn(t), LinesIn(n), line, false, {k})
            && LinesIn(n).dirty == LinesIn(t).dirty - {k}
  {
    hide IsValid, IsDirty, Line, LinesIn, Keyed, Accesses;
    KeyedSize(t, ways, span);
    RemovedKey(t, ways, span, k);
    InsertedKey(t - {k}, ways, span, line);
    MissAccess(LinesIn(t), LinesIn((t - {k})[line := line + VALID]), line, {k});
  }

  lemma KeyedSize(t: map<nat, u64>, ways: nat, span: nat)
    requires Keyed(t, ways, span)
    ensures |t| <= ways && LinesIn(t).resident == t.Keys && LinesIn(t).dirty <= t.Keys
  {
    hide IsValid, IsDirty, Line;
  }

  /** k is at position n of keys in order, as an iterator advanced n times from the first key is. */
  predicate IsAt(keys: set<nat>, k: nat, n: nat) {
    k in keys && |set x | x in keys && x < k| == n
  }

  /** Positions follow the order of the keys. */
  lemma PositionsFollowKeys(keys: set<nat>, k: nat, l: nat, m: nat, n: nat)
    requires IsAt(keys, k, m) && IsAt(keys, l, n)
    ensures k < l <==> m < n
    ensures k == l <==> m == n
    ensures m < |keys|
  {
    var below, above := set x | x in keys && x < k, set x | x in keys && x < l;
    Smaller(below, keys, k);
    if k < l {
      Smaller(below, above, k);
    } else if l < k {
      Smaller(above, below, l);
    }
  }

  lemma Smaller(s: set<nat>, t: set<nat>, k: nat)
    requires s <= t && k in t && k !in s
    ensures |s| < |t|
  {
    var rest := t - s;
    assert t == s + rest && s !! rest && k in rest;
    assert |t| == |s| + |rest|;
  }

  lemma LeastKey(keys: set<nat>) returns (k: nat)
    requires keys != {}
    ensures k in keys && forall x :: x in keys ==> k <= x
    decreases |keys|
  {
    var first :| first in keys;
    var rest := keys - {first};
    k := first;
    if rest != {} {
      var m := LeastKey(rest);
      k := if m < first then m else first;
    }
    forall x | x in keys ensures k <= x {
      assert x == first || x in rest;
    }
  }

  /** Every position below the number of keys holds one. */
  lemma {:induction false} KeyAt(keys: set<nat>, n: nat) returns (k: nat)
    requires n < |keys|
    ensures IsAt(keys, k, n)
    decreases n
  {
    var least := LeastKey(keys);
    if n == 0 {
      k := least;
      assert (set x | x in keys && x < k) == {};
    } else {
      var rest := keys - {least};
      assert |rest| == |keys| - 1;
      k := KeyAt(rest, n - 1);
      var below := set x | x in rest && x < k;
      assert (set x | x in keys && x < k) == below + {least};
    }
  }

  /** One set of any number of ways, its tags in a map. */
  class FullyAssociativeCache {
    const ways: nat
    const linesz: nat
    const idxShift: nat
    const lfsr: Lfsr
    var missHandler: Cache?
    var tags: map<nat, u64>
    var readAccesses: nat
    var readMisses: nat
    var bytesRead: nat
    var writeAccesses: nat
    var writeMisses: nat
    var bytesWritten: nat
    var writebacks: nat
    ghost var received: seq<Request>
    ghost var sent: seq<Request>
    ghost var dirtied: nat
    ghost var Repr: set<object>

    ghost predicate Valid()
      reads this, Repr
    {
      (missHandler != null ==> missHandler in Repr) && Linked() && Chained() && Shape() && Logged(0) && Conserved()
    }

    /** The next level is a cache of its own. */
    ghost predicate Linked()
      reads this`missHandler, this`Repr, missHandler
    {
      && this in Repr && lfsr in Repr
      && (missHandler != null ==>
            missHandler in Repr && missHandler in missHandler.Repr && missHandler.Repr <= Repr
            && {this, lfsr} !! missHandler.Repr)
    }

    ghost predicate Chained()
      requires Linked()
      reads this`missHandler, this`Repr, missHandler, if missHandler == null then {} else missHandler.Repr
    {
      missHandler != null ==> missHandler.Valid()
    }

    ghost predicate Shape()
      reads this`tags, lfsr
    {
      lfsr.Valid() && ways > 0 && linesz >= 8 && Exp2(idxShift) == 2 * linesz && Keyed(tags, ways, Exp2(idxShift))
    }

    /** The counters are what the logs say; ahead misses still have their read to send. */
    ghost predicate Logged(ahead: nat)
      reads this`readAccesses, this`writeAccesses, this`bytesRead, this`bytesWritten, this`received
      reads this`readMisses, this`writeMisses, this`writebacks, this`sent
    {
      && readAccesses == Count(received, false) && writeAccesses == Count(received, true)
      && bytesRead == Bytes(received, false) && bytesWritten == Bytes(received, true)
      && readMisses + writeMisses == Count(sent, false) + ahead && writebacks == Count(sent, true)
    }

    ghost predicate Conserved()
      reads this
    {
      writebacks + |LinesIn(tags).dirty| == dirtied
    }

    constructor (ways: nat, linesz: nat, ghost k: nat)
      requires ways > 0 && linesz >= 8 && linesz == Exp2(k)
      ensures Valid() && fresh(Repr) && missHandler == null && tags == map[] && received == sent == [] && dirtied == 0
      ensures this.ways == ways && this.linesz == linesz
    {
      this.ways, this.linesz := ways, linesz;
      var shift, x := 0, linesz;
      ghost var left := k + 1;
      while x != 0
        invariant 0 <= x && 0 <= left && shift + left == k + 1
        invariant if left == 0 then x == 0 else x == Exp2(left - 1)
        decreases x
      {
        x, shift, left := x / 2, shift + 1, left - 1;
      }
      idxShift := shift;
      lfsr := new Lfsr();
      missHandler := null;
      readAccesses, readMisses, bytesRead := 0, 0, 0;
      writeAccesses, writeMisses, bytesWritten, writebacks := 0, 0, 0, 0;
      tags, received, sent, dirtied := map[], [], [], 0;
      Repr := {this, lfsr};
      new;
      Exp2Double(k);
    }

    method SetMissHandler(mh: Cache)
      requires Valid() && mh.Valid() && Repr !! mh.Repr && missHandler == null
      modifies this`missHandler, this`Repr
      ensures Valid() && missHandler == mh && Repr == old(Repr) + mh.Repr
    {
      hide IsValid, IsDirty, Line, LinesIn, Keyed, Count, Bytes, Exp2;
      missHandler := mh;
      Repr := Repr + mh.Repr;
    }

    function LineOf(addr: u64): nat {
      QuotientNonnegative(addr, Exp2(idxShift));
      addr / Exp2(idxShift)
    }

    /** The requests of a miss: one write, at the victim's address, if it is dirty, then one read. */
    ghost predicate Asked(requests: seq<Request>, addr: u64, victim: set<nat>, dirty: set<nat>) {
      linesz > 0 && exists v: u64 ::
        (victim == {} || victim == {v as nat}) && v * Exp2(idxShift) < 0x1_0000_0000_0000_0000
        && requests == Misses(Exp2(idxShift), linesz, addr, victim * dirty != {}, v)
    }

    lemma AskedRequests(requests: seq<Request>, addr: u64, victim: set<nat>, dirty: set<nat>)
      requires Asked(requests, addr, victim, dirty) && Exp2(idxShift) == 2 * linesz
      ensures MissRequests(requests, 2 * linesz, linesz, addr, victim, dirty)
    {
      var v: u64 :| (victim == {} || victim == {v as nat}) && v * Exp2(idxShift) < 0x1_0000_0000_0000_0000
        && requests == Misses(Exp2(idxShift), linesz, addr, victim * dirty != {}, v);
      MissesMean(Exp2(idxShift), linesz, addr, victim, dirty, v);
    }

    lemma LineSpans(addr: u64, line: nat)
      requires linesz > 0 && Exp2(idxShift) == 2 * linesz
      ensures LineOf(addr) == line <==> line * (2 * linesz) <= addr < (line + 1) * (2 * linesz)
    {
      QuotientIs(addr, 2 * linesz, line);
    }

    /** The tag replaced, the register picking its position in key order, or 0 while there is room. */
    method Victimize(addr: u64) returns (oldTag: u64, ghost evicts: bool, ghost key: nat)
      requires Shape() && LineOf(addr) !in tags
      modifies this`tags, lfsr
      ensures lfsr.Valid() && LineOf(addr) < DIRTY && (evicts <==> old(|tags|) == ways)
      ensures lfsr.reg == if evicts then NextReg(old(lfsr.reg)) else old(lfsr.reg)
      ensures evicts ==> IsAt(old(tags.Keys), key, lfsr.reg as nat % ways)
      ensures evicts ==> key in old(tags) && oldTag == old(tags)[key]
                         && tags == (old(tags) - {key})[LineOf(addr) := LineOf(addr) + VALID]
      ensures !evicts ==> oldTag == 0 && tags == old(tags)[LineOf(addr) := LineOf(addr) + VALID]
    {
      hide IsValid, IsDirty, Line, LinesIn, Keyed, Count;
      LineBounds(addr, idxShift, linesz);
      oldTag, evicts, key := 0, |tags| == ways, 0;
      if |tags| == ways {
        var way := lfsr.Pick(ways);
        assert |tags.Keys| == |tags|;
        ghost var at := KeyAt(tags.Keys, way);
        var k :| k in tags && IsAt(tags.Keys, k, way);
        oldTag, key := tags[k], k;
        tags := tags - {k};
      }
      tags := tags[LineOf(addr) := LineOf(addr) + VALID];
    }

    method Access(addr: u64, bytes: nat, store: bool) returns (ghost victim: set<nat>)
      requires Valid()
      modifies Repr
      ensures Valid() && Repr == old(Repr) && missHandler == old(missHandler) && LineOf(addr) in tags
      ensures received == old(received) + [Request(addr, bytes, store)]
      ensures |sent| >= |old(sent)| && sent[..|old(sent)|] == old(sent)
      ensures Accesses(old(LinesIn(tags)), LinesIn(tags), LineOf(addr), store, victim)
      ensures LineOf(addr) in old(tags) ==> sent == old(sent) && lfsr.reg == old(lfsr.reg)
      ensures LineOf(addr) !in old(tags) ==> Asked(sent[|old(sent)|..], addr, victim, old(LinesIn(tags)).dirty)
      ensures linesz > 0 && (LineOf(addr) !in old(tags) ==>
                MissRequests(sent[|old(sent)|..], 2 * linesz, linesz, addr, victim, old(LinesIn(tags)).dirty))
      ensures missHandler != null ==> missHandler.received == old(missHandler.received) + sent[|old(sent)|..]
      ensures dirtied == old(dirtied) + if store && LineOf(addr) !in old(LinesIn(tags)).dirty then 1 else 0
      ensures var miss := if LineOf(addr) in old(tags) then 0 else 1;
              && readMisses == old(readMisses) + (if store then 0 else miss)
              && writeMisses == old(writeMisses) + (if store then miss else 0)
    {
      hide IsValid, IsDirty, Line, LinesIn, Keyed, Exp2, Misses, Dirtied, Asked, Accesses, LineOf, Logged, Chained,
          Conserved, MissRequests;
      ghost var was := LinesIn(tags);
      HandlerApart();
      Record(Request(addr, bytes, store));
      victim := Fetch(addr, store);
      if LineOf(addr) !in old(tags) {
        AskedRequests(sent[|old(sent)|..], addr, victim, was.dirty);
      }
      ghost var mid := LinesIn(tags);
      StillClean(was, mid, LineOf(addr), victim);
      if store {
        MarkDirty(LineOf(addr));
        MarkedAccess(was, mid, LinesIn(tags), LineOf(addr), victim);
      }
    }

    /** After it the line is held, whether it was or not. */
    method Fetch(addr: u64, store: bool) returns (ghost victim: set<nat>)
      requires Valid()
      modifies Repr
      ensures Valid() && Repr == old(Repr) && missHandler == old(missHandler) && LineOf(addr) in tags
      ensures received == old(received) && dirtied == old(dirtied)
      ensures |sent| >= |old(sent)| && sent[..|old(sent)|] == old(sent)
      ensures Accesses(old(LinesIn(tags)), LinesIn(tags), LineOf(addr), false, victim)
      ensures LineOf(addr) in old(tags) ==> sent == old(sent) && lfsr.reg == old(lfsr.reg)
      ensures LineOf(addr) !in old(tags) ==> Asked(sent[|old(sent)|..], addr, victim, old(LinesIn(tags)).dirty)
      ensures missHandler != null ==> missHandler.received == old(missHandler.received) + sent[|old(sent)|..]
      ensures var miss := if LineOf(addr) in old(tags) then 0 else 1;
              && readMisses == old(readMisses) + (if store then 0 else miss)
              && writeMisses == old(writeMisses) + (if store then miss else 0)
    {
      hide IsValid, IsDirty, Line, LinesIn, Keyed, Exp2, Misses, Dirtied, Asked, Accesses, LineOf, Logged, Chained,
          Conserved, MissRequests;
      ghost var was := LinesIn(tags);
      HandlerApart();
      NoRequests(sent);
      victim := {};
      if LineOf(addr) !in tags {
        CountMiss(store);
        victim := Refill(addr);
        HandlerApart();
      } else {
        HitAccess(was, was, LineOf(addr), false);
      }
      StillClean(was, LinesIn(tags), LineOf(addr), victim);
    }

    lemma HandlerApart()
      requires Valid()
      ensures LinesIn(tags).resident == tags.Keys && LinesIn(tags).dirty <= tags.Keys
      ensures linesz > 0 && Exp2(idxShift) == 2 * linesz
    {
      hide LinesIn;
      KeyedSize(tags, ways, Exp2(idxShift));
    }

    lemma StillClean(was: Lines, mid: Lines, line: nat, victim: set<nat>)
      requires Accesses(was, mid, line, false, victim) && was.dirty <= was.resident
      ensures line in mid.resident && (line in mid.dirty <==> line in was.dirty)
    {
    }

    method Record(r: Request)
      requires Valid()
      modifies this`received, this`readAccesses, this`bytesRead, this`writeAccesses, this`bytesWritten
      ensures Valid() && received == old(received) + [r]
    {
      hide Keyed, LinesIn, Count, Bytes, Exp2;
      CountOne(received, r, true);
      CountOne(received, r, false);
      received := received + [r];
      if r.store {
        writeAccesses, bytesWritten := writeAccesses + 1, bytesWritten + r.bytes;
      } else {
        readAccesses, bytesRead := readAccesses + 1, bytesRead + r.bytes;
      }
    }

    method CountMiss(store: bool)
      requires Valid()
      modifies this`readMisses, this`writeMisses
      ensures OneMissAhead()
      ensures readMisses == old(readMisses) + (if store then 0 else 1)
      ensures writeMisses == old(writeMisses) + (if store then 1 else 0)
    {
      hide Keyed, LinesIn, Count, Bytes, Exp2;
      if store {
        writeMisses := writeMisses + 1;
      } else {
        readMisses := readMisses + 1;
      }
    }

    /** Valid, but for the miss whose read is still to be sent. */
    ghost predicate OneMissAhead()
      reads this, Repr
    {
      (missHandler != null ==> missHandler in Repr) && Linked() && Chained() && Shape() && Logged(1) && Conserved()
    }

    method MarkDirty(k: nat)
      requires Valid() && k in tags
      modifies this`tags, this`dirtied
      ensures Valid() && tags.Keys == old(tags.Keys)
      ensures LinesIn(tags) == Lines(old(LinesIn(tags)).resident, old(LinesIn(tags)).dirty + {k})
      ensures dirtied == old(dirtied) + if k in old(LinesIn(tags)).dirty then 0 else 1
    {
      hide IsValid, IsDirty, Line, Keyed, Count, Bytes, Exp2, Dirtied, LinesIn;
      MarkedKey(tags, ways, Exp2(idxShift), k);
      KeyedSize(tags, ways, Exp2(idxShift));
      ghost var dirty := LinesIn(tags).dirty;
      tags := tags[k := Dirtied(tags[k])];
      if k in dirty {
        assert dirty + {k} == dirty;
      } else {
        dirtied := dirtied + 1;
      }
    }

    method Refill(addr: u64) returns (ghost victim: set<nat>)
      requires OneMissAhead() && LineOf(addr) !in tags
      modifies Repr
      ensures Valid() && Repr == old(Repr) && missHandler == old(missHandler)
      ensures received == old(received) && dirtied == old(dirtied)
      ensures readMisses == old(readMisses) && writeMisses == old(writeMisses)
      ensures |sent| >= |old(sent)| && sent[..|old(sent)|] == old(sent)
      ensures Accesses(old(LinesIn(tags)), LinesIn(tags), LineOf(addr), false, victim)
      ensures Asked(sent[|old(sent)|..], addr, victim, old(LinesIn(tags)).dirty)
      ensures missHandler != null ==> missHandler.received == old(missHandler.received) + sent[|old(sent)|..]
    {
      hide IsValid, IsDirty, Line, Keyed, LinesIn, Accesses, Misses, Asked, Logged, Chained;
      LineBounds(addr, idxShift, linesz);
      var oldTag;
      ghost var evicts, key;
      oldTag, evicts, key := Victimize(addr);
      var writeback := IsValid(oldTag) && IsDirty(oldTag);
      ghost var v;
      victim, v := RefilledKeys(old(tags), tags, ways, Exp2(idxShift), LineOf(addr), evicts, key, oldTag);
      SameVictim(addr, writeback, Line(oldTag), v);
      Forward(addr, writeback, Line(oldTag));
      ghost var requests := Misses(Exp2(idxShift), linesz, addr, writeback, Line(oldTag));
      Appended(old(sent), requests);
      AskedIs(requests, addr, victim, old(LinesIn(tags)).dirty, v);
    }

    lemma AskedIs(requests: seq<Request>, addr: u64, victim: set<nat>, dirty: set<nat>, v: u64)
      requires linesz > 0 && (victim == {} || victim == {v as nat}) && v * Exp2(idxShift) < 0x1_0000_0000_0000_0000
      requires requests == Misses(Exp2(idxShift), linesz, addr, victim * dirty != {}, v)
      ensures Asked(requests, addr, victim, dirty)
    {
    }

    lemma SameVictim(addr: u64, writeback: bool, v: u64, w: u64)
      requires linesz > 0 && (!writeback || v == w)
      ensures Misses(Exp2(idxShift), linesz, addr, writeback, v) == Misses(Exp2(idxShift), linesz, addr, writeback, w)
    {
      hide Exp2, Wrap64, LineStart;
    }

    /** The requests of a miss, in order. */
    method Forward(addr: u64, writeback: bool, line: u64)
      requires Linked() && Chained() && Logged(1) && linesz > 0
      modifies this`sent, this`writebacks, if missHandler == null then {} else missHandler.Repr
      ensures Linked() && Chained() && Logged(0) && writebacks == old(writebacks) + if writeback then 1 else 0
      ensures sent == old(sent) + Misses(Exp2(idxShift), linesz, addr, writeback, line)
      ensures missHandler != null ==>
        missHandler.received == old(missHandler.received) + Misses(Exp2(idxShift), linesz, addr, writeback, line)
    {
      hide Exp2, Wrap64, Count, Bytes;
      if writeback {
        var r := Request(Wrap64(line * Exp2(idxShift)), linesz, true);
        CountOne(sent, r, true);
        CountOne(sent, r, false);
        Send(r);
        writebacks := writebacks + 1;
      }
      var r := Request(LineStart(addr, linesz), linesz, false);
      CountOne(sent, r, true);
      CountOne(sent, r, false);
      Send(r);
    }

    method Send(r: Request)
      requires Linked() && Chained()
      modifies this`sent, if missHandler == null then {} else missHandler.Repr
      ensures Linked() && Chained() && sent == old(sent) + [r]
      ensures missHandler != null ==> missHandler.Repr == old(missHandler.Repr)
      ensures missHandler != null ==> missHandler.received == old(missHandler.received) + [r]
    {
      sent := sent + [r];
      if missHandler != null {
        ghost var victim := missHandler.Access(r.addr, r.bytes, r.store);
      }
    }

    /** As Cache.Run, whose levels this variant feeds in the same way. */
    method Run(requests: seq<Request>)
      requires Valid() && missHandler != null && missHandler.received == sent
      modifies Repr
      ensures Valid() && missHandler == old(missHandler) && received == old(received) + requests
      ensures missHandler.received == sent && missHandler.Valid()
      ensures missHandler.readAccesses == readMisses + writeMisses && missHandler.writeAccesses == writebacks
      ensures writebacks + |LinesIn(tags).dirty| == dirtied && LinesIn(tags).dirty <= LinesIn(tags).resident
      ensures |tags| <= ways
    {
      hide IsValid, IsDirty, Line, LinesIn, Count, Bytes, Asked, Accesses, LineOf;
      var i := 0;
      while i < |requests|
        invariant 0 <= i <= |requests| && Valid() && missHandler == old(missHandler)
        invariant missHandler.received == sent && Repr == old(Repr)
        invariant received == old(received) + requests[..i]
      {
        ghost var before, served := sent, missHandler.received;
        ghost var victim := Access(requests[i].addr, requests[i].bytes, requests[i].store);
        assert sent == before + sent[|before|..];
        assert requests[..i + 1] == requests[..i] + [requests[i]];
        i := i + 1;
      }
      assert requests[..i] == requests;
      HandlerApart();
      KeyedSize(tags, ways, Exp2(idxShift));
    }
  }

  /** The line evicted, and that its tag tells whether it was dirty. */
  lemma VictimTag(t: map<nat, u64>, ways: nat, span: nat, k: nat, oldTag: u64) returns (v: u64)
    requires Keyed(t, ways, span) && k in t && oldTag == t[k]
    ensures v == k && v * span < 0x1_0000_0000_0000_0000
    ensures var writeback := IsValid(oldTag) && IsDirty(oldTag);
            && writeback == ({k} * LinesIn(t).dirty != {}) && (writeback ==> v == Line(oldTag))
            && |LinesIn(t).dirty - {k}| + (if writeback then 1 else 0) == |LinesIn(t).dirty|
  {
    hide IsValid, IsDirty, Line;
    v := Line(oldTag);
    OneVictim(LinesIn(t).dirty, k);
  }

  lemma RefilledKeys(t: map<nat, u64>, n: map<nat, u64>, ways: nat, span: nat, line: nat, evicts: bool, key: nat,
      oldTag: u64)
    returns (victim: set<nat>, v: u64)
    requires Keyed(t, ways, span) && line !in t && line < DIRTY && line * span < 0x1_0000_0000_0000_0000
    requires evicts <==> |t| == ways
    requires evicts ==> key in t && oldTag == t[key] && n == (t - {key})[line := line + VALID]
    requires !evicts ==> oldTag == 0 && n == t[line := line + VALID]
    ensures Keyed(n, ways, span) && Accesses(LinesIn(t), LinesIn(n), line, false, victim)
    ensures (victim == {} || victim == {v as nat}) && v * span < 0x1_0000_0000_0000_0000
    ensures var writeback := IsValid(oldTag) && IsDirty(oldTag);
            && writeback == (victim * LinesIn(t).dirty != {}) && (writeback ==> v == Line(oldTag))
            && |LinesIn(n).dirty| + (if writeback then 1 else 0) == |LinesIn(t).dirty|
  {
    hide IsValid, IsDirty, Line, LinesIn, Keyed, Accesses;
    if evicts {
      victim := {key};
      ReplacedKey(t, ways, span, key, line);
      v := VictimTag(t, ways, span, key, oldTag);
    } else {
      victim, v := {}, 0;
      AddedKey(t, ways, span, line);
      TagOf(0, 0);
    }
  }

  lemma OneVictim(dirty: set<nat>, k: nat)
    ensures |dirty - {k}| + (if k in dirty then 1 else 0) == |dirty|
    ensures {k} * dirty != {} <==> k in dirty
  {
    if k !in dirty {
      assert dirty - {k} == dirty;
    } else {
      assert k in {k} * dirty;
    }
  }
}
