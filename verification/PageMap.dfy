/** Where the page tables send an address, told by address arithmetic instead of by a walk. */
module PageMap {
  import opened Powers
  import opened Words
  import opened Bits
  import opened Tlb

  /** The bytes one entry of a level maps: 8 gigabytes, 8 megabytes, 8 kilobytes. */
  function Span(level: nat): (r: nat)
    requires level < 3
    ensures r >= 1
  {
    Exp2(33 - 10 * level)
  }

  /** addr's index into a table of a level. */
  function Index(addr: u64, level: nat): (r: nat)
    requires level < 3
    ensures r < 1024
  {
    addr / Span(level) % 1024
  }

  /** Through tables only, then at an entry that is none: the walk's path for addr from a table at base. */
  ghost predicate EndsAt(m: Machine, addr: u64, base: nat, i: nat, level: nat, entry: nat)
    requires m.memsz == 8 * |m.words| && i <= level < 3
    decreases level - i
  {
    var at := base + Index(addr, i) * 8;
    && at < m.memsz
    && var ptd := m.words[at / 8];
       && ptd % 2 == 1
       && if i == level then ptd / 2 % 2 == 0 && entry == ptd
          else ptd / 2 % 2 == 1 && EndsAt(m, addr, ptd - ptd % 0x2000, i + 1, level, entry)
  }

  /** The 43 bits of an address are three indices and the offset in a page. */
  lemma IndicesRecompose(addr: u64)
    ensures addr % Exp2(43)
         == Index(addr, 0) * Span(0) + Index(addr, 1) * Span(1) + Index(addr, 2) * Span(2) + addr % 0x2000
    ensures Span(2) == 0x2000
  {
    SpansAre();
    Regroup(addr, 0x2000, 0x80_0000);
    Regroup(addr, 0x80_0000, 0x2_0000_0000);
    Regroup(addr, 0x2_0000_0000, 0x800_0000_0000);
  }

  lemma Regroup(x: nat, p: nat, q: nat)
    requires p == 0x2000 || p == 0x80_0000 || p == 0x2_0000_0000
    requires q == 1024 * p
    ensures x % q == x / p % 1024 * p + x % p
  {
    hide *;
    var h := x / p;
    var k, r := h / 1024, h % 1024;
    assert h == k * 1024 + r;
    assert x == h * p + x % p;
    assert x == k * q + (r * p + x % p) by { Spread(k, r, p, q, h); }
    assert 0 <= r * p + x % p < q by { IndexFits(r, p, q, x % p); }
    Euclid(x, q, k, r * p + x % p);
  }

  lemma Spread(k: int, r: int, p: int, q: int, h: int)
    requires q == 1024 * p && h == k * 1024 + r
    ensures h * p == k * q + r * p
  {
  }

  lemma IndexFits(r: int, p: int, q: int, o: int)
    requires 0 <= r < 1024 && q == 1024 * p && 0 <= o < p
    ensures 0 <= r * p + o < q
  {
  }

  lemma SpansAre()
    ensures Span(0) == 0x2_0000_0000 && Span(1) == 0x80_0000 && Span(2) == 0x2000 && Exp2(43) == 0x800_0000_0000
    ensures Exp2(13) == 0x2000
  {
    Exp2Constants();
    Exp2Add(23, 10);
    Exp2Add(3, 10);
    Exp2Add(33, 10);
    assert Exp2(3) == 8;
  }

  lemma IndexIs(addr: u64, i: nat)
    requires i < 3
    ensures Index(addr, i) == TableIndex(addr, i)
  {
    SpansAre();
    hide Exp2;
  }

  // --- What the walk yields at the end of a path ---

  /** The page an entry of a level gives addr: its own page number, or-ed with addr's within the span. */
  function Frame(entry: nat, addr: u64, level: nat): nat
    requires level < 3
  {
    BitOr(entry / 0x2000, addr % Span(level) / 0x2000)
  }

  lemma LeafFrame(memsz: nat, entry: u64, addr: u64, level: nat)
    requires level < 3
    ensures Leaf(memsz, entry, addr, level)
         == if Frame(entry, addr, level) * 0x2000 < memsz
            then Frame(entry, addr, level) * 0x2000 + entry % 0x2000 else 0
  {
    hide *;
    SpansAre();
    var v := addr % Span(level) / 0x2000;
    PageWithin(addr, level, v);
    OrShifted(entry / 0x2000, v, entry % 0x2000, 13);
    assert entry == entry / 0x2000 * 0x2000 + entry % 0x2000;
    FrameIs(entry, addr, level);
    LeafIs(memsz, entry, addr, level, v, Frame(entry, addr, level));
  }

  lemma FrameIs(entry: nat, addr: u64, level: nat)
    requires level < 3
    ensures Frame(entry, addr, level) == BitOr(entry / 0x2000, addr % Span(level) / 0x2000)
  {
  }

  lemma PageWithin(addr: u64, level: nat, v: nat)
    requires level < 3 && v == addr % Span(level) / 0x2000
    ensures v == addr / 0x2000 % (EntrySpan(level) / 0x2000)
  {
    SpansAre();
    hide Exp2;
    if level == 0 {
      PageFirst(addr, 0x10_0000, 0x2_0000_0000);
    } else if level == 1 {
      PageFirst(addr, 0x400, 0x80_0000);
    } else {
      PageFirst(addr, 1, 0x2000);
    }
  }

  lemma PageFirst(x: nat, k: nat, q: nat)
    requires k > 0 && q == 0x2000 * k
    ensures x % q / 0x2000 == x / 0x2000 % k
  {
    hide *;
    var h := x / 0x2000;
    var t, r, o := h / k, h % k, x % 0x2000;
    assert x == h * 0x2000 + o && h == t * k + r;
    assert x == t * q + (r * 0x2000 + o) by { SpreadBy(t, r, k, q, h); }
    assert 0 <= r * 0x2000 + o < q;
    Euclid(x, q, t, r * 0x2000 + o);
    Euclid(r * 0x2000 + o, 0x2000, r, o);
  }

  lemma SpreadBy(t: int, r: int, k: int, q: int, h: int)
    requires q == 0x2000 * k && h == t * k + r
    ensures h * 0x2000 == t * q + r * 0x2000
  {
  }

  lemma LeafIs(memsz: nat, entry: u64, addr: u64, level: nat, v: nat, frame: nat)
    requires level < 3 && v == addr / 0x2000 % (EntrySpan(level) / 0x2000)
    requires BitOr(entry, v * 0x2000) == frame * 0x2000 + entry % 0x2000
    ensures Leaf(memsz, entry, addr, level) == if frame * 0x2000 < memsz then frame * 0x2000 + entry % 0x2000 else 0
  {
    hide BitOr, EntrySpan;
    assert PageBase(frame * 0x2000 + entry % 0x2000) == frame * 0x2000;
  }

  /** The flags of a frame's entry are the entry's own. */
  lemma SameFlags(m: Machine, frame: nat, entry: nat, store: bool, fetch: bool)
    ensures Permitted(m, frame * 0x2000 + entry % 0x2000, store, fetch) <==> Permitted(m, entry, store, fetch)
    ensures PageBase(frame * 0x2000 + entry % 0x2000) == frame * 0x2000
  {
    var e := frame * 0x2000 + entry % 0x2000;
    Euclid(e, 0x2000, frame, entry % 0x2000);
    LowFlags(e);
    LowFlags(entry);
    hide HasBit;
  }

  lemma LowFlags(x: nat)
    ensures HasBit(x, 1) == HasBit(x % 0x2000, 1) && HasBit(x, 8) == HasBit(x % 0x2000, 8)
    ensures HasBit(x, 0x10) == HasBit(x % 0x2000, 0x10) && HasBit(x, 0x20) == HasBit(x % 0x2000, 0x20)
    ensures HasBit(x, 0x40) == HasBit(x % 0x2000, 0x40) && HasBit(x, 0x80) == HasBit(x % 0x2000, 0x80)
    ensures HasBit(x, 0x100) == HasBit(x % 0x2000, 0x100)
  {
    hide *;
    LowFlag(x, 1, 0x1000);
    LowFlag(x, 8, 0x200);
    LowFlag(x, 0x10, 0x100);
    LowFlag(x, 0x20, 0x80);
    LowFlag(x, 0x40, 0x40);
    LowFlag(x, 0x80, 0x20);
    LowFlag(x, 0x100, 0x10);
  }

  lemma LowFlag(x: nat, w: nat, k: nat)
    requires w > 0 && w * (2 * k) == 0x2000
    ensures HasBit(x, w) == HasBit(x % 0x2000, w)
  {
    hide *;
    var q, r := x / 0x2000, x % 0x2000;
    var h := r / w;
    assert x == q * 0x2000 + r && r == h * w + r % w;
    assert x == (2 * (q * k) + h) * w + r % w by { Factor(q, k, w, h); }
    Euclid(x, w, 2 * (q * k) + h, r % w);
    HasBitMeans(x, w);
    HasBitMeans(r, w);
    EvenPlus(q * k, h);
  }

  lemma Factor(q: int, k: int, w: int, h: int)
    requires w * (2 * k) == 0x2000
    ensures (2 * (q * k) + h) * w == q * 0x2000 + h * w
  {
    assert q * (w * (2 * k)) == 2 * (q * k) * w;
  }

  lemma EvenPlus(e: int, h: int)
    ensures (2 * e + h) % 2 == h % 2
  {
  }

  lemma HasBitMeans(x: nat, w: nat)
    requires w > 0
    ensures HasBit(x, w) == (x / w % 2 == 1)
  {
  }

  /** One step of a path and of the walk. */
  lemma PathStep(m: Machine, addr: u64, base: nat, i: nat, level: nat, entry: nat)
    requires m.memsz == 8 * |m.words| && i <= level < 3
    ensures var at := base + TableIndex(addr, i) * 8;
            EndsAt(m, addr, base, i, level, entry) <==>
              && at < m.memsz
              && var ptd := m.words[at / 8];
                 && ptd % 2 == 1
                 && if i == level then ptd / 2 % 2 == 0 && entry == ptd
                    else ptd / 2 % 2 == 1 && EndsAt(m, addr, PageBase(ptd), i + 1, level, entry)
  {
    hide *;
    IndexIs(addr, i);
    var at := base + TableIndex(addr, i) * 8;
    EndsUnfolds(m, addr, base, i, level, entry, at);
    if at < m.memsz {
      BaseIs(m.words[at / 8]);
    }
  }

  lemma EndsUnfolds(m: Machine, addr: u64, base: nat, i: nat, level: nat, entry: nat, at: nat)
    requires m.memsz == 8 * |m.words| && i <= level < 3 && at == base + Index(addr, i) * 8
    ensures EndsAt(m, addr, base, i, level, entry) <==>
              && at < m.memsz
              && var ptd := m.words[at / 8];
                 && ptd % 2 == 1
                 && if i == level then ptd / 2 % 2 == 0 && entry == ptd
                    else ptd / 2 % 2 == 1 && EndsAt(m, addr, ptd - ptd % 0x2000, i + 1, level, entry)
  {
    hide Index;
  }

  lemma BaseIs(ptd: nat)
    ensures PageBase(ptd) == ptd - ptd % 0x2000
  {
  }

  lemma WalkStep(m: Machine, addr: u64, base: nat, i: nat)
    requires m.memsz == 8 * |m.words| && i < 3
    ensures var at := base + TableIndex(addr, i) * 8;
            WalkFrom(m, addr, base, i) ==
              if at >= m.memsz then 0
              else
                var ptd := m.words[at / 8];
                if ptd % 2 == 0 then 0
                else if ptd / 2 % 2 == 1 then WalkFrom(m, addr, PageBase(ptd), i + 1)
                else Leaf(m.memsz, ptd, addr, i)
  {
    hide TableIndex, PageBase, Leaf;
  }

  lemma {:induction false} PathWalks(m: Machine, addr: u64, base: nat, i: nat, level: nat, entry: nat)
    requires m.memsz == 8 * |m.words| && i <= level < 3 && EndsAt(m, addr, base, i, level, entry)
    ensures entry < 0x1_0000_0000_0000_0000
    ensures WalkFrom(m, addr, base, i) == Leaf(m.memsz, entry, addr, level)
    decreases level - i
  {
    hide *;
    PathStep(m, addr, base, i, level, entry);
    WalkStep(m, addr, base, i);
    if i < level {
      PathWalks(m, addr, PageBase(m.words[(base + TableIndex(addr, i) * 8) / 8]), i + 1, level, entry);
    }
  }

  lemma {:induction false} WalkHasPath(m: Machine, addr: u64, base: nat, i: nat) returns (level: nat, entry: nat)
    requires m.memsz == 8 * |m.words| && i <= 3 && WalkFrom(m, addr, base, i) != 0
    ensures i <= level < 3 && EndsAt(m, addr, base, i, level, entry)
    decreases 3 - i
  {
    WalkEnds(m, addr, base);
    hide *;
    WalkStep(m, addr, base, i);
    var ptd := m.words[(base + TableIndex(addr, i) * 8) / 8];
    if ptd / 2 % 2 == 0 {
      level, entry := i, ptd;
    } else {
      level, entry := WalkHasPath(m, addr, PageBase(ptd), i + 1);
    }
    PathStep(m, addr, base, i, level, entry);
  }

  lemma WalkEnds(m: Machine, addr: u64, base: nat)
    requires m.memsz == 8 * |m.words|
    ensures WalkFrom(m, addr, base, 3) == 0
  {
  }

  // --- Translation ---

  /** The address is a 43-bit number, sign-extended. */
  predicate SignExtended(addr: u64) {
    addr < 0x400_0000_0000 || addr >= 0xFFFF_FC00_0000_0000
  }

  lemma SignExtendedIs(addr: u64)
    ensures SignExtended(addr) <==> Canonical(addr)
  {
    CanonicalPage(addr);
  }

  /** The flags of an entry: valid, and from bit 3 up read, write and execute for users, then for supervisors. */
  predicate Allows(entry: nat, supervisor: bool, store: bool, fetch: bool) {
    var rights := entry / (if supervisor then 0x40 else 8) % 8;
    entry % 2 == 1 && rights / (if fetch then 4 else if store then 2 else 1) % 2 == 1
  }

  lemma AllowsIs(m: Machine, entry: nat, store: bool, fetch: bool)
    requires m.hasProc
    ensures Permitted(m, entry, store, fetch) <==> Allows(entry, m.sr % 2 == 1, store, fetch)
  {
    var w := if m.sr % 2 == 1 then 0x40 else 8;
    var x := entry / w;
    Shifted(x, x / 8, x % 8);
    QuotientChain(entry, w);
  }

  /** With translation on, an access that ends at an entry is allowed exactly when the entry permits it and
      its frame is in memory; it then reaches the byte of that frame that addr names. */
  lemma EntryTranslates(m: Machine, addr: u64, bytes: nat, store: bool, fetch: bool, level: nat, entry: nat)
    requires m.Valid() && m.hasProc && m.sr / 0x80 % 2 == 1 && bytes > 0 && addr % bytes == 0 && SignExtended(addr)
    requires level < 3 && EndsAt(m, addr, m.ptbr, 0, level, entry)
    ensures var frame := Frame(entry, addr, level);
            if Allows(entry, m.sr % 2 == 1, store, fetch) && frame * 0x2000 < m.memsz
            then Uncached(m, addr, bytes, store, fetch) == Physical(frame * 0x2000 + addr % 0x2000)
            else Uncached(m, addr, bytes, store, fetch).Fault?
  {
    hide *;
    AllowsIs(m, entry, store, fetch);
    SignExtendedIs(addr);
    UncachedWalks(m, addr, bytes, store, fetch);
    PathWalks(m, addr, m.ptbr, 0, level, entry);
    LeafFrame(m.memsz, entry, addr, level);
    SameFlags(m, Frame(entry, addr, level), entry, store, fetch);
    NothingPermitted(m, store, fetch);
  }

  lemma UncachedWalks(m: Machine, addr: u64, bytes: nat, store: bool, fetch: bool)
    requires m.Valid() && m.hasProc && m.sr / 0x80 % 2 == 1 && bytes > 0 && addr % bytes == 0 && Canonical(addr)
    ensures m.memsz == 8 * |m.words|
    ensures var pte := WalkFrom(m, addr, m.ptbr, 0);
            if Permitted(m, pte, store, fetch) then
              Uncached(m, addr, bytes, store, fetch) == Physical(PageBase(pte) + addr % 0x2000)
            else Uncached(m, addr, bytes, store, fetch).Fault?
  {
    hide WalkFrom, Permitted, Canonical, PageBase;
  }

  lemma NothingPermitted(m: Machine, store: bool, fetch: bool)
    ensures !Permitted(m, 0, store, fetch)
  {
  }

  /** When the entry's page base is a multiple of its span, as a superpage's should be, every byte of the
      span goes to the byte as far into the superpage. */
  lemma SuperpageTranslates(m: Machine, addr: u64, bytes: nat, store: bool, fetch: bool, level: nat, entry: nat)
    requires m.Valid() && m.hasProc && m.sr / 0x80 % 2 == 1 && bytes > 0 && addr % bytes == 0 && SignExtended(addr)
    requires level < 3 && EndsAt(m, addr, m.ptbr, 0, level, entry)
    requires (entry - entry % 0x2000) % Span(level) == 0 && Allows(entry, m.sr % 2 == 1, store, fetch)
    requires entry - entry % 0x2000 + addr % Span(level) < m.memsz
    ensures Uncached(m, addr, bytes, store, fetch) == Physical(entry - entry % 0x2000 + addr % Span(level))
  {
    hide *;
    EntryTranslates(m, addr, bytes, store, fetch, level, entry);
    AlignedFrame(entry, addr, level);
  }

  lemma AlignedFrame(entry: nat, addr: u64, level: nat)
    requires level < 3 && (entry - entry % 0x2000) % Span(level) == 0
    ensures Frame(entry, addr, level) * 0x2000 + addr % 0x2000 == entry - entry % 0x2000 + addr % Span(level)
    ensures Frame(entry, addr, level) * 0x2000 <= entry - entry % 0x2000 + addr % Span(level)
  {
    hide *;
    SpansAre();
    var k: nat := 20 - 10 * level;
    var p, base, o := Exp2(k), entry - entry % 0x2000, addr % Span(level);
    SpanIs(level);
    Exp2Add(k, 13);
    var t, v := base / Span(level), o / 0x2000;
    assert base == t * Span(level);
    assert entry / 0x2000 == t * p by { TopOf(entry, base, t, p, Span(level)); }
    assert v < p by { PartBelow(o, v, p, Span(level)); }
    OrDisjoint(t, v, k);
    FrameIs(entry, addr, level);
    OffsetIn(addr, o, Span(level), p);
    JoinParts(t, v, p, Span(level), base, o);
  }

  lemma SpanIs(level: nat)
    requires level < 3
    ensures Span(level) == Exp2(33 - 10 * level)
  {
  }

  lemma TopOf(entry: nat, base: nat, t: nat, p: nat, span: nat)
    requires base == entry - entry % 0x2000 && base == t * span && span == p * 0x2000
    ensures entry / 0x2000 == t * p
  {
    assert t * span == t * p * 0x2000;
    hide *;
    Euclid(entry, 0x2000, t * p, entry % 0x2000);
  }

  lemma PartBelow(o: nat, v: nat, p: nat, span: nat)
    requires o < span && v == o / 0x2000 && span == p * 0x2000
    ensures v < p
  {
  }

  lemma OffsetIn(addr: u64, o: nat, span: nat, p: nat)
    requires p > 0 && span == p * 0x2000 && o == addr % span
    ensures o % 0x2000 == addr % 0x2000
  {
    hide *;
    var q := addr / span;
    assert addr == q * span + o;
    assert q * span == q * p * 0x2000 by { Flatten(q, p, span); }
    Euclid(addr, 0x2000, q * p + o / 0x2000, o % 0x2000);
  }

  lemma Flatten(q: int, p: int, span: int)
    requires span == p * 0x2000
    ensures q * span == q * p * 0x2000
  {
  }

  lemma JoinParts(t: nat, v: nat, p: nat, span: nat, base: nat, o: nat)
    requires span == p * 0x2000 && base == t * span && v == o / 0x2000
    ensures (t * p + v) * 0x2000 + o % 0x2000 == base + o
  {
    Flatten(t, p, span);
  }

  /** Without a path to an entry, or off the sign-extended range, the access faults. */
  lemma NoPathFaults(m: Machine, addr: u64, bytes: nat, store: bool, fetch: bool)
    requires m.Valid() && m.hasProc && m.sr / 0x80 % 2 == 1 && bytes > 0
    requires SignExtended(addr) ==>
               forall level, entry: nat :: 0 <= level < 3 ==> !EndsAt(m, addr, m.ptbr, 0, level, entry)
    ensures Uncached(m, addr, bytes, store, fetch).Fault?
  {
    hide EndsAt, WalkFrom, Permitted, SignExtended, Canonical;
    SignExtendedIs(addr);
    NothingPermitted(m, store, fetch);
    if SignExtended(addr) && WalkFrom(m, addr, m.ptbr, 0) != 0 {
      var level, entry := WalkHasPath(m, addr, m.ptbr, 0);
      assert false;
    }
  }

  /** With translation off, or for the debugger, addresses in memory are their own. */
  lemma IdentityTranslates(m: Machine, addr: u64, bytes: nat, store: bool, fetch: bool)
    requires m.Valid() && (!m.hasProc || m.sr / 0x80 % 2 == 0) && bytes > 0 && addr % bytes == 0
    ensures if SignExtended(addr) && addr < m.memsz then Uncached(m, addr, bytes, store, fetch) == Physical(addr)
            else Uncached(m, addr, bytes, store, fetch).Fault?
  {
    hide Permitted, SignExtended, Canonical;
    SignExtendedIs(addr);
    NothingPermitted(m, store, fetch);
    IdentityEntry(m, addr, store, fetch);
  }

  lemma IdentityEntry(m: Machine, addr: u64, store: bool, fetch: bool)
    ensures var e := 0x1F9 + PageBase(addr);
            Permitted(m, e, store, fetch) && PageBase(e) + addr % 0x2000 == addr
  {
    SameFlags(m, addr / 0x2000, 0x1F9, store, fetch);
    assert Permitted(m, 0x1F9, store, fetch);
    hide Permitted;
  }

  /** Every fault names the address, misalignment first, and tells fetches from stores from loads; of an
      access that is both, a misaligned one is reported as the store, any other as the fetch. */
  lemma FaultTells(m: Machine, addr: u64, bytes: nat, store: bool, fetch: bool)
    requires m.Valid() && bytes > 0 && Uncached(m, addr, bytes, store, fetch).Fault?
    ensures var t := Uncached(m, addr, bytes, store, fetch).trap;
            && t.addr == addr
            && (addr % bytes != 0 <==> t.StoreMisaligned? || t.InstructionMisaligned? || t.LoadMisaligned?)
            && (t.StoreMisaligned? ==> store) && (t.InstructionMisaligned? ==> fetch && !store)
            && (t.LoadMisaligned? ==> !fetch && !store)
            && (t.InstructionAccessFault? ==> fetch) && (t.StoreAccessFault? ==> store && !fetch)
            && (t.LoadAccessFault? ==> !fetch && !store)
  {
    hide Walk, Permitted;
  }

  // --- STATUS ---

  /** Interrupts pending stay, the writable bits are as written, EA only with an accelerator, the rest zero. */
  lemma StatusBits(sr: u32, value: u32, hasExt: bool)
    ensures var r := NewStatus(sr, value, hasExt);
            && r / 0x100_0000 == sr / 0x100_0000 && r / 0x1_0000 % 0x100 == value / 0x1_0000 % 0x100
            && r / 0x200 % 0x80 == 0 && r % 0x100 == value % 0x100
            && (r / 0x100 % 2 == 1 <==> hasExt && value / 0x100 % 2 == 1)
  {
    var low, ea := value % 0x100, if hasExt then value / 0x100 % 2 else 0;
    var im, ip := value / 0x1_0000 % 0x100, sr / 0x100_0000;
    assert NewStatus(sr, value, hasExt) == low + ea * 0x100 + im * 0x1_0000 + ip * 0x100_0000;
    StatusFields(low, ea, im, ip);
  }

  lemma StatusFields(low: nat, ea: nat, im: nat, ip: nat)
    requires low < 0x100 && ea < 2 && im < 0x100
    ensures var r := low + ea * 0x100 + im * 0x1_0000 + ip * 0x100_0000;
            && r / 0x100_0000 == ip && r / 0x1_0000 % 0x100 == im && r / 0x200 % 0x80 == 0
            && r % 0x100 == low && r / 0x100 % 2 == ea
  {
    hide *;
    var r := low + ea * 0x100 + im * 0x1_0000 + ip * 0x100_0000;
    Euclid(r, 0x100_0000, ip, low + ea * 0x100 + im * 0x1_0000);
    Euclid(r, 0x1_0000, ip * 0x100 + im, low + ea * 0x100);
    Euclid(ip * 0x100 + im, 0x100, ip, im);
    Euclid(r, 0x200, ip * 0x8000 + im * 0x80, low + ea * 0x100);
    Euclid(ip * 0x8000 + im * 0x80, 0x80, ip * 0x100 + im, 0);
    Euclid(r, 0x100, ip * 0x1_0000 + im * 0x100 + ea, low);
    Euclid(ip * 0x1_0000 + im * 0x100 + ea, 2, ip * 0x8000 + im * 0x80, ea);
  }

  /** Pages closer than 256 to each other have TLB entries of their own. */
  lemma NoConflict(a: u64, b: u64)
    requires a / 0x2000 < b / 0x2000 < a / 0x2000 + 256
    ensures TlbIndex(a) != TlbIndex(b)
  {
  }
}
