/** Address translation: the page walk, the permission check, and the TLB in front of them. */
module Tlb {
  import opened Words

  const TLB_ENTRIES := 256
  const ICACHE_ENTRIES := 1024
  const NO_TAG: u64 := 0xFFFF_FFFF_FFFF_FFFF

  datatype Trap =
    | InstructionMisaligned(addr: u64) | LoadMisaligned(addr: u64) | StoreMisaligned(addr: u64)
    | InstructionAccessFault(addr: u64) | LoadAccessFault(addr: u64) | StoreAccessFault(addr: u64)

  datatype Result = Physical(paddr: int) | Fault(trap: Trap)

  /** What translation depends on: physical memory by words, the page-table base, and of STATUS the
      supervisor and virtual-memory bits. The debugger's port has no processor. */
  datatype Machine = Machine(memsz: nat, words: seq<u64>, hasProc: bool, sr: u32, ptbr: u64) {
    /** Memory is sized in megabytes; PTBR is written page-aligned. */
    ghost predicate Valid() {
      memsz % 0x10_0000 == 0 && memsz == 8 * |words| && ptbr % 0x2000 == 0
    }

    predicate Supervisor() {
      !hasProc || sr % 2 == 1
    }

    predicate Translates() {
      hasProc && sr / 0x80 % 2 == 1
    }
  }

  // --- The walk ---

  predicate Canonical(addr: u64) {
    var low := addr % 0x800_0000_0000;
    addr == if low >= 0x400_0000_0000 then low + 0xFFFF_F800_0000_0000 else low
  }

  /** 2^(PGSHIFT + ptshift), the bytes one entry of level i maps. */
  function EntrySpan(i: nat): nat {
    if i == 0 then 0x2_0000_0000 else if i == 1 then 0x80_0000 else 0x2000
  }

  function TableIndex(addr: u64, i: nat): nat {
    addr / EntrySpan(i) % 0x400
  }

  function PageBase(pte: nat): nat {
    pte / 0x2000 * 0x2000
  }

  /** A leaf of a larger page, as if it mapped only addr's page; zero if that lies outside memory. */
  function Leaf(memsz: nat, ptd: u64, addr: u64, i: nat): nat {
    var pte := BitOr(ptd, addr / 0x2000 % (EntrySpan(i) / 0x2000) * 0x2000);
    if PageBase(pte) < memsz then pte else 0
  }

  function WalkFrom(m: Machine, addr: u64, base: nat, i: nat): (pte: nat)
    requires m.memsz == 8 * |m.words|
    decreases 3 - i
  {
    var pteAddr := base + TableIndex(addr, i) * 8;
    if i >= 3 || pteAddr >= m.memsz then 0
    else
      var ptd := m.words[pteAddr / 8];
      if ptd % 2 == 0 then 0
      else if ptd / 2 % 2 == 1 then WalkFrom(m, addr, PageBase(ptd), i + 1)
      else Leaf(m.memsz, ptd, addr, i)
  }

  /** The page-table words that walk reads. */
  ghost function ReadsFrom(m: Machine, addr: u64, base: nat, i: nat): set<nat>
    requires m.memsz == 8 * |m.words|
    decreases 3 - i
  {
    var pteAddr := base + TableIndex(addr, i) * 8;
    if i >= 3 || pteAddr >= m.memsz then {}
    else
      var ptd := m.words[pteAddr / 8];
      {pteAddr / 8} + if ptd % 2 == 1 && ptd / 2 % 2 == 1 then ReadsFrom(m, addr, PageBase(ptd), i + 1) else {}
  }

  /** The entry for addr's page: identity-mapped with every permission while translation is off. */
  function Walk(m: Machine, addr: u64): (pte: nat)
    requires m.Valid()
  {
    if !Canonical(addr) then 0
    else if !m.Translates() then if addr < m.memsz then 0x1F9 + PageBase(addr) else 0
    else WalkFrom(m, addr, m.ptbr, 0)
  }

  ghost predicate TableWord(m: Machine, k: nat)
    requires m.memsz == 8 * |m.words|
  {
    m.Translates() && exists addr: u64 :: k in ReadsFrom(m, addr, m.ptbr, 0)
  }

  // --- Permission, and translation without a TLB ---

  predicate HasBit(x: nat, weight: nat)
    requires weight > 0
  {
    x / weight % 2 == 1
  }

  /** The valid bit and the bit for this access at the current privilege. */
  predicate Permitted(m: Machine, pte: nat, store: bool, fetch: bool) {
    HasBit(pte, 1) &&
    if m.Supervisor() then HasBit(pte, if fetch then 0x100 else if store then 0x80 else 0x40)
    else HasBit(pte, if fetch then 0x20 else if store then 0x10 else 8)
  }

  function Misaligned(addr: u64, store: bool, fetch: bool): Result {
    Fault(if store then StoreMisaligned(addr) else if fetch then InstructionMisaligned(addr) else LoadMisaligned(addr))
  }

  function AccessFault(addr: u64, store: bool, fetch: bool): Result {
    Fault(if fetch then InstructionAccessFault(addr) else if store then StoreAccessFault(addr)
        else LoadAccessFault(addr))
  }

  /** What translation means: a fresh walk and a permission check. */
  function Uncached(m: Machine, addr: u64, bytes: nat, store: bool, fetch: bool): Result
    requires m.Valid() && bytes > 0
  {
    if addr % bytes != 0 then Misaligned(addr, store, fetch)
    else
      var pte := Walk(m, addr);
      if Permitted(m, pte, store, fetch) then Physical(PageBase(pte) + addr % 0x2000)
      else AccessFault(addr, store, fetch)
  }

  // --- The walk depends on the page alone ---

  lemma SamePage(a: u64, b: u64, i: nat)
    requires a / 0x2000 == b / 0x2000
    ensures TableIndex(a, i) == TableIndex(b, i) && (Canonical(a) <==> Canonical(b)) && PageBase(a) == PageBase(b)
  {
    CoarserQuotient(a, 0x100_0000);
    CoarserQuotient(b, 0x100_0000);
    CoarserQuotient(a, 0x10_0000);
    CoarserQuotient(b, 0x10_0000);
    CoarserQuotient(a, 0x400);
    CoarserQuotient(b, 0x400);
    CanonicalPage(a);
    CanonicalPage(b);
  }

  lemma CoarserQuotient(a: nat, k: nat)
    requires k == 0x100_0000 || k == 0x10_0000 || k == 0x400
    ensures a / 0x2000 / k == a / (0x2000 * k)
  {
    if k == 0x100_0000 {
      assert a / 0x2000 / 0x100_0000 == a / 0x20_0000_0000;
    } else if k == 0x10_0000 {
      assert a / 0x2000 / 0x10_0000 == a / 0x2_0000_0000;
    } else {
      assert a / 0x2000 / 0x400 == a / 0x80_0000;
    }
  }

  lemma CanonicalPage(a: u64)
    ensures Canonical(a) <==> a / 0x2000 < 0x2000_0000 || a / 0x2000 >= 0x7_FFFF_E000_0000
  {
    assert Canonical(a) <==> a < 0x400_0000_0000 || a >= 0xFFFF_FC00_0000_0000;
  }

  lemma {:induction false} WalkFromSamePage(m: Machine, a: u64, b: u64, base: nat, i: nat)
    requires m.memsz == 8 * |m.words| && a / 0x2000 == b / 0x2000
    ensures WalkFrom(m, a, base, i) == WalkFrom(m, b, base, i)
    decreases 3 - i
  {
    hide TableIndex, BitOr, Leaf;
    SamePage(a, b, i);
    if i < 3 && base + TableIndex(a, i) * 8 < m.memsz {
      var ptd := m.words[(base + TableIndex(a, i) * 8) / 8];
      SameLeaf(m.memsz, ptd, a, b, i);
      WalkFromSamePage(m, a, b, PageBase(ptd), i + 1);
    }
  }

  lemma SameLeaf(memsz: nat, ptd: u64, a: u64, b: u64, i: nat)
    requires a / 0x2000 == b / 0x2000
    ensures Leaf(memsz, ptd, a, i) == Leaf(memsz, ptd, b, i)
  {
    hide BitOr;
  }

  lemma WalkSamePage(m: Machine, a: u64, b: u64)
    requires m.Valid() && a / 0x2000 == b / 0x2000
    ensures Walk(m, a) == Walk(m, b)
  {
    hide WalkFrom, Canonical, TableIndex;
    SamePage(a, b, 0);
    WalkFromSamePage(m, a, b, m.ptbr, 0);
    PageInMemory(m, a, b);
  }

  /** Memory ends on a page boundary, so a page is inside it or outside, never across. */
  lemma PageInMemory(m: Machine, a: u64, b: u64)
    requires m.Valid() && a / 0x2000 == b / 0x2000
    ensures a < m.memsz <==> b < m.memsz
  {
    WholePages(m.memsz);
    BelowPages(a, m.memsz / 0x2000);
    BelowPages(b, m.memsz / 0x2000);
  }

  lemma WholePages(memsz: nat)
    requires memsz % 0x10_0000 == 0
    ensures memsz == 0x2000 * (memsz / 0x2000)
  {
    var n := memsz / 0x10_0000;
    assert memsz == 0x80 * n * 0x2000;
    hide *;
    Euclid(memsz, 0x2000, 0x80 * n, 0);
  }

  lemma BelowPages(a: nat, pages: nat)
    ensures a < 0x2000 * pages <==> a / 0x2000 < pages
  {
  }

  // --- Every physical address lies inside memory ---

  lemma {:induction false} WalkFromInMemory(m: Machine, addr: u64, base: nat, i: nat)
    requires m.memsz == 8 * |m.words|
    ensures var pte := WalkFrom(m, addr, base, i); pte == 0 || PageBase(pte) < m.memsz
    decreases 3 - i
  {
    hide TableIndex, BitOr;
    if i < 3 && base + TableIndex(addr, i) * 8 < m.memsz {
      var ptd := m.words[(base + TableIndex(addr, i) * 8) / 8];
      WalkFromInMemory(m, addr, PageBase(ptd), i + 1);
    }
  }

  lemma UncachedInMemory(m: Machine, addr: u64, bytes: nat, store: bool, fetch: bool)
    requires m.Valid() && bytes in {1, 2, 4, 8}
    ensures var r := Uncached(m, addr, bytes, store, fetch); r.Physical? ==> 0 <= r.paddr && r.paddr + bytes <= m.memsz
  {
    hide WalkFrom, Canonical;
    var pte := Walk(m, addr);
    WalkFromInMemory(m, addr, m.ptbr, 0);
    if addr % bytes == 0 && pte != 0 {
      IdentityBase(addr);
      AlignedFits(m.memsz, PageBase(pte), addr, bytes);
    }
  }

  lemma IdentityBase(addr: u64)
    ensures PageBase(0x1F9 + PageBase(addr)) == PageBase(addr) <= addr
  {
  }

  lemma AlignedFits(memsz: nat, base: nat, addr: u64, bytes: nat)
    requires bytes in {1, 2, 4, 8} && addr % bytes == 0
    requires memsz % 0x10_0000 == 0 && base % 0x2000 == 0 && base < memsz
    ensures base + addr % 0x2000 + bytes <= memsz
  {
    WholePages(memsz);
    RoomInPage(addr, bytes);
    hide *;
    var pages, k := memsz / 0x2000, base / 0x2000;
    assert base == 0x2000 * k;
    BelowPages(base, pages);
  }

  lemma RoomInPage(addr: u64, bytes: nat)
    requires bytes in {1, 2, 4, 8} && addr % bytes == 0
    ensures addr % 0x2000 + bytes <= 0x2000
  {
    hide *;
    if bytes == 2 {
      Room(addr, 2, addr / 2, 0x1000);
    } else if bytes == 4 {
      Room(addr, 4, addr / 4, 0x800);
    } else if bytes == 8 {
      Room(addr, 8, addr / 8, 0x400);
    }
  }

  /** Both addr and the page are whole numbers of accesses. */
  lemma Room(addr: nat, bytes: nat, t: nat, perPage: nat)
    requires bytes > 0 && addr == bytes * t && 0x2000 == bytes * perPage
    ensures addr % 0x2000 + bytes <= 0x2000
  {
    hide *;
    var q, r := addr / 0x2000, addr % 0x2000;
    var z := t - perPage * q;
    assert r == bytes * z by { Distribute3(bytes, t, perPage, q); }
    if z >= perPage {
      Larger(bytes, perPage, z);
    } else {
      Larger(bytes, z + 1, perPage);
    }
  }

  lemma Distribute3(b: int, t: int, p: int, q: int)
    ensures b * (t - p * q) == b * t - b * p * q && b * (t + 1) == b * t + b
  {
  }

  lemma Larger(b: int, x: int, y: int)
    requires b > 0 && x <= y
    ensures b * x <= b * y && b * x == b * (x - 1) + b
  {
  }

  // --- Stores elsewhere leave every walk alone ---

  lemma {:induction false} WalkFramed(m: Machine, n: Machine, addr: u64, base: nat, i: nat)
    requires m.memsz == n.memsz == 8 * |m.words| && |n.words| == |m.words|
    requires forall k :: k in ReadsFrom(m, addr, base, i) && k < |m.words| ==> n.words[k] == m.words[k]
    ensures WalkFrom(n, addr, base, i) == WalkFrom(m, addr, base, i)
    ensures ReadsFrom(n, addr, base, i) == ReadsFrom(m, addr, base, i)
    decreases 3 - i
  {
    hide TableIndex, BitOr, Leaf;
    var pteAddr := base + TableIndex(addr, i) * 8;
    if i < 3 && pteAddr < m.memsz {
      assert pteAddr / 8 in ReadsFrom(m, addr, base, i);
      var ptd := m.words[pteAddr / 8];
      if ptd % 2 == 1 && ptd / 2 % 2 == 1 {
        WalkFramed(m, n, addr, PageBase(ptd), i + 1);
      }
    }
  }

  lemma StoreFrames(m: Machine, k: nat, value: u64, addr: u64)
    requires m.Valid() && k < |m.words| && !TableWord(m, k)
    ensures var n := m.(words := m.words[k := value]); n.Valid() && Walk(n, addr) == Walk(m, addr)
  {
    hide WalkFrom, ReadsFrom, Canonical;
    var n := m.(words := m.words[k := value]);
    if m.Translates() {
      assert k !in ReadsFrom(m, addr, m.ptbr, 0);
      WalkFramed(m, n, addr, m.ptbr, 0);
    }
  }

  // --- Permission bits as the refill computes them ---

  /** pte_perm: the six permission bits, the supervisor's moved onto the user's, and the valid bit. */
  function PermissionBits(supervisor: bool, pte: nat): nat {
    var perm := pte / 8 % 0x40 * 8;
    (if supervisor then perm / 8 / 8 % 0x40 * 8 else perm) + pte % 2
  }

  lemma PermissionIs(m: Machine, pte: nat, store: bool, fetch: bool)
    ensures var perm := PermissionBits(m.Supervisor(), pte);
            Permitted(m, pte, store, fetch)
            <==> HasBit(perm, 1) && HasBit(perm, if fetch then 0x20 else if store then 0x10 else 8)
  {
    var w := if fetch then 0x20 else if store then 0x10 else 8;
    PermissionField(m.Supervisor(), pte);
  }

  lemma PermissionField(supervisor: bool, pte: nat)
    ensures var perm := PermissionBits(supervisor, pte);
            && (HasBit(perm, 1) <==> HasBit(pte, 1))
            && (HasBit(perm, 8) <==> HasBit(pte, if supervisor then 0x40 else 8))
            && (HasBit(perm, 0x10) <==> HasBit(pte, if supervisor then 0x80 else 0x10))
            && (HasBit(perm, 0x20) <==> HasBit(pte, if supervisor then 0x100 else 0x20))
  {
    var q, field, low := pte / 0x200, pte / 8 % 0x40, pte % 8;
    SplitEntry(pte, q, field, low);
    hide *;
    PermissionBitsIs(supervisor, pte, q, field, low);
    var perm := PermissionBits(supervisor, pte);
    if supervisor {
      FieldBits(perm, field / 8, low % 2, pte / 0x40, q);
      QuotientChain(pte, 0x40);
    } else {
      FieldBits(perm, field, low % 2, pte / 8, 8 * q);
      QuotientChain(pte, 8);
    }
    HasBitIs(perm, pte);
  }

  lemma SplitEntry(pte: nat, q: nat, field: nat, low: nat)
    requires q == pte / 0x200 && field == pte / 8 % 0x40 && low == pte % 8
    ensures pte == 0x200 * q + 8 * field + low
  {
    assert pte / 8 / 0x40 == pte / 0x200;
  }

  lemma PermissionBitsIs(supervisor: bool, pte: nat, q: nat, field: nat, low: nat)
    requires pte == 0x200 * q + 8 * field + low && field < 0x40 && low < 8
    ensures PermissionBits(supervisor, pte) == 8 * (if supervisor then field / 8 else field) + low % 2
    ensures pte / 8 == 8 * (8 * q) + field && pte / 0x40 == 8 * q + field / 8 && pte % 2 == low % 2
  {
    hide *;
    Euclid(pte, 8, 0x40 * q + field, low);
    Euclid(0x40 * q + field, 0x40, q, field);
    Euclid(8 * field, 8, field, 0);
    Euclid(field / 8, 0x40, 0, field / 8);
    Euclid(pte, 0x40, 8 * q + field / 8, 8 * (field % 8) + low);
    Euclid(pte, 2, 0x100 * q + 4 * field + low / 2, low % 2);
    PermissionBitsAre(supervisor, pte, 8 * field);
  }

  lemma PermissionBitsAre(supervisor: bool, pte: nat, perm: nat)
    requires perm == pte / 8 % 0x40 * 8
    ensures PermissionBits(supervisor, pte) == (if supervisor then perm / 8 / 8 % 0x40 * 8 else perm) + pte % 2
  {
  }

  lemma QuotientChain(x: nat, w: nat)
    requires w == 8 || w == 0x40
    ensures x / w / 2 == x / (2 * w) && x / w / 4 == x / (4 * w)
  {
  }

  lemma FieldBits(perm: nat, g: nat, v: nat, x: nat, c: nat)
    requires perm == 8 * g + v && v <= 1 && x == 8 * c + g
    ensures perm % 2 == v && perm / 8 % 2 == x % 2
    ensures perm / 0x10 % 2 == x / 2 % 2 && perm / 0x20 % 2 == x / 4 % 2
  {
    hide *;
    Euclid(perm, 8, g, v);
    Euclid(perm, 2, 4 * g, v);
    QuotientChain(perm, 8);
    Shifted(x, c, g);
  }

  lemma Shifted(x: nat, c: nat, g: nat)
    requires x == 8 * c + g
    ensures x % 2 == g % 2 && x / 2 % 2 == g / 2 % 2 && x / 4 % 2 == g / 4 % 2
  {
    hide *;
    Euclid(x, 2, 4 * c + g / 2, g % 2);
    Euclid(x, 4, 2 * c + g / 4, g % 4);
    Euclid(4 * c + g / 2, 2, 2 * c + g / 2 / 2, g / 2 % 2);
    Euclid(2 * c + g / 4, 2, c + g / 4 / 2, g / 4 % 2);
  }

  lemma HasBitIs(x: nat, y: nat)
    ensures HasBit(x, 1) == (x % 2 == 1) && HasBit(x, 8) == (x / 8 % 2 == 1)
    ensures HasBit(x, 0x10) == (x / 0x10 % 2 == 1) && HasBit(x, 0x20) == (x / 0x20 % 2 == 1)
    ensures HasBit(y, 1) == (y % 2 == 1) && HasBit(y, 8) == (y / 8 % 2 == 1) && HasBit(y, 0x10) == (y / 0x10 % 2 == 1)
    ensures HasBit(y, 0x20) == (y / 0x20 % 2 == 1) && HasBit(y, 0x40) == (y / 0x40 % 2 == 1)
    ensures HasBit(y, 0x80) == (y / 0x80 % 2 == 1) && HasBit(y, 0x100) == (y / 0x100 % 2 == 1)
  {
  }

  // --- The machine with its TLB ---

  /** A tag is good for an access when a walk of its page allows the access and ends where data points. */
  ghost predicate EntryOk(m: Machine, tag: u64, data: int, store: bool, fetch: bool)
    requires m.Valid()
  {
    tag != NO_TAG ==>
      && tag < 0x8_0000_0000_0000
      && var pte := Walk(m, tag * 0x2000); Permitted(m, pte, store, fetch) && data == PageBase(pte) - tag * 0x2000
  }

  lemma PageOf(addr: u64)
    ensures addr / 0x2000 < 0x8_0000_0000_0000 && addr / 0x2000 != NO_TAG
    ensures addr / 0x2000 * 0x2000 / 0x2000 == addr / 0x2000 && addr / 0x2000 * 0x2000 + addr % 0x2000 == addr
    ensures addr / 0x2000 * 0x2000 < 0x1_0000_0000_0000_0000
  {
  }

  /** A hit answers as a walk would. */
  lemma HitIsUncached(m: Machine, addr: u64, bytes: nat, store: bool, fetch: bool, data: int)
    requires m.Valid() && bytes > 0 && addr % bytes == 0
    requires EntryOk(m, addr / 0x2000, data, store, fetch)
    ensures Uncached(m, addr, bytes, store, fetch) == Physical(data + addr)
  {
    PageOf(addr);
    WalkSamePage(m, addr, addr / 0x2000 * 0x2000);
    hide Walk, Permitted;
  }

  /** A walk justifies an entry for its whole page. */
  lemma WalkJustifies(m: Machine, addr: u64, store: bool, fetch: bool)
    requires m.Valid() && Permitted(m, Walk(m, addr), store, fetch)
    ensures EntryOk(m, addr / 0x2000, PageBase(Walk(m, addr)) - addr / 0x2000 * 0x2000, store, fetch)
  {
    PageOf(addr);
    WalkSamePage(m, addr, addr / 0x2000 * 0x2000);
    hide Walk, Permitted;
  }

  /** The three tag arrays and the data array they share. */
  datatype Entries = Entries(data: seq<int>, insn: seq<u64>, load: seq<u64>, store: seq<u64>) {
    ghost predicate Sized() {
      |data| == |insn| == |load| == |store| == TLB_ENTRIES
    }

    function Tag(i: nat, stores: bool, fetches: bool): u64
      requires i < |insn| && i < |load| && i < |store|
    {
      if fetches then insn[i] else if stores then store[i] else load[i]
    }

    predicate Hits(addr: u64, stores: bool, fetches: bool)
      requires |insn| == |load| == |store| == TLB_ENTRIES
    {
      Tag(TlbIndex(addr), stores, fetches) == addr / 0x2000
    }
  }

  function TlbIndex(addr: u64): (i: nat)
    ensures i < TLB_ENTRIES
  {
    addr / 0x2000 % TLB_ENTRIES
  }

  /** Every tag that could hit is good for the machine. */
  ghost predicate Good(m: Machine, c: Entries)
    requires m.Valid() && c.Sized()
  {
    forall i, store, fetch :: 0 <= i < TLB_ENTRIES ==> EntryOk(m, c.Tag(i, store, fetch), c.data[i], store, fetch)
  }

  /** No tag can hit. */
  ghost predicate NoTags(c: Entries)
    requires c.Sized()
  {
    forall i :: 0 <= i < TLB_ENTRIES ==> c.insn[i] == c.load[i] == c.store[i] == NO_TAG
  }

  lemma NoTagsGood(m: Machine, c: Entries)
    requires m.Valid() && c.Sized() && NoTags(c)
    ensures Good(m, c)
  {
    hide Walk, Permitted;
  }

  /** What a refill leaves: on success the page's entry, good for whatever its permissions allow. */
  function Filled(m: Machine, c: Entries, addr: u64, store: bool, fetch: bool, interested: bool): (r: Entries)
    requires m.Valid() && c.Sized()
    ensures r.Sized()
  {
    var pte, idx, tag := Walk(m, addr), TlbIndex(addr), addr / 0x2000;
    if interested || !Permitted(m, pte, store, fetch) then c
    else Entries(c.data[idx := PageBase(pte) - tag * 0x2000],
                 c.insn[idx := if Permitted(m, pte, false, true) then tag else NO_TAG],
                 c.load[idx := if Permitted(m, pte, false, false) then tag else NO_TAG],
                 c.store[idx := if Permitted(m, pte, true, false) then tag else NO_TAG])
  }

  lemma FilledTag(m: Machine, c: Entries, addr: u64, store: bool, fetch: bool, i: nat, store': bool, fetch': bool)
    requires m.Valid() && c.Sized() && i < TLB_ENTRIES && Permitted(m, Walk(m, addr), store, fetch)
    ensures var f := Filled(m, c, addr, store, fetch, false);
            if i == TlbIndex(addr) then
              && f.data[i] == PageBase(Walk(m, addr)) - addr / 0x2000 * 0x2000
              && f.Tag(i, store', fetch') == if Permitted(m, Walk(m, addr), store', fetch') then addr / 0x2000
                 else NO_TAG
            else f.data[i] == c.data[i] && f.Tag(i, store', fetch') == c.Tag(i, store', fetch')
  {
    FetchFirst(m, Walk(m, addr), store', fetch');
    hide Walk, Permitted, TlbIndex;
  }

  /** After a refill no tracer asked about, accesses to the page hit exactly when its entry permits them. */
  lemma FilledHits(m: Machine, c: Entries, addr: u64, store: bool, fetch: bool, other: u64, store': bool, fetch': bool)
    requires m.Valid() && c.Sized() && Permitted(m, Walk(m, addr), store, fetch) && other / 0x2000 == addr / 0x2000
    ensures Filled(m, c, addr, store, fetch, false).Hits(other, store', fetch')
      <==> Permitted(m, Walk(m, other), store', fetch')
  {
    PageOf(addr);
    WalkSamePage(m, addr, other);
    FilledTag(m, c, addr, store, fetch, TlbIndex(addr), store', fetch');
    hide Walk, Permitted, Filled;
  }

  /** A fetch is checked as a fetch whether or not it is also flagged a store. */
  lemma FetchFirst(m: Machine, pte: nat, store: bool, fetch: bool)
    ensures fetch ==> Permitted(m, pte, store, fetch) == Permitted(m, pte, false, true)
  {
    hide HasBit;
  }

  lemma FilledGood(m: Machine, c: Entries, addr: u64, store: bool, fetch: bool, interested: bool)
    requires m.Valid() && c.Sized() && Good(m, c)
    ensures Good(m, Filled(m, c, addr, store, fetch, interested))
  {
    hide Walk, Permitted, EntryOk, TlbIndex, Filled;
    FilledIs(m, c, addr, store, fetch, interested);
    var f := Filled(m, c, addr, store, fetch, interested);
    if !interested && Permitted(m, Walk(m, addr), store, fetch) {
      forall i, store', fetch' | 0 <= i < TLB_ENTRIES
        ensures EntryOk(m, f.Tag(i, store', fetch'), f.data[i], store', fetch')
      {
        FilledTag(m, c, addr, store, fetch, i, store', fetch');
        if i == TlbIndex(addr) {
          if Permitted(m, Walk(m, addr), store', fetch') {
            WalkJustifies(m, addr, store', fetch');
          } else {
            NoTagIsOk(m, f.data[i], store', fetch');
          }
        }
      }
    }
  }

  lemma FilledIs(m: Machine, c: Entries, addr: u64, store: bool, fetch: bool, interested: bool)
    requires m.Valid() && c.Sized()
    ensures interested || !Permitted(m, Walk(m, addr), store, fetch) ==>
      Filled(m, c, addr, store, fetch, interested) == c
    ensures !interested ==> Filled(m, c, addr, store, fetch, interested) == Filled(m, c, addr, store, fetch, false)
  {
    hide Walk, Permitted, TlbIndex;
  }

  lemma NoTagIsOk(m: Machine, data: int, store: bool, fetch: bool)
    requires m.Valid()
    ensures EntryOk(m, NO_TAG, data, store, fetch)
  {
    hide Walk, Permitted;
  }

  // --- What a change of PTBR or of the page tables does to the entries ---

  /** Whatever the first machine's tables permit, the second's permit at the same place. */
  ghost predicate TablesAgree(m: Machine, n: Machine)
    requires m.Valid() && n.Valid()
  {
    forall addr: u64, store, fetch :: Permitted(m, Walk(m, addr), store, fetch) ==>
      Permitted(n, Walk(n, addr), store, fetch) && PageBase(Walk(n, addr)) == PageBase(Walk(m, addr))
  }

  ghost predicate EntriesKept(m: Machine, n: Machine)
    requires m.Valid() && n.Valid()
  {
    forall tag: u64, data, store, fetch :: EntryOk(m, tag, data, store, fetch) ==> EntryOk(n, tag, data, store, fetch)
  }

  /** The exact condition, on the page tables alone, for every good entry to stay good. */
  lemma KeptExactly(m: Machine, n: Machine)
    requires m.Valid() && n.Valid()
    ensures TablesAgree(m, n) <==> EntriesKept(m, n)
  {
    hide Walk, Permitted, PageBase;
    if TablesAgree(m, n) {
      forall tag: u64, data, store, fetch | EntryOk(m, tag, data, store, fetch)
        ensures EntryOk(n, tag, data, store, fetch)
      {
        if tag != NO_TAG {
          assert Permitted(m, Walk(m, tag * 0x2000), store, fetch);
        }
      }
    }
    if EntriesKept(m, n) {
      forall addr: u64, store, fetch | Permitted(m, Walk(m, addr), store, fetch)
        ensures Permitted(n, Walk(n, addr), store, fetch) && PageBase(Walk(n, addr)) == PageBase(Walk(m, addr))
      {
        PageOf(addr);
        WalkJustifies(m, addr, store, fetch);
        assert EntryOk(n, addr / 0x2000, PageBase(Walk(m, addr)) - addr / 0x2000 * 0x2000, store, fetch);
        WalkSamePage(n, addr, addr / 0x2000 * 0x2000);
      }
    }
  }

  /** Every hit on entries good for m answers as a fresh walk of n would. */
  ghost predicate HitsAnswer(m: Machine, n: Machine)
    requires m.Valid() && n.Valid()
  {
    forall c: Entries, addr: u64, store, fetch :: c.Sized() && Good(m, c) && c.Hits(addr, store, fetch) ==>
      Uncached(n, addr, 1, store, fetch) == Physical(c.data[TlbIndex(addr)] + addr)
  }

  /** Under the same condition, and no weaker one, a TLB filled before the change answers rightly after it. */
  lemma HitsExactly(m: Machine, n: Machine)
    requires m.Valid() && n.Valid()
    ensures TablesAgree(m, n) <==> HitsAnswer(m, n)
  {
    hide Walk, Permitted, EntryOk, PageBase, TlbIndex, TablesAgree, Uncached;
    KeptExactly(m, n);
    if TablesAgree(m, n) {
      forall c: Entries, addr: u64, store, fetch | c.Sized() && Good(m, c) && c.Hits(addr, store, fetch)
        ensures Uncached(n, addr, 1, store, fetch) == Physical(c.data[TlbIndex(addr)] + addr)
      {
        assert EntryOk(m, c.Tag(TlbIndex(addr), store, fetch), c.data[TlbIndex(addr)], store, fetch);
        HitIsUncached(n, addr, 1, store, fetch, c.data[TlbIndex(addr)]);
      }
    }
    if HitsAnswer(m, n) {
      forall addr: u64, store, fetch | Permitted(m, Walk(m, addr), store, fetch)
        ensures Permitted(n, Walk(n, addr), store, fetch) && PageBase(Walk(n, addr)) == PageBase(Walk(m, addr))
      {
        var c := SingleEntry(m, addr, store, fetch);
        assert c.Hits(addr, store, fetch);
        UncachedPermits(n, addr, store, fetch, PageBase(Walk(m, addr)));
      }
      TablesAgreeIs(m, n);
    }
  }

  lemma TablesAgreeIs(m: Machine, n: Machine)
    requires m.Valid() && n.Valid()
    requires forall addr: u64, store, fetch :: Permitted(m, Walk(m, addr), store, fetch) ==>
               Permitted(n, Walk(n, addr), store, fetch) && PageBase(Walk(n, addr)) == PageBase(Walk(m, addr))
    ensures TablesAgree(m, n)
  {
  }

  /** Entries with nothing but addr's page in them. */
  lemma SingleEntry(m: Machine, addr: u64, store: bool, fetch: bool) returns (c: Entries)
    requires m.Valid() && Permitted(m, Walk(m, addr), store, fetch)
    ensures c.Sized() && Good(m, c) && c.Hits(addr, store, fetch)
    ensures c.data[TlbIndex(addr)] + addr == PageBase(Walk(m, addr)) + addr % 0x2000
  {
    hide Walk, Permitted, EntryOk, PageBase, Filled;
    var none := seq(TLB_ENTRIES, _ => NO_TAG);
    var empty := Entries(seq(TLB_ENTRIES, _ => 0), none, none, none);
    NoTagsGood(m, empty);
    FilledGood(m, empty, addr, store, fetch, false);
    c := Filled(m, empty, addr, store, fetch, false);
    FilledTag(m, empty, addr, store, fetch, TlbIndex(addr), store, fetch);
    PageOf(addr);
  }

  lemma UncachedPermits(n: Machine, addr: u64, store: bool, fetch: bool, base: int)
    requires n.Valid() && Uncached(n, addr, 1, store, fetch) == Physical(base + addr % 0x2000)
    ensures Permitted(n, Walk(n, addr), store, fetch) && PageBase(Walk(n, addr)) == base
  {
    hide Walk, Permitted;
  }

  lemma GoodKept(m: Machine, n: Machine, c: Entries)
    requires m.Valid() && n.Valid() && c.Sized() && Good(m, c) && TablesAgree(m, n)
    ensures Good(n, c)
  {
    hide EntryOk, TablesAgree;
    KeptExactly(m, n);
  }

  /** Without a page-table word changed, the tables agree. */
  lemma StoreAgrees(m: Machine, k: nat, value: u64)
    requires m.Valid() && k < |m.words| && !TableWord(m, k)
    ensures var n := m.(words := m.words[k := value]); n.Valid() && TablesAgree(m, n)
  {
    hide Walk, TableWord, HasBit, PageBase;
    var n := m.(words := m.words[k := value]);
    forall addr: u64 ensures Walk(n, addr) == Walk(m, addr) {
      StoreFrames(m, k, value, addr);
    }
  }

  class Mmu {
    const memsz: nat
    const hasProc: bool
    var words: seq<u64>
    var sr: u32
    var rv64: bool
    var ptbr: u64
    const tlbData: array<int>
    const tlbInsnTag: array<u64>
    const tlbLoadTag: array<u64>
    const tlbStoreTag: array<u64>
    const icacheTag: array<u64>

    function Abs(): Machine
      reads this
    {
      Machine(memsz, words, hasProc, sr, ptbr)
    }

    ghost predicate Valid()
      reads this
    {
      && Abs().Valid()
      && tlbData.Length == tlbInsnTag.Length == tlbLoadTag.Length == tlbStoreTag.Length == TLB_ENTRIES
      && icacheTag.Length == ICACHE_ENTRIES
      && tlbInsnTag != tlbLoadTag && tlbLoadTag != tlbStoreTag && tlbInsnTag != tlbStoreTag
      && icacheTag != tlbInsnTag && icacheTag != tlbLoadTag && icacheTag != tlbStoreTag
    }

    ghost function Cached(): (c: Entries)
      reads this, tlbData, tlbInsnTag, tlbLoadTag, tlbStoreTag
      ensures Valid() ==> c.Sized()
    {
      Entries(tlbData[..], tlbInsnTag[..], tlbLoadTag[..], tlbStoreTag[..])
    }

    /** Every tag that could hit is good for the machine as it is now. */
    ghost predicate Coherent()
      requires Valid()
      reads this, tlbData, tlbInsnTag, tlbLoadTag, tlbStoreTag
    {
      Good(Abs(), Cached())
    }

    /** Neither the TLB nor the instruction cache can hit. */
    ghost predicate Empty()
      requires Valid()
      reads this, tlbData, tlbInsnTag, tlbLoadTag, tlbStoreTag, icacheTag
    {
      NoTags(Cached()) && forall i :: 0 <= i < ICACHE_ENTRIES ==> icacheTag[i] == NO_TAG
    }

    /** A processor boots in supervisor mode, in 64 bits, with translation off. */
    constructor (megabytes: nat, hasProc: bool)
      ensures Valid() && Coherent() && Empty() && memsz == megabytes * 0x10_0000 && this.hasProc == hasProc
      ensures sr == 0x61 && rv64 && ptbr == 0 && words == seq(megabytes * 0x2_0000, _ => 0)
      ensures fresh(tlbData) && fresh(tlbInsnTag) && fresh(tlbLoadTag) && fresh(tlbStoreTag) && fresh(icacheTag)
    {
      memsz := megabytes * 0x10_0000;
      this.hasProc := hasProc;
      words := seq(megabytes * 0x2_0000, _ => 0);
      sr, rv64, ptbr := 0x61, true, 0;
      tlbData := new int[TLB_ENTRIES](_ => 0);
      tlbInsnTag := new u64[TLB_ENTRIES](_ => NO_TAG);
      tlbLoadTag := new u64[TLB_ENTRIES](_ => NO_TAG);
      tlbStoreTag := new u64[TLB_ENTRIES](_ => NO_TAG);
      icacheTag := new u64[ICACHE_ENTRIES](_ => NO_TAG);
      new;
      NoTagsGood(Abs(), Cached());
    }

    method FlushIcache()
      requires Valid()
      modifies icacheTag
      ensures Valid() && forall i :: 0 <= i < ICACHE_ENTRIES ==> icacheTag[i] == NO_TAG
    {
      forall i | 0 <= i < ICACHE_ENTRIES {
        icacheTag[i] := NO_TAG;
      }
    }

    method FlushTlb()
      requires Valid()
      modifies tlbInsnTag, tlbLoadTag, tlbStoreTag, icacheTag
      ensures Valid() && Coherent() && Empty()
    {
      hide EntryOk;
      forall i | 0 <= i < TLB_ENTRIES {
        tlbInsnTag[i] := NO_TAG;
      }
      forall i | 0 <= i < TLB_ENTRIES {
        tlbLoadTag[i] := NO_TAG;
      }
      forall i | 0 <= i < TLB_ENTRIES {
        tlbStoreTag[i] := NO_TAG;
      }
      FlushIcache();
      NoTagsGood(Abs(), Cached());
    }

    /** mmu_t::walk: one table level per turn, until a leaf, a fault, or the last level. */
    method WalkTables(addr: u64) returns (pte: nat)
      requires Valid()
      ensures pte == Walk(Abs(), addr)
    {
      hide BitOr, TableIndex, Canonical, Leaf;
      pte := 0;
      if !Canonical(addr) {
      } else if !Abs().Translates() {
        if addr < memsz {
          pte := 0x1F9 + PageBase(addr);
        }
      } else {
        var base: nat := ptbr;
        var i := 0;
        while i < 3
          invariant 0 <= i <= 3
          invariant pte == 0 && Walk(Abs(), addr) == WalkFrom(Abs(), addr, base, i)
        {
          var pteAddr := base + TableIndex(addr, i) * 8;
          if pteAddr >= memsz {
            break;
          }
          var ptd := words[pteAddr / 8];
          if ptd % 2 == 0 {
            break;
          } else if ptd / 2 % 2 == 1 {
            base := PageBase(ptd);
          } else {
            pte := Leaf(memsz, ptd, addr, i);
            break;
          }
          i := i + 1;
        }
      }
    }

    /** interested says whether a memory tracer asked to see the page; it then must miss every time. */
    method RefillTlb(addr: u64, bytes: nat, store: bool, fetch: bool, interested: bool) returns (r: Result)
      requires Valid() && bytes > 0 && addr % bytes == 0
      modifies tlbData, tlbInsnTag, tlbLoadTag, tlbStoreTag
      ensures Valid() && (old(Coherent()) ==> Coherent())
      ensures r == Uncached(Abs(), addr, bytes, store, fetch)
      ensures Cached() == Filled(Abs(), old(Cached()), addr, store, fetch, interested)
    {
      hide Walk, Permitted, EntryOk, PermissionBits, HasBit, PageBase, TlbIndex, Good;
      if Good(Abs(), Cached()) {
        FilledGood(Abs(), Cached(), addr, store, fetch, interested);
      }
      var pte := WalkTables(addr);
      var ptePerm := PermissionBits(Abs().Supervisor(), pte);
      PermissionIs(Abs(), pte, store, fetch);
      if !(HasBit(ptePerm, 1) && HasBit(ptePerm, if fetch then 0x20 else if store then 0x10 else 8)) {
        return AccessFault(addr, store, fetch);
      }
      var paddr := PageBase(pte) + addr % 0x2000;
      if !interested {
        Install(addr, pte, ptePerm);
      }
      r := Physical(paddr);
    }

    /** The page's tags, by its permissions, and where its addresses lead. */
    method Install(addr: u64, pte: nat, ptePerm: nat)
      requires Valid() && pte == Walk(Abs(), addr) && ptePerm == PermissionBits(Abs().Supervisor(), pte)
          && HasBit(ptePerm, 1)
      modifies tlbData, tlbInsnTag, tlbLoadTag, tlbStoreTag
      ensures Valid() && forall store, fetch :: Permitted(Abs(), pte, store, fetch) ==>
                Cached() == Filled(Abs(), old(Cached()), addr, store, fetch, false)
    {
      hide Walk, Permitted, PermissionBits, HasBit, PageBase;
      PermissionIs(Abs(), pte, false, false);
      PermissionIs(Abs(), pte, true, false);
      PermissionIs(Abs(), pte, false, true);
      var idx := TlbIndex(addr);
      var expectedTag: u64 := addr / 0x2000;
      tlbLoadTag[idx] := if HasBit(ptePerm, 8) then expectedTag else NO_TAG;
      tlbStoreTag[idx] := if HasBit(ptePerm, 0x10) then expectedTag else NO_TAG;
      tlbInsnTag[idx] := if HasBit(ptePerm, 0x20) then expectedTag else NO_TAG;
      tlbData[idx] := PageBase(pte) - addr / 0x2000 * 0x2000;
    }

    method Translate(addr: u64, bytes: nat, store: bool, fetch: bool, interested: bool) returns (r: Result)
      requires Valid() && bytes > 0
      modifies tlbData, tlbInsnTag, tlbLoadTag, tlbStoreTag
      ensures Valid()
      ensures old(Coherent()) ==> Coherent() && r == Uncached(Abs(), addr, bytes, store, fetch)
      ensures r == if addr % bytes == 0 && old(Cached().Hits(addr, store, fetch))
          then Physical(old(tlbData[TlbIndex(addr)]) + addr)
                   else Uncached(Abs(), addr, bytes, store, fetch)
      ensures Cached() == if addr % bytes != 0 || old(Cached().Hits(addr, store, fetch)) then old(Cached())
                          else Filled(Abs(), old(Cached()), addr, store, fetch, interested)
    {
      hide Walk, Permitted, EntryOk, TlbIndex, Filled;
      var idx := TlbIndex(addr);
      var expectedTag := addr / 0x2000;
      var tag := if fetch then tlbInsnTag[idx] else if store then tlbStoreTag[idx] else tlbLoadTag[idx];
      var data := tlbData[idx] + addr;
      if addr % bytes != 0 {
        return Misaligned(addr, store, fetch);
      }
      assert tag == Cached().Tag(idx, store, fetch);
      if tag == expectedTag {
        if Coherent() {
          assert EntryOk(Abs(), Cached().Tag(idx, store, fetch), Cached().data[idx], store, fetch);
          HitIsUncached(Abs(), addr, bytes, store, fetch, tlbData[idx]);
        }
        return Physical(data);
      }
      r := RefillTlb(addr, bytes, store, fetch, interested);
    }

    /** set_pcr(CSR_STATUS): every change of privilege or of translation empties the TLB. */
    method WriteStatus(value: u32, hasExt: bool)
      requires Valid()
      modifies this`sr, this`rv64, tlbInsnTag, tlbLoadTag, tlbStoreTag, icacheTag
      ensures Valid() && Coherent() && Empty() && sr == NewStatus(old(sr), value, hasExt)
      ensures rv64 == HasBit(sr, if HasBit(sr, 1) then 0x40 else 0x20)
    {
      sr := NewStatus(sr, value, hasExt);
      rv64 := if HasBit(sr, 1) then HasBit(sr, 0x40) else HasBit(sr, 0x20);
      FlushTlb();
    }

    /** set_pcr(CSR_PTBR): the TLB keeps what it has, which is right exactly when the tables agree. */
    method WritePtbr(value: u64)
      requires Valid()
      modifies this`ptbr
      ensures Valid() && ptbr == PageBase(value) && Cached() == old(Cached())
      ensures old(Coherent()) && TablesAgree(old(Abs()), Abs()) ==> Coherent()
      ensures TablesAgree(old(Abs()), Abs()) <==> HitsAnswer(old(Abs()), Abs())
    {
      hide Good, TablesAgree, HitsAnswer;
      ghost var m := Abs();
      ptbr := PageBase(value);
      HitsExactly(m, Abs());
      if Good(m, Cached()) && TablesAgree(m, Abs()) {
        GoodKept(m, Abs(), Cached());
      }
    }

    method StoreWord(k: nat, value: u64)
      requires Valid() && k < |words|
      modifies this`words
      ensures Valid() && words == old(words)[k := value] && Cached() == old(Cached())
      ensures old(Coherent()) && TablesAgree(old(Abs()), Abs()) ==> Coherent()
      ensures old(!TableWord(Abs(), k)) ==> TablesAgree(old(Abs()), Abs())
    {
      hide Good, TablesAgree, TableWord;
      ghost var m := Abs();
      if !TableWord(m, k) {
        StoreAgrees(m, k, value);
      }
      words := words[k := value];
      assert Abs() == m.(words := m.words[k := value]);
      if Good(m, Cached()) && TablesAgree(m, Abs()) {
        GoodKept(m, Abs(), Cached());
      }
    }
  }

  /** The writable STATUS bits, with the pending interrupts kept; EA only with an accelerator. */
  function NewStatus(sr: u32, value: u32, hasExt: bool): u32 {
    value % 0x100 + (if hasExt then value / 0x100 % 2 * 0x100 else 0)
    + value / 0x1_0000 % 0x100 * 0x1_0000 + sr / 0x100_0000 * 0x100_0000
  }

  // --- Whole runs ---

  datatype Op =
    | Translate(addr: u64, bytes: nat, store: bool, fetch: bool, interested: bool)
    | FlushTlb
    | WriteStatus(status: u32, hasExt: bool)
    | WritePtbr(base: u64)
    | StoreWord(k: nat, value: u64)

  /** The machine alone, and whether since the last flush a PTBR write or a store made the page tables
      disagree with what they permitted before. */
  datatype Reference = Reference(m: Machine, stale: bool)

  ghost predicate Legal(m: Machine, op: Op) {
    match op
    case Translate(_, bytes, _, _, _) => bytes in {1, 2, 4, 8}
    case StoreWord(k, _) => k < |m.words|
    case _ => true
  }

  ghost function Changed(s: Reference, n: Machine): Reference
    requires s.m.Valid() && n.Valid()
  {
    Reference(n, s.stale || !TablesAgree(s.m, n))
  }

  ghost function After(s: Reference, op: Op): Reference
    requires s.m.Valid() && Legal(s.m, op)
  {
    match op
    case Translate(_, _, _, _, _) => s
    case FlushTlb => s.(stale := false)
    case WriteStatus(status, hasExt) => Reference(s.m.(sr := NewStatus(s.m.sr, status, hasExt)), false)
    case WritePtbr(base) => Changed(s, s.m.(ptbr := PageBase(base)))
    case StoreWord(k, value) => Changed(s, s.m.(words := s.m.words[k := value]))
  }

  /** ops can be run one after the other from s. */
  ghost predicate Runs(s: Reference, ops: seq<Op>)
    requires s.m.Valid()
    decreases |ops|
  {
    ops == [] || (Legal(s.m, ops[0]) && Runs(After(s, ops[0]), ops[1..]))
  }

  /** Each translation made while nothing is stale answers as a fresh walk would, inside memory. */
  ghost predicate Answers(s: Reference, ops: seq<Op>, answers: seq<Result>)
    requires s.m.Valid() && Runs(s, ops) && |answers| == |ops|
    decreases |ops|
  {
    ops == [] ||
    (&& (ops[0].Translate? && !s.stale ==>
           && answers[0] == Uncached(s.m, ops[0].addr, ops[0].bytes, ops[0].store, ops[0].fetch)
           && (answers[0].Physical? ==> 0 <= answers[0].paddr && answers[0].paddr + ops[0].bytes <= s.m.memsz))
     && Answers(After(s, ops[0]), ops[1..], answers[1..]))
  }

  /** What a caller can check: neither writing PTBR with its own value nor storing to a word outside the
      page tables makes anything stale. */
  lemma StaysFresh(s: Reference, op: Op)
    requires s.m.Valid() && Legal(s.m, op) && !s.stale
    requires op.WritePtbr? ==> s.m.ptbr == PageBase(op.base)
    requires op.StoreWord? ==> !TableWord(s.m, op.k)
    ensures !After(s, op).stale
  {
    hide Walk, TableWord, HasBit;
    if op.StoreWord? {
      StoreAgrees(s.m, op.k, op.value);
    } else if op.WritePtbr? {
      assert s.m.(ptbr := PageBase(op.base)) == s.m;
    }
  }

  method Run(mmu: Mmu, ops: seq<Op>, ghost stale: bool) returns (answers: seq<Result>)
    requires mmu.Valid() && (!stale ==> mmu.Coherent()) && Runs(Reference(mmu.Abs(), stale), ops)
    modifies mmu, mmu.tlbData, mmu.tlbInsnTag, mmu.tlbLoadTag, mmu.tlbStoreTag, mmu.icacheTag
    ensures |answers| == |ops| && Answers(Reference(old(mmu.Abs()), stale), ops, answers)
    decreases |ops|
  {
    hide Uncached, TableWord, NewStatus, Good, TablesAgree, HitsAnswer, PageBase, Filled;
    if ops == [] {
      return [];
    }
    ghost var s := Reference(mmu.Abs(), stale);
    var answer := Physical(0);
    match ops[0] {
      case Translate(addr, bytes, store, fetch, interested) =>
        UncachedInMemory(s.m, addr, bytes, store, fetch);
        answer := mmu.Translate(addr, bytes, store, fetch, interested);
      case FlushTlb =>
        mmu.FlushTlb();
      case WriteStatus(status, hasExt) =>
        mmu.WriteStatus(status, hasExt);
      case WritePtbr(base) =>
        mmu.WritePtbr(base);
      case StoreWord(k, value) =>
        mmu.StoreWord(k, value);
    }
    ghost var t := After(s, ops[0]);
    var rest := Run(mmu, ops[1..], t.stale);
    answers := [answer] + rest;
    assert answers[1..] == rest;
  }

  // --- Why the condition on PTBR is needed ---

  /** Two page tables in one megabyte: at 0 a superpage with every permission, at 0x2000 nothing. */
  ghost predicate TwoTables(m: Machine) {
    && m.memsz == 0x10_0000 && |m.words| == 0x2_0000 && m.words[0] == 0x1F9 && m.words[0x400] == 0
    && m.hasProc && m.sr == 0x81
  }

  lemma FirstWalk(m: Machine)
    requires TwoTables(m) && m.ptbr == 0
    ensures m.Valid() && Walk(m, 0) == 0x1F9 && Permitted(m, 0x1F9, false, false)
    ensures Uncached(m, 0, 8, false, false) == Physical(0)
  {
    hide Walk, Leaf, BitOr;
    LeafAtZero(m.memsz, 0x1F9);
    WalkAtZero(m, 0x1F9);
  }

  lemma SecondWalk(m: Machine)
    requires TwoTables(m) && m.ptbr == 0x2000
    ensures m.Valid() && Walk(m, 0) == 0 && !Permitted(m, 0, false, false)
    ensures Uncached(m, 0, 8, false, false) == Fault(LoadAccessFault(0))
  {
    hide Walk, Leaf, BitOr;
    WalkAtZero(m, 0);
  }

  lemma LeafAtZero(memsz: nat, ptd: u64)
    requires PageBase(ptd) < memsz
    ensures Leaf(memsz, ptd, 0, 0) == ptd
  {
    hide BitOr;
    OrNothing(ptd);
  }

  lemma OrNothing(x: nat)
    ensures BitOr(x, 0) == x
  {
  }

  /** The walk of address zero through a leaf in the table's first word. */
  lemma WalkAtZero(m: Machine, ptd: u64)
    requires m.Valid() && m.Translates() && m.ptbr < m.memsz && ptd == m.words[m.ptbr / 8]
    requires ptd % 2 == 1 ==> ptd / 2 % 2 == 0
    ensures Walk(m, 0) == if ptd % 2 == 1 then Leaf(m.memsz, ptd, 0, 0) else 0
  {
    hide BitOr, Leaf, Machine.Translates;
    assert Canonical(0) && TableIndex(0, 0) == 0;
  }

  lemma CachedAtZero(m: Machine, c: Entries)
    requires m.Valid() && c.Sized() && NoTags(c) && Walk(m, 0) == 0x1F9 && Permitted(m, 0x1F9, false, false)
    ensures TlbIndex(0) == 0 && !c.Hits(0, false, false)
    ensures var f := Filled(m, c, 0, false, false, false); f.Hits(0, false, false) && f.data[0] == 0
  {
    hide Walk, Permitted;
  }

  /** In supervisor mode with translation on, a load, a PTBR write and the same load again: the second
      load still hits the entry of the first, where the new tables make it fault. */
  method StaleHit() returns (mmu: Mmu, first: Result, second: Result)
    ensures fresh(mmu) && mmu.Valid() && mmu.Abs().Supervisor() && mmu.Abs().Translates()
    ensures first == second == Physical(0)
    ensures Uncached(mmu.Abs(), 0, 8, false, false) == Fault(LoadAccessFault(0))
  {
    hide Walk, Good, TablesAgree, HitsAnswer, Uncached, EntryOk, NoTags, Permitted, Filled, Machine.Valid, Entries.Hits;
    mmu := TwoTablesMmu();
    FirstWalk(mmu.Abs());
    CachedAtZero(mmu.Abs(), mmu.Cached());
    first := mmu.Translate(0, 8, false, false, false);
    assert mmu.tlbData[0] == mmu.Cached().data[0];
    mmu.WritePtbr(0x2000);
    SecondWalk(mmu.Abs());
    second := mmu.Translate(0, 8, false, false, false);
  }

  method TwoTablesMmu() returns (mmu: Mmu)
    ensures fresh(mmu) && fresh(mmu.tlbData) && fresh(mmu.tlbInsnTag) && fresh(mmu.tlbLoadTag) && fresh(mmu.tlbStoreTag)
    ensures mmu.Valid() && mmu.Empty() && TwoTables(mmu.Abs()) && mmu.ptbr == 0
    ensures mmu.Abs().Supervisor() && mmu.Abs().Translates()
  {
    hide Walk, Good, TablesAgree, TableWord, EntryOk, NoTags;
    mmu := new Mmu(1, true);
    mmu.StoreWord(0, 0x1F9);
    mmu.WriteStatus(0x81, false);
    StatusIs();
  }

  lemma StatusIs()
    ensures NewStatus(0x61, 0x81, false) == 0x81
  {
  }
}
