/** The opcode index: descriptors sorted into buckets by their low bits, ended by a sentinel. */
module Decoder {
  import opened Powers
  import opened Words

  // --- Bitwise and ---

  function BitAnd(a: nat, b: nat): nat
    decreases a
  {
    if a == 0 || b == 0 then 0 else 2 * BitAnd(a / 2, b / 2) + (if a % 2 == 1 && b % 2 == 1 then 1 else 0)
  }

  lemma {:induction false} AndRemainder(a: nat, b: nat, k: nat)
    ensures BitAnd(a, b) % Exp2(k) == BitAnd(a % Exp2(k), b % Exp2(k))
    decreases k
  {
    if k > 0 {
      AndRemainder(a / 2, b / 2, k - 1);
      hide *;
      AndParts(a, b);
      Exp2Double(k - 1);
      HalfRemainder(a, Exp2(k - 1));
      HalfRemainder(b, Exp2(k - 1));
      HalfRemainder(BitAnd(a, b), Exp2(k - 1));
      AndParts(a % Exp2(k), b % Exp2(k));
      HalvesEqual(BitAnd(a, b) % Exp2(k), BitAnd(a % Exp2(k), b % Exp2(k)));
    } else {
      Exp2Zero();
      AndParts(0, 0);
    }
  }

  lemma HalvesEqual(x: nat, y: nat)
    requires x / 2 == y / 2 && x % 2 == y % 2
    ensures x == y
  {
  }

  lemma AndParts(a: nat, b: nat)
    ensures BitAnd(a, b) / 2 == BitAnd(a / 2, b / 2)
    ensures BitAnd(a, b) % 2 == (if a % 2 == 1 && b % 2 == 1 then 1 else 0)
  {
  }

  lemma HalfRemainder(x: nat, p: nat)
    requires p > 0
    ensures x % (2 * p) / 2 == x / 2 % p && x % (2 * p) % 2 == x % 2
  {
    var q, r := x / 2 / p, x / 2 % p;
    assert x == q * (2 * p) + (2 * r + x % 2) by { assert x / 2 == q * p + r; }
    Euclid(x, 2 * p, q, 2 * r + x % 2);
  }

  lemma HalveOnes(k: nat)
    requires k > 0
    ensures (Exp2(k) - 1) / 2 == Exp2(k - 1) - 1 && (Exp2(k) - 1) % 2 == 1
  {
  }

  /** Masking with k ones keeps the low k bits. */
  lemma {:induction false} AndOnes(a: nat, k: nat)
    ensures BitAnd(a, Exp2(k) - 1) == a % Exp2(k)
    decreases k
  {
    if k > 0 {
      AndOnes(a / 2, k - 1);
      AndOnesStep(a, k);
    } else {
      hide *;
      Exp2Zero();
      AndNothing(a);
      Euclid(a, 1, a, 0);
    }
  }

  lemma AndOnesStep(a: nat, k: nat)
    requires k > 0 && BitAnd(a / 2, Exp2(k - 1) - 1) == a / 2 % Exp2(k - 1)
    ensures BitAnd(a, Exp2(k) - 1) == a % Exp2(k)
  {
    hide *;
    var p, ones := Exp2(k - 1), Exp2(k) - 1;
    Exp2Double(k - 1);
    HalveOnes(k);
    AndParts(a, ones);
    HalfRemainder(a, p);
    HalvesEqual(BitAnd(a, ones), a % (2 * p));
  }

  lemma AndNothing(a: nat)
    ensures BitAnd(a, 0) == 0
  {
  }

  lemma OnesRemainder(x: nat, j: nat, k: nat)
    requires x % Exp2(k) == Exp2(k) - 1 && j <= k
    ensures x % Exp2(j) == Exp2(j) - 1
  {
    hide *;
    var p, s := Exp2(j), Exp2(k - j);
    Exp2Add(j, k - j);
    var q := x / Exp2(k);
    ShiftedSum(q, s, p);
    assert x == (q * s + s - 1) * p + (p - 1);
    Euclid(x, p, q * s + s - 1, p - 1);
  }

  lemma ShiftedSum(q: int, s: int, p: int)
    ensures q * (p * s) == q * s * p && (q * s + s - 1) * p == q * s * p + p * s - p
  {
  }

  // --- Descriptors ---

  datatype Desc<F> = Desc(bits: u32, mask: u32, rv32: F, rv64: F)

  predicate Matches<F>(d: Desc<F>, insn: u64) {
    BitAnd(insn, d.mask) == d.bits
  }

  /** The first registered descriptor that matches. */
  function LinearScan<F>(descs: seq<Desc<F>>, insn: u64): (i: nat)
    ensures i <= |descs| && (i < |descs| ==> Matches(descs[i], insn))
    ensures forall k :: 0 <= k < i ==> !Matches(descs[k], insn)
  {
    if descs == [] || Matches(descs[0], insn) then 0 else 1 + LinearScan(descs[1..], insn)
  }

  /** buckets - 1 in 64 bits. */
  function BucketMask(buckets: nat): nat {
    if buckets == 0 then 0xFFFF_FFFF_FFFF_FFFF else buckets - 1
  }

  function Bucket<F>(d: Desc<F>, buckets: nat): nat {
    BitAnd(d.bits, BucketMask(buckets))
  }

  // --- Sorting by bucket, then by the bits to match ---

  predicate Before<F>(d: Desc<F>, e: Desc<F>, buckets: nat) {
    if Bucket(d, buckets) != Bucket(e, buckets) then Bucket(d, buckets) < Bucket(e, buckets) else d.bits < e.bits
  }

  ghost predicate Sorted<F>(s: seq<Desc<F>>, buckets: nat) {
    forall i, j :: 0 <= i < j < |s| ==> !Before(s[j], s[i], buckets)
  }

  lemma Ordering<F>(d: Desc<F>, e: Desc<F>, g: Desc<F>, buckets: nat)
    ensures Before(d, e, buckets) ==> !Before(e, d, buckets)
    ensures !Before(e, d, buckets) && !Before(g, e, buckets) ==> !Before(g, d, buckets)
  {
    hide Bucket;
  }

  function Insert<F>(d: Desc<F>, s: seq<Desc<F>>, buckets: nat): (r: seq<Desc<F>>)
    ensures multiset(r) == multiset(s) + multiset{d}
  {
    if s == [] || !Before(s[0], d, buckets) then [d] + s
    else
      assert s == [s[0]] + s[1..];
      [s[0]] + Insert(d, s[1..], buckets)
  }

  lemma {:induction false} InsertSorted<F>(d: Desc<F>, s: seq<Desc<F>>, buckets: nat)
    requires Sorted(s, buckets)
    ensures Sorted(Insert(d, s, buckets), buckets)
  {
    hide Before;
    if s == [] {
    } else if !Before(s[0], d, buckets) {
      forall j | 0 <= j < |s| ensures !Before(s[j], d, buckets) {
        Ordering(d, s[0], s[j], buckets);
      }
    } else {
      var t := Insert(d, s[1..], buckets);
      InsertSorted(d, s[1..], buckets);
      forall j | 0 <= j < |t| ensures !Before(t[j], s[0], buckets) {
        assert t[j] in multiset(t);
        if t[j] == d {
          Ordering(s[0], d, d, buckets);
        } else {
          var k :| 0 <= k < |s[1..]| && s[1..][k] == t[j];
          assert s[k + 1] == t[j];
        }
      }
    }
  }

  /** std::sort: only that the result is ordered and a permutation is relied on. */
  function Sort<F>(s: seq<Desc<F>>, buckets: nat): (r: seq<Desc<F>>)
    ensures multiset(r) == multiset(s)
  {
    if s == [] then []
    else
      assert s == [s[0]] + s[1..];
      Insert(s[0], Sort(s[1..], buckets), buckets)
  }

  lemma {:induction false} SortSorted<F>(s: seq<Desc<F>>, buckets: nat)
    ensures Sorted(Sort(s, buckets), buckets)
  {
    if s != [] {
      SortSorted(s[1..], buckets);
      InsertSorted(s[0], Sort(s[1..], buckets), buckets);
    }
  }

  lemma SortSize<F>(s: seq<Desc<F>>, buckets: nat)
    ensures |Sort(s, buckets)| == |s|
  {
    assert |multiset(Sort(s, buckets))| == |multiset(s)|;
  }

  // --- What the index holds ---

  /** The low k bits of every mask are ones. */
  ghost predicate MasksCover<F>(descs: seq<Desc<F>>, k: nat) {
    forall i :: 0 <= i < |descs| ==> descs[i].mask % Exp2(k) == Exp2(k) - 1
  }

  /** A descriptor that matches an instruction lies in the instruction's bucket. */
  lemma MatchInBucket<F>(d: Desc<F>, insn: u64, k: nat)
    requires d.mask % Exp2(k) == Exp2(k) - 1 && Matches(d, insn)
    ensures Bucket(d, Exp2(k)) == insn % Exp2(k)
  {
    AndOnes(d.bits, k);
    AndRemainder(insn, d.mask, k);
    AndOnes(insn % Exp2(k), k);
    hide Exp2, BitAnd;
    RemainderTwice(insn, Exp2(k));
  }

  lemma RemainderTwice(x: nat, p: nat)
    requires p > 0
    ensures x % p % p == x % p
  {
    hide *;
    Euclid(x % p, p, 0, x % p);
  }

  lemma OneBucket()
    ensures Exp2(1) == 2
  {
  }

  lemma FewerOnes<F>(descs: seq<Desc<F>>, j: nat, k: nat)
    requires MasksCover(descs, k) && j <= k
    ensures MasksCover(descs, j)
  {
    hide Exp2;
    forall i | 0 <= i < |descs| ensures descs[i].mask % Exp2(j) == Exp2(j) - 1 {
      OnesRemainder(descs[i].mask, j, k);
    }
  }

  lemma FitsMask(mask: u32, k: nat)
    requires mask % Exp2(k) == Exp2(k) - 1
    ensures k <= 32
  {
    hide *;
    Exp2Constants();
    if k > 32 {
      Exp2Mono(32, k);
      Euclid(mask, Exp2(k), 0, mask);
    }
  }

  lemma WrapCount(x: nat)
    requires x <= 0xFFFF_FFFF_FFFF_FFFF
    ensures Wrap64(x + 1) == if x == 0xFFFF_FFFF_FFFF_FFFF then 0 else x + 1
  {
  }

  lemma SameMembers<F>(s: seq<Desc<F>>, t: seq<Desc<F>>, d: Desc<F>)
    requires multiset(s) == multiset(t)
    ensures d in s <==> d in t
  {
    assert d in multiset(s) <==> d in multiset(t);
  }

  lemma SortedCover<F>(s: seq<Desc<F>>, t: seq<Desc<F>>, k: nat)
    requires multiset(s) == multiset(t) && MasksCover(s, k)
    ensures MasksCover(t, k)
  {
    hide Exp2;
    forall i | 0 <= i < |t| ensures t[i].mask % Exp2(k) == Exp2(k) - 1 {
      SameMembers(s, t, t[i]);
    }
  }

  lemma BucketsBelow<F>(s: seq<Desc<F>>, k: nat)
    ensures forall x :: 0 <= x < |s| ==> Bucket(s[x], Exp2(k)) < Exp2(k)
  {
    hide Exp2, BitAnd;
    forall x | 0 <= x < |s| ensures Bucket(s[x], Exp2(k)) < Exp2(k) {
      AndOnes(s[x].bits, k);
    }
  }

  lemma ScanMeaning<F>(descs: seq<Desc<F>>, sorted: seq<Desc<F>>, insn: u64)
    requires multiset(descs) == multiset(sorted)
    ensures LinearScan(descs, insn) < |descs| <==> exists x :: 0 <= x < |sorted| && Matches(sorted[x], insn)
    ensures forall d :: d in descs <==> d in sorted
  {
    hide Matches;
    forall d ensures d in descs <==> d in sorted {
      SameMembers(descs, sorted, d);
    }
    var i := LinearScan(descs, insn);
    if i < |descs| {
      assert descs[i] in sorted;
    } else {
      forall x | 0 <= x < |sorted| ensures !Matches(sorted[x], insn) {
        assert sorted[x] in sorted;
      }
    }
  }

  lemma SentinelMatches<F>(d: Desc<F>, insn: u64)
    requires d.bits == d.mask == 0
    ensures Matches(d, insn)
  {
    AndNothing(insn);
  }

  lemma RemainderBound(x: nat, p: nat)
    requires p > 0
    ensures 0 <= x % p < p
  {
  }

  /** No registered match has fewer bits to match. */
  ghost predicate IsLeastMatch<F(!new)>(descs: seq<Desc<F>>, insn: u64, d: Desc<F>) {
    Matches(d, insn) && forall e :: e in descs && Matches(e, insn) ==> d.bits <= e.bits
  }

  /** Scanning from the bucket's start to the end of the store misses nothing, and meets the least first. */
  lemma FirstIsLeast<F(!new)>(opcodeMap: seq<nat>, sorted: seq<Desc<F>>, k: nat, insn: u64, start: nat, desc: nat)
    requires Indexes(opcodeMap, sorted, k) && insn % Exp2(k) < |opcodeMap| && start == opcodeMap[insn % Exp2(k)]
    requires start <= desc <= |sorted| && forall x :: start <= x < desc ==> !Matches(sorted[x], insn)
    ensures forall x :: 0 <= x < |sorted| && Matches(sorted[x], insn) ==> x >= desc
    ensures desc < |sorted| && Matches(sorted[desc], insn) ==>
              forall x :: 0 <= x < |sorted| && Matches(sorted[x], insn) ==> sorted[desc].bits <= sorted[x].bits
  {
    hide Exp2, Bucket, Matches;
    forall x | 0 <= x < |sorted| && Matches(sorted[x], insn)
      ensures x >= desc && Bucket(sorted[x], Exp2(k)) == insn % Exp2(k)
    {
      MatchInBucket(sorted[x], insn, k);
    }
    if desc < |sorted| && Matches(sorted[desc], insn) {
      forall x | 0 <= x < |sorted| && Matches(sorted[x], insn) ensures sorted[desc].bits <= sorted[x].bits {
        if x > desc {
          assert !Before(sorted[x], sorted[desc], Exp2(k));
        }
      }
    }
  }

  /** The descriptors before i are those of the buckets below b. */
  ghost predicate Splits<F>(sorted: seq<Desc<F>>, buckets: nat, i: nat, b: nat) {
    forall x :: 0 <= x < |sorted| ==> (x < i <==> Bucket(sorted[x], buckets) < b)
  }

  /** The first j descriptors are in the store, which has room for the rest and a sentinel. */
  ghost predicate Copied<F>(store: seq<Desc<F>>, sorted: seq<Desc<F>>, j: nat) {
    |store| == |sorted| + 1 && j <= |sorted| && store[..j] == sorted[..j]
  }

  lemma CopiedStep<F>(store: seq<Desc<F>>, sorted: seq<Desc<F>>, j: nat)
    requires Copied(store, sorted, j) && j < |sorted|
    ensures j < |store| && Copied(store[j := sorted[j]], sorted, j + 1)
  {
    var t := store[j := sorted[j]];
    assert t[..j + 1] == t[..j] + [sorted[j]];
    assert sorted[..j + 1] == sorted[..j] + [sorted[j]];
  }

  lemma CopiedIs<F>(store: seq<Desc<F>>, sorted: seq<Desc<F>>, j: nat)
    requires j <= |sorted|
    ensures Copied(store, sorted, j) <==> |store| == |sorted| + 1 && store[..j] == sorted[..j]
  {
  }

  lemma CopiedBound<F>(store: seq<Desc<F>>, sorted: seq<Desc<F>>, j: nat)
    requires Copied(store, sorted, j)
    ensures j <= |sorted| && |store| == |sorted| + 1
  {
  }

  /** While bucket b is copied: nothing above it before i, nothing below it from i on. */
  ghost predicate Within<F>(sorted: seq<Desc<F>>, buckets: nat, i: nat, b: nat) {
    && (forall x :: 0 <= x < i && x < |sorted| ==> Bucket(sorted[x], buckets) <= b)
    && (forall x :: i <= x < |sorted| ==> Bucket(sorted[x], buckets) >= b)
  }

  lemma WithinStep<F>(sorted: seq<Desc<F>>, buckets: nat, i: nat, b: nat)
    requires i < |sorted| && Bucket(sorted[i], buckets) == b && Within(sorted, buckets, i, b)
    ensures Within(sorted, buckets, i + 1, b)
  {
    hide Bucket;
  }

  lemma WithinStart<F>(sorted: seq<Desc<F>>, buckets: nat, i: nat, b: nat)
    requires Splits(sorted, buckets, i, b)
    ensures Within(sorted, buckets, i, b)
  {
    hide Bucket;
  }

  /** The first descriptor past bucket b ends it, because the rest are ordered after. */
  lemma SortedTail<F>(s: seq<Desc<F>>, buckets: nat, i: nat, b: nat)
    requires Sorted(s, buckets) && Within(s, buckets, i, b)
    requires i < |s| ==> Bucket(s[i], buckets) != b
    ensures Splits(s, buckets, i, b + 1)
  {
    hide Bucket;
    forall x | i < x < |s| ensures Bucket(s[x], buckets) >= Bucket(s[i], buckets) {
      assert !Before(s[x], s[i], buckets);
    }
  }

  lemma AllFiled<F>(sorted: seq<Desc<F>>, k: nat, i: nat)
    requires Splits(sorted, Exp2(k), i, Exp2(k))
    ensures i >= |sorted|
  {
    hide Exp2, Bucket;
    BucketsBelow(sorted, k);
    if |sorted| > 0 {
      assert Bucket(sorted[|sorted| - 1], Exp2(k)) < Exp2(k);
    }
  }

  /** The first n entries of the map are right. */
  ghost predicate Filed<F(!new)>(opcodeMap: seq<nat>, sorted: seq<Desc<F>>, buckets: nat, n: nat) {
    && |opcodeMap| == buckets && n <= buckets
    && forall b :: 0 <= b < n ==> opcodeMap[b] <= |sorted| && Splits(sorted, buckets, opcodeMap[b], b)
  }

  /** The whole index over the sorted descriptors, with 2^k buckets. */
  ghost predicate Indexes<F(!new)>(opcodeMap: seq<nat>, sorted: seq<Desc<F>>, k: nat) {
    MasksCover(sorted, k) && Sorted(sorted, Exp2(k)) && Filed(opcodeMap, sorted, Exp2(k), Exp2(k))
  }

  lemma NothingFiled<F(!new)>(opcodeMap: seq<nat>, sorted: seq<Desc<F>>, buckets: nat)
    requires buckets == |opcodeMap|
    ensures Filed(opcodeMap, sorted, buckets, 0)
    ensures Splits(sorted, buckets, 0, 0)
  {
    hide Bucket;
  }

  lemma FileBucket<F(!new)>(opcodeMap: seq<nat>, sorted: seq<Desc<F>>, buckets: nat, b: nat, j: nat)
    requires b < buckets && Filed(opcodeMap, sorted, buckets, b)
    requires j <= |sorted| && Splits(sorted, buckets, j, b)
    ensures Filed(opcodeMap[b := j], sorted, buckets, b + 1)
  {
    hide Splits;
  }

  lemma IndexesWhen<F(!new)>(opcodeMap: seq<nat>, sorted: seq<Desc<F>>, k: nat, buckets: nat)
    requires buckets == Exp2(k) && MasksCover(sorted, k) && Sorted(sorted, buckets)
    requires Filed(opcodeMap, sorted, buckets, buckets)
    ensures Indexes(opcodeMap, sorted, k)
  {
    hide Exp2, Bucket, MasksCover, Sorted;
  }

  /** The store is the sorted instructions and a sentinel; entry b points past the buckets below b. */
  ghost predicate IsIndex<F(!new)>(opcodeMap: seq<nat>, store: seq<Desc<F>>, descs: seq<Desc<F>>, sentinel: Desc<F>) {
    && |store| > 0
    && var sorted := store[..|store| - 1];
       && multiset(sorted) == multiset(descs) && store[|sorted|] == sentinel
       && exists k :: Indexes(opcodeMap, sorted, k)
  }

  /** Once everything is filed, the sentinel completes the index. */
  lemma IndexEnds<F(!new)>(opcodeMap: seq<nat>, store: seq<Desc<F>>, sorted: seq<Desc<F>>, buckets: nat, k: nat,
      j: nat, sentinel: Desc<F>)
    requires buckets == Exp2(k) && MasksCover(sorted, k) && Sorted(sorted, buckets)
    requires Filed(opcodeMap, sorted, buckets, buckets) && Copied(store, sorted, j)
        && Splits(sorted, buckets, j, buckets)
    ensures j == |sorted| == |store| - 1 && IsIndex(opcodeMap, store[j := sentinel], sorted, sentinel)
  {
    hide Exp2, Bucket, MasksCover, Sorted, Filed, Splits;
    AllFiled(sorted, k, j);
    IndexesWhen(opcodeMap, sorted, k, buckets);
    assert store[j := sentinel][..j] == sorted;
  }

  class Decoder<F(!new)> {
    const illegal: F
    var instructions: seq<Desc<F>>
    var opcodeMap: seq<nat>
    var opcodeStore: seq<Desc<F>>

    ghost predicate Built()
      reads this
    {
      IsIndex(opcodeMap, opcodeStore, instructions, Desc(0, 0, illegal, illegal))
    }

    constructor (illegal: F)
      ensures this.illegal == illegal && instructions == [] && opcodeMap == [] && opcodeStore == []
    {
      this.illegal := illegal;
      instructions, opcodeMap, opcodeStore := [], [], [];
    }

    method RegisterInsn(desc: Desc<F>)
      requires desc.mask % 2 == 1
      modifies this`instructions
      ensures instructions == old(instructions) + [desc]
    {
      instructions := instructions + [desc];
    }

    ghost predicate Registered()
      reads this
    {
      forall i :: 0 <= i < |instructions| ==> instructions[i].mask % 2 == 1
    }

    /** Halve 2^64 - 1 until every mask ends in that many ones. With no masks the count wraps to zero. */
    method CountBuckets() returns (buckets: nat)
      requires Registered()
      ensures instructions == [] ==> buckets == 0
      ensures instructions != [] ==> exists k :: 1 <= k <= 32 && buckets == Exp2(k) && MasksCover(instructions, k)
    {
      hide Exp2, BitAnd, Wrap64;
      Exp2Constants();
      ghost var k := 64;
      buckets := 0xFFFF_FFFF_FFFF_FFFF;
      var i := 0;
      while i < |instructions|
        invariant 0 <= i <= |instructions| && 1 <= k <= 64 && buckets == Exp2(k) - 1
        invariant MasksCover(instructions[..i], k) && (i == 0 ==> k == 64)
      {
        while BitAnd(instructions[i].mask, buckets) != buckets
          invariant 1 <= k <= 64 && buckets == Exp2(k) - 1 && MasksCover(instructions[..i], k)
          decreases k
        {
          AndOnes(instructions[i].mask, k);
          OneBucket();
          FewerOnes(instructions[..i], k - 1, k);
          HalveOnes(k);
          k := k - 1;
          buckets := buckets / 2;
        }
        AndOnes(instructions[i].mask, k);
        i := i + 1;
      }
      assert instructions[..i] == instructions;
      if instructions != [] {
        FitsMask(instructions[0].mask, k);
        Exp2Mono(k, 32);
      }
      WrapCount(buckets);
      buckets := Wrap64(buckets + 1);
    }

    /** The final assertion, that every instruction was filed, is an assert here. With nothing
        registered the map is empty, and no instruction can be looked up in it. */
    method BuildOpcodeMap()
      requires Registered()
      modifies this
      ensures multiset(instructions) == multiset(old(instructions))
      ensures instructions != [] ==> Built()
      ensures instructions == [] ==> opcodeMap == [] && opcodeStore == [Desc(0, 0, illegal, illegal)]
    {
      hide BitAnd, Sort, Exp2, Bucket, Filed, MasksCover, Sorted, Splits, Copied, IsIndex;
      var buckets := CountBuckets();
      ghost var k := 0;
      if instructions != [] {
        k :| 1 <= k <= 32 && buckets == Exp2(k) && MasksCover(instructions, k);
        SortedCover(instructions, Sort(instructions, buckets), k);
      }
      SortSorted(instructions, buckets);
      SortSize(instructions, buckets);
      instructions := Sort(instructions, buckets);
      opcodeMap := seq(buckets, _ => 0);
      opcodeStore := seq(|instructions| + 1, _ => Desc(0, 0, illegal, illegal));
      var j := FileInstructions(buckets);
      if instructions != [] {
        IndexEnds(opcodeMap, opcodeStore, instructions, buckets, k, j, Desc(0, 0, illegal, illegal));
      } else {
        CopiedBound(opcodeStore, instructions, j);
      }
      assert j == |opcodeStore| - 1;
      opcodeStore := opcodeStore[j := Desc(0, 0, illegal, illegal)];
    }

    /** The loop over buckets; it returns how many descriptors are in the store. */
    method FileInstructions(buckets: nat) returns (j: nat)
      requires Sorted(instructions, buckets) && |opcodeMap| == buckets && |opcodeStore| == |instructions| + 1
      modifies this`opcodeMap, this`opcodeStore
      ensures |opcodeMap| == buckets && Filed(opcodeMap, instructions, buckets, buckets)
      ensures Copied(opcodeStore, instructions, j) && Splits(instructions, buckets, j, buckets)
    {
      hide Bucket, Filed, Sorted, Splits, Copied;
      NothingFiled(opcodeMap, instructions, buckets);
      CopiedIs(opcodeStore, instructions, 0);
      CopiedBound(opcodeStore, instructions, 0);
      j := 0;
      var b := 0;
      while b < buckets
        invariant 0 <= b <= buckets && |opcodeMap| == buckets && Copied(opcodeStore, instructions, j)
        invariant Filed(opcodeMap, instructions, buckets, b) && Splits(instructions, buckets, j, b)
      {
        CopiedBound(opcodeStore, instructions, j);
        FileBucket(opcodeMap, instructions, buckets, b, j);
        opcodeMap := opcodeMap[b := j];
        j := CopyBucket(buckets, b, j);
        b := b + 1;
      }
    }

    /** The loop over one bucket's descriptors. */
    method CopyBucket(buckets: nat, b: nat, first: nat) returns (j: nat)
      requires Sorted(instructions, buckets) && Copied(opcodeStore, instructions, first)
      requires Splits(instructions, buckets, first, b)
      modifies this`opcodeStore
      ensures Copied(opcodeStore, instructions, j) && Splits(instructions, buckets, j, b + 1)
    {
      hide Bucket, Sorted, Splits, Within, Copied;
      j := first;
      WithinStart(instructions, buckets, j, b);
      CopiedBound(opcodeStore, instructions, j);
      while j < |instructions| && b == Bucket(instructions[j], buckets)
        invariant j <= |instructions| && Copied(opcodeStore, instructions, j) && Within(instructions, buckets, j, b)
      {
        WithinStep(instructions, buckets, j, b);
        CopiedStep(opcodeStore, instructions, j);
        opcodeStore := opcodeStore[j := instructions[j]];
        j := j + 1;
      }
      SortedTail(instructions, buckets, j, b);
    }

    /** The function of some match with the least bits, or the sentinel's when none matches. */
    method DecodeInsn(insn: u64, rv64: bool) returns (f: F)
      requires Built()
      ensures if LinearScan(instructions, insn) < |instructions| then
                exists d :: d in instructions && IsLeastMatch(instructions, insn, d)
                    && f == if rv64 then d.rv64 else d.rv32
              else f == illegal
    {
      hide BitAnd, Exp2, Bucket;
      ghost var n := |opcodeStore| - 1;
      ghost var sorted := opcodeStore[..n];
      ghost var k: nat :| Indexes(opcodeMap, sorted, k);
      ScanMeaning(instructions, sorted, insn);
      AndOnes(insn, k);
      SentinelMatches(opcodeStore[n], insn);
      var mask := |opcodeMap| - 1;
      RemainderBound(insn, Exp2(k));
      var desc := opcodeMap[BitAnd(insn, mask)];
      ghost var start := desc;
      while !Matches(opcodeStore[desc], insn)
        invariant start <= desc <= n
        invariant forall x :: start <= x < desc ==> !Matches(opcodeStore[x], insn)
        decreases n - desc
      {
        desc := desc + 1;
      }
      FirstIsLeast(opcodeMap, sorted, k, insn, start, desc);
      f := if rv64 then opcodeStore[desc].rv64 else opcodeStore[desc].rv32;
      if desc < n {
        assert sorted[desc] in instructions && IsLeastMatch(instructions, insn, sorted[desc]);
      }
    }
  }
}
