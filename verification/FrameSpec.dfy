/** The physical frame allocator on values: which pages are used, a search hint and a counter, with
    kmalloc and kfree on the same pages, and what all of them promise over every run. */
module FrameSpec {

  const PAGE_SIZE := 4096

  /** Memory below 4 MiB holds the kernel and is never handed out. */
  const KERNEL_TOP := 0x40_0000

  /** `PAGE_ALIGN_DOWN` and `PAGE_ALIGN`. */
  function AlignDown(addr: nat): nat { addr - addr % PAGE_SIZE }

  function AlignUp(addr: nat): nat { (addr + PAGE_SIZE - 1) / PAGE_SIZE * PAGE_SIZE }

  lemma AlignedSpan(lo: nat, hi: nat)
    requires lo <= hi
    ensures AlignDown(lo) % PAGE_SIZE == 0 && AlignDown(lo) <= lo && hi <= AlignUp(hi)
    ensures AlignUp(hi) == AlignDown(lo) + (AlignUp(hi) - AlignDown(lo)) / PAGE_SIZE * PAGE_SIZE
  {
  }

  lemma AlignUpBound(hi: nat, n: nat)
    requires hi <= n * PAGE_SIZE
    ensures AlignUp(hi) <= n * PAGE_SIZE
  {
  }

  // ---------------------------------------------------------------- the memory map

  datatype Region = Region(base: nat, length: nat, available: bool)

  predicate InRegion(r: Region, addr: nat) { r.available && r.base <= addr < r.base + r.length }

  /** `is_address_available`. */
  predicate Available(regions: seq<Region>, addr: nat) {
    addr >= KERNEL_TOP && exists k | 0 <= k < |regions| :: InRegion(regions[k], addr)
  }

  // ---------------------------------------------------------------- the allocator on values

  /** `used[i]` is the bitmap bit of page i. */
  datatype Frames = Frames(start: nat, regions: seq<Region>, used: seq<bool>, hint: nat, usedPages: int)

  function PageAddr(p: Frames, i: nat): nat { p.start + i * PAGE_SIZE }

  /** Page i may be handed out at all. */
  predicate Usable(p: Frames, i: nat) { i < |p.used| && Available(p.regions, PageAddr(p, i)) }

  predicate Free(p: Frames, i: nat) { Usable(p, i) && !p.used[i] }

  function Count(bits: seq<bool>): nat
    decreases |bits|
  {
    if bits == [] then 0 else Count(bits[..|bits| - 1]) + (if bits[|bits| - 1] then 1 else 0)
  }

  /** Every usable page below the hint is taken. */
  predicate HintOK(p: Frames) {
    p.hint <= |p.used| && forall i: nat | i < p.hint && Usable(p, i) :: p.used[i]
  }

  /** The allocator's invariant. */
  predicate FramesOK(p: Frames) {
    HintOK(p) && p.usedPages == Count(p.used) && p.start % PAGE_SIZE == 0
  }

  /** The lowest free page in [lo, hi), or hi. */
  function FirstFree(p: Frames, lo: nat, hi: nat): (i: nat)
    requires lo <= hi <= |p.used|
    ensures lo <= i <= hi && (i < hi ==> Free(p, i))
    ensures forall j: nat | lo <= j < i :: !Free(p, j)
    decreases hi - lo
  {
    if lo == hi then hi else if Free(p, lo) then lo else FirstFree(p, lo + 1, hi)
  }

  function Take(p: Frames, i: nat): Frames
    requires i < |p.used|
  {
    p.(used := p.used[i := true], usedPages := p.usedPages + 1, hint := i + 1)
  }

  /** `pmm_alloc_page`: from the hint to the end, then from the start to the hint; 0 for none. */
  function AllocPage(p: Frames): (r: (Frames, nat))
    requires p.hint <= |p.used|
    ensures r.0.hint <= |r.0.used| == |p.used| && r.0.start == p.start && r.0.regions == p.regions
  {
    var i := FirstFree(p, p.hint, |p.used|);
    if i < |p.used| then (Take(p, i), PageAddr(p, i))
    else
      var j := FirstFree(p, 0, p.hint);
      if j < p.hint then (Take(p, j), PageAddr(p, j)) else (p, 0)
  }

  /** Page a page address belongs to. */
  function PageIndex(p: Frames, addr: nat): nat
    requires addr >= p.start
  {
    (addr - p.start) / PAGE_SIZE
  }

  predicate InMemory(p: Frames, addr: nat) { p.start <= addr < PageAddr(p, |p.used|) }

  /** `pmm_free_page`. */
  function FreePage(p: Frames, addr: nat): Frames {
    if !InMemory(p, addr) then p
    else
      var i := PageIndex(p, addr);
      if i < |p.used| && p.used[i] then
        p.(used := p.used[i := false], usedPages := p.usedPages - 1, hint := if i < p.hint then i else p.hint)
      else p
  }

  // ---------------------------------------------------------------- what the allocator promises

  lemma {:induction false} CountUpdate(bits: seq<bool>, i: nat, b: bool)
    requires i < |bits|
    ensures Count(bits[i := b]) == Count(bits) - (if bits[i] then 1 else 0) + (if b then 1 else 0)
    decreases |bits|
  {
    var n := |bits| - 1;
    if i == n {
      assert bits[i := b][..n] == bits[..n];
    } else {
      assert bits[i := b][..n] == bits[..n][i := b];
      CountUpdate(bits[..n], i, b);
    }
  }

  lemma {:induction false} CountNone(bits: seq<bool>)
    requires forall i | 0 <= i < |bits| :: !bits[i]
    ensures Count(bits) == 0
    decreases |bits|
  {
    if bits != [] {
      CountNone(bits[..|bits| - 1]);
    }
  }

  /** Where a free page is. */
  lemma FreePlace(p: Frames, i: nat)
    requires Free(p, i) && p.start % PAGE_SIZE == 0
    ensures PageAddr(p, i) == p.start + 4096 * i && PageAddr(p, i) % 4096 == 0 && PageAddr(p, i) >= 0x40_0000
  {
    var q := p.start / PAGE_SIZE;
    assert PageAddr(p, i) == 4096 * (q + i);
  }

  /** The hinted search is lowest-first search: it fails only when no page is free, and then the
      wrap-around loop finds nothing; otherwise it takes the lowest free page of all, which was
      unused, and keeps the invariant.  A page is never at address 0. */
  lemma AllocIsLowest(p: Frames)
    requires FramesOK(p)
    ensures FirstFree(p, 0, p.hint) == p.hint
    ensures var (q, addr) := AllocPage(p);
            && FramesOK(q)
            && (addr == 0 <==> forall i: nat :: !Free(p, i))
            && (addr == 0 ==> q == p)
            && (addr != 0 ==>
                  exists i: nat :: && Free(p, i) && addr == PageAddr(p, i) == p.start + 4096 * i
                                   && addr % 4096 == 0 && addr >= 0x40_0000 && q.usedPages == p.usedPages + 1
                                   && q.hint == i + 1 && q.used == p.used[i := true]
                                   && (forall j: nat | j < i :: !Free(p, j)) && q == Take(p, i))
  {
    hide Count, Available;
    var i := FirstFree(p, p.hint, |p.used|);
    if i < |p.used| {
      FreePlace(p, i);
      CountUpdate(p.used, i, true);
      forall j: nat | j < i + 1 && Usable(Take(p, i), j) ensures Take(p, i).used[j] {
        assert Usable(p, j);
        assert p.hint <= j < i ==> !Free(p, j);
      }
      assert Free(p, i) && AllocPage(p) == (Take(p, i), PageAddr(p, i));
    }
  }

  /** The page an allocation took. */
  lemma AllocTakes(p: Frames) returns (i: nat)
    requires FramesOK(p) && AllocPage(p).1 != 0
    ensures Free(p, i) && AllocPage(p) == (Take(p, i), PageAddr(p, i)) && forall j: nat | j < i :: !Free(p, j)
  {
    AllocIsLowest(p);
    i := FirstFree(p, p.hint, |p.used|);
  }

  lemma PageIndexOf(p: Frames, i: nat)
    ensures PageIndex(p, PageAddr(p, i)) == i
    ensures i < |p.used| <==> InMemory(p, PageAddr(p, i))
  {
  }

  /** Freeing releases exactly the page the address lies in, and keeps the invariant; an address
      outside memory or a page that is free already changes nothing. */
  lemma FreeKeeps(p: Frames, addr: nat)
    requires FramesOK(p)
    ensures FramesOK(FreePage(p, addr))
    ensures FreePage(p, addr).usedPages == p.usedPages - (if FreePage(p, addr).used == p.used then 0 else 1)
    ensures forall i: nat | i < |p.used| ::
              FreePage(p, addr).used[i] == (p.used[i] && !(InMemory(p, addr) && PageIndex(p, addr) == i))
    ensures FreePage(p, addr).hint == if FreePage(p, addr).used != p.used && PageIndex(p, addr) < p.hint
                                      then PageIndex(p, addr) else p.hint
    ensures forall i: nat | i < |p.used| && p.used[i] ::
              !FreePage(p, addr).used[i] <==> p.start + 4096 * i <= addr < p.start + 4096 * (i + 1)
  {
    if InMemory(p, addr) {
      var i := PageIndex(p, addr);
      if i < |p.used| && p.used[i] {
        CountUpdate(p.used, i, false);
        assert p.used[i := false][i] != p.used[i];
      }
    }
  }

  // ---------------------------------------------------------------- kmalloc and kfree

  /** Pages [i, i + k) are all free. */
  predicate FreeRun(p: Frames, i: nat, k: nat) {
    i + k <= |p.used| && forall j: nat | i <= j < i + k :: Free(p, j)
  }

  /** The lowest start in [lo, hi] of k free pages, or hi + 1. */
  function FirstRun(p: Frames, k: nat, lo: nat, hi: nat): (i: nat)
    requires lo <= hi + 1
    ensures lo <= i <= hi + 1 && (i <= hi ==> FreeRun(p, i, k))
    ensures forall j: nat | lo <= j < i :: !FreeRun(p, j, k)
    decreases hi + 1 - lo
  {
    if lo == hi + 1 then lo else if FreeRun(p, lo, k) then lo else FirstRun(p, k, lo + 1, hi)
  }

  /** The first n pages from i on marked used, one after the other. */
  function MarkRun(p: Frames, i: nat, n: nat): (q: Frames)
    requires i + n <= |p.used|
    ensures |q.used| == |p.used| && q.start == p.start && q.regions == p.regions && q.hint == p.hint
  {
    if n == 0 then p
    else
      var q := MarkRun(p, i, n - 1);
      q.(used := q.used[i + n - 1 := true], usedPages := q.usedPages + 1)
  }

  function PagesNeeded(size: nat): nat { (size + PAGE_SIZE - 1) / PAGE_SIZE }

  /** More than one page may only be asked for if memory has that many: the search bound of the code
      is the unsigned difference of the two numbers. */
  predicate SizeAllowed(size: nat, totalPages: nat) { PagesNeeded(size) <= 1 || PagesNeeded(size) <= totalPages }

  /** `kmalloc`: one page from the page allocator, several by first fit from page 0; 0 for none. */
  function KMalloc(p: Frames, size: nat): (Frames, nat)
    requires p.hint <= |p.used| && SizeAllowed(size, |p.used|)
  {
    var k := PagesNeeded(size);
    if size == 0 then (p, 0)
    else if k == 1 then AllocPage(p)
    else
      var i := FirstRun(p, k, 0, |p.used| - k);
      if i <= |p.used| - k then (MarkRun(p, i, k), PageAddr(p, i)) else (p, 0)
  }

  /** `kfree`: releases the one page the pointer lies in, whatever was allocated there. */
  function KFree(p: Frames, ptr: nat): Frames {
    if ptr == 0 then p else FreePage(p, AlignDown(ptr))
  }

  lemma {:induction false} MarkRunMarks(p: Frames, i: nat, n: nat)
    requires i + n <= |p.used| && forall j: nat | i <= j < i + n :: !p.used[j]
    ensures forall j: nat | j < |p.used| :: MarkRun(p, i, n).used[j] == (p.used[j] || i <= j < i + n)
    ensures MarkRun(p, i, n).usedPages == p.usedPages + n
    ensures Count(MarkRun(p, i, n).used) == Count(p.used) + n
  {
    hide Count;
    if n > 0 {
      MarkRunMarks(p, i, n - 1);
      CountUpdate(MarkRun(p, i, n - 1).used, i + n - 1, true);
    }
  }

  /** q is p with the k pages from i on, unused before, marked and counted as used. */
  ghost predicate Took(p: Frames, q: Frames, i: nat, k: nat) {
    && FreeRun(p, i, k) && q.start == p.start && q.regions == p.regions
    && |q.used| == |p.used| && q.usedPages == p.usedPages + k
    && forall j: nat | j < |p.used| :: q.used[j] == (p.used[j] || i <= j < i + k)
  }

  /** kmalloc of k pages hands out the lowest run of k free pages, and fails only if there is none;
      what it hands out was unused before; k more bits are set and counted, and the invariant holds. */
  lemma KMallocTakes(p: Frames, size: nat) returns (i: nat)
    requires FramesOK(p) && size > 0 && SizeAllowed(size, |p.used|)
    ensures FramesOK(KMalloc(p, size).0)
    ensures 4096 * (PagesNeeded(size) - 1) < size <= 4096 * PagesNeeded(size)
    ensures size > 4096 ==> KMalloc(p, size).0.hint == p.hint
    ensures KMalloc(p, size).1 == 0 ==>
              KMalloc(p, size).0 == p && forall j: nat :: !FreeRun(p, j, PagesNeeded(size))
    ensures KMalloc(p, size).1 != 0 ==>
              && KMalloc(p, size).1 == PageAddr(p, i) && Took(p, KMalloc(p, size).0, i, PagesNeeded(size))
              && forall j: nat | j < i :: !FreeRun(p, j, PagesNeeded(size))
  {
    hide HintOK, Available, Count, MarkRun, PagesNeeded;
    SomePages(size);
    var k := PagesNeeded(size);
    i := 0;
    if k == 1 {
      OnePageRuns(p);
      AllocIsLowest(p);
      if AllocPage(p).1 != 0 {
        i := AllocTakes(p);
      }
    } else {
      i := FirstRun(p, k, 0, |p.used| - k);
      if i <= |p.used| - k {
        TakeRun(p, i, k);
      }
    }
  }

  lemma SomePages(size: nat)
    requires size > 0
    ensures PagesNeeded(size) >= 1 && 4096 * (PagesNeeded(size) - 1) < size <= 4096 * PagesNeeded(size)
  {
  }

  lemma TakeRun(p: Frames, i: nat, k: nat)
    requires FramesOK(p) && FreeRun(p, i, k) && k > 0
    ensures FramesOK(MarkRun(p, i, k)) && Took(p, MarkRun(p, i, k), i, k) && PageAddr(p, i) != 0
  {
    forall j: nat | i <= j < i + k ensures !p.used[j] {
      assert Free(p, j);
    }
    assert Free(p, i);
    MarkRunMarks(p, i, k);
  }

  lemma OnePageRuns(p: Frames)
    ensures forall i: nat :: FreeRun(p, i, 1) <==> Free(p, i)
  {
    forall i: nat ensures FreeRun(p, i, 1) <==> Free(p, i) {
      if FreeRun(p, i, 1) {
        assert Free(p, i);
      }
    }
  }

  /** kfree undoes kmalloc exactly for allocations of one page: freeing a k-page allocation leaves
      the bitmap with exactly k - 1 bits more than before, those of all pages but the first. */
  lemma KFreeAfterKMalloc(p: Frames, size: nat) returns (i: nat)
    requires FramesOK(p) && size > 0 && SizeAllowed(size, |p.used|) && KMalloc(p, size).1 != 0
    ensures KMalloc(p, size).1 == PageAddr(p, i) && FreeRun(p, i, PagesNeeded(size))
    ensures var r := KFree(KMalloc(p, size).0, KMalloc(p, size).1);
            var k := PagesNeeded(size);
            && FramesOK(r)
            && r.usedPages == p.usedPages + k - 1
            && (r.used == p.used <==> k == 1)
            && |r.used| == |p.used|
            && forall j: nat | j < |p.used| :: r.used[j] == (p.used[j] || i < j < i + k)
  {
    var q, addr := KMalloc(p, size).0, KMalloc(p, size).1;
    var k := PagesNeeded(size);
    i := KMallocTakes(p, size);
    hide KMalloc, HintOK, Usable;
    ReleaseFirst(p, q, i, k);
    assert addr % PAGE_SIZE == 0;
    assert KFree(q, addr) == FreePage(q, addr);
  }

  lemma ReleaseFirst(p: Frames, q: Frames, i: nat, k: nat)
    requires FramesOK(p) && FramesOK(q) && Took(p, q, i, k) && k > 0
    ensures PageAddr(p, i) != 0 && PageAddr(p, i) % PAGE_SIZE == 0
    ensures var r := FreePage(q, PageAddr(p, i));
            && FramesOK(r)
            && r.usedPages == p.usedPages + k - 1
            && (r.used == p.used <==> k == 1)
            && |r.used| == |p.used|
            && forall j: nat | j < |p.used| :: r.used[j] == (p.used[j] || i < j < i + k)
  {
    var r := FreePage(q, PageAddr(p, i));
    assert Free(p, i);
    PageIndexOf(q, i);
    FreeKeeps(q, PageAddr(p, i));
    assert q.used[i] && !r.used[i];
    if k > 1 {
      assert Free(p, i + 1) && r.used[i + 1];
    }
  }

  // ---------------------------------------------------------------- whole runs

  datatype Call = Alloc | Release(addr: nat) | Malloc(size: nat) | Mfree(ptr: nat)

  /** What the source demands of a caller: a multi-page request no larger than memory. */
  predicate Allowed(p: Frames, c: Call) { c.Malloc? ==> SizeAllowed(c.size, |p.used|) }

  function Perform(p: Frames, c: Call): Frames
    requires p.hint <= |p.used| && Allowed(p, c)
  {
    match c
    case Alloc => AllocPage(p).0
    case Release(addr) => FreePage(p, addr)
    case Malloc(size) => KMalloc(p, size).0
    case Mfree(ptr) => KFree(p, ptr)
  }

  /** The allocator after a list of calls; calls the source forbids are skipped. */
  function PerformAll(p: Frames, calls: seq<Call>): (q: Frames)
    requires p.hint <= |p.used|
    ensures q.hint <= |q.used|
    decreases |calls|
  {
    if calls == [] then p
    else
      var q := PerformAll(p, calls[..|calls| - 1]);
      if Allowed(q, calls[|calls| - 1]) then Perform(q, calls[|calls| - 1]) else q
  }

  lemma PerformKeeps(p: Frames, c: Call)
    requires FramesOK(p) && Allowed(p, c)
    ensures FramesOK(Perform(p, c))
  {
    match c
    case Alloc => AllocIsLowest(p);
    case Release(addr) => FreeKeeps(p, addr);
    case Malloc(size) =>
      if size > 0 {
        var _ := KMallocTakes(p, size);
      }
    case Mfree(ptr) => FreeKeeps(p, AlignDown(ptr));
  }

  /** Over every run from an empty bitmap: the hint never hides a free page, the counter equals the
      number of set bits, and so the next page handed out is always the lowest free one. */
  lemma {:induction false} RunKeeps(p: Frames, calls: seq<Call>)
    requires FramesOK(p)
    ensures FramesOK(PerformAll(p, calls))
    decreases |calls|
  {
    if calls != [] {
      RunKeeps(p, calls[..|calls| - 1]);
      var q := PerformAll(p, calls[..|calls| - 1]);
      if Allowed(q, calls[|calls| - 1]) {
        PerformKeeps(q, calls[|calls| - 1]);
      }
    }
  }
}
