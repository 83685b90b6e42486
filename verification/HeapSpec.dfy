/** The user heap on values: blocks of virtual pages over the page tables and the frame allocator,
    and why no heap operation can touch another live block. */
module HeapSpec {
  import opened FrameSpec
  import opened PageSpec

  const HEAP_START := 0x4000_0000_0000

  /** The limit the code checks, a 55-bit number, ... */
  const HEAP_END := 0x7F_FFFF_FFFF_FFFF

  /** ... and the end of the user half of the 48-bit address space, which its comment names. */
  const HEAP_TOP := 0x8000_0000_0000

  /** Pages of the heap, numbered from HEAP_START. */
  const HEAP_PAGES := 0x4_0000_0000

  /** PRESENT, WRITABLE and USER. */
  const HEAP_FLAGS := 7

  function PageVA(q: nat): nat { HEAP_START + q * PAGE_SIZE }

  /** Number of the heap page an address lies in. */
  function PageOf(vaddr: nat): nat { if vaddr >= HEAP_START then (vaddr - HEAP_START) / PAGE_SIZE else 0 }

  /** The page-table entry of heap page q. */
  function Pte(m: Machine, q: nat): nat { Leaf(m, PathOf(PageVA(q))) }

  lemma HeapPaths(q: nat, r: nat)
    requires q < HEAP_PAGES && r < HEAP_PAGES
    ensures 128 <= PathOf(PageVA(q)).a < 256
    ensures PathOf(PageVA(q)) == PathOf(PageVA(r)) <==> q == r
  {
    SamePath(PageVA(q), PageVA(r));
    assert PageVA(q) / 0x1000 == 0x4_0000_0000 + q && PageVA(r) / 0x1000 == 0x4_0000_0000 + r;
  }

  /** The root entries of the heap hold trees of 4 KiB pages. */
  predicate HeapSlots(m: Machine) { forall i: nat | 128 <= i < 256 :: i in m.slots }

  /** Every mapped heap page has a frame of its own: handed out, no table, no block descriptor, and
      shared with no other heap page. */
  ghost predicate MapOK(m: Machine, ds: set<nat>) {
    && (forall q: nat | q < HEAP_PAGES && Present(Pte(m, q)) ::
          var f := FrameOf(Pte(m, q)); Owned(m.frames, f) && f !in m.tables && f !in ds && f != 0)
    && (forall q: nat, r: nat | q < HEAP_PAGES && r < HEAP_PAGES && q != r && Present(Pte(m, q)) && Present(Pte(m, r)) ::
          FrameOf(Pte(m, q)) != FrameOf(Pte(m, r)))
  }

  /** The block descriptors sit in frames handed out for them, and no table does. */
  ghost predicate DescsOK(m: Machine, ds: set<nat>) {
    forall d | d in ds :: Owned(m.frames, d) && d !in m.tables
  }

  ghost predicate LayersOK(m: Machine, ds: set<nat>) {
    MachineOK(m) && HeapSlots(m) && MapOK(m, ds) && DescsOK(m, ds)
  }

  /** From m to n the layers stay consistent, and no heap page outside [lo, hi) changes its frame or
      the contents of its frame. */
  ghost predicate Keeps(m: Machine, n: Machine, lo: nat, hi: nat, ds: set<nat>) {
    && LayersOK(n, ds)
    && n.frames.regions == m.frames.regions && n.frames.start == m.frames.start && |n.frames.used| == |m.frames.used|
    && (forall q: nat | q < HEAP_PAGES && !(lo <= q < hi) :: Pte(n, q) == Pte(m, q))
    && (forall q: nat | q < HEAP_PAGES && !(lo <= q < hi) && Present(Pte(m, q)) ::
          FrameAt(n.mem, FrameOf(Pte(m, q))) == FrameAt(m.mem, FrameOf(Pte(m, q))))
  }

  lemma KeepsSelf(m: Machine, lo: nat, hi: nat, ds: set<nat>)
    requires LayersOK(m, ds)
    ensures Keeps(m, m, lo, hi, ds)
  {
    hide Pte, LayersOK;
  }

  lemma KeepsTrans(l: Machine, m: Machine, n: Machine, lo: nat, hi: nat, ds: set<nat>)
    requires Keeps(l, m, lo, hi, ds) && Keeps(m, n, lo, hi, ds)
    ensures Keeps(l, n, lo, hi, ds)
  {
    hide Pte, LayersOK;
  }

  // ---------------------------------------------------------------- one page up, one page down

  /** A page from the allocator, mapped at heap page q: the machine, whether it worked, and the page. */
  function MapFresh(m: Machine, q: nat): (r: (Machine, bool, nat))
    requires m.frames.hint <= |m.frames.used|
    ensures r.0.frames.hint <= |r.0.frames.used|
  {
    var (p, a) := AllocPage(m.frames);
    if a == 0 then (m, false, 0)
    else
      var (n, ok) := MapPage(m.(frames := p), PageVA(q), a, HEAP_FLAGS);
      (n, ok, a)
  }

  /** Taking a page from the allocator, nothing else. */
  lemma TakeKeeps(m: Machine, ds: set<nat>)
    requires LayersOK(m, ds) && AllocPage(m.frames).1 != 0
    ensures var (p, a) := AllocPage(m.frames);
            var n := m.(frames := p);
            && LayersOK(n, ds) && Owned(p, a) && a % PAGE_SIZE == 0
            && a !in m.tables && a !in ds && !Owned(m.frames, a)
            && (forall b: nat | Owned(m.frames, b) :: Owned(p, b))
            && forall q: nat :: Pte(n, q) == Pte(m, q)
  {
    var k := FreshPage(m);
    var (p, a) := AllocPage(m.frames);
    SameTables(m, m.(frames := p));
    hide Owned, Entry, AllocPage, FramesOK;
  }

  /** The walk looks at memory and the root alone. */
  lemma SameTables(m: Machine, n: Machine)
    requires n == m.(frames := n.frames)
    ensures forall t: nat, i: nat | i < 512 :: Entry(n, t, i) == Entry(m, t, i)
    ensures forall p: Path | Indices(p) :: Leaf(n, p) == Leaf(m, p)
    ensures forall q: nat :: Pte(n, q) == Pte(m, q)
  {
  }

  /** Mapping a fresh page at heap page q touches no other heap page. */
  lemma MapFreshKeeps(m: Machine, q: nat, ds: set<nat>)
    requires LayersOK(m, ds) && q < HEAP_PAGES
    ensures var (n, ok, a) := MapFresh(m, q);
            && Keeps(m, n, q, q + 1, ds)
            && (ok ==> Present(Pte(n, q)) && Pte(n, q) % 8 == 7)
            && (!ok ==> Pte(n, q) == Pte(m, q))
            && (!ok && a == 0 ==> n == m)
            && (!ok && a != 0 ==> Spare(n, a, ds))
  {
    if AllocPage(m.frames).1 == 0 {
      KeepsSelf(m, q, q + 1, ds);
    } else {
      MapTaken(m, q, ds);
      TakeKeeps(m, ds);
    }
  }

  /** The page once taken from the allocator. */
  lemma MapTaken(m: Machine, q: nat, ds: set<nat>)
    requires LayersOK(m, ds) && q < HEAP_PAGES && AllocPage(m.frames).1 != 0
    ensures var (n, ok, a) := MapFresh(m, q);
            && Keeps(m, n, q, q + 1, ds)
            && (ok ==> Present(Pte(n, q)) && Pte(n, q) % 8 == 7)
            && (!ok ==> Pte(n, q) == Pte(m, q) && Spare(n, a, ds))
  {
    hide MapPage, PathOf, LeafEntry, Owned, FrameOf, Present, PageVA, AllocPage, TreeOK, FramesOK, AlignDown, Leaf,
         Entry, FrameAt;
    LayersHint(m, ds);
    TakeKeeps(m, ds);
    var (p, a) := AllocPage(m.frames);
    var m1 := m.(frames := p);
    LayersHint(m1, ds);
    HeapPaths(q, q);
    MapsExactlyOne(m1, PageVA(q), a, HEAP_FLAGS);
    LeafEntryFacts(a, HEAP_FLAGS);
    LeafBits(a);
    Aligned(a);
    var (n, ok) := MapPage(m1, PageVA(q), a, HEAP_FLAGS);
    MappedPtes(m1, n, q, ok, LeafEntry(a, HEAP_FLAGS));
    hide Pte;
    GrownMap(m, m1, n, q, ok, a, ds);
  }

  /** The entry of a heap page is present, writable and open to user programs. */
  lemma LeafBits(a: nat)
    ensures LeafEntry(a, HEAP_FLAGS) % 8 == 7
  {
    hide LeafEntry, AlignDown;
    LeafIsSum(a, HEAP_FLAGS);
    LowBits(AlignDown(a));
  }

  lemma Aligned(a: nat)
    requires a % PAGE_SIZE == 0
    ensures AlignDown(a) == a
  {
  }

  /** Page a is handed out and in no one's use. */
  ghost predicate Spare(m: Machine, a: nat, ds: set<nat>) {
    && Owned(m.frames, a) && a !in m.tables && a !in ds
    && forall q: nat | q < HEAP_PAGES && Present(Pte(m, q)) :: FrameOf(Pte(m, q)) != a
  }

  /** One path's leaf changed: one heap page's entry did. */
  lemma MappedPtes(m: Machine, n: Machine, q: nat, ok: bool, e: nat)
    requires q < HEAP_PAGES && HeapSlots(m)
    requires forall p: Path | Walkable(m, p) && (p != PathOf(PageVA(q)) || !ok) :: Leaf(n, p) == Leaf(m, p)
    requires ok ==> Leaf(n, PathOf(PageVA(q))) == e
    ensures forall r: nat | r < HEAP_PAGES && (r != q || !ok) :: Pte(n, r) == Pte(m, r)
    ensures ok ==> Pte(n, q) == e
  {
    forall r: nat | r < HEAP_PAGES && (r != q || !ok) ensures Pte(n, r) == Pte(m, r) {
      HeapPaths(r, q);
      hide PathOf, PageVA;
    }
  }

  lemma GrownMap(m0: Machine, m: Machine, n: Machine, q: nat, ok: bool, a: nat, ds: set<nat>)
    requires LayersOK(m0, ds) && LayersOK(m, ds) && MachineOK(n) && Grown(m, n) && q < HEAP_PAGES
    requires m == m0.(frames := m.frames) && m.frames.regions == m0.frames.regions
    requires m.frames.start == m0.frames.start && |m.frames.used| == |m0.frames.used|
    requires forall r: nat :: Pte(m, r) == Pte(m0, r)
    requires Owned(m.frames, a) && !Owned(m0.frames, a) && a !in m.tables && a !in ds && a != 0
    requires forall r: nat | r < HEAP_PAGES && (r != q || !ok) :: Pte(n, r) == Pte(m, r)
    requires ok ==> Present(Pte(n, q)) && FrameOf(Pte(n, q)) == a
    ensures Keeps(m0, n, q, q + 1, ds) && (!ok ==> Spare(n, a, ds))
  {
    hide Pte, Owned, FrameOf, Present, FrameAt, MachineOK;
    assert MapOK(m0, ds);
    assert forall r: nat | r < HEAP_PAGES && Present(Pte(m0, r)) :: FrameOf(Pte(m0, r)) != a;
    assert forall f | Owned(m.frames, f) && f !in m.tables :: f !in n.tables;
  }

  // ---------------------------------------------------------------- giving pages back

  lemma FreeOwned(p: Frames, f: nat)
    requires FramesOK(p) && Owned(p, f)
    ensures var q := FreePage(p, f);
            && FramesOK(q) && q.start == p.start && q.regions == p.regions && |q.used| == |p.used|
            && forall b: nat :: Owned(q, b) <==> Owned(p, b) && b != f
  {
    FreeKeeps(p, f);
    var q := FreePage(p, f);
    forall b: nat ensures Owned(q, b) <==> Owned(p, b) && b != f {
      if Owned(p, b) && PageIndex(p, b) == PageIndex(p, f) {
        SameIndex(p, b, f);
      }
    }
  }

  lemma SameIndex(p: Frames, b: nat, f: nat)
    requires p.start % PAGE_SIZE == 0 && b % PAGE_SIZE == 0 && f % PAGE_SIZE == 0 && b >= p.start && f >= p.start
    requires PageIndex(p, b) == PageIndex(p, f)
    ensures b == f
  {
  }

  /** A page no one uses can go back. */
  lemma GiveBack(m: Machine, a: nat, q: nat, ds: set<nat>)
    requires LayersOK(m, ds) && Spare(m, a, ds) && a != m.root
    ensures Keeps(m, m.(frames := FreePage(m.frames, a)), q, q + 1, ds)
    ensures forall r: nat :: Pte(m.(frames := FreePage(m.frames, a)), r) == Pte(m, r)
  {
    FreeOwned(m.frames, a);
    var n := m.(frames := FreePage(m.frames, a));
    SameTables(m, n);
    hide Entry, Pte, Owned, FrameOf, Present, FreePage, FramesOK;
  }

  /** Unmapping heap page q and freeing its frame touches no other heap page. */
  function Drop(m: Machine, q: nat): Machine {
    var phys := GetPhysical(m, PageVA(q));
    var n := UnmapPage(m, PageVA(q));
    n.(frames := FreePage(n.frames, phys))
  }

  lemma PhysicalOfPage(m: Machine, q: nat)
    ensures GetPhysical(m, PageVA(q)) == if Present(Pte(m, q)) then FrameOf(Pte(m, q)) else 0
  {
    hide PathOf, Leaf;
    assert PageVA(q) % PAGE_SIZE == 0;
  }

  lemma DropKeeps(m: Machine, q: nat, ds: set<nat>)
    requires LayersOK(m, ds) && q < HEAP_PAGES && Present(Pte(m, q))
    ensures Keeps(m, Drop(m, q), q, q + 1, ds) && Pte(Drop(m, q), q) == 0
  {
    HeapPaths(q, q);
    PhysicalOfPage(m, q);
    UnmapsExactlyOne(m, PageVA(q));
    var f := FrameOf(Pte(m, q));
    var n := UnmapPage(m, PageVA(q));
    MappedPtes(m, n, q, true, 0);
    hide UnmapPage, PathOf, Leaf, PageVA, Pte, Owned, FrameOf, FreePage, FramesOK, TreeOK, GetPhysical;
    UnmappedLayers(m, n, q, f, ds);
    GiveBack(n, f, q, ds);
    KeepsTrans(m, n, n.(frames := FreePage(n.frames, f)), q, q + 1, ds);
  }

  lemma UnmappedLayers(m: Machine, n: Machine, q: nat, f: nat, ds: set<nat>)
    requires LayersOK(m, ds) && MachineOK(n) && n.(mem := m.mem) == m && q < HEAP_PAGES
    requires Present(Pte(m, q)) && f == FrameOf(Pte(m, q)) && Pte(n, q) == 0
    requires forall r: nat | r < HEAP_PAGES && r != q :: Pte(n, r) == Pte(m, r)
    requires forall b: nat | b !in m.tables :: FrameAt(n.mem, b) == FrameAt(m.mem, b)
    ensures Keeps(m, n, q, q + 1, ds) && Spare(n, f, ds) && f != n.root
  {
    hide Pte, Owned, FrameOf, Present, FrameAt, MachineOK, HeapSlots;
    RootIsTable(m);
    UnmappedMap(m, n, q, ds);
    assert MapOK(m, ds);
    assert forall r: nat | r < HEAP_PAGES && Present(Pte(m, r)) :: FrameOf(Pte(m, r)) !in m.tables;
    assert HeapSlots(n) by { hide MapOK; HeapSlotsSame(m, n); }
  }

  lemma HeapSlotsSame(m: Machine, n: Machine)
    requires HeapSlots(m) && n.slots == m.slots
    ensures HeapSlots(n)
  {
  }

  lemma UnmappedMap(m: Machine, n: Machine, q: nat, ds: set<nat>)
    requires MapOK(m, ds) && n.(mem := m.mem) == m && Pte(n, q) == 0
    requires forall r: nat | r < HEAP_PAGES && r != q :: Pte(n, r) == Pte(m, r)
    ensures MapOK(n, ds)
  {
    ZeroAbsent();
    hide Pte, Owned, FrameOf, Present;
  }

  lemma ZeroAbsent()
    ensures !Present(0)
  {
  }

  lemma RootIsTable(m: Machine)
    requires MachineOK(m)
    ensures m.root in m.tables && !Present(0)
  {
  }

  // ---------------------------------------------------------------- loops over pages

  lemma KeepsWiden(m: Machine, n: Machine, q: nat, lo: nat, hi: nat, ds: set<nat>)
    requires Keeps(m, n, q, q + 1, ds) && lo <= q < hi
    ensures Keeps(m, n, lo, hi, ds)
  {
    hide Pte, LayersOK, FrameAt;
  }

  lemma KeepsLonger(m: Machine, n: Machine, lo: nat, hi: nat, hi': nat, ds: set<nat>)
    requires Keeps(m, n, lo, hi, ds) && hi <= hi'
    ensures Keeps(m, n, lo, hi', ds)
  {
    hide Pte, LayersOK, FrameAt;
  }

  /** How a mapping loop ends: the machine, the pages done, and, if it stopped because a table could
      not be had, the page left in hand. */
  datatype MapEnd = MapEnd(m: Machine, done: nat, page: nat, complete: bool)

  /** Maps fresh pages at heap pages [q, q + n) from number i on. */
  function MapLoop(m: Machine, q: nat, i: nat, n: nat): (r: MapEnd)
    requires m.frames.hint <= |m.frames.used| && i <= n
    ensures r.m.frames.hint <= |r.m.frames.used| && i <= r.done <= n && (r.complete <==> r.done == n)
    decreases n - i
  {
    if i == n then MapEnd(m, n, 0, true)
    else
      var (m', ok, a) := MapFresh(m, q + i);
      if ok then MapLoop(m', q, i + 1, n) else MapEnd(m', i, a, false)
  }

  predicate AllMapped(m: Machine, lo: nat, hi: nat) {
    forall r: nat | lo <= r < hi :: Present(Pte(m, r))
  }

  lemma {:induction false} MapLoopKeeps(m: Machine, q: nat, i: nat, n: nat, ds: set<nat>)
    requires LayersOK(m, ds) && i <= n && q + n <= HEAP_PAGES && AllMapped(m, q, q + i)
    ensures m.frames.hint <= |m.frames.used|
    ensures var r := MapLoop(m, q, i, n);
            && Keeps(m, r.m, q, q + n, ds) && AllMapped(r.m, q, q + r.done)
            && (!r.complete && r.page != 0 ==> Spare(r.m, r.page, ds))
            && (!r.complete && r.page == 0 ==> AllocPage(r.m.frames).1 == 0)
    decreases n - i
  {
    hide Pte, MapFresh, LayersOK, Keeps, Spare, AllMapped, AllocPage;
    LayersHint(m, ds);
    if i == n {
      KeepsSelf(m, q, q + n, ds);
    } else {
      MapFreshKeeps(m, q + i, ds);
      var (m', ok, a) := MapFresh(m, q + i);
      KeepsWiden(m, m', q + i, q, q + n, ds);
      KeepsLayers(m, m', q, q + n, ds);
      AllMapped1(m, m', q, i, ds);
      if ok {
        MapLoopKeeps(m', q, i + 1, n, ds);
        KeepsTrans(m, m', MapLoop(m', q, i + 1, n).m, q, q + n, ds);
      } else if a == 0 {
        NoPageLeft(m, q + i);
      }
    }
  }

  /** User programs can read and write heap pages [lo, hi): present, writable and user, bits 0 to 2. */
  ghost predicate AllUser(m: Machine, lo: nat, hi: nat) {
    forall r: nat | lo <= r < hi :: Pte(m, r) % 8 == 7
  }

  /** What the loop maps it maps for user programs. */
  lemma {:induction false} MapLoopUser(m: Machine, q: nat, i: nat, n: nat, ds: set<nat>)
    requires LayersOK(m, ds) && i <= n && q + n <= HEAP_PAGES && AllUser(m, q, q + i)
    ensures m.frames.hint <= |m.frames.used|
    ensures var r := MapLoop(m, q, i, n); AllUser(r.m, q, q + r.done)
    decreases n - i
  {
    hide Pte, MapFresh, LayersOK, Keeps, Spare, AllUser, AllocPage, Present;
    LayersHint(m, ds);
    if i < n {
      MapFreshKeeps(m, q + i, ds);
      var (m', ok, a) := MapFresh(m, q + i);
      KeepsLayers(m, m', q + i, q + i + 1, ds);
      AllUser1(m, m', q, i, ds);
      if ok {
        MapLoopUser(m', q, i + 1, n, ds);
      }
    }
  }

  lemma AllUser1(m: Machine, n: Machine, q: nat, i: nat, ds: set<nat>)
    requires AllUser(m, q, q + i) && Keeps(m, n, q + i, q + i + 1, ds) && q + i < HEAP_PAGES
    ensures AllUser(n, q, q + i)
    ensures Pte(n, q + i) % 8 == 7 ==> AllUser(n, q, q + i + 1)
  {
    hide Pte, LayersOK, FrameAt;
  }

  lemma LayersHint(m: Machine, ds: set<nat>)
    requires LayersOK(m, ds)
    ensures m.frames.hint <= |m.frames.used|
  {
  }

  lemma NoPageLeft(m: Machine, q: nat)
    requires m.frames.hint <= |m.frames.used| && MapFresh(m, q).2 == 0
    ensures AllocPage(m.frames).1 == 0
  {
    hide AllocPage, MapPage;
  }

  lemma AllMapped1(m: Machine, n: Machine, q: nat, i: nat, ds: set<nat>)
    requires AllMapped(m, q, q + i) && Keeps(m, n, q + i, q + i + 1, ds) && q + i < HEAP_PAGES
    ensures AllMapped(n, q, q + i)
    ensures Present(Pte(n, q + i)) ==> AllMapped(n, q, q + i + 1)
  {
    hide Pte, LayersOK, FrameAt;
  }

  /** Unmaps and frees heap pages [q, q + n) from number j on, skipping those that are not mapped. */
  function ReleaseLoop(m: Machine, q: nat, j: nat, n: nat): Machine
    requires j <= n
    decreases n - j
  {
    if j == n then m
    else ReleaseLoop(if GetPhysical(m, PageVA(q + j)) != 0 then Drop(m, q + j) else m, q, j + 1, n)
  }

  predicate NoneMapped(m: Machine, lo: nat, hi: nat) {
    forall r: nat | lo <= r < hi :: !Present(Pte(m, r))
  }

  lemma ReleaseStep(m: Machine, q: nat, ds: set<nat>)
    requires LayersOK(m, ds) && q < HEAP_PAGES
    ensures GetPhysical(m, PageVA(q)) != 0 <==> Present(Pte(m, q))
    ensures var n := if GetPhysical(m, PageVA(q)) != 0 then Drop(m, q) else m;
            Keeps(m, n, q, q + 1, ds) && !Present(Pte(n, q))
  {
    hide Pte, PageVA, GetPhysical, Drop, FrameOf, Owned;
    PhysicalOfPage(m, q);
    assert MapOK(m, ds);
    if Present(Pte(m, q)) {
      DropKeeps(m, q, ds);
    } else {
      KeepsSelf(m, q, q + 1, ds);
    }
  }

  lemma {:induction false} ReleaseLoopKeeps(m: Machine, q: nat, j: nat, n: nat, ds: set<nat>)
    requires LayersOK(m, ds) && j <= n && q + n <= HEAP_PAGES && NoneMapped(m, q, q + j)
    ensures var r := ReleaseLoop(m, q, j, n);
            Keeps(m, r, q, q + n, ds) && NoneMapped(r, q, q + n)
    decreases n - j
  {
    hide Pte, PageVA, GetPhysical, Drop, LayersOK, Keeps, NoneMapped;
    if j == n {
      KeepsSelf(m, q, q + n, ds);
    } else {
      var m' := if GetPhysical(m, PageVA(q + j)) != 0 then Drop(m, q + j) else m;
      ReleaseStep(m, q + j, ds);
      NoneMapped1(m, m', q, j, ds);
      KeepsWiden(m, m', q + j, q, q + n, ds);
      KeepsLayers(m, m', q, q + n, ds);
      ReleaseLoopKeeps(m', q, j + 1, n, ds);
      KeepsTrans(m, m', ReleaseLoop(m', q, j + 1, n), q, q + n, ds);
    }
  }

  lemma KeepsLayers(m: Machine, n: Machine, lo: nat, hi: nat, ds: set<nat>)
    requires Keeps(m, n, lo, hi, ds)
    ensures LayersOK(n, ds) && n.frames.hint <= |n.frames.used|
  {
  }

  lemma NoneMapped1(m: Machine, n: Machine, q: nat, j: nat, ds: set<nat>)
    requires NoneMapped(m, q, q + j) && !Present(Pte(n, q + j)) && q + j < HEAP_PAGES
    requires Keeps(m, n, q + j, q + j + 1, ds)
    ensures NoneMapped(n, q, q + j + 1)
  {
    hide Pte, LayersOK, FrameAt;
  }

  /** The clean-up loops of a failed allocation: pages known to be mapped go back. */
  function CleanLoop(m: Machine, q: nat, j: nat, n: nat): Machine
    requires j <= n
    decreases n - j
  {
    if j == n then m else CleanLoop(Drop(m, q + j), q, j + 1, n)
  }

  /** Where every page is mapped, cleaning up is releasing. */
  lemma {:induction false} CleanIsRelease(m: Machine, q: nat, j: nat, n: nat, ds: set<nat>)
    requires LayersOK(m, ds) && j <= n && q + n <= HEAP_PAGES && AllMapped(m, q + j, q + n)
    ensures CleanLoop(m, q, j, n) == ReleaseLoop(m, q, j, n)
    decreases n - j
  {
    hide Pte, PageVA, GetPhysical, Drop, LayersOK, Keeps;
    if j < n {
      ReleaseStep(m, q + j, ds);
      KeepsLayers(m, Drop(m, q + j), q + j, q + j + 1, ds);
      AllMappedStill(m, Drop(m, q + j), q + j, q + n, ds);
      CleanIsRelease(Drop(m, q + j), q, j + 1, n, ds);
    }
  }

  lemma AllMappedStill(m: Machine, n: Machine, lo: nat, hi: nat, ds: set<nat>)
    requires AllMapped(m, lo, hi) && hi <= HEAP_PAGES && Keeps(m, n, lo, lo + 1, ds)
    ensures AllMapped(n, lo + 1, hi)
  {
    hide Pte, LayersOK, FrameAt;
  }

  // ---------------------------------------------------------------- blocks

  /** A block of the list; `desc` is the frame of its descriptor. */
  datatype Block = Block(addr: nat, size: nat, isFree: bool, desc: nat)

  datatype Heap = Heap(m: Machine, blocks: seq<Block>, next: nat, totalAllocated: int, totalFree: int)

  function First(b: Block): nat { PageOf(b.addr) }

  function Pages(b: Block): nat { b.size / PAGE_SIZE }

  /** From its head on the list tiles [HEAP_START, top) downwards, without gaps, in whole pages. */
  predicate Tiles(blocks: seq<Block>, top: nat) {
    if blocks == [] then top == HEAP_START
    else
      && blocks[0].addr + blocks[0].size == top
      && blocks[0].size > 0 && blocks[0].size % PAGE_SIZE == 0 && blocks[0].addr % PAGE_SIZE == 0
      && Tiles(blocks[1..], blocks[0].addr)
  }

  /** Bytes in the blocks that are free, or that are in use. */
  function SumOf(blocks: seq<Block>, free: bool): int {
    if blocks == [] then 0
    else (if blocks[0].isFree == free then blocks[0].size else 0) + SumOf(blocks[1..], free)
  }

  /** The bookkeeping adds up: everything below the top is in exactly one block. */
  lemma {:induction false} SumsTile(blocks: seq<Block>, top: nat)
    requires Tiles(blocks, top)
    ensures SumOf(blocks, true) + SumOf(blocks, false) == top - HEAP_START
  {
    if blocks != [] {
      SumsTile(blocks[1..], blocks[0].addr);
    }
  }

  lemma {:induction false} TilesBounds(blocks: seq<Block>, top: nat, i: nat)
    requires Tiles(blocks, top) && i < |blocks|
    ensures HEAP_START <= blocks[i].addr && blocks[i].addr + blocks[i].size <= top
    ensures blocks[i].size > 0 && blocks[i].size % PAGE_SIZE == 0 && blocks[i].addr % PAGE_SIZE == 0
  {
    if i > 0 {
      TilesBounds(blocks[1..], blocks[0].addr, i - 1);
      TilesTop(blocks[1..], blocks[0].addr);
    } else {
      TilesTop(blocks[1..], blocks[0].addr);
    }
  }

  lemma {:induction false} TilesTop(blocks: seq<Block>, top: nat)
    requires Tiles(blocks, top)
    ensures HEAP_START <= top && top % PAGE_SIZE == 0
  {
    if blocks != [] {
      TilesTop(blocks[1..], blocks[0].addr);
    }
  }

  /** Different blocks do not overlap. */
  lemma {:induction false} TilesDisjoint(blocks: seq<Block>, top: nat, i: nat, j: nat)
    requires Tiles(blocks, top) && i < j < |blocks|
    ensures blocks[j].addr + blocks[j].size <= blocks[i].addr
  {
    if i == 0 {
      TilesBounds(blocks[1..], blocks[0].addr, j - 1);
    } else {
      TilesDisjoint(blocks[1..], blocks[0].addr, i - 1, j - 1);
    }
  }

  lemma {:induction false} TilesMarked(blocks: seq<Block>, top: nat, i: nat, f: bool)
    requires Tiles(blocks, top) && i < |blocks|
    ensures Tiles(blocks[i := blocks[i].(isFree := f)], top)
  {
    if i > 0 {
      TilesMarked(blocks[1..], blocks[0].addr, i - 1, f);
      assert blocks[i := blocks[i].(isFree := f)][1..] == blocks[1..][i - 1 := blocks[i].(isFree := f)];
    } else {
      assert blocks[0 := blocks[0].(isFree := f)][1..] == blocks[1..];
    }
  }

  lemma {:induction false} SumsMarked(blocks: seq<Block>, i: nat, f: bool, g: bool)
    requires i < |blocks|
    ensures SumOf(blocks[i := blocks[i].(isFree := f)], g)
         == SumOf(blocks, g) - (if blocks[i].isFree == g then blocks[i].size else 0) + (if f == g then blocks[i].size else 0)
  {
    if i > 0 {
      SumsMarked(blocks[1..], i - 1, f, g);
      assert blocks[i := blocks[i].(isFree := f)][1..] == blocks[1..][i - 1 := blocks[i].(isFree := f)];
    } else {
      assert blocks[0 := blocks[0].(isFree := f)][1..] == blocks[1..];
    }
  }

  /** Page number arithmetic of a block. */
  lemma BlockPages(b: Block, top: nat)
    requires HEAP_START <= b.addr && b.addr % PAGE_SIZE == 0 && b.size % PAGE_SIZE == 0 && b.addr + b.size <= top <= HEAP_TOP
    ensures b.addr == PageVA(First(b)) && First(b) + Pages(b) <= HEAP_PAGES
    ensures b.addr + b.size == PageVA(First(b) + Pages(b))
  {
  }
}
