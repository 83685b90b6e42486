/** When `umalloc` fails on a block it finds free, told from the state before the call; and why, over the
    heaps a program can reach, the pages alone decide it: page tables once there stay. */
module HeapReuse {
  import opened FrameSpec
  import opened PageSpec
  import opened HeapSpec
  import opened HeapIsolation
  import opened HeapLeak
  import HeapRun
  import opened Wrappers

  // ---------------------------------------------------------------- from the invariant alone

  /** A block that was free is not granted exactly if the free pages do not suffice for its pages and
      their tables; block k ends marked in use all the same. */
  lemma ReuseFailsExactly(h: Heap, k: nat)
    requires HeapOK(h) && k < |h.blocks| && h.blocks[k].isFree
    ensures HintBound(h)
    ensures Reuse(h, k).1 == 0
       <==> FreePages(h.m.frames) < Need(h.m, First(h.blocks[k]), 0, Pages(h.blocks[k]))
  {
    hide LayersOK, HeapOK, BooksOK, Descs, MapLoop, FreePages, Need, First, Pages, Mark;
    var q, n := First(h.blocks[k]), Pages(h.blocks[k]);
    LayersOf(h);
    BooksOf(h);
    BlockInHeap(h, k);
    LoopCost(h.m, q, 0, n, Descs(h.blocks));
    var r := MapLoop(h.m, q, 0, n);
    if !r.complete {
      NeedGrows(h.m, q, 0, r.done + 1, n);
    }
  }

  // ---------------------------------------------------------------- tables stay

  /** Entry i of table t is on the path of a heap page. */
  predicate OnHeapPath(m: Machine, t: nat, i: nat) {
    t in m.tables && i < 512 && 128 <= (if m.tables[t] == [] then i else m.tables[t][0]) < 256
  }

  /** Present, writable and user: bits 0 to 2. */
  predicate UserBits(e: nat) { e % 8 == 7 }

  /** What is present on the paths of heap pages in n and was not so in m is open to user programs. */
  ghost predicate NewIsUser(m: Machine, n: Machine) {
    forall t: nat, i: nat | OnHeapPath(n, t, i) && Present(Entry(n, t, i)) ::
      UserBits(Entry(n, t, i)) || (t in m.tables && Entry(m, t, i) == Entry(n, t, i))
  }

  /** What leads from table to table in m leads there in n, and what is new on the paths of heap pages is
      open to user programs. */
  ghost predicate LinksStay(m: Machine, n: Machine) {
    && n.root == m.root && n.slots == m.slots
    && (forall t | t in m.tables :: t in n.tables && n.tables[t] == m.tables[t])
    && (forall t: nat, i: nat | Tracked(m, t, i) && Present(Entry(m, t, i)) :: Entry(n, t, i) == Entry(m, t, i))
    && NewIsUser(m, n)
  }

  lemma LinksTrans(l: Machine, m: Machine, n: Machine)
    requires LinksStay(l, m) && LinksStay(m, n)
    ensures LinksStay(l, n)
  {
    hide Entry, Present, UserBits;
    forall t: nat, i: nat | Tracked(l, t, i) && Present(Entry(l, t, i)) ensures Entry(n, t, i) == Entry(l, t, i) {
      assert Tracked(m, t, i);
    }
    forall t: nat, i: nat | OnHeapPath(n, t, i) && Present(Entry(n, t, i))
      ensures UserBits(Entry(n, t, i)) || (t in l.tables && Entry(l, t, i) == Entry(n, t, i))
    {
      assert t in m.tables ==> OnHeapPath(m, t, i);
    }
  }

  lemma LinksSelf(m: Machine, n: Machine)
    requires n == m.(frames := n.frames)
    ensures LinksStay(m, n)
  {
    SameTables(m, n);
    hide Entry;
  }

  /** ... so no path becomes shallower. */
  lemma LinksDeepen(m: Machine, n: Machine, p: Path)
    requires TreeOK(m) && LinksStay(m, n) && Walkable(m, p)
    ensures Depth(n, p) >= Depth(m, p)
  {
    hide NewIsUser, Entry, Owned, FrameOf, Present;
    assert Tracked(m, m.root, p.a);
    if Child(m, m.root, p.a).Some? {
      var t3 := Child(m, m.root, p.a).value;
      assert Tracked(m, t3, p.b) && m.tables[t3] == [p.a];
      if Child(m, t3, p.b).Some? {
        assert Tracked(m, Child(m, t3, p.b).value, p.c);
      }
    }
  }

  lemma EnsureLinksStay(m: Machine, t: nat, i: nat)
    requires MachineOK(m) && t in m.tables && i < 512
    ensures m.frames.hint <= |m.frames.used|
    ensures LinksStay(m, EnsureTable(m, t, i, true).0)
  {
    FramesHint(m);
    if !Present(Entry(m, t, i)) && AllocPage(m.frames).1 != 0 {
      EnsureLinks(m, t, i, true);
      LowBits(AllocPage(m.frames).1);
      hide EnsureTable, Entry, FrameOf, MachineOK, AllocPage;
    } else {
      LinksSelf(m, m);
    }
  }

  lemma PathLinksStay(m: Machine, p: Path)
    requires MachineOK(m) && Walkable(m, p)
    ensures m.frames.hint <= |m.frames.used|
    ensures LinksStay(m, EnsurePath(m, p, true).0)
  {
    hide Entry, Leaf, Owned, EnsureTable, Extends, OnlyTables, LinksStay, FramesOK;
    FramesHint(m);
    RootIsTable(m);
    EnsureLinksStay(m, m.root, p.a);
    EnsureKeeps(m, m.root, p.a, true);
    var (m1, t3) := EnsureTable(m, m.root, p.a, true);
    ExtendsParts(m, m1);
    if t3 != 0 {
      EnsureLinksStay(m1, t3, p.b);
      EnsureKeeps(m1, t3, p.b, true);
      var (m2, t2) := EnsureTable(m1, t3, p.b, true);
      LinksTrans(m, m1, m2);
      if t2 != 0 {
        EnsureLinksStay(m2, t2, p.c);
        LinksTrans(m, m2, EnsureTable(m2, t2, p.c, true).0);
      }
    }
  }

  /** Writing an entry of a last-level table. */
  lemma SetLinksStay(m: Machine, t: nat, i: nat, e: nat)
    requires t in m.tables && |m.tables[t]| == 3 && i < 512 && (e == 0 || UserBits(e))
    ensures LinksStay(m, SetEntry(m, t, i, e))
  {
    EntryAfterSet(m, t, i, e);
    hide SetEntry, Entry;
  }

  lemma MapLinksStay(m: Machine, vaddr: nat, a: nat)
    requires MachineOK(m) && Walkable(m, PathOf(vaddr))
    ensures m.frames.hint <= |m.frames.used|
    ensures LinksStay(m, MapPage(m, vaddr, a, HEAP_FLAGS).0)
  {
    hide PathOf, EnsurePath, MapPage, LinksStay, LeafEntry, Leaf, LastTable, Extends, OnlyTables, SetEntry, TreeOK,
         FramesOK;
    var p := PathOf(vaddr);
    FramesHint(m);
    assert IsUser(HEAP_FLAGS);
    MapViaPath(m, vaddr, a, HEAP_FLAGS);
    EnsurePathKeeps(m, p, true);
    PathLinksStay(m, p);
    var (n, t1) := EnsurePath(m, p, true);
    if t1 != 0 {
      LeafBits(a);
      SetLinksStay(n, t1, p.d, LeafEntry(a, HEAP_FLAGS));
      LinksTrans(m, n, SetEntry(n, t1, p.d, LeafEntry(a, HEAP_FLAGS)));
    }
  }

  lemma FreshLinksStay(m: Machine, q: nat, ds: set<nat>)
    requires LayersOK(m, ds) && q < HEAP_PAGES
    ensures m.frames.hint <= |m.frames.used|
    ensures LinksStay(m, MapFresh(m, q).0)
  {
    LayersHint(m, ds);
    hide AllocPage, MapPage, LinksStay, PageVA, PathOf, MapOK, DescsOK, MachineOK;
    if AllocPage(m.frames).1 == 0 {
      LinksSelf(m, m);
    } else {
      TakeKeeps(m, ds);
      HeapPaths(q, q);
      var (p, a) := AllocPage(m.frames);
      var m1 := m.(frames := p);
      LinksSelf(m, m1);
      MapLinksStay(m1, PageVA(q), a);
      LinksTrans(m, m1, MapPage(m1, PageVA(q), a, HEAP_FLAGS).0);
    }
  }

  lemma DropLinksStay(m: Machine, q: nat, ds: set<nat>)
    requires LayersOK(m, ds) && q < HEAP_PAGES
    ensures LinksStay(m, Drop(m, q))
  {
    hide PathOf, PageVA, MapOK, DescsOK, LinksStay, SetEntry, FreePage, LastTable, GetPhysical;
    HeapPaths(q, q);
    var p, n := PathOf(PageVA(q)), UnmapPage(m, PageVA(q));
    LastTableInTree(m, p);
    if LastTable(m, p).Some? {
      SetLinksStay(m, LastTable(m, p).value, p.d, 0);
    } else {
      LinksSelf(m, m);
    }
    LinksSelf(n, Drop(m, q));
    LinksTrans(m, n, Drop(m, q));
  }

  lemma {:induction false} MapLoopLinksStay(m: Machine, q: nat, i: nat, n: nat, ds: set<nat>)
    requires LayersOK(m, ds) && i <= n && q + n <= HEAP_PAGES
    ensures m.frames.hint <= |m.frames.used|
    ensures LinksStay(m, MapLoop(m, q, i, n).m)
    decreases n - i
  {
    hide MapFresh, LayersOK, Keeps, LinksStay, Pte, Spare;
    LayersHint(m, ds);
    if i == n {
      LinksSelf(m, m);
    } else {
      FreshLinksStay(m, q + i, ds);
      MapFreshKeeps(m, q + i, ds);
      var (m', ok, a) := MapFresh(m, q + i);
      KeepsLayers(m, m', q + i, q + i + 1, ds);
      if ok {
        MapLoopLinksStay(m', q, i + 1, n, ds);
        LinksTrans(m, m', MapLoop(m', q, i + 1, n).m);
      }
    }
  }

  lemma {:induction false} ReleaseLinksStay(m: Machine, q: nat, j: nat, n: nat, ds: set<nat>)
    requires LayersOK(m, ds) && j <= n && q + n <= HEAP_PAGES
    ensures LinksStay(m, ReleaseLoop(m, q, j, n))
    decreases n - j
  {
    hide Pte, PageVA, GetPhysical, Drop, LayersOK, Keeps, LinksStay;
    LinksSelf(m, m);
    if j < n {
      var m' := if GetPhysical(m, PageVA(q + j)) != 0 then Drop(m, q + j) else m;
      DropLinksStay(m, q + j, ds);
      ReleaseStep(m, q + j, ds);
      KeepsLayers(m, m', q + j, q + j + 1, ds);
      ReleaseLinksStay(m', q, j + 1, n, ds);
      LinksTrans(m, m', ReleaseLoop(m', q, j + 1, n));
    }
  }

  lemma WriteLinksStay(m: Machine, v: nat, b: nat, ds: set<nat>)
    requires LayersOK(m, ds) && PageOf(v) < HEAP_PAGES && Present(Pte(m, PageOf(v)))
    ensures LinksStay(m, HeapRun.WriteByte(m, v, b))
  {
    hide HeapRun.WriteByte, FrameAt, Owned, FrameOf, Present, PageOf, Pte, AsWords, DescsOK, FramesOK, HeapSlots;
    HeapRun.WriteFrame(m, v, b);
    assert MapOK(m, ds);
  }

  lemma {:induction false} CopyLinksStay(m: Machine, p: nat, s: nat, i: nat, n: nat, pages: nat, k: nat, ds: set<nat>)
    requires LayersOK(m, ds) && i <= n && HeapRun.CopyFits(m, p, s, n, pages, k)
    ensures LinksStay(m, HeapRun.CopyLoop(m, PageVA(p), PageVA(s), i, n))
    decreases n - i
  {
    hide HeapRun.WriteByte, HeapRun.ReadByte, LayersOK, PageVA, Pte, Present, Keeps, PageOf, HeapRun.HeapAddr,
         LinksStay;
    if i == n {
      LinksSelf(m, m);
    } else {
      var v, b := PageVA(p) + i, HeapRun.ReadByte(m, PageVA(s) + i);
      var m' := HeapRun.WriteByte(m, v, b);
      HeapRun.BytePage(p, pages, i);
      WriteLinksStay(m, v, b, ds);
      HeapRun.CopyStep(m, p, s, i, n, pages, k, ds);
      CopyLinksStay(m', p, s, i + 1, n, pages, k, ds);
      LinksTrans(m, m', HeapRun.CopyLoop(m', PageVA(p), PageVA(s), i + 1, n));
    }
  }

  // ---------------------------------------------------------------- heap operations

  lemma ReuseLinksStay(h: Heap, k: nat)
    requires HeapOK(h) && k < |h.blocks|
    ensures HintBound(h) && LinksStay(h.m, Reuse(h, k).0.m)
  {
    hide LayersOK, HeapOK, BooksOK, Descs, MapLoop, First, Pages, LinksStay;
    LayersOf(h);
    BooksOf(h);
    BlockInHeap(h, k);
    MapLoopLinksStay(h.m, First(h.blocks[k]), 0, Pages(h.blocks[k]), Descs(h.blocks));
  }

  lemma CleanLinksStay(m: Machine, q: nat, n: nat, ds: set<nat>)
    requires LayersOK(m, ds) && q + n <= HEAP_PAGES && AllMapped(m, q, q + n)
    ensures LinksStay(m, CleanLoop(m, q, 0, n))
  {
    hide LayersOK, LinksStay, AllMapped, CleanLoop, ReleaseLoop;
    CleanIsRelease(m, q, 0, n, ds);
    ReleaseLinksStay(m, q, 0, n, ds);
  }

  lemma ExtendLinksStay(h: Heap, size: nat)
    requires HeapOK(h) && size > 0 && size % PAGE_SIZE == 0 && h.next + size <= HEAP_TOP
    ensures HintBound(h) && LinksStay(h.m, Extend(h, size).0.m)
  {
    hide Keeps, LayersOK, PageOf, HeapOK, Descs, MapLoop, CleanLoop, AllocPage, FreePage, Pte, LinksStay, AllMapped,
         Spare;
    LayersOf(h);
    BooksOf(h);
    TopPage(h, size);
    var q, n, ds := PageOf(h.next), size / PAGE_SIZE, Descs(h.blocks);
    AllMappedNone(h.m, q);
    MapLoopKeeps(h.m, q, 0, n, ds);
    MapLoopLinksStay(h.m, q, 0, n, ds);
    var r := MapLoop(h.m, q, 0, n);
    KeepsLayers(h.m, r.m, q, q + n, ds);
    CleanLinksStay(r.m, q, r.done, ds);
    LinksTrans(h.m, r.m, CleanLoop(r.m, q, 0, r.done));
    LinksSelf(r.m, r.m.(frames := FreePage(r.m.frames, r.page)));
    LinksTrans(h.m, r.m, r.m.(frames := FreePage(r.m.frames, r.page)));
    LinksSelf(r.m, r.m.(frames := AllocPage(r.m.frames).0));
    LinksTrans(h.m, r.m, r.m.(frames := AllocPage(r.m.frames).0));
  }

  lemma UFreeLinksStay(h: Heap, ptr: nat)
    requires HeapOK(h)
    ensures LinksStay(h.m, UFree(h, ptr).m) && UFree(h, ptr).next == h.next
  {
    hide LayersOK, HeapOK, BooksOK, Descs, ReleaseLoop, First, Pages, LinksStay;
    BooksOf(h);
    LinksSelf(h.m, h.m);
    var k := FindInUse(h.blocks, ptr, 0);
    if k < |h.blocks| {
      BlockInHeap(h, k);
      ReleaseLinksStay(h.m, First(h.blocks[k]), 0, Pages(h.blocks[k]), Descs(h.blocks));
    }
  }

  // ---------------------------------------------------------------- reachable heaps

  /** Every page below the top of the heap has all its tables. */
  ghost predicate Deep(h: Heap) { forall q: nat | q < PageOf(h.next) :: HeapDepth(h.m, q) == 3 }

  lemma HeapDeepens(m: Machine, n: Machine, q: nat)
    requires TreeOK(m) && HeapSlots(m) && LinksStay(m, n) && q < HEAP_PAGES
    ensures HeapDepth(n, q) >= HeapDepth(m, q)
  {
    hide PathOf, PageVA, LinksStay, TreeOK, Depth;
    HeapPaths(q, q);
    LinksDeepen(m, n, PathOf(PageVA(q)));
  }

  lemma DeepKept(h: Heap, n: Heap)
    requires HeapOK(h) && Deep(h) && LinksStay(h.m, n.m) && n.next == h.next
    ensures Deep(n)
  {
    hide LinksStay, HeapDepth, Pte;
    TopPage(h, 0);
    hide PageOf;
    forall q: nat | q < PageOf(h.next) ensures HeapDepth(n.m, q) == 3 {
      HeapDeepens(h.m, n.m, q);
    }
  }

  lemma MappedIsDeep(m: Machine, q: nat)
    requires Present(Pte(m, q))
    ensures HeapDepth(m, q) == 3
  {
    hide PathOf, PageVA, Child;
  }

  /** The heap starts with no page below its top. */
  lemma EmptyDeep(m: Machine)
    ensures Deep(Empty(m))
  {
  }

  /** The new block reaches from the old top to the new one. */
  lemma GrownTop(h: Heap, n: Heap)
    requires BooksOK(h) && BooksOK(n) && n.blocks != [] && n.blocks[0].addr == h.next
    ensures First(n.blocks[0]) == PageOf(h.next) && PageOf(n.next) == First(n.blocks[0]) + Pages(n.blocks[0])
  {
    TilesTop(h.blocks, h.next);
    TilesBounds(n.blocks, n.next, 0);
    BlockPages(n.blocks[0], n.next);
  }

  lemma ExtendDeep(h: Heap, size: nat)
    requires HeapOK(h) && Deep(h) && size > 0 && size % PAGE_SIZE == 0 && h.next + size <= HEAP_TOP
    ensures HintBound(h) && Deep(Extend(h, size).0)
  {
    hide HeapOK, LinksStay, HeapDepth, Pte, Extend, BooksOK, LiveKept;
    ExtendLinksStay(h, size);
    ExtendOK(h, size);
    BooksOf(h);
    TopPage(h, size);
    var (n, ptr) := Extend(h, size);
    if ptr == 0 {
      DeepKept(h, n);
    } else {
      DeepKept(h, n.(next := h.next));
      BooksOf(n);
      GrownTop(h, n);
      forall q: nat | q < PageOf(n.next) ensures HeapDepth(n.m, q) == 3 {
        if q >= PageOf(h.next) {
          MappedIsDeep(n.m, q);
        }
      }
    }
  }

  lemma UMallocDeep(h: Heap, size: nat)
    requires HeapOK(h) && Deep(h) && AllowedSize(h, size)
    ensures HintBound(h) && Deep(UMalloc(h, size).0)
  {
    hide HeapOK, LinksStay, Deep, Extend, Reuse, AlignUp, MapLoop;
    LayersOf(h);
    AlignUpFacts(size);
    if size > 0 {
      var k := FindFit(h.blocks, AlignUp(size), 0);
      if k < |h.blocks| {
        ReuseLinksStay(h, k);
        ReuseNext(h, k);
        DeepKept(h, Reuse(h, k).0);
      } else if h.next + AlignUp(size) <= HEAP_END {
        ExtendDeep(h, AlignUp(size));
      }
    }
  }

  lemma ReuseNext(h: Heap, k: nat)
    requires HintBound(h) && k < |h.blocks|
    ensures Reuse(h, k).0.next == h.next && Reuse(h, k).0.blocks == h.blocks[k := h.blocks[k].(isFree := false)]
  {
    hide MapLoop;
  }

  lemma UFreeDeep(h: Heap, ptr: nat)
    requires HeapOK(h) && Deep(h)
    ensures Deep(UFree(h, ptr))
  {
    hide HeapOK, LinksStay, Deep, UFree;
    UFreeLinksStay(h, ptr);
    DeepKept(h, UFree(h, ptr));
  }

  /** A `urealloc` that moves: the copy leaves the tables alone. */
  lemma MoveDeep(h: Heap, ptr: nat, size: nat, i: nat)
    requires HeapOK(h) && Deep(h) && i == FindInUse(h.blocks, ptr, 0) && i < |h.blocks| && ptr != 0
    requires size > h.blocks[i].size && AllowedSize(h, size) && MappedBlock(h, h.blocks[i]) && AlignUp(size) == size
    ensures HintBound(h)
    ensures var (g, p) := UMalloc(h, size);
            p != 0 ==> Deep(UFree(g.(m := HeapRun.CopyLoop(g.m, p, ptr, 0, h.blocks[i].size)), ptr))
  {
    hide HeapOK, LinksStay, Deep, UFree, UMalloc, HeapRun.CopyLoop, AllowedSize, MappedBlock, AlignUp, First, Pages,
         LayersOK, BooksOK, Descs, HeapRun.CopyFits;
    UMallocDeep(h, size);
    var i', k := HeapRun.MoveFits(h, ptr, size, i);
    var (g, p) := UMalloc(h, size);
    if p != 0 {
      BooksOf(g);
      HeapRun.BlocksFit(g, i', k);
      var b, c := g.blocks[i'], g.blocks[k];
      CopyLinksStay(g.m, First(c), First(b), 0, b.size, Pages(c), Pages(b), Descs(g.blocks));
      DeepKept(g, g.(m := HeapRun.CopyLoop(g.m, p, ptr, 0, b.size)));
      UFreeDeep(g.(m := HeapRun.CopyLoop(g.m, p, ptr, 0, b.size)), ptr);
    }
  }

  lemma UReallocDeep(h: Heap, ptr: nat, size: nat)
    requires HeapOK(h) && Deep(h) && HeapRun.AllowedRealloc(h, ptr, size)
    ensures HintBound(h) && Deep(HeapRun.URealloc(h, ptr, size).0)
  {
    hide HeapOK, Deep, UFree, UMalloc, HeapRun.CopyLoop, AllowedSize, MappedBlock, AlignUp;
    LayersOf(h);
    var i := FindInUse(h.blocks, ptr, 0);
    if ptr == 0 {
      UMallocDeep(h, size);
    } else if size == 0 {
      UFreeDeep(h, ptr);
    } else if i < |h.blocks| && AlignUp(size) > h.blocks[i].size {
      HeapRun.AlignUpAgain(size);
      UMallocDeep(h, AlignUp(size));
      MoveDeep(h, ptr, AlignUp(size), i);
    }
  }

  lemma StoreDeep(h: Heap, v: nat, b: nat)
    requires HeapOK(h) && Deep(h) && HeapRun.Allowed(h, HeapRun.Store(v, b))
    ensures Deep(h.(m := HeapRun.WriteByte(h.m, v, b)))
  {
    hide HeapOK, Deep, HeapRun.WriteByte, LayersOK, BooksOK, Pte, Present, PageOf, InBlock, LinksStay, Descs;
    BooksOf(h);
    HeapRun.SamePlace(v, v);
    WriteLinksStay(h.m, v, b, Descs(h.blocks));
    DeepKept(h, h.(m := HeapRun.WriteByte(h.m, v, b)));
  }

  lemma StepDeep(h: Heap, op: HeapRun.HeapOp)
    requires HeapOK(h) && Deep(h) && HeapRun.Allowed(h, op)
    ensures HintBound(h) && Deep(HeapRun.Perform(h, op))
  {
    hide HeapOK, Deep, UFree, UMalloc, HeapRun.URealloc, HeapRun.WriteByte, AllowedSize, HeapRun.AllowedRealloc, Pte,
         Present, InBlock;
    LayersOf(h);
    match op
    case Malloc(size) => UMallocDeep(h, size);
    case Free(ptr) => UFreeDeep(h, ptr);
    case Realloc(ptr, size) => UReallocDeep(h, ptr, size);
    case Store(v, b) => StoreDeep(h, v, b);
  }

  /** No operation takes a page table back, so over every run, failures included, every page below the
      top keeps all its tables. */
  lemma {:induction false} RunDeep(h: Heap, ops: seq<HeapRun.HeapOp>)
    requires HeapOK(h) && Deep(h)
    ensures Deep(HeapRun.After(h, ops))
    decreases |ops|
  {
    hide HeapOK, Deep, HeapRun.Allowed, HeapRun.Perform;
    if ops != [] && HintBound(h) && HeapRun.Allowed(h, ops[0]) {
      StepDeep(h, ops[0]);
      HeapRun.StepOK(h, ops[0]);
      RunDeep(HeapRun.Perform(h, ops[0]), ops[1..]);
    }
  }

  // ---------------------------------------------------------------- when umalloc fails

  lemma {:induction false} NeedDeep(m: Machine, q: nat, j: nat)
    requires forall r: nat | q <= r < q + j :: HeapDepth(m, r) == 3
    ensures Need(m, q, 0, j) == j
  {
    hide HeapDepth, Shared;
    if j > 0 {
      NeedDeep(m, q, j - 1);
      assert HeapDepth(m, q + (j - 1)) == 3;
    }
  }

  lemma BlockDeep(h: Heap, k: nat, j: nat)
    requires BooksOK(h) && Deep(h) && k < |h.blocks| && j <= Pages(h.blocks[k])
    ensures Need(h.m, First(h.blocks[k]), 0, j) == j
  {
    hide HeapDepth, BooksOK, First, Pages, PageOf, Need;
    BelowTop(h, k);
    NeedDeep(h.m, First(h.blocks[k]), j);
  }

  lemma FreeBlockUnmapped(h: Heap, k: nat)
    requires HeapOK(h) && k < |h.blocks| && h.blocks[k].isFree
    ensures NoneMapped(h.m, First(h.blocks[k]), First(h.blocks[k]) + Pages(h.blocks[k]))
  {
    hide NoneMapped, LayersOK, BooksOK, First, Pages;
  }

  /** A free block is granted exactly if there are as many free pages as it has; if there are fewer, all
      of them go to its first pages and stay there, and no page is lost on the way. */
  lemma ReuseDeep(h: Heap, k: nat)
    requires HeapOK(h) && Deep(h) && k < |h.blocks| && h.blocks[k].isFree
    ensures HintBound(h)
    ensures var b, free := h.blocks[k], FreePages(h.m.frames);
            var (n, ptr) := Reuse(h, k);
            && (ptr == 0 <==> free < Pages(b))
            && (ptr == 0 ==>
                  && MapLoop(h.m, First(b), 0, Pages(b)).page == 0 && FreePages(n.m.frames) == 0
                  && AllMapped(n.m, First(b), First(b) + free)
                  && NoneMapped(n.m, First(b) + free, First(b) + Pages(b)))
  {
    hide LayersOK, HeapOK, BooksOK, Descs, MapLoop, FreePages, Need, First, Pages, Mark, Deep, Keeps, AllMapped, Pte,
         Present, Spare, AllocPage;
    var q, n, ds, free := First(h.blocks[k]), Pages(h.blocks[k]), Descs(h.blocks), FreePages(h.m.frames);
    ReuseFailsExactly(h, k);
    BooksOf(h);
    BlockInHeap(h, k);
    FreeBlockUnmapped(h, k);
    BlockDeep(h, k, n);
    LoopCost(h.m, q, 0, n, ds);
    var r := MapLoop(h.m, q, 0, n);
    if !r.complete {
      BlockDeep(h, k, r.done);
      BlockDeep(h, k, r.done + 1);
      AllMappedNone(h.m, q);
      MapLoopKeeps(h.m, q, 0, n, ds);
      MapLoopStops(h.m, q, 0, n, ds);
      KeepsLayers(h.m, r.m, q, q + n, ds);
      LayersMachine(r.m, ds);
      AllocCount(r.m.frames);
    }
  }

  /** When `umalloc` answers 0, over the heaps a program can reach. */
  lemma UMallocFailsExactly(h: Heap, size: nat)
    requires HeapOK(h) && Deep(h) && AllowedSize(h, size)
    ensures HintBound(h)
    ensures var k, s, free := FindFit(h.blocks, AlignUp(size), 0), AlignUp(size), FreePages(h.m.frames);
            var (n, ptr) := UMalloc(h, size);
            && (ptr == 0 <==>
                  || size == 0
                  || (if k < |h.blocks| then free < Pages(h.blocks[k])
                      else h.next + s > HEAP_END || free <= Need(h.m, PageOf(h.next), 0, s / PAGE_SIZE)))
            && (ptr == 0 ==> (n.blocks == h.blocks <==> size == 0 || k == |h.blocks|))
  {
    hide HeapOK, Deep, Extend, Reuse, AlignUp, FreePages, Need, Pages, PageOf, AllMapped, NoneMapped, MapLoop, LiveKept,
         BooksOK;
    LayersOf(h);
    AlignUpFacts(size);
    if size > 0 {
      var k := FindFit(h.blocks, AlignUp(size), 0);
      if k < |h.blocks| {
        ReuseDeep(h, k);
        ReuseOK(h, k);
        BooksOf(h);
        BlockInHeap(h, k);
      } else if h.next + AlignUp(size) <= HEAP_END {
        ExtendFailsExactly(h, AlignUp(size));
        ExtendOK(h, AlignUp(size));
      }
    }
  }

  /** From the start of the heap, whatever was asked for, freed, moved and stored since, and whatever of it
      failed: a free block of the list is granted exactly if there are as many free pages as it has. */
  lemma RunReuse(m: Machine, ops: seq<HeapRun.HeapOp>, k: nat)
    requires HeapOK(Empty(m))
    ensures var h := HeapRun.After(Empty(m), ops);
            && HintBound(h)
            && (k < |h.blocks| && h.blocks[k].isFree ==>
                  (Reuse(h, k).1 == 0 <==> FreePages(h.m.frames) < Pages(h.blocks[k])))
  {
    hide HeapOK, Deep, Reuse, FreePages, Pages, MapLoop, AllMapped, NoneMapped;
    EmptyDeep(m);
    RunDeep(Empty(m), ops);
    HeapRun.RunOK(Empty(m), ops);
    var h := HeapRun.After(Empty(m), ops);
    LayersOf(h);
    if k < |h.blocks| && h.blocks[k].isFree {
      ReuseDeep(h, k);
    }
  }

  // ---------------------------------------------------------------- an input that fails so

  /** Every page after the first costs itself, and at a table boundary at most three tables more. */
  function AtMost(q: nat, j: nat): nat
    requires j > 0
  {
    j + 3 * ((q + j - 1) / 512 - q / 512 + 1)
  }

  lemma MissingAtMost(m: Machine, q: nat, j: nat)
    requires j > 0
    ensures Missing(m, q, 0, j) <= 3 * ((q + j) / 512 - (q + j - 1) / 512)
  {
    hide HeapDepth;
    if (q + j) % 512 != 0 {
      assert (q + j - 1) / 512 == (q + j) / 512;
      SameTable(q + j - 1, q + j - 1, q + j);
    } else {
      assert (q + j - 1) / 512 + 1 == (q + j) / 512;
    }
  }

  lemma {:induction false} NeedAtMost(m: Machine, q: nat, j: nat)
    requires j > 0
    ensures j <= Need(m, q, 0, j) <= AtMost(q, j)
  {
    hide HeapDepth, Shared, Missing;
    if j > 1 {
      NeedAtMost(m, q, j - 1);
      MissingAtMost(m, q, j - 1);
    } else {
      NeedOne(m, q, 0);
    }
  }

  /** No page of the memory is out of the allocator's reach. */
  predicate AllUsable(p: Frames) { forall i: nat | i < |p.used| :: Usable(p, i) }

  lemma {:induction false} CountBoth(bits: seq<bool>, others: seq<bool>)
    requires |others| == |bits| && forall i | 0 <= i < |bits| :: others[i] == !bits[i]
    ensures Count(bits) + Count(others) == |bits|
    decreases |bits|
  {
    if bits != [] {
      CountBoth(bits[..|bits| - 1], others[..|bits| - 1]);
    }
  }

  lemma FreeAndUsed(p: Frames)
    requires FramesOK(p) && AllUsable(p)
    ensures FreePages(p) + p.usedPages == |p.used|
  {
    hide Usable, HintOK, Count;
    assert forall i: nat | i < |p.used| :: Usable(p, i);
    CountBoth(p.used, FreeBits(p));
  }

  lemma DropCounts(m: Machine, q: nat, ds: set<nat>)
    requires LayersOK(m, ds) && q < HEAP_PAGES && Present(Pte(m, q))
    ensures Drop(m, q).frames.usedPages == m.frames.usedPages - 1
  {
    HeapPaths(q, q);
    PhysicalOfPage(m, q);
    UnmapsExactlyOne(m, PageVA(q));
    hide UnmapPage, PathOf, Leaf, PageVA, Pte, FrameOf, FramesOK, TreeOK, GetPhysical;
    assert MapOK(m, ds);
    FreeKeeps(m.frames, FrameOf(Pte(m, q)));
  }

  lemma {:induction false} ReleaseCounts(m: Machine, q: nat, j: nat, n: nat, ds: set<nat>)
    requires LayersOK(m, ds) && j <= n && q + n <= HEAP_PAGES && AllMapped(m, q + j, q + n)
    ensures ReleaseLoop(m, q, j, n).frames.usedPages == m.frames.usedPages - (n - j)
    decreases n - j
  {
    hide Pte, PageVA, GetPhysical, Drop, LayersOK, Keeps, Present;
    if j < n {
      ReleaseStep(m, q + j, ds);
      DropCounts(m, q + j, ds);
      KeepsLayers(m, Drop(m, q + j), q + j, q + j + 1, ds);
      AllMappedStill(m, Drop(m, q + j), q + j, q + n, ds);
      ReleaseCounts(Drop(m, q + j), q, j + 1, n, ds);
    }
  }

  /** The memory behind the two machines is the same. */
  predicate SameMemory(p: Frames, q: Frames) { q.start == p.start && q.regions == p.regions && |q.used| == |p.used| }

  /** A block wholly mapped, freed: its pages can be handed out again. */
  lemma UFreeGives(h: Heap, k: nat)
    requires HeapOK(h) && k < |h.blocks| && !h.blocks[k].isFree && MappedBlock(h, h.blocks[k]) && AllUsable(h.m.frames)
    ensures var n := UFree(h, h.blocks[k].addr);
            && HeapOK(n) && n.blocks == h.blocks[k := h.blocks[k].(isFree := true)] && n.next == h.next
            && SameMemory(h.m.frames, n.m.frames)
            && FreePages(n.m.frames) == FreePages(h.m.frames) + Pages(h.blocks[k])
  {
    hide HeapOK, LayersOK, BooksOK, Pte, Present, First, Pages, ReleaseLoop, AllMapped, NoneMapped, Descs, Keeps,
         FreePages,
         AllUsable, Backs, Owned, LiveKept;
    BooksOf(h);
    BlockInHeap(h, k);
    HeapRun.FoundAt(h, h.blocks[k].addr, k);
    UFreeOK(h, h.blocks[k].addr);
    var q, n, ds := First(h.blocks[k]), Pages(h.blocks[k]), Descs(h.blocks);
    AllMappedNone(h.m, q);
    ReleaseLoopKeeps(h.m, q, 0, n, ds);
    ReleaseCounts(h.m, q, 0, n, ds);
    var r := ReleaseLoop(h.m, q, 0, n);
    KeepsMemory(h.m, r, q, q + n, ds);
    KeepsLayers(h.m, r, q, q + n, ds);
    LayersMachine(h.m, ds);
    LayersMachine(r, ds);
    UsableSame(h.m.frames, r.frames);
    FreeAndUsed(h.m.frames);
    FreeAndUsed(r.frames);
  }

  lemma KeepsMemory(m: Machine, n: Machine, lo: nat, hi: nat, ds: set<nat>)
    requires Keeps(m, n, lo, hi, ds)
    ensures SameMemory(m.frames, n.frames)
  {
    hide LayersOK, Pte, FrameAt;
  }

  lemma UsableSame(p: Frames, q: Frames)
    requires AllUsable(p) && SameMemory(p, q)
    ensures AllUsable(q)
  {
    hide Available;
    forall i: nat | i < |q.used| ensures Usable(q, i) {
      assert Usable(p, i) && PageAddr(q, i) == PageAddr(p, i);
    }
  }

  /** The heap grown by j pages: what is left for others. */
  lemma ExtendTakes(h: Heap, j: nat)
    requires HeapOK(h) && j > 0 && h.next + j * PAGE_SIZE <= HEAP_TOP
    requires FreePages(h.m.frames) > AtMost(PageOf(h.next), j)
    ensures HintBound(h)
    ensures var (n, ptr) := Extend(h, j * PAGE_SIZE);
            && ptr == h.next && SameMemory(h.m.frames, n.m.frames) && MappedBlock(n, n.blocks[0])
            && n.blocks == [Block(h.next, j * PAGE_SIZE, false, n.blocks[0].desc)] + h.blocks
            && HeapOK(n) && n.next == h.next + j * PAGE_SIZE
            && FreePages(h.m.frames) - AtMost(PageOf(h.next), j) - 1 <= FreePages(n.m.frames)
                 <= FreePages(h.m.frames) - j - 1
  {
    hide HeapOK, LayersOK, BooksOK, Pte, PageOf, MapLoop, Descs, Keeps, FreePages, Need, AllocPage, MappedBlock,
         LiveKept,
         AtMost, CleanLoop;
    LayersOf(h);
    BooksOf(h);
    assert j * PAGE_SIZE / PAGE_SIZE == j && j * PAGE_SIZE % PAGE_SIZE == 0;
    TopPage(h, j * PAGE_SIZE);
    var q, ds := PageOf(h.next), Descs(h.blocks);
    NeedAtMost(h.m, q, j);
    ExtendFailsExactly(h, j * PAGE_SIZE);
    ExtendOK(h, j * PAGE_SIZE);
    LoopCost(h.m, q, 0, j, ds);
    AllMappedNone(h.m, q);
    MapLoopKeeps(h.m, q, 0, j, ds);
    var r := MapLoop(h.m, q, 0, j);
    assert r.complete;
    KeepsLayers(h.m, r.m, q, q + j, ds);
    KeepsMemory(h.m, r.m, q, q + j, ds);
    LayersMachine(r.m, ds);
    AllocCount(r.m.frames);
  }

  lemma AfterThree(h: Heap, a: HeapRun.HeapOp, b: HeapRun.HeapOp, c: HeapRun.HeapOp)
    requires HintBound(h) && HeapRun.Allowed(h, a)
    requires HintBound(HeapRun.Perform(h, a)) && HeapRun.Allowed(HeapRun.Perform(h, a), b)
    requires var g := HeapRun.Perform(HeapRun.Perform(h, a), b); HintBound(g) && HeapRun.Allowed(g, c)
    ensures HeapRun.After(h, [a, b, c]) == HeapRun.Perform(HeapRun.Perform(HeapRun.Perform(h, a), b), c)
  {
    hide HeapRun.Perform, HeapRun.Allowed, HintBound;
    assert [a, b, c][1..] == [b, c] && [b, c][1..] == [c] && [c][1..] == [];
    var g := HeapRun.Perform(h, a);
    assert HeapRun.After(h, [a, b, c]) == HeapRun.After(g, [b, c]);
    assert HeapRun.After(g, [b, c]) == HeapRun.After(HeapRun.Perform(g, b), [c]);
  }

  /** A request that fits no free block goes to the top. */
  lemma AtTop(h: Heap, j: nat)
    requires HintBound(h) && j > 0 && h.next + j * PAGE_SIZE <= HEAP_TOP
    requires forall i | 0 <= i < |h.blocks| && h.blocks[i].isFree :: h.blocks[i].size < j * PAGE_SIZE
    ensures AlignUp(j * PAGE_SIZE) == j * PAGE_SIZE && AllowedSize(h, j * PAGE_SIZE)
    ensures UMalloc(h, j * PAGE_SIZE) == Extend(h, j * PAGE_SIZE)
  {
    hide Extend;
  }

  lemma GivenPages(b: Block, a: nat)
    requires b.size == a * PAGE_SIZE
    ensures Pages(b) == a
  {
  }

  lemma AtStartOf(m: Machine, a: nat, b: nat)
    requires a + b <= HEAP_PAGES
    ensures Empty(m).next == HEAP_START && PageOf(HEAP_START) == 0 && PageOf(HEAP_START + a * PAGE_SIZE) == a
    ensures HEAP_START + a * PAGE_SIZE + b * PAGE_SIZE <= HEAP_TOP
  {
  }

  /** The request for a pages finds block 1. */
  lemma Fits(h: Heap, a: nat)
    requires HintBound(h) && |h.blocks| == 2 && !h.blocks[0].isFree && h.blocks[1].isFree && a > 0
    requires h.blocks[1].size == a * PAGE_SIZE && h.blocks[1].addr == HEAP_START
    ensures UMalloc(h, a * PAGE_SIZE) == Reuse(h, 1) && AllowedSize(h, a * PAGE_SIZE)
    ensures First(h.blocks[1]) == 0 && Pages(h.blocks[1]) == a
  {
    hide Reuse;
    assert AlignUp(a * PAGE_SIZE) == a * PAGE_SIZE;
    hide AlignUp;
    assert FindFit(h.blocks, a * PAGE_SIZE, 0) == 1;
  }

  lemma LastCall(h: Heap, a: nat, least: nat)
    requires HeapOK(h) && Deep(h) && |h.blocks| == 2 && !h.blocks[0].isFree && h.blocks[1].isFree && a > 0
    requires h.blocks[1].size == a * PAGE_SIZE && h.blocks[1].addr == HEAP_START && least <= FreePages(h.m.frames) < a
    ensures HintBound(h)
    ensures var (g, ptr) := UMalloc(h, a * PAGE_SIZE);
            ptr == 0 && g.blocks == h.blocks[1 := h.blocks[1].(isFree := false)] && AllMapped(g.m, 0, least)
  {
    hide HeapOK, Reuse, FreePages, Deep, Pages, First, UMalloc, NoneMapped, MapLoop, Pte, Present;
    LayersOf(h);
    Fits(h, a);
    ReuseDeep(h, 1);
    ReuseNext(h, 1);
  }

  /** A program that asks for a pages, frees them, asks for more than a, and then for a again: the free
      block is large enough, but the pages are gone. */
  lemma CrowdedOut(m: Machine, a: nat, b: nat)
    requires HeapOK(Empty(m)) && AllUsable(m.frames) && 0 < a < b && a + b <= HEAP_PAGES
    requires AtMost(0, a) < FreePages(m.frames) && AtMost(a, b) < FreePages(m.frames) - AtMost(0, a) - 1 + a
    requires FreePages(m.frames) < a + b + 2
    ensures var h := HeapRun.After(Empty(m), [HeapRun.Malloc(a * PAGE_SIZE), HeapRun.Free(HEAP_START),
                                              HeapRun.Malloc(b * PAGE_SIZE)]);
            && HintBound(h)
            && |h.blocks| == 2 && h.blocks[1].isFree && h.blocks[1].addr == HEAP_START
            && h.blocks[1].size == a * PAGE_SIZE
            && var (g, ptr) := UMalloc(h, a * PAGE_SIZE);
               && ptr == 0 && g.blocks == h.blocks[1 := h.blocks[1].(isFree := false)]
               && AllMapped(g.m, 0, FreePages(m.frames) - AtMost(0, a) + a - AtMost(a, b) - 2)
  {
    hide HeapOK, Extend, Reuse, FreePages, AtMost, AllMapped, Deep, HeapRun.After, UFree, MappedBlock, AllUsable,
         AlignUp,
         Pages, First, UMalloc, NoneMapped, MapLoop;
    var h0 := Empty(m);
    AtStartOf(m, a, b);
    LayersOf(h0);
    AtTop(h0, a);
    ExtendTakes(h0, a);
    GivenPages(Extend(h0, a * PAGE_SIZE).0.blocks[0], a);
    var h1 := Extend(h0, a * PAGE_SIZE).0;
    LayersOf(h1);
    UsableSame(m.frames, h1.m.frames);
    UFreeGives(h1, 0);
    assert FreePages(UFree(h1, HEAP_START).m.frames) == FreePages(h1.m.frames) + a;
    var h2 := UFree(h1, HEAP_START);
    LayersOf(h2);
    AtTop(h2, b);
    ExtendTakes(h2, b);
    var h3 := Extend(h2, b * PAGE_SIZE).0;
    AfterThree(h0, HeapRun.Malloc(a * PAGE_SIZE), HeapRun.Free(HEAP_START), HeapRun.Malloc(b * PAGE_SIZE));
    EmptyDeep(m);
    RunDeep(h0, [HeapRun.Malloc(a * PAGE_SIZE), HeapRun.Free(HEAP_START), HeapRun.Malloc(b * PAGE_SIZE)]);
    LastCall(h3, a, FreePages(m.frames) - AtMost(0, a) + a - AtMost(a, b) - 2);
  }

  lemma BootedUsable()
    ensures AllUsable(Booted().frames)
  {
    var p := BootFrames();
    forall i: nat | i < 516 ensures Usable(p, i) {
      assert InRegion(p.regions[0], PageAddr(p, i));
    }
  }

  lemma Numbers()
    ensures AtMost(0, 300) == 303 && AtMost(300, 301) == 307 && 300 + 301 <= HEAP_PAGES
  {
  }

  /** With 516 free pages: 300 asked for and freed, 301 asked for, and then 300 again.  The last call answers
      0, and still takes the free block off the free ones and every page there is: at least 204 of its
      300 pages are mapped. */
  lemma ReuseExample()
    ensures HeapOK(Empty(Booted()))
    ensures var h := HeapRun.After(Empty(Booted()), [HeapRun.Malloc(300 * PAGE_SIZE), HeapRun.Free(HEAP_START),
                                                     HeapRun.Malloc(301 * PAGE_SIZE)]);
            && HintBound(h) && |h.blocks| == 2 && h.blocks[1].isFree && h.blocks[1].addr == HEAP_START
            && h.blocks[1].size == 300 * PAGE_SIZE
            && var (g, ptr) := UMalloc(h, 300 * PAGE_SIZE);
               && ptr == 0 && g.blocks == h.blocks[1 := h.blocks[1].(isFree := false)] && AllMapped(g.m, 0, 204)
  {
    hide *;
    BootedOK();
    BootedUsable();
    Numbers();
    CrowdedOut(Booted(), 300, 301);
  }
}
