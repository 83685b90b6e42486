/** Where the frames are, over whole runs of the heap: every frame handed out is a page table, holds a block
    descriptor, backs a heap page, or was lost, and the allocator's counter is the total. */
module HeapFrames {
  import opened FrameSpec
  import opened PageSpec
  import opened HeapSpec
  import opened HeapIsolation
  import opened HeapLeak
  import HeapReuse
  import HeapRun
  import opened Wrappers

  /** Every frame handed out is in one of four uses; those in `lost` are in none of the first three.  (Frames
      that others than the heap got count as lost to it.) */
  ghost predicate Accounted(m: Machine, ds: set<nat>, lost: set<nat>) {
    && (forall f: nat | Owned(m.frames, f) :: f in m.tables || f in ds || f in lost || Backs(m, 0, HEAP_PAGES, f))
    && forall f | f in lost :: Spare(m, f, ds)
  }

  /** The frames that back heap pages [lo, hi). */
  function Backing(m: Machine, lo: nat, hi: nat): set<nat> {
    set r: nat | lo <= r < hi && Present(Pte(m, r)) :: FrameOf(Pte(m, r))
  }

  // ---------------------------------------------------------------- what a mapping takes

  /** A newly linked table is the only frame taken. */
  lemma EnsureOwns(m: Machine, t: nat, i: nat, user: bool)
    requires MachineOK(m) && t in m.tables && i < 512
    ensures m.frames.hint <= |m.frames.used|
    ensures var n := EnsureTable(m, t, i, user).0;
            forall f: nat | Owned(n.frames, f) && !Owned(m.frames, f) :: f in n.tables
  {
    FramesHint(m);
    if !Present(Entry(m, t, i)) && AllocPage(m.frames).1 != 0 {
      EnsureLinks(m, t, i, user);
      TakenOwns(m.frames);
    }
  }

  lemma TakenOwns(p: Frames)
    requires FramesOK(p) && AllocPage(p).1 != 0
    ensures forall f: nat | Owned(AllocPage(p).0, f) && !Owned(p, f) :: f == AllocPage(p).1
  {
    var k := AllocTakes(p);
    hide AllocPage, FramesOK, Available;
    forall f: nat | Owned(Take(p, k), f) && !Owned(p, f) ensures f == PageAddr(p, k) {
      assert PageIndex(p, f) == k;
    }
  }

  lemma PathOwns(m: Machine, p: Path, user: bool)
    requires MachineOK(m) && Walkable(m, p)
    ensures m.frames.hint <= |m.frames.used|
    ensures var n := EnsurePath(m, p, user).0;
            forall f: nat | Owned(n.frames, f) && !Owned(m.frames, f) :: f in n.tables
  {
    hide Entry, Leaf, Owned, EnsureTable, Extends, OnlyTables, FramesOK;
    FramesHint(m);
    RootIsTable(m);
    EnsureOwns(m, m.root, p.a, user);
    EnsureKeeps(m, m.root, p.a, user);
    var (m1, t3) := EnsureTable(m, m.root, p.a, user);
    ExtendsParts(m, m1);
    if t3 != 0 {
      EnsureOwns(m1, t3, p.b, user);
      EnsureKeeps(m1, t3, p.b, user);
      var (m2, t2) := EnsureTable(m1, t3, p.b, user);
      ExtendsParts(m1, m2);
      if t2 != 0 {
        EnsureOwns(m2, t2, p.c, user);
        EnsureKeeps(m2, t2, p.c, user);
        ExtendsParts(m2, EnsureTable(m2, t2, p.c, user).0);
      }
    }
  }

  lemma MapOwns(m: Machine, vaddr: nat, a: nat, flags: nat)
    requires MachineOK(m) && Walkable(m, PathOf(vaddr))
    ensures m.frames.hint <= |m.frames.used|
    ensures var n := MapPage(m, vaddr, a, flags).0;
            forall f: nat | Owned(n.frames, f) && !Owned(m.frames, f) :: f in n.tables
  {
    hide PathOf, EnsurePath, MapPage, LeafEntry, Owned, SetEntry, MachineOK;
    var p := PathOf(vaddr);
    FramesHint(m);
    MapViaPath(m, vaddr, a, flags);
    PathOwns(m, p, IsUser(flags));
    var (n, t1) := EnsurePath(m, p, IsUser(flags));
    if t1 != 0 {
      SetEntryFields(n, t1, p.d, LeafEntry(a, flags));
    }
  }

  /** From m to n heap page q was mapped to page a, or was to be (`ok` says which): what was taken. */
  ghost predicate Took(m: Machine, n: Machine, q: nat, ok: bool, a: nat) {
    && (forall f: nat | Owned(m.frames, f) :: Owned(n.frames, f))
    && (forall f: nat | Owned(n.frames, f) && !Owned(m.frames, f) :: f in n.tables || (a != 0 && f == a))
    && (forall t | t in m.tables :: t in n.tables)
    && (forall t | t in n.tables && t !in m.tables :: !Owned(m.frames, t))
    && !Owned(m.frames, a)
    && (forall r: nat | r < HEAP_PAGES && (r != q || !ok) :: Pte(n, r) == Pte(m, r))
    && (ok ==> Present(Pte(n, q)) && FrameOf(Pte(n, q)) == a)
  }

  lemma FreshTook(m: Machine, q: nat, ds: set<nat>)
    requires LayersOK(m, ds) && q < HEAP_PAGES && AllocPage(m.frames).1 != 0
    ensures m.frames.hint <= |m.frames.used|
    ensures var (n, ok, a) := MapFresh(m, q); Took(m, n, q, ok, a) && a != 0
  {
    hide MapPage, PathOf, LeafEntry, Owned, FrameOf, Present, PageVA, AllocPage, TreeOK, FramesOK, AlignDown, Leaf,
         Entry,
         FrameAt;
    LayersHint(m, ds);
    TakeKeeps(m, ds);
    TakenOwns(m.frames);
    var (p, a) := AllocPage(m.frames);
    var m1 := m.(frames := p);
    LayersHint(m1, ds);
    HeapPaths(q, q);
    MapsExactlyOne(m1, PageVA(q), a, HEAP_FLAGS);
    MapOwns(m1, PageVA(q), a, HEAP_FLAGS);
    LeafEntryFacts(a, HEAP_FLAGS);
    Aligned(a);
    var (n, ok) := MapPage(m1, PageVA(q), a, HEAP_FLAGS);
    MappedPtes(m1, n, q, ok, LeafEntry(a, HEAP_FLAGS));
  }

  // ---------------------------------------------------------------- keeping account

  /** What a page mapped anew makes of the frames: one that backed the heap page before is lost, and so,
      until it is given back, is the page in hand when there is no page for a table. */
  lemma AccountFresh(m: Machine, q: nat, ds: set<nat>, lost: set<nat>)
    requires LayersOK(m, ds) && q < HEAP_PAGES && Accounted(m, ds, lost)
    ensures m.frames.hint <= |m.frames.used|
    ensures var (n, ok, a) := MapFresh(m, q);
            Accounted(n, ds, lost + if ok then Backing(m, q, q + 1) else if a != 0 then {a} else {})
  {
    hide MapFresh, Pte, Owned, FrameOf, Present, MachineOK, Backs, Backing, AllocPage;
    LayersHint(m, ds);
    MapFreshKeeps(m, q, ds);
    var (n, ok, a) := MapFresh(m, q);
    KeepsLayers(m, n, q, q + 1, ds);
    if AllocPage(m.frames).1 == 0 {
      NoFresh(m, q);
      assert lost + {} == lost;
    } else {
      FreshTook(m, q, ds);
      AccountTook(m, n, q, ok, a, ds, lost);
    }
  }

  lemma NoFresh(m: Machine, q: nat)
    requires m.frames.hint <= |m.frames.used| && AllocPage(m.frames).1 == 0
    ensures MapFresh(m, q) == (m, false, 0)
  {
    hide AllocPage, MapPage;
  }

  lemma AccountTook(m: Machine, n: Machine, q: nat, ok: bool, a: nat, ds: set<nat>, lost: set<nat>)
    requires LayersOK(m, ds) && LayersOK(n, ds) && q < HEAP_PAGES && Accounted(m, ds, lost) && Took(m, n, q, ok, a)
    requires a != 0 && (!ok ==> Spare(n, a, ds))
    ensures Accounted(n, ds, lost + if ok then Backing(m, q, q + 1) else {a})
  {
    hide Pte, Owned, FrameOf, Present, MachineOK, HeapSlots, DescsOK;
    var more := if ok then Backing(m, q, q + 1) else {a};
    forall f: nat | Owned(n.frames, f)
      ensures f in n.tables || f in ds || f in lost + more || Backs(n, 0, HEAP_PAGES, f)
    {
      if Backs(m, 0, HEAP_PAGES, f) {
        var r: nat :| r < HEAP_PAGES && Present(Pte(m, r)) && FrameOf(Pte(m, r)) == f;
        assert r != q || !ok ==> Pte(n, r) == Pte(m, r);
      }
    }
    assert MapOK(m, ds);
    forall f | f in lost + more ensures Spare(n, f, ds) {
      if f in Backing(m, q, q + 1) && ok {
        assert f == FrameOf(Pte(m, q)) && Present(Pte(m, q));
      }
    }
  }

  lemma {:induction false} AccountLoop(m: Machine, q: nat, i: nat, n: nat, ds: set<nat>, lost: set<nat>)
    requires LayersOK(m, ds) && i <= n && q + n <= HEAP_PAGES && Accounted(m, ds, lost)
    ensures m.frames.hint <= |m.frames.used|
    ensures var r := MapLoop(m, q, i, n);
            && Accounted(r.m, ds, lost + Backing(m, q + i, q + r.done) + InHand(r))
            && InHand(r) !! lost + Backing(m, q + i, q + r.done)
    decreases n - i
  {
    hide MapFresh, LayersOK, Accounted, Keeps, Backing, Pte, Spare;
    LayersHint(m, ds);
    NoBacking(m, q + i);
    if i == n {
      assert lost + {} + {} == lost;
    } else {
      AccountFresh(m, q + i, ds, lost);
      MapFreshKeeps(m, q + i, ds);
      var (m', ok, a) := MapFresh(m, q + i);
      KeepsLayers(m, m', q + i, q + i + 1, ds);
      if ok {
        AccountLoop(m', q, i + 1, n, ds, lost + Backing(m, q + i, q + i + 1));
        var r := MapLoop(m', q, i + 1, n);
        BackingSplit(m, m', q + i, q + r.done, ds);
        assert lost + Backing(m, q + i, q + i + 1) + Backing(m', q + i + 1, q + r.done)
            == lost + Backing(m, q + i, q + r.done);
      } else {
        FreshNotLost(m, q + i, ds, lost);
        assert lost + {} == lost;
      }
    }
  }

  lemma FreshNotLost(m: Machine, q: nat, ds: set<nat>, lost: set<nat>)
    requires LayersOK(m, ds) && q < HEAP_PAGES && Accounted(m, ds, lost)
    ensures m.frames.hint <= |m.frames.used|
    ensures MapFresh(m, q).2 != 0 ==> MapFresh(m, q).2 !in lost
  {
    hide MapFresh, LayersOK, AllocPage, Pte, Owned;
    LayersHint(m, ds);
    if AllocPage(m.frames).1 == 0 {
      NoFresh(m, q);
    } else {
      FreshTook(m, q, ds);
    }
  }

  /** The page a loop stopped with. */
  function InHand(r: MapEnd): set<nat> { if !r.complete && r.page != 0 then {r.page} else {} }

  lemma NoBacking(m: Machine, q: nat)
    ensures Backing(m, q, q) == {}
  {
  }

  lemma BackingSplit(m: Machine, n: Machine, lo: nat, hi: nat, ds: set<nat>)
    requires lo < hi <= HEAP_PAGES && Keeps(m, n, lo, lo + 1, ds)
    ensures Backing(m, lo, hi) == Backing(m, lo, lo + 1) + Backing(n, lo + 1, hi)
  {
    hide Pte, LayersOK, FrameAt, Present, FrameOf;
    OthersSame(m, n, lo, ds);
    forall f: nat ensures f in Backing(m, lo, hi) <==> f in Backing(m, lo, lo + 1) + Backing(n, lo + 1, hi) {
      if f in Backing(m, lo, hi) {
        var r: nat :| lo <= r < hi && Present(Pte(m, r)) && FrameOf(Pte(m, r)) == f;
        assert r != lo ==> Pte(n, r) == Pte(m, r);
      }
      if f in Backing(n, lo + 1, hi) {
        var r: nat :| lo + 1 <= r < hi && Present(Pte(n, r)) && FrameOf(Pte(n, r)) == f;
        assert Pte(n, r) == Pte(m, r);
      }
    }
  }

  // ---------------------------------------------------------------- giving back keeps the account

  lemma AccountDrop(m: Machine, q: nat, ds: set<nat>, lost: set<nat>)
    requires LayersOK(m, ds) && q < HEAP_PAGES && Present(Pte(m, q)) && Accounted(m, ds, lost)
    ensures Accounted(Drop(m, q), ds, lost)
  {
    hide Drop, Pte, Owned, FrameOf, Present, LayersOK, FrameAt;
    DropKeeps(m, q, ds);
    DropFrees(m, q, ds);
    DropTables(m, q);
    var n := Drop(m, q);
    OthersSame(m, n, q, ds);
    ZeroAbsent();
    forall f: nat | Owned(n.frames, f)
      ensures f in n.tables || f in ds || f in lost || Backs(n, 0, HEAP_PAGES, f)
    {
      if Backs(m, 0, HEAP_PAGES, f) {
        var r: nat :| r < HEAP_PAGES && Present(Pte(m, r)) && FrameOf(Pte(m, r)) == f;
        assert Pte(n, r) == Pte(m, r);
      }
    }
  }

  lemma DropTables(m: Machine, q: nat)
    ensures Drop(m, q).tables == m.tables
  {
    hide PathOf, PageVA, FreePage, GetPhysical, LastTable;
  }

  lemma {:induction false} AccountRelease(m: Machine, q: nat, j: nat, n: nat, ds: set<nat>, lost: set<nat>)
    requires LayersOK(m, ds) && j <= n && q + n <= HEAP_PAGES && Accounted(m, ds, lost)
    ensures Accounted(ReleaseLoop(m, q, j, n), ds, lost)
    decreases n - j
  {
    hide Pte, PageVA, GetPhysical, Drop, LayersOK, Keeps, Accounted;
    if j < n {
      var m' := if GetPhysical(m, PageVA(q + j)) != 0 then Drop(m, q + j) else m;
      ReleaseStep(m, q + j, ds);
      KeepsLayers(m, m', q + j, q + j + 1, ds);
      if GetPhysical(m, PageVA(q + j)) != 0 {
        AccountDrop(m, q + j, ds, lost);
      }
      AccountRelease(m', q, j + 1, n, ds, lost);
    }
  }

  lemma AccountClean(m: Machine, q: nat, n: nat, ds: set<nat>, lost: set<nat>)
    requires LayersOK(m, ds) && q + n <= HEAP_PAGES && AllMapped(m, q, q + n) && Accounted(m, ds, lost)
    ensures Accounted(CleanLoop(m, q, 0, n), ds, lost)
  {
    hide LayersOK, Accounted, AllMapped, CleanLoop, ReleaseLoop;
    CleanIsRelease(m, q, 0, n, ds);
    AccountRelease(m, q, 0, n, ds, lost);
  }

  /** The page in hand given back. */
  lemma AccountGiveBack(m: Machine, a: nat, ds: set<nat>, lost: set<nat>)
    requires LayersOK(m, ds) && Accounted(m, ds, lost + {a}) && a !in lost
    ensures Accounted(m.(frames := FreePage(m.frames, a)), ds, lost)
  {
    assert a in lost + {a};
    FreeOwned(m.frames, a);
    var n := m.(frames := FreePage(m.frames, a));
    SameTables(m, n);
    hide Pte, Owned, FrameOf, Present, FreePage, LayersOK;
    forall f: nat | Owned(n.frames, f) ensures f in n.tables || f in ds || f in lost || Backs(n, 0, HEAP_PAGES, f) {
      BacksSame(m, n, f);
    }
    assert forall f | f in lost :: f in lost + {a};
  }

  lemma BacksSame(m: Machine, n: Machine, f: nat)
    requires forall r: nat | r < HEAP_PAGES :: Pte(n, r) == Pte(m, r)
    ensures Backs(m, 0, HEAP_PAGES, f) <==> Backs(n, 0, HEAP_PAGES, f)
  {
    hide Pte, Present, FrameOf;
    if Backs(m, 0, HEAP_PAGES, f) {
      var r: nat :| r < HEAP_PAGES && Present(Pte(m, r)) && FrameOf(Pte(m, r)) == f;
      assert Pte(n, r) == Pte(m, r);
    }
    if Backs(n, 0, HEAP_PAGES, f) {
      var r: nat :| r < HEAP_PAGES && Present(Pte(n, r)) && FrameOf(Pte(n, r)) == f;
      assert Pte(n, r) == Pte(m, r);
    }
  }

  /** A page for a descriptor. */
  lemma AccountDesc(m: Machine, ds: set<nat>, lost: set<nat>)
    requires LayersOK(m, ds) && Accounted(m, ds, lost) && AllocPage(m.frames).1 != 0
    ensures var (p, d) := AllocPage(m.frames); Accounted(m.(frames := p), ds + {d}, lost)
  {
    TakeKeeps(m, ds);
    LayersMachine(m, ds);
    TakenOwns(m.frames);
    var (p, d) := AllocPage(m.frames);
    var n := m.(frames := p);
    hide Pte, Owned, FrameOf, Present, AllocPage, LayersOK;
    forall f: nat | Owned(n.frames, f)
      ensures f in n.tables || f in ds + {d} || f in lost || Backs(n, 0, HEAP_PAGES, f)
    {
      BacksSame(m, n, f);
    }
  }

  /** Stores do not take part. */
  lemma AccountSame(m: Machine, n: Machine, ds: set<nat>, lost: set<nat>)
    requires Accounted(m, ds, lost) && n.frames == m.frames && n.tables == m.tables
    requires forall r: nat | r < HEAP_PAGES :: Pte(n, r) == Pte(m, r)
    ensures Accounted(n, ds, lost)
  {
    hide Pte, Owned, FrameOf, Present, Backs;
    forall f: nat ensures Backs(m, 0, HEAP_PAGES, f) <==> Backs(n, 0, HEAP_PAGES, f) {
      BacksSame(m, n, f);
    }
  }

  lemma AccountWrite(m: Machine, v: nat, b: nat, ds: set<nat>, lost: set<nat>)
    requires LayersOK(m, ds) && PageOf(v) < HEAP_PAGES && Present(Pte(m, PageOf(v))) && Accounted(m, ds, lost)
    ensures Accounted(HeapRun.WriteByte(m, v, b), ds, lost)
  {
    hide HeapRun.WriteByte, LayersOK, Pte, Present, PageOf, Keeps, Accounted;
    HeapRun.WriteKeeps(m, v, b, ds);
    HeapRun.WriteFrame(m, v, b);
    AccountSame(m, HeapRun.WriteByte(m, v, b), ds, lost);
  }

  lemma {:induction false} AccountCopy(m: Machine, p: nat, s: nat, i: nat, n: nat, pages: nat, k: nat, ds: set<nat>,
      lost: set<nat>)
    requires LayersOK(m, ds) && i <= n && HeapRun.CopyFits(m, p, s, n, pages, k) && Accounted(m, ds, lost)
    ensures Accounted(HeapRun.CopyLoop(m, PageVA(p), PageVA(s), i, n), ds, lost)
    decreases n - i
  {
    hide HeapRun.WriteByte, HeapRun.ReadByte, LayersOK, PageVA, Pte, Present, Keeps, PageOf, HeapRun.HeapAddr,
         Accounted;
    if i < n {
      var v, b := PageVA(p) + i, HeapRun.ReadByte(m, PageVA(s) + i);
      HeapRun.BytePage(p, pages, i);
      AccountWrite(m, v, b, ds, lost);
      HeapRun.CopyStep(m, p, s, i, n, pages, k, ds);
      AccountCopy(HeapRun.WriteByte(m, v, b), p, s, i + 1, n, pages, k, ds, lost);
    }
  }

  // ---------------------------------------------------------------- heap operations

  /** Every frame of a heap is accounted for. */
  ghost predicate Ledger(h: Heap, lost: set<nat>) { Accounted(h.m, Descs(h.blocks), lost) }

  /** The frames a `umalloc` loses: the page in hand when a free block cannot be remapped for want of a table
      page; and, at the top, the frames that an earlier failure left mapped there. */
  function MallocLoses(h: Heap, size: nat): set<nat>
    requires HintBound(h)
  {
    var k := FindFit(h.blocks, AlignUp(size), 0);
    if size == 0 then {}
    else if k < |h.blocks| then InHand(MapLoop(h.m, First(h.blocks[k]), 0, Pages(h.blocks[k])))
    else if h.next + AlignUp(size) > HEAP_END then {}
    else ExtendLoses(h, AlignUp(size))
  }

  function ExtendLoses(h: Heap, size: nat): set<nat>
    requires HintBound(h)
  {
    var q := PageOf(h.next);
    Backing(h.m, q, q + MapLoop(h.m, q, 0, size / PAGE_SIZE).done)
  }

  lemma ReuseAccounts(h: Heap, k: nat, lost: set<nat>)
    requires HeapOK(h) && k < |h.blocks| && h.blocks[k].isFree && Ledger(h, lost)
    ensures HintBound(h)
    ensures var r := MapLoop(h.m, First(h.blocks[k]), 0, Pages(h.blocks[k]));
            Ledger(Reuse(h, k).0, lost + InHand(r))
  {
    hide LayersOK, HeapOK, BooksOK, Descs, MapLoop, First, Pages, Accounted, Backing, Mark, InHand;
    var b := h.blocks[k];
    LayersOf(h);
    BooksOf(h);
    BlockInHeap(h, k);
    AccountLoop(h.m, First(b), 0, Pages(b), Descs(h.blocks), lost);
    HeapReuse.FreeBlockUnmapped(h, k);
    var r := MapLoop(h.m, First(b), 0, Pages(b));
    NoneBacking(h.m, First(b), First(b) + Pages(b), First(b) + r.done);
    assert lost + {} == lost;
    DescsMarked(h.blocks, k, false);
    HeapReuse.ReuseNext(h, k);
  }

  lemma NoneBacking(m: Machine, lo: nat, hi: nat, top: nat)
    requires NoneMapped(m, lo, hi) && top <= hi
    ensures Backing(m, lo, top) == {}
  {
    hide Pte, Present, FrameOf;
  }

  lemma ExtendAccounts(h: Heap, size: nat, lost: set<nat>)
    requires HeapOK(h) && size > 0 && size % PAGE_SIZE == 0 && h.next + size <= HEAP_TOP && Ledger(h, lost)
    ensures HintBound(h) && Ledger(Extend(h, size).0, lost + ExtendLoses(h, size))
  {
    hide Keeps, LayersOK, PageOf, HeapOK, Descs, MapLoop, CleanLoop, AllocPage, FreePage, Pte, AllMapped, Spare,
         Backing,
         Accounted, BooksOK;
    LayersOf(h);
    BooksOf(h);
    TopPage(h, size);
    var q, n, ds := PageOf(h.next), size / PAGE_SIZE, Descs(h.blocks);
    AllMappedNone(h.m, q);
    MapLoopKeeps(h.m, q, 0, n, ds);
    AccountLoop(h.m, q, 0, n, ds, lost);
    var r := MapLoop(h.m, q, 0, n);
    var more := lost + Backing(h.m, q, q + r.done);
    KeepsLayers(h.m, r.m, q, q + n, ds);
    if !r.complete && r.page != 0 {
      AccountGiveBack(r.m, r.page, ds, more);
    } else {
      assert more + {} == more;
      AccountClean(r.m, q, r.done, ds, more);
      if r.complete && AllocPage(r.m.frames).1 != 0 {
        AccountDesc(r.m, ds, more);
        DescsGrow(h.blocks, Block(h.next, size, false, AllocPage(r.m.frames).1));
      }
    }
  }

  lemma DescsGrow(blocks: seq<Block>, b: Block)
    ensures Descs([b] + blocks) == Descs(blocks) + {b.desc}
  {
    forall e: nat ensures e in Descs([b] + blocks) <==> e in Descs(blocks) || e == b.desc {
      PushedDesc(blocks, b, e);
    }
  }

  lemma UMallocAccounts(h: Heap, size: nat, lost: set<nat>)
    requires HeapOK(h) && AllowedSize(h, size) && Ledger(h, lost)
    ensures HintBound(h) && Ledger(UMalloc(h, size).0, lost + MallocLoses(h, size))
  {
    hide HeapOK, Ledger, Extend, Reuse, AlignUp, MapLoop, ExtendLoses, InHand;
    LayersOf(h);
    AlignUpFacts(size);
    assert lost + {} == lost;
    if size > 0 {
      var k := FindFit(h.blocks, AlignUp(size), 0);
      if k < |h.blocks| {
        ReuseAccounts(h, k, lost);
      } else if h.next + AlignUp(size) <= HEAP_END {
        ExtendAccounts(h, AlignUp(size), lost);
      }
    }
  }

  lemma UFreeAccounts(h: Heap, ptr: nat, lost: set<nat>)
    requires HeapOK(h) && Ledger(h, lost)
    ensures Ledger(UFree(h, ptr), lost)
  {
    hide LayersOK, HeapOK, BooksOK, Descs, ReleaseLoop, First, Pages, Accounted;
    BooksOf(h);
    var k := FindInUse(h.blocks, ptr, 0);
    if ptr != 0 && k < |h.blocks| {
      BlockInHeap(h, k);
      AccountRelease(h.m, First(h.blocks[k]), 0, Pages(h.blocks[k]), Descs(h.blocks), lost);
      DescsMarked(h.blocks, k, true);
    }
  }

  lemma MoveAccounts(h: Heap, ptr: nat, size: nat, i: nat, lost: set<nat>)
    requires HeapOK(h) && i == FindInUse(h.blocks, ptr, 0) && i < |h.blocks| && ptr != 0 && Ledger(h, lost)
    requires size > h.blocks[i].size && AllowedSize(h, size) && MappedBlock(h, h.blocks[i]) && AlignUp(size) == size
    ensures HintBound(h)
    ensures var (g, p) := UMalloc(h, size);
            p != 0 ==>
              Ledger(UFree(g.(m := HeapRun.CopyLoop(g.m, p, ptr, 0, h.blocks[i].size)), ptr),
                     lost + MallocLoses(h, size))
  {
    hide HeapOK, UFree, UMalloc, HeapRun.CopyLoop, AllowedSize, MappedBlock, AlignUp, First, Pages, LayersOK, BooksOK,
         Descs, HeapRun.CopyFits, MallocLoses, Accounted;
    UMallocAccounts(h, size, lost);
    var i', k := HeapRun.MoveFits(h, ptr, size, i);
    var (g, p) := UMalloc(h, size);
    var more := lost + MallocLoses(h, size);
    if p != 0 {
      BooksOf(g);
      HeapRun.BlocksFit(g, i', k);
      var b, c := g.blocks[i'], g.blocks[k];
      AccountCopy(g.m, First(c), First(b), 0, b.size, Pages(c), Pages(b), Descs(g.blocks), more);
      UFreeAccounts(g.(m := HeapRun.CopyLoop(g.m, p, ptr, 0, b.size)), ptr, more);
    }
  }

  /** The frames one step loses. */
  function Loses(h: Heap, op: HeapRun.HeapOp): set<nat>
    requires HintBound(h)
  {
    match op
    case Malloc(size) => MallocLoses(h, size)
    case Realloc(ptr, size) =>
      if ptr == 0 then MallocLoses(h, size)
      else
        var i := FindInUse(h.blocks, ptr, 0);
        if size > 0 && i < |h.blocks| && AlignUp(size) > h.blocks[i].size then MallocLoses(h, AlignUp(size)) else {}
    case _ => {}
  }

  lemma UReallocAccounts(h: Heap, ptr: nat, size: nat, lost: set<nat>)
    requires HeapOK(h) && HeapRun.AllowedRealloc(h, ptr, size) && Ledger(h, lost)
    ensures HintBound(h)
    ensures Ledger(HeapRun.URealloc(h, ptr, size).0, lost + Loses(h, HeapRun.Realloc(ptr, size)))
  {
    hide HeapOK, UFree, UMalloc, HeapRun.CopyLoop, AllowedSize, MappedBlock, AlignUp, MallocLoses, Ledger;
    LayersOf(h);
    assert lost + {} == lost;
    var i := FindInUse(h.blocks, ptr, 0);
    if ptr == 0 {
      UMallocAccounts(h, size, lost);
    } else if size == 0 {
      UFreeAccounts(h, ptr, lost);
    } else if i < |h.blocks| && AlignUp(size) > h.blocks[i].size {
      HeapRun.AlignUpAgain(size);
      UMallocAccounts(h, AlignUp(size), lost);
      MoveAccounts(h, ptr, AlignUp(size), i, lost);
    }
  }

  lemma StoreAccounts(h: Heap, v: nat, b: nat, lost: set<nat>)
    requires HeapOK(h) && HeapRun.Allowed(h, HeapRun.Store(v, b)) && Ledger(h, lost)
    ensures Ledger(h.(m := HeapRun.WriteByte(h.m, v, b)), lost)
  {
    hide HeapOK, Accounted, HeapRun.WriteByte, LayersOK, BooksOK, Pte, Present, PageOf, InBlock, Descs;
    BooksOf(h);
    HeapRun.SamePlace(v, v);
    AccountWrite(h.m, v, b, Descs(h.blocks), lost);
  }

  lemma StepAccounts(h: Heap, op: HeapRun.HeapOp, lost: set<nat>)
    requires HeapOK(h) && HeapRun.Allowed(h, op) && Ledger(h, lost)
    ensures HintBound(h) && Ledger(HeapRun.Perform(h, op), lost + Loses(h, op))
  {
    hide HeapOK, Ledger, UFree, UMalloc, HeapRun.URealloc, HeapRun.WriteByte, AllowedSize, HeapRun.AllowedRealloc, Pte,
         Present, InBlock, MallocLoses;
    LayersOf(h);
    assert lost + {} == lost;
    match op
    case Malloc(size) => UMallocAccounts(h, size, lost);
    case Free(ptr) => UFreeAccounts(h, ptr, lost);
    case Realloc(ptr, size) => UReallocAccounts(h, ptr, size, lost);
    case Store(v, b) => StoreAccounts(h, v, b, lost);
  }

  /** The frames a run loses. */
  ghost function RunLoses(h: Heap, ops: seq<HeapRun.HeapOp>): set<nat>
    decreases |ops|
  {
    if ops == [] || !HintBound(h) || !HeapRun.Allowed(h, ops[0]) then {}
    else Loses(h, ops[0]) + RunLoses(HeapRun.Perform(h, ops[0]), ops[1..])
  }

  /** Over every run, failures included, no frame goes astray but those two paths lose. */
  lemma {:induction false} RunAccounts(h: Heap, ops: seq<HeapRun.HeapOp>, lost: set<nat>)
    requires HeapOK(h) && Ledger(h, lost)
    ensures Ledger(HeapRun.After(h, ops), lost + RunLoses(h, ops))
    decreases |ops|
  {
    hide HeapOK, Ledger, HeapRun.Allowed, HeapRun.Perform, Loses;
    if ops != [] && HintBound(h) && HeapRun.Allowed(h, ops[0]) {
      StepAccounts(h, ops[0], lost);
      HeapRun.StepOK(h, ops[0]);
      RunAccounts(HeapRun.Perform(h, ops[0]), ops[1..], lost + Loses(h, ops[0]));
      assert lost + Loses(h, ops[0]) + RunLoses(HeapRun.Perform(h, ops[0]), ops[1..]) == lost + RunLoses(h, ops);
    } else {
      assert lost + {} == lost;
    }
  }

  /** Over the heaps a program can reach, a free block that cannot be remapped loses nothing: what is lost is
      what an extension covers up of the pages a failed one left mapped above the top. */
  lemma DeepLoses(h: Heap, size: nat)
    requires HeapOK(h) && HeapReuse.Deep(h) && AllowedSize(h, size)
    ensures HintBound(h)
    ensures MallocLoses(h, size) != {} ==>
              && FindFit(h.blocks, AlignUp(size), 0) == |h.blocks|
              && exists q: nat | PageOf(h.next) <= q < PageOf(h.next) + AlignUp(size) / PAGE_SIZE :: Present(Pte(h.m, q))
  {
    hide HeapOK, HeapReuse.Deep, AlignUp, MapLoop, Reuse, FreePages, AllMapped, NoneMapped, Pte, Present, FrameOf,
         PageOf,
         Pages, First, BooksOK;
    LayersOf(h);
    var k := FindFit(h.blocks, AlignUp(size), 0);
    if k < |h.blocks| {
      HeapReuse.ReuseDeep(h, k);
      BooksOf(h);
      BlockInHeap(h, k);
      DeepHand(h, k);
    }
  }

  lemma DeepHand(h: Heap, k: nat)
    requires HintBound(h) && k < |h.blocks|
    requires var r := MapLoop(h.m, First(h.blocks[k]), 0, Pages(h.blocks[k])); Reuse(h, k).1 == 0 ==> r.page == 0
    ensures h.blocks[k].addr != 0 ==> InHand(MapLoop(h.m, First(h.blocks[k]), 0, Pages(h.blocks[k]))) == {}
  {
    hide MapLoop;
  }

  // ---------------------------------------------------------------- the totals

  /** The frames handed out among the first n. */
  function Handed(p: Frames, n: nat): set<nat>
    requires n <= |p.used|
  {
    set i: nat | i < n && p.used[i] :: PageAddr(p, i)
  }

  lemma {:induction false} HandedCount(p: Frames, n: nat)
    requires n <= |p.used|
    ensures |Handed(p, n)| == Count(p.used[..n])
    decreases n
  {
    if n > 0 {
      HandedCount(p, n - 1);
      assert p.used[..n][..n - 1] == p.used[..n - 1];
      HandedOne(p, n - 1);
      assert PageAddr(p, n - 1) !in Handed(p, n - 1);
    }
  }

  lemma HandedOne(p: Frames, n: nat)
    requires n < |p.used|
    ensures Handed(p, n + 1) == Handed(p, n) + if p.used[n] then {PageAddr(p, n)} else {}
  {
  }

  lemma HandedOwned(p: Frames, f: nat)
    requires FramesOK(p)
    ensures f in Handed(p, |p.used|) <==> Owned(p, f)
  {
    hide HintOK, Count;
    if Owned(p, f) {
      assert p.used[PageIndex(p, f)] && PageAddr(p, PageIndex(p, f)) == f;
    }
    if f in Handed(p, |p.used|) {
      var i: nat :| i < |p.used| && p.used[i] && PageAddr(p, i) == f;
      PageIndexOf(p, i);
    }
  }

  /** The page tables the allocator gave (all but the root, which is none of its pages at boot). */
  ghost function TablesHeld(m: Machine): set<nat> { set t | t in m.tables && Owned(m.frames, t) }

  /** The heap pages below n that are mapped. */
  function MappedPages(m: Machine, n: nat): set<nat> { set q: nat | q < n && Present(Pte(m, q)) }

  lemma MappedOne(m: Machine, q: nat)
    ensures MappedPages(m, q + 1) == MappedPages(m, q) + (if Present(Pte(m, q)) then {q} else {})
    ensures Backing(m, 0, q + 1) == Backing(m, 0, q) + (if Present(Pte(m, q)) then {FrameOf(Pte(m, q))} else {})
  {
    hide Pte, Present, FrameOf;
  }

  lemma NotBacking(m: Machine, ds: set<nat>, q: nat)
    requires MapOK(m, ds) && q < HEAP_PAGES && Present(Pte(m, q))
    ensures FrameOf(Pte(m, q)) !in Backing(m, 0, q)
  {
    hide Pte, Present, FrameOf, Owned;
  }

  /** No two of them share a frame. */
  lemma {:induction false} BackingSize(m: Machine, ds: set<nat>, n: nat)
    requires MapOK(m, ds) && n <= HEAP_PAGES
    ensures |Backing(m, 0, n)| == |MappedPages(m, n)|
    decreases n
  {
    hide Pte, Present, FrameOf, Backing, MapOK;
    if n > 0 {
      BackingSize(m, ds, n - 1);
      MappedOne(m, n - 1);
      if Present(Pte(m, n - 1)) {
        NotBacking(m, ds, n - 1);
      }
    } else {
      NoBacking(m, 0);
    }
  }

  lemma {:induction false} DescsSize(blocks: seq<Block>)
    requires DescsApart(blocks)
    ensures |Descs(blocks)| == |blocks|
  {
    if blocks == [] {
      assert Descs(blocks) == {};
    } else {
      var b, rest := blocks[0], blocks[1..];
      assert [b] + rest == blocks;
      DescsSize(rest);
      DescsGrow(rest, b);
      assert b.desc !in Descs(rest);
    }
  }

  /** The counter of the allocator is the number of page tables, of blocks (one descriptor each), of mapped
      heap pages, and of lost frames, added up. */
  lemma FramesBalance(h: Heap, lost: set<nat>)
    requires HeapOK(h) && Ledger(h, lost)
    ensures h.m.frames.usedPages == |TablesHeld(h.m)| + |h.blocks| + |MappedPages(h.m, HEAP_PAGES)| + |lost|
  {
    hide Handed, FramesOK, Descs, Pte, Present, FrameOf, Owned, MappedPages, Tiles, SumOf, FreeUnmapped, Count;
    var m, ds := h.m, Descs(h.blocks);
    var p, n := m.frames, |m.frames.used|;
    CountedUsed(p);
    HandedCount(p, n);
    DescsSize(h.blocks);
    BackingSize(m, ds, HEAP_PAGES);
    FourUses(m, ds, lost);
    var held := Backing(m, 0, HEAP_PAGES);
    assert TablesHeld(m) !! ds !! held !! lost;
    assert |TablesHeld(m) + ds| == |TablesHeld(m)| + |ds|;
    assert |TablesHeld(m) + ds + held| == |TablesHeld(m) + ds| + |held|;
    assert |TablesHeld(m) + ds + held + lost| == |TablesHeld(m) + ds + held| + |lost|;
  }

  lemma NoDescs()
    ensures Descs([]) == {}
  {
  }

  lemma CountedUsed(p: Frames)
    requires FramesOK(p)
    ensures Count(p.used[..|p.used|]) == p.usedPages
  {
    hide HintOK, Count;
    assert p.used[..|p.used|] == p.used;
  }

  lemma FourUses(m: Machine, ds: set<nat>, lost: set<nat>)
    requires LayersOK(m, ds) && Accounted(m, ds, lost)
    ensures Handed(m.frames, |m.frames.used|) == TablesHeld(m) + ds + Backing(m, 0, HEAP_PAGES) + lost
  {
    hide Handed, Pte, Present, FrameOf, Owned, FramesOK, TreeOK;
    forall f: nat
      ensures f in Handed(m.frames, |m.frames.used|)
         <==> f in TablesHeld(m) + ds + Backing(m, 0, HEAP_PAGES) + lost
    {
      HandedOwned(m.frames, f);
      BackedIs(m, f);
    }
  }

  lemma BackedIs(m: Machine, f: nat)
    ensures f in Backing(m, 0, HEAP_PAGES) <==> Backs(m, 0, HEAP_PAGES, f)
  {
    hide Pte, Present, FrameOf;
  }

  /** The frames in use by others than the heap. */
  ghost function Others(m: Machine, ds: set<nat>): set<nat> {
    set f | f in Handed(m.frames, |m.frames.used|) && Spare(m, f, ds)
  }

  lemma OthersAccount(m: Machine, ds: set<nat>)
    requires LayersOK(m, ds)
    ensures Accounted(m, ds, Others(m, ds))
  {
    hide Handed, Pte, Present, FrameOf, Owned, FramesOK, TreeOK;
    forall f: nat | Owned(m.frames, f)
      ensures f in m.tables || f in ds || f in Others(m, ds) || Backs(m, 0, HEAP_PAGES, f)
    {
      HandedOwned(m.frames, f);
    }
  }

  /** From the start of the heap, over every run: the counter is the page tables, the blocks, the mapped
      pages, what was in use before the heap started, and what the run has lost. */
  lemma RunBalances(m: Machine, ops: seq<HeapRun.HeapOp>)
    requires HeapOK(Empty(m))
    ensures var h := HeapRun.After(Empty(m), ops);
            h.m.frames.usedPages == |TablesHeld(h.m)| + |h.blocks| + |MappedPages(h.m, HEAP_PAGES)|
                                  + |Others(m, {}) + RunLoses(Empty(m), ops)|
  {
    hide HeapOK, Accounted, LayersOK, BooksOK, Others, RunLoses;
    BooksOf(Empty(m));
    NoDescs();
    OthersAccount(m, {});
    HeapRun.RunOK(Empty(m), ops);
    RunAccounts(Empty(m), ops, Others(m, {}));
    FramesBalance(HeapRun.After(Empty(m), ops), Others(m, {}) + RunLoses(Empty(m), ops));
  }

  // ---------------------------------------------------------------- the page in hand

  lemma {:induction false} HandIsFresh(m: Machine, q: nat, i: nat, n: nat, ds: set<nat>)
    requires LayersOK(m, ds) && i <= n && q + n <= HEAP_PAGES
    ensures m.frames.hint <= |m.frames.used|
    ensures forall f | f in InHand(MapLoop(m, q, i, n)) :: !Owned(m.frames, f)
    decreases n - i
  {
    hide MapFresh, LayersOK, Keeps, Pte, Owned, AllocPage, Spare, Present, FrameOf;
    LayersHint(m, ds);
    if i < n {
      if AllocPage(m.frames).1 == 0 {
        NoFresh(m, q + i);
      } else {
        FreshTook(m, q + i, ds);
        MapFreshKeeps(m, q + i, ds);
        var (m', ok, a) := MapFresh(m, q + i);
        KeepsLayers(m, m', q + i, q + i + 1, ds);
        if ok {
          HandIsFresh(m', q, i + 1, n, ds);
        }
      }
    }
  }

  /** In any heap that meets the invariant: remapping a free block leaves a frame handed out and in no one's
      use exactly if the free pages run out in the middle of a page's tables. */
  lemma ReuseLosesExactly(h: Heap, k: nat)
    requires HeapOK(h) && k < |h.blocks| && h.blocks[k].isFree
    ensures HintBound(h)
    ensures var q, n, free, g := First(h.blocks[k]), Pages(h.blocks[k]), FreePages(h.m.frames), Reuse(h, k).0;
            (exists f: nat :: !Owned(h.m.frames, f) && Spare(g.m, f, Descs(g.blocks)))
            <==> exists j: nat | j < n :: Need(h.m, q, 0, j) < free < Need(h.m, q, 0, j + 1)
  {
    hide LayersOK, HeapOK, BooksOK, Descs, MapLoop, First, Pages, Accounted, Mark, Owned, Need, FreePages, Spare,
         Others;
    LayersOf(h);
    BooksOf(h);
    BlockInHeap(h, k);
    var q, n, ds, free := First(h.blocks[k]), Pages(h.blocks[k]), Descs(h.blocks), FreePages(h.m.frames);
    var r, g := MapLoop(h.m, q, 0, n), Reuse(h, k).0;
    HeapReuse.ReuseNext(h, k);
    DescsMarked(h.blocks, k, false);
    OthersAccount(h.m, ds);
    ReuseAccounts(h, k, Others(h.m, ds));
    SparesAre(h.m, r, ds);
    HandIsFresh(h.m, q, 0, n, ds);
    LoopCost(h.m, q, 0, n, ds);
    if j: nat :| j < n && Need(h.m, q, 0, j) < free < Need(h.m, q, 0, j + 1) {
      NeedGrows(h.m, q, 0, j + 1, n);
      if r.done < j {
        NeedGrows(h.m, q, 0, r.done + 1, j);
      } else if r.done > j {
        NeedGrows(h.m, q, 0, j + 1, r.done);
      }
      assert r.page in InHand(r);
    }
  }

  /** After the loop the frames in no one's use are those of before and the page in hand. */
  lemma SparesAre(m: Machine, r: MapEnd, ds: set<nat>)
    requires Accounted(r.m, ds, Others(m, ds) + InHand(r))
    ensures forall f: nat | !Owned(m.frames, f) :: Spare(r.m, f, ds) <==> f in InHand(r)
  {
    hide LayersOK, Owned, InHand, Pte, Present, FrameOf;
    forall f: nat | !Owned(m.frames, f) ensures Spare(r.m, f, ds) <==> f in InHand(r) {
      if f in InHand(r) {
        assert f in Others(m, ds) + InHand(r);
      }
    }
  }
}
