/** What growing the heap costs in pages, and so when it fails and when a failure leaks: all told from
    the state before the call. */
module HeapLeak {
  import opened FrameSpec
  import opened PageSpec
  import opened HeapSpec
  import opened HeapIsolation
  import opened Wrappers

  // ---------------------------------------------------------------- free pages

  function FreeBits(p: Frames): seq<bool> { seq(|p.used|, i requires 0 <= i < |p.used| => Free(p, i)) }

  /** How many pages the allocator can still hand out. */
  function FreePages(p: Frames): nat { Count(FreeBits(p)) }

  lemma TakeOne(p: Frames, i: nat)
    requires Free(p, i)
    ensures FreePages(p) == FreePages(Take(p, i)) + 1
  {
    assert FreeBits(Take(p, i)) == FreeBits(p)[i := false];
    CountUpdate(FreeBits(p), i, false);
  }

  /** An allocation fails exactly if no page is free, and else takes one. */
  lemma AllocCount(p: Frames)
    requires FramesOK(p)
    ensures AllocPage(p).1 == 0 <==> FreePages(p) == 0
    ensures AllocPage(p).1 != 0 ==> FreePages(AllocPage(p).0) == FreePages(p) - 1
  {
    AllocIsLowest(p);
    if AllocPage(p).1 == 0 {
      CountNone(FreeBits(p));
    } else {
      var i := AllocTakes(p);
      TakeOne(p, i);
    }
  }

  // ---------------------------------------------------------------- how deep a walk gets

  function Index(p: Path, level: nat): nat { if level == 0 then p.a else if level == 1 then p.b else p.c }

  /** The table `level` levels below the root on the path. */
  function Walk(m: Machine, p: Path, level: nat): Option<nat>
    requires Indices(p)
  {
    if level == 0 then Some(m.root)
    else if level == 1 then Child(m, m.root, p.a)
    else if level == 2 then
      (match Child(m, m.root, p.a)
       case None => None
       case Some(t3) => Child(m, t3, p.b))
    else LastTable(m, p)
  }

  /** The number of tables below the root that are there on the path. */
  function Depth(m: Machine, p: Path): (d: nat)
    requires Indices(p)
    ensures d <= 3
  {
    if Walk(m, p, 1).None? then 0 else if Walk(m, p, 2).None? then 1 else if Walk(m, p, 3).None? then 2 else 3
  }

  /** The number of tables two paths share. */
  function Common(p: Path, r: Path): (c: nat)
    ensures c <= 3
  {
    if p.a != r.a then 0 else if p.b != r.b then 1 else if p.c != r.c then 2 else 3
  }

  function Max(a: nat, b: nat): nat { if a >= b then a else b }

  function Min(a: nat, b: nat): nat { if a <= b then a else b }

  /** A walk stays in the tree. */
  lemma WalkInTree(m: Machine, p: Path, level: nat)
    requires TreeOK(m) && Walkable(m, p) && level <= 3
    ensures Walk(m, p, level).Some? ==>
              Walk(m, p, level).value in m.tables && m.tables[Walk(m, p, level).value] == [p.a, p.b, p.c][..level]
  {
    hide Entry, Owned, FrameOf;
    assert Tracked(m, m.root, p.a);
    if Child(m, m.root, p.a).Some? {
      var t3 := Child(m, m.root, p.a).value;
      assert Tracked(m, t3, p.b) && m.tables[t3] == [p.a];
      if Child(m, t3, p.b).Some? {
        var t2 := Child(m, t3, p.b).value;
        assert Tracked(m, t2, p.c) && m.tables[t2] == [p.a, p.b];
      }
    }
  }

  /** A new table deepens the paths that lead to it by one, and no other. */
  lemma LinkedWalk(m: Machine, n: Machine, t: nat, i: nat, a: nat, p: Path)
    requires TreeOK(m) && Linked(m, n, t, i, a) && |m.tables[t]| < 3 && Walkable(m, p)
    ensures var level := |m.tables[t]|;
            if Walk(m, p, level) == Some(t) && Index(p, level) == i
            then Depth(m, p) == level && Depth(n, p) == level + 1 && Walk(n, p, level + 1) == Some(a)
            else Depth(n, p) == Depth(m, p)
  {
    hide Entry, Owned, FrameOf;
    WalkInTree(m, p, 1);
    WalkInTree(m, p, 2);
    assert Tracked(m, m.root, p.a);
    if Child(m, m.root, p.a).Some? {
      var t3 := Child(m, m.root, p.a).value;
      assert Tracked(m, t3, p.b) && m.tables[t3] == [p.a];
      assert Child(n, n.root, p.a) == Some(t3);
      if Child(m, t3, p.b).Some? {
        var t2 := Child(m, t3, p.b).value;
        assert Tracked(m, t2, p.c) && m.tables[t2] == [p.a, p.b];
        assert Child(n, t3, p.b) == Some(t2);
        assert Child(m, t2, p.c).Some? ==> Child(n, t2, p.c) == Child(m, t2, p.c);
      }
    }
  }

  lemma SharedWalk(m: Machine, p: Path, r: Path, level: nat)
    requires TreeOK(m) && Walkable(m, p) && Walkable(m, r) && level <= 3 && Walk(m, p, level).Some?
    ensures Walk(m, r, level) == Walk(m, p, level) <==> Common(p, r) >= level
  {
    hide TreeOK, Entry;
    WalkInTree(m, p, level);
    WalkInTree(m, r, level);
    if Walk(m, r, level) == Walk(m, p, level) {
      SharedPlace(p, r, level);
    }
  }

  lemma SharedPlace(p: Path, r: Path, level: nat)
    requires level <= 3 && [p.a, p.b, p.c][..level] == [r.a, r.b, r.c][..level]
    ensures Common(p, r) >= level
  {
    var s, t := [p.a, p.b, p.c], [r.a, r.b, r.c];
    assert level > 0 ==> s[..level][0] == t[..level][0];
    assert level > 1 ==> s[..level][1] == t[..level][1];
    assert level > 2 ==> s[..level][2] == t[..level][2];
  }

  lemma NextWalk(m: Machine, p: Path, level: nat)
    requires Indices(p) && level < 3 && Walk(m, p, level).Some?
    ensures Index(p, level) < 512 && Walk(m, p, level + 1) == Child(m, Walk(m, p, level).value, Index(p, level))
    ensures Depth(m, p) >= level && (Depth(m, p) > level <==> Walk(m, p, level + 1).Some?)
  {
    hide Child;
  }

  lemma WalkDepth(m: Machine, p: Path, level: nat)
    requires Indices(p) && level <= 3
    ensures Walk(m, p, level).Some? <==> Depth(m, p) >= level
  {
    hide Child;
  }

  /** Paths that share tables are equally deep as far as they share them. */
  lemma SharedDepth(m: Machine, p: Path, r: Path, level: nat)
    requires TreeOK(m) && Walkable(m, p) && Walkable(m, r) && level <= Depth(m, p) && level <= Common(p, r)
    ensures Depth(m, r) >= level
  {
    hide TreeOK, Walk, Depth, Common;
    WalkDepth(m, p, level);
    SharedWalk(m, p, r, level);
    WalkDepth(m, r, level);
  }

  /** One level of getting or making a table on the path. */
  lemma LevelStep(m: Machine, t: nat, p: Path, level: nat, user: bool)
    requires MachineOK(m) && Walkable(m, p) && level < 3 && Walk(m, p, level) == Some(t)
    ensures Index(p, level) < 512
    ensures var (n, a) := EnsureTable(m, t, Index(p, level), user);
            && MachineOK(n) && n.slots == m.slots
            && (a != 0 <==> Depth(m, p) > level || FreePages(m.frames) > 0)
            && (a != 0 ==>
                  && Walk(n, p, level + 1) == Some(a)
                  && FreePages(n.frames) == FreePages(m.frames) - (if Depth(m, p) > level then 0 else 1)
                  && forall r: Path | Walkable(m, r) :: Depth(n, r) == Max(Depth(m, r), Min(Common(p, r), level + 1)))
  {
    hide Entry, Owned, FreePages, Depth, Walk, Common, Leaf, AllocPage, FramesOK;
    RootWalk(m, p);
    NextWalk(m, p, level);
    WalkInTree(m, p, level);
    AllocCount(m.frames);
    EnsureKeeps(m, t, Index(p, level), user);
    var (n, a) := EnsureTable(m, t, Index(p, level), user);
    if Depth(m, p) > level {
      forall r: Path | Walkable(m, r) ensures Depth(m, r) == Max(Depth(m, r), Min(Common(p, r), level + 1)) {
        if Common(p, r) >= level + 1 {
          SharedDepth(m, p, r, level + 1);
        } else {
          SharedDepth(m, p, r, Common(p, r));
        }
      }
    } else if a != 0 {
      EnsureLinks(m, t, Index(p, level), user);
      forall r: Path | Walkable(m, r) ensures Depth(n, r) == Max(Depth(m, r), Min(Common(p, r), level + 1)) {
        Deepened(m, n, t, a, p, r, level);
      }
      Deepened(m, n, t, a, p, p, level);
    }
  }

  lemma Deepened(m: Machine, n: Machine, t: nat, a: nat, p: Path, r: Path, level: nat)
    requires TreeOK(m) && Walkable(m, p) && Walkable(m, r) && level < 3 && Walk(m, p, level) == Some(t)
    requires Linked(m, n, t, Index(p, level), a) && |m.tables[t]| == level
    ensures Depth(n, r) == Max(Depth(m, r), Min(Common(p, r), level + 1))
    ensures Common(p, r) > level ==> Walk(n, r, level + 1) == Some(a)
  {
    hide TreeOK, Walk, Depth, Linked;
    LinkedWalk(m, n, t, Index(p, level), a, r);
    SharedWalk(m, p, r, level);
    WalkDepth(m, p, level);
    SharedDepth(m, p, r, Min(Common(p, r), level));
  }

  /** Getting or making the three tables of a path: it works exactly if a page is free for each that is
      missing, takes that many, and deepens the other paths as far as they share the tables. */
  lemma PathCost(m: Machine, p: Path, user: bool)
    requires MachineOK(m) && Walkable(m, p)
    ensures var (n, t1) := EnsurePath(m, p, user);
            && (t1 != 0 <==> FreePages(m.frames) >= 3 - Depth(m, p))
            && (t1 != 0 ==>
                  && FreePages(n.frames) == FreePages(m.frames) - (3 - Depth(m, p))
                  && forall r: Path | Walkable(m, r) :: Depth(n, r) == Max(Depth(m, r), Common(p, r)))
  {
    hide MachineOK, EnsureTable, FreePages, Depth, Walk, Common;
    RootWalk(m, p);
    LevelStep(m, m.root, p, 0, user);
    var (m1, t3) := EnsureTable(m, m.root, p.a, user);
    if t3 != 0 {
      LevelStep(m1, t3, p, 1, user);
      var (m2, t2) := EnsureTable(m1, t3, p.b, user);
      if t2 != 0 {
        LevelStep(m2, t2, p, 2, user);
      }
    }
  }

  lemma RootWalk(m: Machine, p: Path)
    requires MachineOK(m) && Indices(p)
    ensures Walk(m, p, 0) == Some(m.root) && m.frames.hint <= |m.frames.used| && Common(p, p) == 3
  {
  }

  // ---------------------------------------------------------------- what one heap page costs

  /** The tables that heap pages q and r share, by their page numbers. */
  function Shared(q: nat, r: nat): (c: nat)
    ensures c <= 3
  {
    if q / 0x800_0000 != r / 0x800_0000 then 0
    else if q / 0x4_0000 != r / 0x4_0000 then 1
    else if q / 512 != r / 512 then 2
    else 3
  }

  lemma SharedIsCommon(q: nat, r: nat)
    requires q < HEAP_PAGES && r < HEAP_PAGES
    ensures Common(PathOf(PageVA(q)), PathOf(PageVA(r))) == Shared(q, r)
  {
    hide PathOf, PageVA;
    HeapIndices(q);
    HeapIndices(r);
  }

  lemma HeapIndices(q: nat)
    requires q < HEAP_PAGES
    ensures var p := PathOf(PageVA(q));
            && p.a == 128 + q / 0x800_0000 && p.b == q / 0x4_0000 % 512 && p.c == q / 512 % 512
    ensures q / 0x4_0000 == 512 * (q / 0x800_0000) + q / 0x4_0000 % 512
    ensures q / 512 == 512 * (q / 0x4_0000) + q / 512 % 512
  {
    PathDivisions(PageVA(q));
    PageNumber(q);
    Quotients(q);
    hide PageVA;
  }

  lemma PageNumber(q: nat)
    ensures PageVA(q) / 0x1000 == 0x4_0000_0000 + q
  {
  }

  lemma Quotients(q: nat)
    requires q < HEAP_PAGES
    ensures var n := 0x4_0000_0000 + q;
            && n / 0x800_0000 % 512 == 128 + q / 0x800_0000 && n / 0x4_0000 % 512 == q / 0x4_0000 % 512
            && n / 512 % 512 == q / 512 % 512
    ensures q / 0x4_0000 == 512 * (q / 0x800_0000) + q / 0x4_0000 % 512
    ensures q / 512 == 512 * (q / 0x4_0000) + q / 512 % 512
  {
    var a, b := q / 512, q / 0x4_0000;
    assert a / 512 == b;
    assert b / 512 == q / 0x800_0000;
    assert (0x4_0000_0000 + q) / 512 == 0x200_0000 + a;
    assert (0x4_0000_0000 + q) / 0x4_0000 == 0x1_0000 + b;
    assert (0x4_0000_0000 + q) / 0x800_0000 == 128 + q / 0x800_0000;
  }

  lemma SharedNearer(p: nat, q: nat, r: nat)
    requires p <= q <= r
    ensures Shared(p, r) <= Shared(q, r)
  {
  }

  /** The number of tables below the root that heap page q already has. */
  function HeapDepth(m: Machine, q: nat): (d: nat)
    ensures d <= 3
  {
    Depth(m, PathOf(PageVA(q)))
  }

  lemma DepthOfMemory(m: Machine, n: Machine, p: Path)
    requires Indices(p) && n == m.(frames := n.frames)
    ensures Depth(n, p) == Depth(m, p)
  {
  }

  lemma DepthAfterLeaf(m: Machine, t: nat, i: nat, e: nat, p: Path)
    requires TreeOK(m) && t in m.tables && |m.tables[t]| == 3 && i < 512 && Walkable(m, p)
    ensures Depth(SetEntry(m, t, i, e), p) == Depth(m, p)
  {
    EntryAfterSet(m, t, i, e);
    hide SetEntry, Entry, Owned, FrameOf;
    var n := SetEntry(m, t, i, e);
    assert Tracked(m, m.root, p.a);
    if Child(m, m.root, p.a).Some? {
      var t3 := Child(m, m.root, p.a).value;
      assert Tracked(m, t3, p.b);
      assert Child(n, n.root, p.a) == Some(t3);
      if Child(m, t3, p.b).Some? {
        assert Tracked(m, Child(m, t3, p.b).value, p.c);
      }
    }
  }

  /** Mapping one page at its path, with flags: it works exactly if there are pages enough for its
      missing tables. */
  lemma MapCost(m: Machine, q: nat, a: nat)
    requires MachineOK(m) && HeapSlots(m) && q < HEAP_PAGES
    ensures m.frames.hint <= |m.frames.used|
    ensures var (n, ok) := MapPage(m, PageVA(q), a, HEAP_FLAGS);
            && (ok <==> FreePages(m.frames) >= 3 - HeapDepth(m, q))
            && (ok ==>
                  && FreePages(n.frames) == FreePages(m.frames) - (3 - HeapDepth(m, q))
                  && forall r: nat | r < HEAP_PAGES :: HeapDepth(n, r) == Max(HeapDepth(m, r), Shared(q, r)))
  {
    var p := PathOf(PageVA(q));
    RootWalk(m, p);
    HeapPaths(q, q);
    MapViaPath(m, PageVA(q), a, HEAP_FLAGS);
    EnsurePathKeeps(m, p, IsUser(HEAP_FLAGS));
    PathCost(m, p, IsUser(HEAP_FLAGS));
    var (n, t1) := EnsurePath(m, p, IsUser(HEAP_FLAGS));
    hide PathOf, PageVA, EnsurePath, MapPage, SetEntry, Depth, FreePages, LeafEntry, Owned, Leaf, Entry, FramesOK;
    if t1 != 0 {
      var e := LeafEntry(a, HEAP_FLAGS);
      SetEntryFields(n, t1, p.d, e);
      ExtendsParts(m, n);
      forall r: nat | r < HEAP_PAGES
        ensures HeapDepth(SetEntry(n, t1, p.d, e), r) == Max(HeapDepth(m, r), Shared(q, r))
      {
        HeapPaths(r, r);
        SharedIsCommon(q, r);
        DepthAfterLeaf(n, t1, p.d, e, PathOf(PageVA(r)));
      }
    }
  }

  /** A page for heap page q, mapped: one page and one for each missing table. */
  lemma FreshCost(m: Machine, q: nat, ds: set<nat>)
    requires LayersOK(m, ds) && q < HEAP_PAGES
    ensures m.frames.hint <= |m.frames.used|
    ensures var (n, ok, a) := MapFresh(m, q);
            && (a == 0 <==> FreePages(m.frames) == 0)
            && (ok <==> FreePages(m.frames) >= 4 - HeapDepth(m, q))
            && (ok ==>
                  && FreePages(n.frames) == FreePages(m.frames) - (4 - HeapDepth(m, q))
                  && forall r: nat | r < HEAP_PAGES :: HeapDepth(n, r) == Max(HeapDepth(m, r), Shared(q, r)))
  {
    LayersHint(m, ds);
    LayersMachine(m, ds);
    AllocCount(m.frames);
    if AllocPage(m.frames).1 != 0 {
      TakeKeeps(m, ds);
      var (p, a) := AllocPage(m.frames);
      var m1 := m.(frames := p);
      LayersMachine(m1, ds);
      MapCost(m1, q, a);
      hide AllocPage, MapPage, LayersOK, MachineOK, FreePages, Depth, PathOf, PageVA, Owned;
      forall r: nat | r < HEAP_PAGES ensures HeapDepth(m1, r) == HeapDepth(m, r) {
        DepthOfMemory(m, m1, PathOf(PageVA(r)));
      }
    }
  }

  lemma LayersMachine(m: Machine, ds: set<nat>)
    requires LayersOK(m, ds)
    ensures MachineOK(m) && HeapSlots(m) && FramesOK(m.frames)
  {
  }

  // ---------------------------------------------------------------- what a run of heap pages costs

  /** The tables heap page q + k needs when pages q + i to q + k - 1 have just been mapped. */
  function Missing(m: Machine, q: nat, i: nat, k: nat): nat
    requires i <= k
  {
    3 - if k == i then HeapDepth(m, q + k) else Max(HeapDepth(m, q + k), Shared(q + k - 1, q + k))
  }

  /** The pages it takes to map heap pages q + i to q + j - 1. */
  function Need(m: Machine, q: nat, i: nat, j: nat): nat
    requires i <= j
    decreases j
  {
    if i == j then 0 else Need(m, q, i, j - 1) + 1 + Missing(m, q, i, j - 1)
  }

  lemma {:induction false} NeedGrows(m: Machine, q: nat, i: nat, j: nat, k: nat)
    requires i <= j <= k
    ensures Need(m, q, i, j) + (k - j) <= Need(m, q, i, k)
    decreases k
  {
    hide Missing;
    if j < k {
      NeedGrows(m, q, i, j, k - 1);
    }
  }

  lemma NeedOne(m: Machine, q: nat, i: nat)
    ensures Need(m, q, i, i) == 0 && Need(m, q, i, i + 1) == 4 - HeapDepth(m, q + i)
  {
    hide HeapDepth;
  }

  /** Mapping the first page leaves the need of the others. */
  lemma {:induction false} NeedShift(m: Machine, n: Machine, q: nat, i: nat, j: nat)
    requires i < j && q + j <= HEAP_PAGES
    requires forall r: nat | r < HEAP_PAGES :: HeapDepth(n, r) == Max(HeapDepth(m, r), Shared(q + i, r))
    ensures Need(m, q, i, j) == 4 - HeapDepth(m, q + i) + Need(n, q, i + 1, j)
    decreases j
  {
    hide HeapDepth, Shared;
    if j > i + 1 {
      NeedShift(m, n, q, i, j - 1);
      SharedNearer(q + i, q + j - 2, q + j - 1);
    }
  }

  /** How the mapping loop ends, from the number of free pages at its start. */
  lemma {:induction false} LoopCost(m: Machine, q: nat, i: nat, n: nat, ds: set<nat>)
    requires LayersOK(m, ds) && i <= n && q + n <= HEAP_PAGES
    ensures m.frames.hint <= |m.frames.used|
    ensures var r, free := MapLoop(m, q, i, n), FreePages(m.frames);
            && Need(m, q, i, r.done) <= free
            && (r.complete ==> FreePages(r.m.frames) == free - Need(m, q, i, n))
            && (!r.complete ==> free < Need(m, q, i, r.done + 1) && (r.page == 0 <==> free == Need(m, q, i, r.done)))
    decreases n - i
  {
    hide MapFresh, LayersOK, FreePages, HeapDepth, Keeps, Shared, Need, Present, Pte, Spare;
    LayersHint(m, ds);
    NeedOne(m, q, i);
    if i < n {
      FreshCost(m, q + i, ds);
      var (m', ok, a) := MapFresh(m, q + i);
      if ok {
        MapFreshKeeps(m, q + i, ds);
        KeepsLayers(m, m', q + i, q + i + 1, ds);
        LoopCost(m', q, i + 1, n, ds);
        var r := MapLoop(m', q, i + 1, n);
        NeedShift(m, m', q, i, n);
        NeedShift(m, m', q, i, r.done);
        if !r.complete {
          NeedShift(m, m', q, i, r.done + 1);
        }
      }
    }
  }

  /** Growing the heap fails exactly if the free pages do not suffice for the pages, their tables and
      the descriptor. */
  lemma ExtendFailsExactly(h: Heap, size: nat)
    requires HeapOK(h) && size > 0 && size % PAGE_SIZE == 0 && h.next + size <= HEAP_TOP
    ensures HintBound(h)
    ensures Extend(h, size).1 == 0 <==> FreePages(h.m.frames) <= Need(h.m, PageOf(h.next), 0, size / PAGE_SIZE)
  {
    hide Keeps, LayersOK, PageOf, HeapOK, Descs, MapLoop, CleanLoop, AllocPage, FreePage, FreePages, Need, Pte;
    LayersOf(h);
    BooksOf(h);
    TopPage(h, size);
    var q, n, ds := PageOf(h.next), size / PAGE_SIZE, Descs(h.blocks);
    AllMappedNone(h.m, q);
    MapLoopKeeps(h.m, q, 0, n, ds);
    LoopCost(h.m, q, 0, n, ds);
    var r := MapLoop(h.m, q, 0, n);
    if r.complete {
      KeepsLayers(h.m, r.m, q, q + n, ds);
      LayersMachine(r.m, ds);
      AllocCount(r.m.frames);
      TopPositive(h);
    } else {
      NeedGrows(h.m, q, 0, r.done + 1, n);
    }
  }

  lemma TopPositive(h: Heap)
    requires HeapOK(h)
    ensures h.next > 0
  {
  }

  /** A failed extension leaves pages mapped above the top exactly if the free pages run out in the
      middle of a page's tables, with at least one page already mapped: that path frees only the page
      in hand. */
  lemma ExtendLeaksExactly(h: Heap, size: nat)
    requires HeapOK(h) && size > 0 && size % PAGE_SIZE == 0 && h.next + size <= HEAP_TOP
    requires NoneMapped(h.m, PageOf(h.next), PageOf(h.next) + size / PAGE_SIZE)
    ensures HintBound(h)
    ensures var q, n, free := PageOf(h.next), size / PAGE_SIZE, FreePages(h.m.frames);
            var (g, ptr) := Extend(h, size);
            ptr == 0 && !NoneMapped(g.m, q, q + n)
            <==> exists j: nat | 0 < j < n :: Need(h.m, q, 0, j) < free < Need(h.m, q, 0, j + 1)
  {
    hide LayersOK, PageOf, HeapOK, Descs, MapLoop, Extend, FreePages, Need, NoneMapped;
    LayersOf(h);
    BooksOf(h);
    TopPage(h, size);
    ExtendFailsExactly(h, size);
    LeftMapped(h, size);
    var q, n, ds := PageOf(h.next), size / PAGE_SIZE, Descs(h.blocks);
    LoopCost(h.m, q, 0, n, ds);
    var r, free := MapLoop(h.m, q, 0, n), FreePages(h.m.frames);
    if j: nat :| 0 < j < n && Need(h.m, q, 0, j) < free < Need(h.m, q, 0, j + 1) {
      NeedGrows(h.m, q, 0, j + 1, n);
      if r.done < j {
        NeedGrows(h.m, q, 0, r.done + 1, j);
      } else if r.done > j {
        NeedGrows(h.m, q, 0, j + 1, r.done);
      }
    }
    if !r.complete && r.page != 0 && r.done > 0 {
      NeedGrows(h.m, q, 0, r.done + 1, n);
    }
  }

  // ---------------------------------------------------------------- an input that leaks

  /** Up to the end of a page table every page after the first costs just itself. */
  lemma {:induction false} NeedInTable(m: Machine, q: nat, j: nat)
    requires 0 < j && (q + j - 1) / 512 == q / 512
    ensures Need(m, q, 0, j) == j + 3 - HeapDepth(m, q)
  {
    hide HeapDepth;
    NeedOne(m, q, 0);
    if j > 1 {
      NeedInTable(m, q, j - 1);
      SameTable(q, q + j - 2, q + j - 1);
    }
  }

  lemma SameTable(q: nat, p: nat, r: nat)
    requires q <= p <= r && r / 512 == q / 512
    ensures p / 512 == q / 512 && Shared(p, r) == 3
  {
    assert p / 512 / 512 == p / 0x4_0000 && r / 512 / 512 == r / 0x4_0000;
    assert p / 512 / 0x4_0000 == p / 0x800_0000 && r / 512 / 0x4_0000 == r / 0x800_0000;
  }

  lemma {:induction false} CountAll(bits: seq<bool>)
    requires forall i | 0 <= i < |bits| :: bits[i]
    ensures Count(bits) == |bits|
    decreases |bits|
  {
    if bits != [] {
      CountAll(bits[..|bits| - 1]);
    }
  }

  /** A machine just booted, with 516 free pages. */
  function BootFrames(): Frames {
    Frames(KERNEL_TOP, [Region(KERNEL_TOP, 516 * PAGE_SIZE, true)], seq(516, i => false), 0, 0)
  }

  function Booted(): Machine {
    Machine(BootFrames(), map[], 0x1000, set i: nat | i < 256 && UpperSlot(i), map[0x1000 := []], 1)
  }

  predicate UpperSlot(i: nat) { i >= 128 }

  lemma BootedOK()
    ensures HeapOK(Empty(Booted())) && FreePages(Booted().frames) == 516
    ensures forall q: nat :: HeapDepth(Booted(), q) == 0
  {
    hide HeapOK, Count, PathOf, PageVA;
    var p := BootFrames();
    CountNone(p.used);
    forall i: nat | i < 516 ensures Free(p, i) {
      assert InRegion(p.regions[0], PageAddr(p, i));
    }
    CountAll(FreeBits(p));
    BootOK(Booted());
  }

  /** A program that asks a machine with 516 free pages for 513: the first 512 take 515 with their three
      tables, one page is left for the last, and no table.  The call fails, and the 512 pages stay mapped
      although no block holds them. */
  lemma LeakExample()
    ensures HeapOK(Empty(Booted()))
    ensures var (g, ptr) := UMalloc(Empty(Booted()), 513 * PAGE_SIZE);
            && ptr == 0 && g.blocks == [] && g.next == HEAP_START
            && exists q: nat | q < 513 :: Present(Pte(g.m, q))
  {
    hide HeapOK, HeapDepth, Need, FreePages, Pte, Extend, Booted, UMalloc, BootFrames, HintBound;
    var h := Empty(Booted());
    BootedOK();
    NeedInTable(h.m, 0, 512);
    NothingMapped(h);
    NeedPast(h.m);
    AtStart(h);
    LeaksAt(h, 512);
  }

  lemma LeaksAt(h: Heap, j: nat)
    requires HeapOK(h) && h.blocks == [] && h.next == HEAP_START && NoneMapped(h.m, 0, 513) && 0 < j < 513
    requires Need(h.m, 0, 0, j) < FreePages(h.m.frames) < Need(h.m, 0, 0, j + 1)
    ensures HintBound(h)
    ensures var (g, ptr) := Extend(h, 513 * PAGE_SIZE);
            ptr == 0 && g.blocks == [] && g.next == HEAP_START && exists q: nat | q < 513 :: Present(Pte(g.m, q))
  {
    hide HeapOK, Need, FreePages, Pte, Extend, LiveKept, MappedBlock, Present;
    FirstPage();
    ExtendLeaksExactly(h, 513 * PAGE_SIZE);
    ExtendOK(h, 513 * PAGE_SIZE);
  }

  lemma FirstPage()
    ensures PageOf(HEAP_START) == 0 && 513 * PAGE_SIZE / PAGE_SIZE == 513
  {
  }

  lemma NeedPast(m: Machine)
    requires Need(m, 0, 0, 512) == 515 && HeapDepth(m, 512) == 0
    ensures Need(m, 0, 0, 513) == 517
  {
    assert Missing(m, 0, 0, 512) == 1;
  }

  lemma NothingMapped(h: Heap)
    requires h == Empty(Booted())
    ensures NoneMapped(h.m, 0, 513)
  {
    hide PathOf, PageVA;
  }

  /** The request of 513 pages goes to the top of the empty heap. */
  lemma AtStart(h: Heap)
    requires h.blocks == [] && h.next == HEAP_START && HeapOK(h)
    ensures HintBound(h) && UMalloc(h, 513 * PAGE_SIZE) == Extend(h, 513 * PAGE_SIZE)
  {
    hide Extend, Pte, MapOK, TreeOK;
  }
}
