/** Who may use a heap page: over every run each mapped heap page is open to user programs, at every level of
    its walk. */
module HeapAccess {
  import opened FrameSpec
  import opened PageSpec
  import opened HeapSpec
  import opened HeapIsolation
  import opened HeapReuse
  import HeapRun
  import opened Wrappers

  // ---------------------------------------------------------------- every step adds user entries only

  lemma UMallocLinksStay(h: Heap, size: nat)
    requires HeapOK(h) && AllowedSize(h, size)
    ensures HintBound(h) && LinksStay(h.m, UMalloc(h, size).0.m)
  {
    hide HeapOK, LinksStay, Extend, Reuse, AlignUp;
    LayersOf(h);
    AlignUpFacts(size);
    LinksSelf(h.m, h.m);
    if size > 0 {
      var k := FindFit(h.blocks, AlignUp(size), 0);
      if k < |h.blocks| {
        ReuseLinksStay(h, k);
      } else if h.next + AlignUp(size) <= HEAP_END {
        ExtendLinksStay(h, AlignUp(size));
      }
    }
  }

  lemma MoveLinksStay(h: Heap, ptr: nat, size: nat, i: nat)
    requires HeapOK(h) && i == FindInUse(h.blocks, ptr, 0) && i < |h.blocks| && ptr != 0
    requires size > h.blocks[i].size && AllowedSize(h, size) && MappedBlock(h, h.blocks[i]) && AlignUp(size) == size
    ensures HintBound(h)
    ensures var (g, p) := UMalloc(h, size);
            p != 0 ==> LinksStay(h.m, UFree(g.(m := HeapRun.CopyLoop(g.m, p, ptr, 0, h.blocks[i].size)), ptr).m)
  {
    hide HeapOK, LinksStay, UFree, UMalloc, HeapRun.CopyLoop, AllowedSize, MappedBlock, AlignUp, First, Pages, LayersOK,
         BooksOK, Descs, HeapRun.CopyFits;
    UMallocLinksStay(h, size);
    var i', k := HeapRun.MoveFits(h, ptr, size, i);
    var (g, p) := UMalloc(h, size);
    if p != 0 {
      BooksOf(g);
      HeapRun.BlocksFit(g, i', k);
      var b, c := g.blocks[i'], g.blocks[k];
      CopyLinksStay(g.m, First(c), First(b), 0, b.size, Pages(c), Pages(b), Descs(g.blocks));
      var copied := g.(m := HeapRun.CopyLoop(g.m, p, ptr, 0, b.size));
      UFreeLinksStay(copied, ptr);
      LinksTrans(h.m, g.m, copied.m);
      LinksTrans(h.m, copied.m, UFree(copied, ptr).m);
    }
  }

  lemma UReallocLinksStay(h: Heap, ptr: nat, size: nat)
    requires HeapOK(h) && HeapRun.AllowedRealloc(h, ptr, size)
    ensures HintBound(h) && LinksStay(h.m, HeapRun.URealloc(h, ptr, size).0.m)
  {
    hide HeapOK, LinksStay, UFree, UMalloc, HeapRun.CopyLoop, AllowedSize, MappedBlock, AlignUp;
    LayersOf(h);
    LinksSelf(h.m, h.m);
    var i := FindInUse(h.blocks, ptr, 0);
    if ptr == 0 {
      UMallocLinksStay(h, size);
    } else if size == 0 {
      UFreeLinksStay(h, ptr);
    } else if i < |h.blocks| && AlignUp(size) > h.blocks[i].size {
      HeapRun.AlignUpAgain(size);
      UMallocLinksStay(h, AlignUp(size));
      MoveLinksStay(h, ptr, AlignUp(size), i);
    }
  }

  lemma StoreLinksStay(h: Heap, v: nat, b: nat)
    requires HeapOK(h) && HeapRun.Allowed(h, HeapRun.Store(v, b))
    ensures LinksStay(h.m, HeapRun.WriteByte(h.m, v, b))
  {
    hide HeapOK, HeapRun.WriteByte, LayersOK, BooksOK, Pte, Present, PageOf, InBlock, LinksStay, Descs;
    BooksOf(h);
    HeapRun.SamePlace(v, v);
    WriteLinksStay(h.m, v, b, Descs(h.blocks));
  }

  /** No step takes a table link back, and what it adds to the paths of heap pages is open to user programs. */
  lemma StepLinksStay(h: Heap, op: HeapRun.HeapOp)
    requires HeapOK(h) && HeapRun.Allowed(h, op)
    ensures HintBound(h) && LinksStay(h.m, HeapRun.Perform(h, op).m)
  {
    hide HeapOK, LinksStay, UFree, UMalloc, HeapRun.URealloc, HeapRun.WriteByte, AllowedSize, HeapRun.AllowedRealloc,
         Pte, Present, InBlock;
    LayersOf(h);
    match op
    case Malloc(size) => UMallocLinksStay(h, size);
    case Free(ptr) => UFreeLinksStay(h, ptr);
    case Realloc(ptr, size) => UReallocLinksStay(h, ptr, size);
    case Store(v, b) => StoreLinksStay(h, v, b);
  }

  // ---------------------------------------------------------------- over runs

  /** Everything present on the paths of heap pages has bits 0 to 2 set: present, writable, user. */
  ghost predicate UserPaths(m: Machine) {
    forall t: nat, i: nat | OnHeapPath(m, t, i) && Present(Entry(m, t, i)) :: Entry(m, t, i) % 8 == 7
  }

  lemma UserPathsStay(m: Machine, n: Machine)
    requires UserPaths(m) && LinksStay(m, n)
    ensures UserPaths(n)
  {
    hide Entry, Present;
    forall t: nat, i: nat | OnHeapPath(n, t, i) && Present(Entry(n, t, i)) ensures Entry(n, t, i) % 8 == 7 {
      assert t in m.tables ==> OnHeapPath(m, t, i);
    }
  }

  /** The walk to heap page q, all four entries of it: user programs may read and write the page. */
  ghost predicate Open(m: Machine, q: nat) {
    var p := PathOf(PageVA(q));
    && Entry(m, m.root, p.a) % 8 == 7
    && var t3 := FrameOf(Entry(m, m.root, p.a));
       && Entry(m, t3, p.b) % 8 == 7
       && var t2 := FrameOf(Entry(m, t3, p.b));
          && Entry(m, t2, p.c) % 8 == 7
          && Entry(m, FrameOf(Entry(m, t2, p.c)), p.d) % 8 == 7
  }

  lemma MappedIsOpen(m: Machine, q: nat)
    requires TreeOK(m) && HeapSlots(m) && UserPaths(m) && q < HEAP_PAGES && Present(Pte(m, q))
    ensures Open(m, q)
  {
    hide Entry, Owned, FrameOf, PathOf, PageVA, Present;
    HeapPaths(q, q);
    var p := PathOf(PageVA(q));
    LastTableInTree(m, p);
    ZeroAbsent();
    assert Tracked(m, m.root, p.a) && OnHeapPath(m, m.root, p.a);
    var t3 := FrameOf(Entry(m, m.root, p.a));
    assert Tracked(m, t3, p.b) && m.tables[t3] == [p.a];
    assert OnHeapPath(m, t3, p.b);
    var t2 := FrameOf(Entry(m, t3, p.b));
    assert Tracked(m, t2, p.c) && m.tables[t2] == [p.a, p.b];
    assert OnHeapPath(m, t2, p.c);
    assert OnHeapPath(m, FrameOf(Entry(m, t2, p.c)), p.d);
  }

  /** What the boot code leaves has nothing on the paths of heap pages. */
  lemma BootPaths(m: Machine)
    requires m.tables == map[m.root := []] && forall i: nat | 128 <= i < 256 :: !Present(Entry(m, m.root, i))
    ensures UserPaths(m)
  {
    hide Entry, Present;
  }

  lemma {:induction false} RunUserPaths(h: Heap, ops: seq<HeapRun.HeapOp>)
    requires HeapOK(h) && UserPaths(h.m)
    ensures UserPaths(HeapRun.After(h, ops).m)
    decreases |ops|
  {
    hide HeapOK, UserPaths, HeapRun.Allowed, HeapRun.Perform, LinksStay;
    if ops != [] && HintBound(h) && HeapRun.Allowed(h, ops[0]) {
      StepLinksStay(h, ops[0]);
      UserPathsStay(h.m, HeapRun.Perform(h, ops[0]).m);
      HeapRun.StepOK(h, ops[0]);
      RunUserPaths(HeapRun.Perform(h, ops[0]), ops[1..]);
    }
  }

  /** Over every run each mapped heap page, and so each page of a block that was granted, can be read and
      written by user programs. */
  lemma RunOpen(h: Heap, ops: seq<HeapRun.HeapOp>, q: nat)
    requires HeapOK(h) && UserPaths(h.m) && q < HEAP_PAGES
    ensures var n := HeapRun.After(h, ops).m; Present(Pte(n, q)) ==> Open(n, q)
  {
    hide HeapOK, UserPaths, HeapRun.After, Pte, Present, TreeOK, Open;
    RunUserPaths(h, ops);
    HeapRun.RunOK(h, ops);
    var n := HeapRun.After(h, ops);
    BooksOf(n);
    if Present(Pte(n.m, q)) {
      MappedIsOpen(n.m, q);
    }
  }
}
