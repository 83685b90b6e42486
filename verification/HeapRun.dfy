/** Bytes of the heap, urealloc, and the isolation theorem over whole runs. */
module HeapRun {
  import opened FrameSpec
  import opened PageSpec
  import opened HeapSpec
  import opened HeapIsolation

  // ---------------------------------------------------------------- bytes through the tables

  predicate HeapAddr(v: nat) { HEAP_START <= v < HEAP_TOP }

  /** The byte a program reads at heap address v, if its page is mapped. */
  function ReadByte(m: Machine, v: nat): nat {
    AsBytes(FrameAt(m.mem, FrameOf(Pte(m, PageOf(v)))))[v % PAGE_SIZE]
  }

  /** Byte j of the block at `base`. */
  function ByteOf(m: Machine, base: nat, j: nat): nat { ReadByte(m, base + j) }

  function WithByte(f: Frame, off: nat, b: nat): Frame
    requires off < PAGE_SIZE
  {
    Bytes(AsBytes(f)[off := b])
  }

  /** A store to heap address v whose page is mapped. */
  function WriteByte(m: Machine, v: nat, b: nat): Machine {
    var f := FrameOf(Pte(m, PageOf(v)));
    m.(mem := m.mem[f := WithByte(FrameAt(m.mem, f), v % PAGE_SIZE, b)])
  }

  /** The walk looks at tables alone. */
  lemma TablesUntouched(m: Machine, n: Machine)
    requires TreeOK(m) && n.(mem := m.mem) == m
    requires forall t | t in m.tables :: FrameAt(n.mem, t) == FrameAt(m.mem, t)
    ensures TreeOK(n) && forall p: Path | Walkable(m, p) :: Leaf(n, p) == Leaf(m, p)
  {
    hide FrameAt, Owned, FrameOf, AsWords;
    assert forall t, i: nat | t in m.tables && i < 512 :: Entry(n, t, i) == Entry(m, t, i);
    TreeCopied(m, n);
    forall p: Path | Walkable(m, p) ensures Leaf(n, p) == Leaf(m, p) {
      SameWalk(m, n, p);
      LastTableInTree(m, p);
    }
  }

  lemma TreeCopied(m: Machine, n: Machine)
    requires TreeOK(m) && n.(mem := m.mem) == m
    requires forall t, i: nat | t in m.tables && i < 512 :: Entry(n, t, i) == Entry(m, t, i)
    ensures TreeOK(n)
  {
    hide Entry, Owned, FrameOf;
    forall u, j: nat | Tracked(n, u, j) && Present(Entry(n, u, j))
      ensures FrameOf(Entry(n, u, j)) in n.tables && n.tables[FrameOf(Entry(n, u, j))] == n.tables[u] + [j]
    {
      assert Tracked(m, u, j) && Entry(n, u, j) == Entry(m, u, j);
    }
  }

  lemma WriteFrame(m: Machine, v: nat, b: nat)
    ensures var n, f := WriteByte(m, v, b), FrameOf(Pte(m, PageOf(v)));
            && n.(mem := m.mem) == m
            && (forall a: nat | a != f :: FrameAt(n.mem, a) == FrameAt(m.mem, a))
            && FrameAt(n.mem, f) == WithByte(FrameAt(m.mem, f), v % PAGE_SIZE, b)
  {
    hide Pte, FrameOf, PageOf, WithByte;
  }

  /** A store changes the frame of its own page and nothing else. */
  lemma WriteKeeps(m: Machine, v: nat, b: nat, ds: set<nat>)
    requires LayersOK(m, ds) && PageOf(v) < HEAP_PAGES && Present(Pte(m, PageOf(v)))
    ensures var n := WriteByte(m, v, b);
            && Keeps(m, n, PageOf(v), PageOf(v) + 1, ds)
            && forall q: nat | q < HEAP_PAGES :: Pte(n, q) == Pte(m, q)
  {
    var n := WriteByte(m, v, b);
    hide WriteByte, FrameAt, Owned, FrameOf, Entry, Present, PageOf, PathOf, Leaf, PageVA, TreeOK, FramesOK;
    WriteFrame(m, v, b);
    assert MapOK(m, ds);
    TablesUntouched(m, n);
    forall q: nat | q < HEAP_PAGES ensures Pte(n, q) == Pte(m, q) {
      HeapPaths(q, q);
    }
    SameMapOK(m, n, ds);
  }

  lemma SameMapOK(m: Machine, n: Machine, ds: set<nat>)
    requires MapOK(m, ds) && n.(mem := m.mem) == m && forall q: nat | q < HEAP_PAGES :: Pte(n, q) == Pte(m, q)
    ensures MapOK(n, ds)
  {
    hide Pte, Owned, FrameOf, Present;
  }

  lemma SamePlace(v: nat, w: nat)
    requires HeapAddr(v) && HeapAddr(w)
    ensures v == w <==> PageOf(v) == PageOf(w) && v % PAGE_SIZE == w % PAGE_SIZE
    ensures PageOf(v) < HEAP_PAGES
  {
  }

  /** A heap address is walked like the start of its page. */
  lemma PtePath(m: Machine, v: nat)
    requires HeapAddr(v)
    ensures Pte(m, PageOf(v)) == Leaf(m, PathOf(v))
  {
    hide PathOf, Leaf;
    SamePath(v, PageVA(PageOf(v)));
  }

  /** What `paging_get_physical` says of a mapped heap address: its frame, and the offset. */
  lemma PhysicalAddr(m: Machine, v: nat)
    requires HeapAddr(v) && Present(Pte(m, PageOf(v)))
    ensures AlignDown(GetPhysical(m, v)) == FrameOf(Pte(m, PageOf(v))) && GetPhysical(m, v) % PAGE_SIZE == v % PAGE_SIZE
  {
    hide PathOf, Leaf, Pte, PageOf;
    PtePath(m, v);
  }

  /** After a store every mapped byte of the heap reads as before, except the one stored to. */
  lemma WriteThenRead(m: Machine, v: nat, b: nat, w: nat, ds: set<nat>)
    requires LayersOK(m, ds) && HeapAddr(v) && HeapAddr(w)
    requires Present(Pte(m, PageOf(v))) && Present(Pte(m, PageOf(w)))
    ensures ReadByte(WriteByte(m, v, b), w) == if w == v then b else ReadByte(m, w)
  {
    SamePlace(v, w);
    SamePlace(w, v);
    WriteKeeps(m, v, b, ds);
    WriteFrame(m, v, b);
    hide WriteByte, FrameAt, Owned, FrameOf, Present, PageOf, Pte, MachineOK, Keeps;
    assert MapOK(m, ds);
  }

  // ---------------------------------------------------------------- urealloc

  /** The copy loop, from byte i on. */
  function CopyLoop(m: Machine, dst: nat, src: nat, i: nat, n: nat): Machine
    requires i <= n
    decreases n - i
  {
    if i == n then m else CopyLoop(WriteByte(m, dst + i, ReadByte(m, src + i)), dst, src, i + 1, n)
  }

  lemma BytePage(q: nat, pages: nat, i: nat)
    requires q + pages <= HEAP_PAGES && i < pages * PAGE_SIZE
    ensures HeapAddr(PageVA(q) + i) && q <= PageOf(PageVA(q) + i) < q + pages
  {
  }

  /** A copy between two places that do not overlap. */
  predicate CopyFits(m: Machine, p: nat, s: nat, n: nat, pages: nat, k: nat) {
    && n <= k * PAGE_SIZE && k <= pages && p + pages <= HEAP_PAGES && s + k <= HEAP_PAGES
    && (p + pages <= s || s + k <= p) && AllMapped(m, p, p + pages) && AllMapped(m, s, s + k)
  }

  lemma CopyStep(m: Machine, p: nat, s: nat, i: nat, n: nat, pages: nat, k: nat, ds: set<nat>)
    requires LayersOK(m, ds) && i < n && CopyFits(m, p, s, n, pages, k)
    ensures var m' := WriteByte(m, PageVA(p) + i, ReadByte(m, PageVA(s) + i));
            && Keeps(m, m', p, p + pages, ds) && LayersOK(m', ds) && CopyFits(m', p, s, n, pages, k)
            && forall q: nat | q < HEAP_PAGES :: Pte(m', q) == Pte(m, q)
  {
    hide WriteByte, ReadByte, LayersOK, PageVA, PageOf, Pte, Present, Keeps, HeapAddr;
    var v, b := PageVA(p) + i, ReadByte(m, PageVA(s) + i);
    var m' := WriteByte(m, v, b);
    BytePage(p, pages, i);
    WriteKeeps(m, v, b, ds);
    KeepsWiden(m, m', PageOf(v), p, p + pages, ds);
    KeepsLayers(m, m', p, p + pages, ds);
    StillMapped(m, m', p, p + pages);
    StillMapped(m, m', s, s + k);
  }

  lemma {:induction false} CopyLoopKeeps(m: Machine, p: nat, s: nat, i: nat, n: nat, pages: nat, k: nat, ds: set<nat>)
    requires LayersOK(m, ds) && i <= n && CopyFits(m, p, s, n, pages, k)
    ensures var r := CopyLoop(m, PageVA(p), PageVA(s), i, n);
            && Keeps(m, r, p, p + pages, ds) && AllMapped(r, p, p + pages)
            && forall q: nat | q < HEAP_PAGES :: Pte(r, q) == Pte(m, q)
    decreases n - i
  {
    hide WriteByte, ReadByte, LayersOK, PageVA, Pte, Present, Keeps;
    if i == n {
      KeepsSelf(m, p, p + pages, ds);
    } else {
      var m' := WriteByte(m, PageVA(p) + i, ReadByte(m, PageVA(s) + i));
      CopyStep(m, p, s, i, n, pages, k, ds);
      CopyLoopKeeps(m', p, s, i + 1, n, pages, k, ds);
      KeepsTrans(m, m', CopyLoop(m', PageVA(p), PageVA(s), i + 1, n), p, p + pages, ds);
    }
  }

  /** The copy carries byte j over, and does not spoil what it has already copied. */
  lemma {:induction false} CopyLoopByte(m: Machine, p: nat, s: nat, i: nat, n: nat, pages: nat, k: nat, ds: set<nat>,
      j: nat)
    requires LayersOK(m, ds) && i <= n && CopyFits(m, p, s, n, pages, k) && j < n
    ensures ReadByte(CopyLoop(m, PageVA(p), PageVA(s), i, n), PageVA(p) + j)
         == if i <= j then ReadByte(m, PageVA(s) + j) else ReadByte(m, PageVA(p) + j)
    decreases n - i
  {
    hide WriteByte, ReadByte, LayersOK, PageVA, PageOf, Pte, Present, Keeps, HeapAddr;
    if i < n {
      var v, b := PageVA(p) + i, ReadByte(m, PageVA(s) + i);
      CopyStep(m, p, s, i, n, pages, k, ds);
      CopyLoopByte(WriteByte(m, v, b), p, s, i + 1, n, pages, k, ds, j);
      BytePage(p, pages, i);
      BytePage(p, pages, j);
      BytePage(s, k, j);
      WriteThenRead(m, v, b, PageVA(p) + j, ds);
      WriteThenRead(m, v, b, PageVA(s) + j, ds);
      ApartBytes(p, pages, i, s, k, j);
    }
  }

  lemma ApartBytes(p: nat, pages: nat, i: nat, s: nat, k: nat, j: nat)
    requires p + pages <= s || s + k <= p
    requires i < pages * PAGE_SIZE && j < k * PAGE_SIZE
    ensures PageVA(p) + i != PageVA(s) + j
  {
  }

  lemma StillMapped(m: Machine, n: Machine, lo: nat, hi: nat)
    requires AllMapped(m, lo, hi) && hi <= HEAP_PAGES && forall q: nat | q < HEAP_PAGES :: Pte(n, q) == Pte(m, q)
    ensures AllMapped(n, lo, hi)
  {
    hide Pte;
  }

  /** `urealloc`. */
  function URealloc(h: Heap, ptr: nat, size: nat): (Heap, nat)
    requires HintBound(h)
  {
    if ptr == 0 then UMalloc(h, size)
    else if size == 0 then (UFree(h, ptr), 0)
    else
      var k := FindInUse(h.blocks, ptr, 0);
      if k == |h.blocks| then (h, 0)
      else if AlignUp(size) <= h.blocks[k].size then (h, ptr)
      else
        var (g, p) := UMalloc(h, AlignUp(size));
        if p == 0 then (g, 0)
        else (UFree(g.(m := CopyLoop(g.m, p, ptr, 0, h.blocks[k].size)), ptr), p)
  }

  /** What the caller of `urealloc` has to see to: that the size may be asked for, and that a block
      that must move can be read (a block left by a failed `umalloc` may have holes). */
  ghost predicate AllowedRealloc(h: Heap, ptr: nat, size: nat) {
    if ptr == 0 then AllowedSize(h, size)
    else
      var k := FindInUse(h.blocks, ptr, 0);
      size > 0 && k < |h.blocks| && AlignUp(size) > h.blocks[k].size ==>
        AllowedSize(h, AlignUp(size)) && MappedBlock(h, h.blocks[k])
  }

  /** Work inside block k leaves the others as they were. */
  lemma InsideOK(h: Heap, k: nat, m: Machine)
    requires HeapOK(h) && k < |h.blocks| && !h.blocks[k].isFree
    requires Keeps(h.m, m, First(h.blocks[k]), First(h.blocks[k]) + Pages(h.blocks[k]), Descs(h.blocks))
    ensures HeapOK(h.(m := m))
    ensures forall i | 0 <= i < |h.blocks| && i != k :: SameBlock(h, h.(m := m), h.blocks[i])
  {
    hide Keeps, LayersOK, Pte, First, Pages, Tiles, SumOf, Descs, BooksOK, NoneMapped, SameBlock;
    var n, b := h.(m := m), h.blocks[k];
    KeepsLayers(h.m, m, First(b), First(b) + Pages(b), Descs(h.blocks));
    forall i | 0 <= i < |h.blocks| && i != k
      ensures SameBlock(h, n, h.blocks[i])
      ensures h.blocks[i].isFree ==> NoneMapped(n.m, First(h.blocks[i]), First(h.blocks[i]) + Pages(h.blocks[i]))
    {
      BlocksApart(h, i, k);
      SameBlockFrom(h, n, First(b), First(b) + Pages(b), Descs(h.blocks), i);
    }
    BooksSame(h, n);
  }

  lemma BlockAddrs(h: Heap, k: nat)
    requires BooksOK(h) && k < |h.blocks|
    ensures h.blocks[k].addr == PageVA(First(h.blocks[k])) && h.blocks[k].size == Pages(h.blocks[k]) * PAGE_SIZE
    ensures First(h.blocks[k]) + Pages(h.blocks[k]) <= HEAP_PAGES
  {
    TilesBounds(h.blocks, h.next, k);
    BlockPages(h.blocks[k], h.next);
  }

  lemma AddrsDiffer(h: Heap, i: nat, k: nat)
    requires BooksOK(h) && i < |h.blocks| && k < |h.blocks| && i != k
    ensures h.blocks[i].addr != h.blocks[k].addr
  {
    BlocksApart(h, i, k);
  }

  /** A block that kept its frames and their contents reads the same. */
  lemma SameBytes(h: Heap, n: Heap, b: Block, j: nat)
    requires SameBlock(h, n, b) && MappedBlock(h, b) && j < b.size
    requires b.addr == PageVA(First(b)) && b.size == Pages(b) * PAGE_SIZE && First(b) + Pages(b) <= HEAP_PAGES
    ensures ByteOf(n.m, b.addr, j) == ByteOf(h.m, b.addr, j)
  {
    BytePage(First(b), Pages(b), j);
    hide Pte, Present, FrameAt, FrameOf, First, Pages, PageOf, PageVA, AsBytes;
    assert InBlock(b, PageOf(b.addr + j));
  }

  lemma SameUserBlock(h: Heap, n: Heap, b: Block)
    requires (forall q: nat | InBlock(b, q) :: Pte(n.m, q) == Pte(h.m, q)) && UserBlock(h, b)
    ensures UserBlock(n, b)
  {
    hide Pte, First, Pages;
    forall r: nat | First(b) <= r < First(b) + Pages(b) ensures Pte(n.m, r) % 8 == 7 {
      assert InBlock(b, r);
    }
  }

  lemma SameMappedBlock(h: Heap, n: Heap, b: Block)
    requires SameBlock(h, n, b) && MappedBlock(h, b)
    ensures MappedBlock(n, b)
  {
    hide Pte, Present, FrameAt, FrameOf, First, Pages;
    forall r: nat | First(b) <= r < First(b) + Pages(b) ensures Present(Pte(n.m, r)) {
      assert InBlock(b, r);
    }
  }

  /** Block k has room for block i. */
  lemma BlocksFit(g: Heap, i: nat, k: nat)
    requires BooksOK(g) && i < |g.blocks| && k < |g.blocks| && i != k
    requires MappedBlock(g, g.blocks[i]) && MappedBlock(g, g.blocks[k]) && g.blocks[i].size <= g.blocks[k].size
    ensures var b, c := g.blocks[i], g.blocks[k];
            && CopyFits(g.m, First(c), First(b), b.size, Pages(c), Pages(b))
            && c.addr == PageVA(First(c)) && b.addr == PageVA(First(b))
  {
    hide Pte, First, Pages, Tiles, SumOf, AllMapped;
    BlockAddrs(g, i);
    BlockAddrs(g, k);
    BlocksApart(g, i, k);
  }

  /** Copying block i into block k of the same heap. */
  lemma CopyOK(g: Heap, i: nat, k: nat)
    requires HeapOK(g) && i < |g.blocks| && k < |g.blocks| && i != k && !g.blocks[k].isFree
    requires MappedBlock(g, g.blocks[i]) && MappedBlock(g, g.blocks[k]) && g.blocks[i].size <= g.blocks[k].size
    ensures var b, c := g.blocks[i], g.blocks[k];
            var n := g.(m := CopyLoop(g.m, c.addr, b.addr, 0, b.size));
            && HeapOK(n) && MappedBlock(n, c) && (UserBlock(g, c) ==> UserBlock(n, c))
            && (forall l | 0 <= l < |g.blocks| && l != k :: SameBlock(g, n, g.blocks[l]))
            && (forall j: nat | j < b.size :: ByteOf(n.m, c.addr, j) == ByteOf(g.m, b.addr, j))
  {
    hide Keeps, LayersOK, Pte, First, Pages, Tiles, SumOf, Descs, BooksOK, HeapOK, SameBlock, ReadByte, CopyLoop,
         AllMapped;
    var b, c, ds := g.blocks[i], g.blocks[k], Descs(g.blocks);
    BooksOf(g);
    BlockAddrs(g, i);
    BlockAddrs(g, k);
    BlocksApart(g, i, k);
    BlocksFit(g, i, k);
    CopyLoopKeeps(g.m, First(c), First(b), 0, b.size, Pages(c), Pages(b), ds);
    InsideOK(g, k, CopyLoop(g.m, c.addr, b.addr, 0, b.size));
    forall j: nat | j < b.size
      ensures ByteOf(CopyLoop(g.m, c.addr, b.addr, 0, b.size), c.addr, j) == ByteOf(g.m, b.addr, j)
    {
      CopyLoopByte(g.m, First(c), First(b), 0, b.size, Pages(c), Pages(b), ds, j);
    }
  }

  /** A block that must move: the new one is granted and holds every byte of the old, which is free
      afterwards; no other live block is touched.  If there is no room the old block stays. */
  lemma ReallocMoves(h: Heap, ptr: nat, size: nat, i: nat) returns (k: nat)
    requires HeapOK(h) && i == FindInUse(h.blocks, ptr, 0) && i < |h.blocks| && ptr != 0
    requires size > h.blocks[i].size && AllowedSize(h, size) && MappedBlock(h, h.blocks[i]) && AlignUp(size) == size
    ensures HintBound(h)
    ensures var (g, p) := UMalloc(h, size);
            var n := UFree(g.(m := CopyLoop(g.m, p, ptr, 0, h.blocks[i].size)), ptr);
            p != 0 ==>
              && HeapOK(n) && LiveKept(h, n, ptr) && Granted(h, n, k, p, size)
              && h.blocks[i].(isFree := true) in n.blocks
              && forall j: nat | j < h.blocks[i].size :: ByteOf(n.m, p, j) == ByteOf(h.m, ptr, j)
  {
    hide UMalloc, CopyLoop, HeapOK, AllowedSize, MappedBlock, SameBlock, AlignUp, Pages, First, Apart, ByteOf, UFree,
         NoneMapped, Backs, Owned;
    k := UMallocOK(h, size);
    var (g, p) := UMalloc(h, size);
    if p != 0 {
      var b := h.blocks[i];
      BooksOf(h);
      BooksOf(g);
      var i' :| 0 <= i' < |g.blocks| && g.blocks[i'] == b;
      SameMappedBlock(h, g, b);
      CopyOK(g, i', k);
      AddrsDiffer(g, i', k);
      var c := g.(m := CopyLoop(g.m, p, ptr, 0, b.size));
      FoundAt(c, ptr, i');
      UFreeOK(c, ptr);
      var n := UFree(c, ptr);
      LiveThrough(h, g, c, n, k, ptr);
      FreedOther(c, n, ptr, k);
      forall j: nat | j < b.size ensures ByteOf(n.m, p, j) == ByteOf(h.m, ptr, j) {
        BlockAddrs(h, i);
        BlockAddrs(g, k);
        SameBytes(h, g, b, j);
        SameBytes(c, n, g.blocks[k], j);
      }
      assert n.blocks[k] == g.blocks[k];
      assert n.blocks[i'] == b.(isFree := true);
    }
  }

  /** What the copy loop of a moving `urealloc` may rely on. */
  lemma MoveFits(h: Heap, ptr: nat, size: nat, i: nat) returns (i': nat, k: nat)
    requires HeapOK(h) && i == FindInUse(h.blocks, ptr, 0) && i < |h.blocks| && ptr != 0
    requires size > h.blocks[i].size && AllowedSize(h, size) && MappedBlock(h, h.blocks[i]) && AlignUp(size) == size
    ensures HintBound(h)
    ensures var (g, p) := UMalloc(h, size);
            p != 0 ==>
              && i' < |g.blocks| && k < |g.blocks| && i' != k && g.blocks[i'] == h.blocks[i] && g.blocks[k].addr == p
              && HeapOK(g) && HeapOK(g.(m := CopyLoop(g.m, p, ptr, 0, h.blocks[i].size)))
              && MappedBlock(g, g.blocks[i']) && MappedBlock(g, g.blocks[k]) && g.blocks[i'].size <= g.blocks[k].size
  {
    hide UMalloc, CopyLoop, HeapOK, AllowedSize, MappedBlock, SameBlock, AlignUp, Pages, First, Apart, ByteOf;
    i' := 0;
    k := UMallocOK(h, size);
    var (g, p) := UMalloc(h, size);
    if p != 0 {
      i' :| 0 <= i' < |g.blocks| && g.blocks[i'] == h.blocks[i];
      SameMappedBlock(h, g, h.blocks[i]);
      CopyOK(g, i', k);
    }
  }

  lemma FoundAt(h: Heap, ptr: nat, i: nat)
    requires HeapOK(h) && i < |h.blocks| && h.blocks[i].addr == ptr && !h.blocks[i].isFree
    ensures FindInUse(h.blocks, ptr, 0) == i
  {
    BooksOf(h);
    var k := FindInUse(h.blocks, ptr, 0);
    if k != i && k < |h.blocks| {
      AddrsDiffer(h, i, k);
    }
  }

  lemma LiveThrough(h: Heap, g: Heap, c: Heap, n: Heap, k: nat, ptr: nat)
    requires BooksOK(h) && LiveKept(h, g, 0) && c == g.(m := c.m) && k < |g.blocks|
    requires forall l | 0 <= l < |g.blocks| && l != k :: SameBlock(g, c, g.blocks[l])
    requires forall i | 0 <= i < |h.blocks| && !h.blocks[i].isFree :: Apart(g.blocks[k], h.blocks[i])
    requires LiveKept(c, n, ptr)
    ensures LiveKept(h, n, ptr)
  {
    hide SameBlock, Tiles, SumOf;
    forall i | 0 <= i < |h.blocks| && !h.blocks[i].isFree && h.blocks[i].addr != ptr
      ensures h.blocks[i] in n.blocks && SameBlock(h, n, h.blocks[i])
    {
      TilesBounds(h.blocks, h.next, i);
      var l :| 0 <= l < |g.blocks| && g.blocks[l] == h.blocks[i];
      SameBlockTrans(h, g, c, h.blocks[i]);
      SameBlockTrans(h, c, n, h.blocks[i]);
    }
  }

  lemma FreedOther(c: Heap, n: Heap, ptr: nat, k: nat)
    requires LiveKept(c, n, ptr) && k < |c.blocks| && !c.blocks[k].isFree && c.blocks[k].addr != ptr
    requires MappedBlock(c, c.blocks[k])
    ensures SameBlock(c, n, c.blocks[k]) && MappedBlock(n, c.blocks[k])
    ensures UserBlock(c, c.blocks[k]) ==> UserBlock(n, c.blocks[k])
  {
    hide Pte, Present, FrameAt, FrameOf, InBlock, UserBlock, MappedBlock;
    SameMappedBlock(c, n, c.blocks[k]);
    if UserBlock(c, c.blocks[k]) {
      SameUserBlock(c, n, c.blocks[k]);
    }
  }

  lemma LiveSkip(h: Heap, n: Heap, ptr: nat)
    requires HeapOK(h) && LiveKept(h, n, 0)
    ensures LiveKept(h, n, ptr)
  {
    hide SameBlock, Tiles, SumOf;
    BooksOf(h);
    forall i | 0 <= i < |h.blocks| && !h.blocks[i].isFree && h.blocks[i].addr != ptr
      ensures h.blocks[i] in n.blocks && SameBlock(h, n, h.blocks[i])
    {
      TilesBounds(h.blocks, h.next, i);
    }
  }

  lemma AlignUpAgain(size: nat)
    ensures AlignUp(AlignUp(size)) == AlignUp(size)
  {
  }

  /** The result of `urealloc`, on every path. */
  ghost predicate Reallocated(h: Heap, n: Heap, ptr: nat, size: nat, p: nat, k: nat) {
    var i := FindInUse(h.blocks, ptr, 0);
    if ptr == 0 then p != 0 ==> Granted(h, n, k, p, AlignUp(size))
    else if size == 0 then p == 0 && n == UFree(h, ptr)
    else if i == |h.blocks| then p == 0 && n == h
    else if AlignUp(size) <= h.blocks[i].size then p == ptr && n == h
    else
      p != 0 ==>
        && Granted(h, n, k, p, AlignUp(size)) && h.blocks[i].(isFree := true) in n.blocks
        && forall j: nat | j < h.blocks[i].size :: ByteOf(n.m, p, j) == ByteOf(h.m, ptr, j)
  }

  /** `urealloc` keeps the invariant and every live block but its argument; its argument too, if it
      returns 0 for a size above 0. */
  lemma UReallocOK(h: Heap, ptr: nat, size: nat) returns (k: nat)
    requires HeapOK(h) && AllowedRealloc(h, ptr, size)
    ensures HintBound(h)
    ensures var (n, p) := URealloc(h, ptr, size);
            && HeapOK(n) && LiveKept(h, n, ptr) && Reallocated(h, n, ptr, size, p, k)
            && (p == 0 && size > 0 ==> LiveKept(h, n, 0))
  {
    hide UMalloc, CopyLoop, HeapOK, AllowedSize, MappedBlock, SameBlock, AlignUp, Granted, UFree, ByteOf, NoneMapped,
         Backs, Owned;
    LayersOf(h);
    LiveSelf(h, ptr);
    LiveSelf(h, 0);
    k := 0;
    if ptr == 0 {
      k := UMallocOK(h, size);
    } else if size == 0 {
      UFreeOK(h, ptr);
    } else {
      var i := FindInUse(h.blocks, ptr, 0);
      if i < |h.blocks| && AlignUp(size) > h.blocks[i].size {
        AlignUpAgain(size);
        k := UMallocOK(h, AlignUp(size));
        LiveSkip(h, UMalloc(h, AlignUp(size)).0, ptr);
        if UMalloc(h, AlignUp(size)).1 != 0 {
          k := ReallocMoves(h, ptr, AlignUp(size), i);
        }
      }
    }
  }

  // ---------------------------------------------------------------- runs

  datatype HeapOp = Malloc(size: nat) | Free(ptr: nat) | Realloc(ptr: nat, size: nat) | Store(addr: nat, byte: nat)

  /** One step of a program that uses the heap. */
  function Perform(h: Heap, op: HeapOp): Heap
    requires HintBound(h)
  {
    match op
    case Malloc(size) => UMalloc(h, size).0
    case Free(ptr) => UFree(h, ptr)
    case Realloc(ptr, size) => URealloc(h, ptr, size).0
    case Store(v, b) => h.(m := WriteByte(h.m, v, b))
  }

  /** Stores go to blocks in use; sizes are ones the address space can hold. */
  ghost predicate Allowed(h: Heap, op: HeapOp) {
    match op
    case Malloc(size) => AllowedSize(h, size)
    case Free(_) => true
    case Realloc(ptr, size) => AllowedRealloc(h, ptr, size)
    case Store(v, _) =>
      HeapAddr(v) && Present(Pte(h.m, PageOf(v)))
      && exists k | 0 <= k < |h.blocks| && !h.blocks[k].isFree :: InBlock(h.blocks[k], PageOf(v))
  }

  /** The step is not about block b. */
  predicate Spares(op: HeapOp, b: Block) {
    match op
    case Malloc(_) => true
    case Free(ptr) => ptr != b.addr
    case Realloc(ptr, _) => ptr != b.addr
    case Store(v, _) => !InBlock(b, PageOf(v))
  }

  /** Block b is in use in h. */
  predicate Live(h: Heap, b: Block) { b in h.blocks && !b.isFree }

  /** A store to one block changes no other. */
  lemma StoreOK(h: Heap, v: nat, byte: nat)
    requires HeapOK(h) && Allowed(h, Store(v, byte))
    ensures var n := h.(m := WriteByte(h.m, v, byte));
            HeapOK(n) && forall b | b in h.blocks && !InBlock(b, PageOf(v)) :: SameBlock(h, n, b)
  {
    hide Keeps, LayersOK, Pte, First, Pages, Descs, BooksOK, HeapOK, SameBlock, WriteByte, Present, PageOf;
    BooksOf(h);
    SamePlace(v, v);
    var k :| 0 <= k < |h.blocks| && !h.blocks[k].isFree && InBlock(h.blocks[k], PageOf(v));
    var m, lo, hi := WriteByte(h.m, v, byte), First(h.blocks[k]), First(h.blocks[k]) + Pages(h.blocks[k]);
    WriteKeeps(h.m, v, byte, Descs(h.blocks));
    KeepsWiden(h.m, m, PageOf(v), lo, hi, Descs(h.blocks));
    InsideOK(h, k, m);
  }

  /** One step keeps the invariant, and keeps a live block it is not about: in the list, on the same
      frames, with the same bytes. */
  lemma StepKeeps(h: Heap, op: HeapOp, b: Block)
    requires HeapOK(h) && Allowed(h, op) && Live(h, b) && Spares(op, b)
    ensures HintBound(h)
    ensures HeapOK(Perform(h, op)) && Live(Perform(h, op), b) && SameBlock(h, Perform(h, op), b)
  {
    hide UMalloc, UFree, URealloc, WriteByte, HeapOK, AllowedSize, AllowedRealloc, SameBlock, Granted, Reallocated,
         NoneMapped, Backs, Owned, Tiles, SumOf;
    LayersOf(h);
    BooksOf(h);
    var i :| 0 <= i < |h.blocks| && h.blocks[i] == b;
    TilesBounds(h.blocks, h.next, i);
    match op
    case Malloc(size) =>
      var _ := UMallocOK(h, size);
    case Free(ptr) =>
      UFreeOK(h, ptr);
    case Realloc(ptr, size) =>
      var _ := UReallocOK(h, ptr, size);
    case Store(v, byte) =>
      StoreOK(h, v, byte);
  }

  /** ... and with no live block in view, the invariant alone. */
  lemma StepOK(h: Heap, op: HeapOp)
    requires HeapOK(h) && Allowed(h, op)
    ensures HintBound(h) && HeapOK(Perform(h, op))
  {
    hide UMalloc, UFree, URealloc, WriteByte, HeapOK, AllowedSize, AllowedRealloc, SameBlock, Granted, Reallocated,
         NoneMapped, Backs, Owned, Pte, Present;
    LayersOf(h);
    match op
    case Malloc(size) =>
      var _ := UMallocOK(h, size);
    case Free(ptr) =>
      UFreeOK(h, ptr);
    case Realloc(ptr, size) =>
      var _ := UReallocOK(h, ptr, size);
    case Store(v, byte) =>
      StoreOK(h, v, byte);
  }

  /** A run; a step that is not allowed ends it. */
  ghost function After(h: Heap, ops: seq<HeapOp>): Heap
    decreases |ops|
  {
    if ops == [] || !HintBound(h) || !Allowed(h, ops[0]) then h else After(Perform(h, ops[0]), ops[1..])
  }

  /** Over every run, whatever fails on the way, the tiling, the totals and the layers stay
      consistent. */
  lemma {:induction false} RunOK(h: Heap, ops: seq<HeapOp>)
    requires HeapOK(h)
    ensures HeapOK(After(h, ops))
    decreases |ops|
  {
    hide HeapOK, Allowed, Perform;
    if ops != [] && HintBound(h) && Allowed(h, ops[0]) {
      StepOK(h, ops[0]);
      RunOK(Perform(h, ops[0]), ops[1..]);
    }
  }

  /** Isolation over every run: a block no step frees, reallocates or stores to is still there at the
      end, on the same frames, and reads the same. */
  lemma {:induction false} RunIsolates(h: Heap, ops: seq<HeapOp>, b: Block)
    requires HeapOK(h) && Live(h, b) && MappedBlock(h, b) && forall op | op in ops :: Spares(op, b)
    ensures Live(After(h, ops), b) && SameBlock(h, After(h, ops), b)
    ensures forall j: nat | j < b.size :: ByteOf(After(h, ops).m, b.addr, j) == ByteOf(h.m, b.addr, j)
    decreases |ops|
  {
    hide HeapOK, Allowed, Perform, SameBlock, MappedBlock, Spares, ByteOf;
    if ops == [] || !HintBound(h) || !Allowed(h, ops[0]) {
      SameBlockSelf(h, b);
    } else {
      var n := Perform(h, ops[0]);
      StepKeeps(h, ops[0], b);
      SameMappedBlock(h, n, b);
      RunIsolates(n, ops[1..], b);
      SameBlockTrans(h, n, After(n, ops[1..]), b);
      BooksOf(h);
      var i :| 0 <= i < |h.blocks| && h.blocks[i] == b;
      BlockAddrs(h, i);
      forall j: nat | j < b.size ensures ByteOf(n.m, b.addr, j) == ByteOf(h.m, b.addr, j) {
        SameBytes(h, n, b, j);
      }
    }
  }

  lemma SameBlockSelf(h: Heap, b: Block)
    ensures SameBlock(h, h, b)
  {
  }

  /** What the invariant says of the books: the totals are the sums over the blocks, and everything
      between the start and the top of the heap is accounted for, in pages. */
  lemma BooksBalance(h: Heap)
    requires HeapOK(h)
    ensures h.totalAllocated == SumOf(h.blocks, false) && h.totalFree == SumOf(h.blocks, true)
    ensures h.totalAllocated + h.totalFree == h.next - HEAP_START
  {
    BooksOf(h);
    SumsTile(h.blocks, h.next);
  }
}
