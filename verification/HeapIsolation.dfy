/** The heap operations and their theorem: over every run, failures included, a live block keeps its
    frames and their contents. */
module HeapIsolation {
  import opened FrameSpec
  import opened PageSpec
  import opened HeapSpec

  /** `sizeof(vmm_block_t)`: two 64-bit numbers, an int and a pointer; it fits in one page. */
  const DESCRIPTOR_SIZE := 32

  // ---------------------------------------------------------------- searching the list

  /** The first free block from number i on that is large enough, or |blocks|. */
  function FindFit(blocks: seq<Block>, size: nat, i: nat): (k: nat)
    requires i <= |blocks|
    ensures i <= k <= |blocks|
    ensures k < |blocks| ==> blocks[k].isFree && blocks[k].size >= size
    ensures forall j | i <= j < k :: !(blocks[j].isFree && blocks[j].size >= size)
    decreases |blocks| - i
  {
    if i == |blocks| then i
    else if blocks[i].isFree && blocks[i].size >= size then i
    else FindFit(blocks, size, i + 1)
  }

  /** The first block in use at the address, from number i on, or |blocks|. */
  function FindInUse(blocks: seq<Block>, addr: nat, i: nat): (k: nat)
    requires i <= |blocks|
    ensures i <= k <= |blocks|
    ensures k < |blocks| ==> blocks[k].addr == addr && !blocks[k].isFree
    ensures forall j | i <= j < k :: !(blocks[j].addr == addr && !blocks[j].isFree)
    decreases |blocks| - i
  {
    if i == |blocks| then i
    else if blocks[i].addr == addr && !blocks[i].isFree then i
    else FindInUse(blocks, addr, i + 1)
  }

  // ---------------------------------------------------------------- the operations

  predicate HintBound(h: Heap) { h.m.frames.hint <= |h.m.frames.used| }

  /** Block k marked, and the totals moved with it. */
  function Mark(h: Heap, k: nat, isFree: bool): Heap
    requires k < |h.blocks|
  {
    var whole: int := h.blocks[k].size;
    var size := if isFree then whole else -whole;
    h.(blocks := h.blocks[k := h.blocks[k].(isFree := isFree)],
       totalAllocated := h.totalAllocated - size, totalFree := h.totalFree + size)
  }

  /** `umalloc` finding block k: it is marked in use first; a failure half-way leaves it so. */
  function Reuse(h: Heap, k: nat): (r: (Heap, nat))
    requires HintBound(h) && k < |h.blocks|
    ensures HintBound(r.0)
  {
    var b := h.blocks[k];
    var r := MapLoop(h.m, First(b), 0, Pages(b));
    (Mark(h, k, false).(m := r.m), if r.complete then b.addr else 0)
  }

  /** `umalloc` at the top of the heap. */
  function Extend(h: Heap, size: nat): (r: (Heap, nat))
    requires HintBound(h)
  {
    var q, n := PageOf(h.next), size / PAGE_SIZE;
    var r := MapLoop(h.m, q, 0, n);
    if !r.complete then
      if r.page == 0 then (h.(m := CleanLoop(r.m, q, 0, r.done)), 0)
      else (h.(m := r.m.(frames := FreePage(r.m.frames, r.page))), 0)
    else
      var (p, d) := AllocPage(r.m.frames);
      if d == 0 then (h.(m := CleanLoop(r.m, q, 0, n)), 0)
      else
        (Heap(r.m.(frames := p), [Block(h.next, size, false, d)] + h.blocks, h.next + size,
              h.totalAllocated + size, h.totalFree), h.next)
  }

  function UMalloc(h: Heap, size: nat): (Heap, nat)
    requires HintBound(h)
  {
    if size == 0 then (h, 0)
    else
      var k := FindFit(h.blocks, AlignUp(size), 0);
      if k < |h.blocks| then Reuse(h, k)
      else if h.next + AlignUp(size) > HEAP_END then (h, 0)
      else Extend(h, AlignUp(size))
  }

  function UFree(h: Heap, ptr: nat): Heap {
    if ptr == 0 then h
    else
      var k := FindInUse(h.blocks, ptr, 0);
      if k == |h.blocks| then h
      else
        var b := h.blocks[k];
        Mark(h, k, true).(m := ReleaseLoop(h.m, First(b), 0, Pages(b)))
  }

  // ---------------------------------------------------------------- the invariant

  /** The frames of all descriptors. */
  function Descs(blocks: seq<Block>): set<nat> { set i | 0 <= i < |blocks| :: blocks[i].desc }

  /** Heap page q belongs to block b. */
  predicate InBlock(b: Block, q: nat) { First(b) <= q < First(b) + Pages(b) }

  ghost predicate FreeUnmapped(h: Heap) {
    forall i | 0 <= i < |h.blocks| && h.blocks[i].isFree ::
      NoneMapped(h.m, First(h.blocks[i]), First(h.blocks[i]) + Pages(h.blocks[i]))
  }

  predicate DescsApart(blocks: seq<Block>) {
    forall i, j | 0 <= i < j < |blocks| :: blocks[i].desc != blocks[j].desc
  }

  predicate BooksOK(h: Heap) {
    && Tiles(h.blocks, h.next) && h.next <= HEAP_TOP && DescsApart(h.blocks)
    && h.totalAllocated == SumOf(h.blocks, false) && h.totalFree == SumOf(h.blocks, true)
  }

  /** The heap invariant: consistent layers, a gap-free tiling with exact totals, and no page of a
      free block mapped. */
  ghost predicate HeapOK(h: Heap) {
    LayersOK(h.m, Descs(h.blocks)) && BooksOK(h) && FreeUnmapped(h)
  }

  /** All pages of block b are mapped. */
  ghost predicate MappedBlock(h: Heap, b: Block) { AllMapped(h.m, First(b), First(b) + Pages(b)) }

  /** User programs can read and write all of block b. */
  ghost predicate UserBlock(h: Heap, b: Block) { AllUser(h.m, First(b), First(b) + Pages(b)) }

  /** Block b of heap h has the same frames, with the same contents, in heap n. */
  ghost predicate SameBlock(h: Heap, n: Heap, b: Block) {
    forall q: nat | InBlock(b, q) ::
      && Pte(n.m, q) == Pte(h.m, q)
      && (Present(Pte(h.m, q)) ==>
            FrameAt(n.m.mem, FrameOf(Pte(h.m, q))) == FrameAt(h.m.mem, FrameOf(Pte(h.m, q))))
  }

  /** Every block in use, except one at address `skip`, is still in the list, with its frames and
      contents. */
  ghost predicate LiveKept(h: Heap, n: Heap, skip: nat) {
    forall i | 0 <= i < |h.blocks| && !h.blocks[i].isFree && h.blocks[i].addr != skip ::
      h.blocks[i] in n.blocks && SameBlock(h, n, h.blocks[i])
  }

  /** What a caller of `umalloc` must not ask for: a size that leaves the 48-bit address space though
      the 55-bit limit of the code lets it through, or one that wraps around. */
  predicate AllowedSize(h: Heap, size: nat) {
    || (size > 0 && FindFit(h.blocks, AlignUp(size), 0) < |h.blocks|)
    || h.next + AlignUp(size) <= HEAP_TOP
    || HEAP_END < h.next + AlignUp(size) < 0x1_0000_0000_0000_0000
  }

  // ---------------------------------------------------------------- keeping it

  lemma SameBlockFrom(h: Heap, n: Heap, lo: nat, hi: nat, ds: set<nat>, i: nat)
    requires BooksOK(h) && i < |h.blocks| && Keeps(h.m, n.m, lo, hi, ds)
    requires First(h.blocks[i]) + Pages(h.blocks[i]) <= lo || hi <= First(h.blocks[i])
    ensures SameBlock(h, n, h.blocks[i])
    ensures NoneMapped(h.m, First(h.blocks[i]), First(h.blocks[i]) + Pages(h.blocks[i]))
        ==> NoneMapped(n.m, First(h.blocks[i]), First(h.blocks[i]) + Pages(h.blocks[i]))
  {
    TilesBounds(h.blocks, h.next, i);
    BlockPages(h.blocks[i], h.next);
    hide Pte, LayersOK, FrameAt, FrameOf, Present, Tiles, SumOf, First, Pages;
  }

  lemma BlocksApart(h: Heap, i: nat, k: nat)
    requires BooksOK(h) && i < |h.blocks| && k < |h.blocks| && i != k
    ensures First(h.blocks[i]) + Pages(h.blocks[i]) <= First(h.blocks[k])
         || First(h.blocks[k]) + Pages(h.blocks[k]) <= First(h.blocks[i])
    ensures First(h.blocks[k]) + Pages(h.blocks[k]) <= HEAP_PAGES && Pages(h.blocks[k]) >= 1
    ensures h.blocks[i].addr != h.blocks[k].addr
  {
    TilesBounds(h.blocks, h.next, i);
    TilesBounds(h.blocks, h.next, k);
    BlockPages(h.blocks[i], h.next);
    BlockPages(h.blocks[k], h.next);
    if i < k {
      TilesDisjoint(h.blocks, h.next, i, k);
    } else {
      TilesDisjoint(h.blocks, h.next, k, i);
    }
  }

  lemma MarkBooks(h: Heap, k: nat, f: bool)
    requires BooksOK(h) && k < |h.blocks| && h.blocks[k].isFree != f
    ensures BooksOK(Mark(h, k, f)) && Descs(Mark(h, k, f).blocks) == Descs(h.blocks)
  {
    TilesMarked(h.blocks, h.next, k, f);
    SumsMarked(h.blocks, k, f, true);
    SumsMarked(h.blocks, k, f, false);
    DescsMarked(h.blocks, k, f);
    hide Tiles, SumOf, Descs;
  }

  lemma DescsMarked(blocks: seq<Block>, k: nat, f: bool)
    requires k < |blocks|
    ensures var bs := blocks[k := blocks[k].(isFree := f)];
            Descs(bs) == Descs(blocks) && (DescsApart(blocks) ==> DescsApart(bs))
  {
    var bs := blocks[k := blocks[k].(isFree := f)];
    assert forall i | 0 <= i < |blocks| :: bs[i].desc == blocks[i].desc;
    forall d | d in Descs(blocks) ensures d in Descs(bs) {
      var i :| 0 <= i < |blocks| && blocks[i].desc == d;
      assert bs[i].desc == d;
    }
    forall d | d in Descs(bs) ensures d in Descs(blocks) {
      var i :| 0 <= i < |bs| && bs[i].desc == d;
      assert blocks[i].desc == d;
    }
  }

  /** One block changes its mark and its pages: everything else stays. */
  lemma MarkedOK(h: Heap, n: Heap, k: nat, f: bool)
    requires HeapOK(h) && k < |h.blocks| && h.blocks[k].isFree != f && n == Mark(h, k, f).(m := n.m)
    requires Keeps(h.m, n.m, First(h.blocks[k]), First(h.blocks[k]) + Pages(h.blocks[k]), Descs(h.blocks))
    requires f ==> NoneMapped(n.m, First(h.blocks[k]), First(h.blocks[k]) + Pages(h.blocks[k]))
    ensures HeapOK(n) && LiveKept(h, n, if f then h.blocks[k].addr else 0)
  {
    var b := h.blocks[k];
    var lo, hi := First(b), First(b) + Pages(b);
    MarkBooks(h, k, f);
    KeepsLayers(h.m, n.m, lo, hi, Descs(h.blocks));
    hide Keeps, LayersOK, Pte, First, Pages, Tiles, SumOf, Descs, BooksOK, NoneMapped, SameBlock;
    forall i | 0 <= i < |h.blocks| && i != k
      ensures SameBlock(h, n, h.blocks[i]) && h.blocks[i] in n.blocks
      ensures h.blocks[i].isFree ==> NoneMapped(n.m, First(h.blocks[i]), First(h.blocks[i]) + Pages(h.blocks[i]))
    {
      BlocksApart(h, i, k);
      SameBlockFrom(h, n, lo, hi, Descs(h.blocks), i);
      assert n.blocks[i] == h.blocks[i];
    }
    assert First(n.blocks[k]) == First(b) && Pages(n.blocks[k]) == Pages(b) by { MarkPlace(b, f); }
  }

  lemma MarkPlace(b: Block, f: bool)
    ensures First(b.(isFree := f)) == First(b) && Pages(b.(isFree := f)) == Pages(b)
  {
  }

  lemma LayersOf(h: Heap)
    requires HeapOK(h)
    ensures HintBound(h)
  {
  }

  // ---------------------------------------------------------------- umalloc on a block that was free

  lemma ReuseOK(h: Heap, k: nat)
    requires HeapOK(h) && k < |h.blocks| && h.blocks[k].isFree
    ensures HintBound(h)
    ensures var (n, ptr) := Reuse(h, k);
            && HeapOK(n) && LiveKept(h, n, 0) && |n.blocks| == |h.blocks|
            && n.blocks[k] == h.blocks[k].(isFree := false)
            && (ptr != 0 ==> ptr == h.blocks[k].addr && MappedBlock(n, h.blocks[k]))
  {
    hide Keeps, LayersOK, First, Pages, Descs, BooksOK, FreeUnmapped, LiveKept, AllMapped, MapLoop, Tiles, SumOf,
         Spare, AllocPage;
    var b := h.blocks[k];
    LayersOf(h);
    BlockInHeap(h, k);
    AllMappedNone(h.m, First(b));
    MapLoopKeeps(h.m, First(b), 0, Pages(b), Descs(h.blocks));
    MarkedOK(h, Reuse(h, k).0, k, false);
  }

  lemma ReuseUser(h: Heap, k: nat)
    requires HeapOK(h) && k < |h.blocks|
    ensures HintBound(h) && (Reuse(h, k).1 != 0 ==> UserBlock(Reuse(h, k).0, h.blocks[k]))
  {
    hide LayersOK, HeapOK, BooksOK, First, Pages, Descs, AllUser, MapLoop;
    LayersOf(h);
    BooksOf(h);
    BlockInHeap(h, k);
    var q := First(h.blocks[k]);
    NoneUser(h.m, q);
    MapLoopUser(h.m, q, 0, Pages(h.blocks[k]), Descs(h.blocks));
  }

  lemma NoneUser(m: Machine, q: nat)
    ensures AllUser(m, q, q)
  {
  }

  lemma BlockInHeap(h: Heap, k: nat)
    requires BooksOK(h) && k < |h.blocks|
    ensures First(h.blocks[k]) + Pages(h.blocks[k]) <= HEAP_PAGES && Pages(h.blocks[k]) >= 1
    ensures h.blocks[k].addr >= HEAP_START
  {
    TilesBounds(h.blocks, h.next, k);
    BlockPages(h.blocks[k], h.next);
  }

  lemma AllMappedNone(m: Machine, q: nat)
    ensures AllMapped(m, q, q) && NoneMapped(m, q, q)
  {
  }

  // ---------------------------------------------------------------- umalloc at the top

  lemma TopPage(h: Heap, size: nat)
    requires BooksOK(h) && size % PAGE_SIZE == 0 && h.next + size <= HEAP_TOP
    ensures h.next >= HEAP_START && h.next % PAGE_SIZE == 0
    ensures PageOf(h.next) + size / PAGE_SIZE <= HEAP_PAGES && h.next == PageVA(PageOf(h.next))
  {
    TilesTop(h.blocks, h.next);
  }

  lemma BelowTop(h: Heap, i: nat)
    requires BooksOK(h) && i < |h.blocks|
    ensures First(h.blocks[i]) + Pages(h.blocks[i]) <= PageOf(h.next)
  {
    TilesTop(h.blocks, h.next);
    TilesBounds(h.blocks, h.next, i);
    BlockPages(h.blocks[i], h.next);
  }

  /** Work above the top of the heap leaves every block as it was. */
  lemma AboveOK(h: Heap, m: Machine, hi: nat)
    requires HeapOK(h) && Keeps(h.m, m, PageOf(h.next), hi, Descs(h.blocks))
    ensures HeapOK(h.(m := m)) && LiveKept(h, h.(m := m), 0)
  {
    hide Keeps, LayersOK, Pte, First, Pages, PageOf, Tiles, SumOf, Descs, BooksOK, NoneMapped, SameBlock;
    var n := h.(m := m);
    KeepsLayers(h.m, m, PageOf(h.next), hi, Descs(h.blocks));
    forall i | 0 <= i < |h.blocks|
      ensures SameBlock(h, n, h.blocks[i])
      ensures h.blocks[i].isFree ==> NoneMapped(n.m, First(h.blocks[i]), First(h.blocks[i]) + Pages(h.blocks[i]))
    {
      BelowTop(h, i);
      SameBlockFrom(h, n, PageOf(h.next), hi, Descs(h.blocks), i);
    }
    BooksSame(h, n);
  }

  lemma BooksSame(h: Heap, n: Heap)
    requires BooksOK(h) && n == h.(m := n.m)
    ensures BooksOK(n)
  {
  }

  /** A failed extension takes back what it mapped, or, where a table could not be had, only the page
      in hand; in both cases no block notices. */
  lemma ExtendFails(h: Heap, m: Machine, done: nat, n: nat)
    requires HeapOK(h) && done <= n && PageOf(h.next) + n <= HEAP_PAGES
    requires Keeps(h.m, m, PageOf(h.next), PageOf(h.next) + n, Descs(h.blocks))
    requires AllMapped(m, PageOf(h.next), PageOf(h.next) + done)
    ensures var c := CleanLoop(m, PageOf(h.next), 0, done);
            HeapOK(h.(m := c)) && LiveKept(h, h.(m := c), 0) && NoneMapped(c, PageOf(h.next), PageOf(h.next) + done)
  {
    hide Keeps, LayersOK, Pte, PageOf, BooksOK, NoneMapped, CleanLoop, ReleaseLoop, HeapOK, LiveKept, Descs, AllMapped;
    var q, ds := PageOf(h.next), Descs(h.blocks);
    KeepsLayers(h.m, m, q, q + n, ds);
    CleanIsRelease(m, q, 0, done, ds);
    AllMappedNone(m, q);
    ReleaseLoopKeeps(m, q, 0, done, ds);
    KeepsLonger(m, CleanLoop(m, q, 0, done), q, q + done, q + n, ds);
    KeepsTrans(h.m, m, CleanLoop(m, q, 0, done), q, q + n, ds);
    AboveOK(h, CleanLoop(m, q, 0, done), q + n);
  }

  lemma ExtendLeaks(h: Heap, m: Machine, page: nat, n: nat)
    requires HeapOK(h) && n >= 1 && PageOf(h.next) + n <= HEAP_PAGES
    requires Keeps(h.m, m, PageOf(h.next), PageOf(h.next) + n, Descs(h.blocks)) && Spare(m, page, Descs(h.blocks))
    ensures var c := m.(frames := FreePage(m.frames, page)); HeapOK(h.(m := c)) && LiveKept(h, h.(m := c), 0)
  {
    hide Keeps, LayersOK, Pte, PageOf, BooksOK, HeapOK, LiveKept, Descs, FreePage, Spare;
    var q, ds := PageOf(h.next), Descs(h.blocks);
    var c := m.(frames := FreePage(m.frames, page));
    KeepsLayers(h.m, m, q, q + n, ds);
    SpareNotRoot(m, page, ds);
    GiveBack(m, page, q, ds);
    KeepsWiden(m, c, q, q, q + n, ds);
    KeepsTrans(h.m, m, c, q, q + n, ds);
    AboveOK(h, c, q + n);
  }

  lemma SpareNotRoot(m: Machine, page: nat, ds: set<nat>)
    requires LayersOK(m, ds) && Spare(m, page, ds)
    ensures page != m.root
  {
    hide MapOK, Pte, Owned;
    RootIsTable(m);
  }

  /** A new block on the list, its descriptor in a page of its own. */
  lemma Pushed(h: Heap, n: Heap, size: nat)
    requires HeapOK(h) && AllocPage(h.m.frames).1 != 0 && size > 0 && size % PAGE_SIZE == 0 && h.next + size <= HEAP_TOP
    requires var (p, d) := AllocPage(h.m.frames);
             n == Heap(h.m.(frames := p), [Block(h.next, size, false, d)] + h.blocks, h.next + size,
                       h.totalAllocated + size, h.totalFree)
    ensures HeapOK(n) && LiveKept(h, n, 0)
  {
    hide AllocPage, LayersOK, Pte, Tiles, SumOf, BooksOK, NoneMapped, First, Pages, Descs;
    var ds := Descs(h.blocks);
    LayersHint(h.m, ds);
    TakeKeeps(h.m, ds);
    AddDesc(h.m, ds);
    var (p, d) := AllocPage(h.m.frames);
    PushedBooks(h, n, size, d);
    SameTables(h.m, n.m);
    forall i | 0 <= i < |h.blocks| && h.blocks[i].isFree
      ensures NoneMapped(n.m, First(h.blocks[i]), First(h.blocks[i]) + Pages(h.blocks[i]))
    {
      SameNone(h.m, n.m, First(h.blocks[i]), First(h.blocks[i]) + Pages(h.blocks[i]));
    }
    forall i | 0 <= i < |h.blocks| ensures h.blocks[i] in n.blocks {
      assert n.blocks[i + 1] == h.blocks[i];
    }
  }

  lemma SameNone(m: Machine, n: Machine, lo: nat, hi: nat)
    requires NoneMapped(m, lo, hi) && forall q: nat :: Pte(n, q) == Pte(m, q)
    ensures NoneMapped(n, lo, hi)
  {
    hide Pte;
  }

  lemma AddDesc(m: Machine, ds: set<nat>)
    requires LayersOK(m, ds) && AllocPage(m.frames).1 != 0
    ensures var (p, d) := AllocPage(m.frames);
            LayersOK(m.(frames := p), ds + {d}) && d !in ds
  {
    TakeKeeps(m, ds);
    hide Owned, Pte, AllocPage, MachineOK, FrameOf;
  }

  lemma PushedBooks(h: Heap, n: Heap, size: nat, d: nat)
    requires BooksOK(h) && d !in Descs(h.blocks) && size > 0 && size % PAGE_SIZE == 0 && h.next + size <= HEAP_TOP
    requires n.(m := h.m) == Heap(h.m, [Block(h.next, size, false, d)] + h.blocks, h.next + size,
                                  h.totalAllocated + size, h.totalFree)
    ensures BooksOK(n) && Descs(n.blocks) == Descs(h.blocks) + {d}
  {
    hide DescsApart, Descs;
    TilesTop(h.blocks, h.next);
    assert n.blocks[1..] == h.blocks;
    PushedDescs(h.blocks, n.blocks[0]);
  }

  lemma PushedDescs(blocks: seq<Block>, b: Block)
    requires DescsApart(blocks) && b.desc !in Descs(blocks)
    ensures DescsApart([b] + blocks) && Descs([b] + blocks) == Descs(blocks) + {b.desc}
  {
    var bs := [b] + blocks;
    assert forall i | 0 <= i < |blocks| :: bs[i + 1] == blocks[i] && blocks[i].desc in Descs(blocks);
    forall e ensures e in Descs(bs) <==> e in Descs(blocks) || e == b.desc {
      PushedDesc(blocks, b, e);
    }
    hide Descs;
  }

  lemma PushedDesc(blocks: seq<Block>, b: Block, e: nat)
    ensures e in Descs([b] + blocks) <==> e in Descs(blocks) || e == b.desc
  {
    var bs := [b] + blocks;
    assert bs[0] == b;
    if e in Descs(blocks) {
      var i :| 0 <= i < |blocks| && blocks[i].desc == e;
      assert bs[i + 1] == blocks[i];
    }
    if e in Descs(bs) {
      var i :| 0 <= i < |bs| && bs[i].desc == e;
      assert i > 0 ==> blocks[i - 1] == bs[i];
    }
  }

  lemma LiveTrans(h: Heap, m: Heap, n: Heap, skip: nat)
    requires LiveKept(h, m, skip) && LiveKept(m, n, skip)
    ensures LiveKept(h, n, skip)
  {
    hide Pte, Present, FrameAt, FrameOf, InBlock;
    forall i | 0 <= i < |h.blocks| && !h.blocks[i].isFree && h.blocks[i].addr != skip
      ensures h.blocks[i] in n.blocks && SameBlock(h, n, h.blocks[i])
    {
      var j :| 0 <= j < |m.blocks| && m.blocks[j] == h.blocks[i];
      SameBlockTrans(h, m, n, h.blocks[i]);
    }
  }

  lemma SameBlockTrans(h: Heap, m: Heap, n: Heap, b: Block)
    requires SameBlock(h, m, b) && SameBlock(m, n, b)
    ensures SameBlock(h, n, b)
  {
    hide Pte, Present, FrameAt, FrameOf, InBlock;
  }

  /** Growing the heap: on success there is one more block, right at the old top and fully mapped; on
      failure the list and its totals are as before. */
  lemma ExtendOK(h: Heap, size: nat)
    requires HeapOK(h) && size > 0 && size % PAGE_SIZE == 0 && h.next + size <= HEAP_TOP
    ensures HintBound(h)
    ensures var (n, ptr) := Extend(h, size);
            && HeapOK(n) && LiveKept(h, n, 0)
            && (ptr == 0 ==> n == h.(m := n.m))
            && (ptr != 0 ==>
                 && ptr == h.next && |n.blocks| == |h.blocks| + 1 && n.blocks[1..] == h.blocks
                 && n.blocks[0].addr == ptr && n.blocks[0].size == size && !n.blocks[0].isFree
                 && MappedBlock(n, n.blocks[0]))
  {
    hide Keeps, LayersOK, Pte, PageOf, HeapOK, LiveKept, Descs, AllMapped, MapLoop, CleanLoop, Spare, AllocPage,
         FreePage;
    LayersOf(h);
    BooksOf(h);
    TopPage(h, size);
    var q, n, ds := PageOf(h.next), size / PAGE_SIZE, Descs(h.blocks);
    AllMappedNone(h.m, q);
    MapLoopKeeps(h.m, q, 0, n, ds);
    var r := MapLoop(h.m, q, 0, n);
    if !r.complete {
      if r.page == 0 {
        ExtendFails(h, r.m, r.done, n);
      } else {
        ExtendLeaks(h, r.m, r.page, n);
      }
    } else {
      AboveOK(h, r.m, q + n);
      ExtendDesc(h, h.(m := r.m), size);
    }
  }

  lemma ExtendUser(h: Heap, size: nat)
    requires HeapOK(h) && size > 0 && size % PAGE_SIZE == 0 && h.next + size <= HEAP_TOP
    ensures HintBound(h)
    ensures var (n, ptr) := Extend(h, size); ptr != 0 ==> n.blocks != [] && UserBlock(n, n.blocks[0])
  {
    hide LayersOK, PageOf, HeapOK, Descs, MapLoop, CleanLoop, AllocPage, FreePage, Pte, BooksOK;
    LayersOf(h);
    BooksOf(h);
    TopPage(h, size);
    var q, n := PageOf(h.next), size / PAGE_SIZE;
    NoneUser(h.m, q);
    MapLoopUser(h.m, q, 0, n, Descs(h.blocks));
    var r := MapLoop(h.m, q, 0, n);
    SameTables(r.m, r.m.(frames := AllocPage(r.m.frames).0));
  }

  lemma BooksOf(h: Heap)
    requires HeapOK(h)
    ensures BooksOK(h) && LayersOK(h.m, Descs(h.blocks))
  {
  }

  /** The second half of growing, all pages mapped. */
  lemma ExtendDesc(h: Heap, g: Heap, size: nat)
    requires HeapOK(h) && size > 0 && size % PAGE_SIZE == 0 && h.next + size <= HEAP_TOP && g == h.(m := g.m)
    requires Keeps(h.m, g.m, PageOf(h.next), PageOf(h.next) + size / PAGE_SIZE, Descs(h.blocks))
    requires AllMapped(g.m, PageOf(h.next), PageOf(h.next) + size / PAGE_SIZE)
    ensures HintBound(g)
    ensures var (p, d) := AllocPage(g.m.frames);
            if d == 0 then
              var n := h.(m := CleanLoop(g.m, PageOf(h.next), 0, size / PAGE_SIZE));
              HeapOK(n) && LiveKept(h, n, 0)
            else
              var n := Heap(g.m.(frames := p), [Block(h.next, size, false, d)] + h.blocks, h.next + size,
                            h.totalAllocated + size, h.totalFree);
              HeapOK(n) && LiveKept(h, n, 0) && MappedBlock(n, n.blocks[0])
  {
    hide Keeps, LayersOK, Pte, PageOf, HeapOK, LiveKept, Descs, AllMapped, CleanLoop, AllocPage, BooksOK;
    BooksOf(h);
    TopPage(h, size);
    var q, k := PageOf(h.next), size / PAGE_SIZE;
    AboveOK(h, g.m, q + k);
    LayersOf(g);
    var (p, d) := AllocPage(g.m.frames);
    if d == 0 {
      ExtendFails(h, g.m, k, k);
    } else {
      var n := Heap(g.m.(frames := p), [Block(h.next, size, false, d)] + h.blocks, h.next + size,
                    h.totalAllocated + size, h.totalFree);
      Pushed(g, n, size);
      LiveTrans(h, g, n, 0);
      SameTables(g.m, n.m);
      SameAll(g.m, n.m, q, q + k);
    }
  }

  lemma SameAll(m: Machine, n: Machine, lo: nat, hi: nat)
    requires AllMapped(m, lo, hi) && forall q: nat :: Pte(n, q) == Pte(m, q)
    ensures AllMapped(n, lo, hi)
  {
    hide Pte;
  }

  // ---------------------------------------------------------------- umalloc and ufree

  /** Blocks b and c share no address. */
  predicate Apart(b: Block, c: Block) { b.addr + b.size <= c.addr || c.addr + c.size <= b.addr }

  /** Block number k of n is a fresh grant of at least `size` bytes at ptr: in use, mapped throughout for
      user programs to read and write, and apart from every block that was in use in h. */
  ghost predicate Granted(h: Heap, n: Heap, k: nat, ptr: nat, size: nat) {
    && k < |n.blocks| && n.blocks[k].addr == ptr && !n.blocks[k].isFree && n.blocks[k].size >= size
    && MappedBlock(n, n.blocks[k]) && UserBlock(n, n.blocks[k])
    && forall i | 0 <= i < |h.blocks| && !h.blocks[i].isFree :: Apart(n.blocks[k], h.blocks[i])
  }

  lemma ApartBlocks(h: Heap, k: nat, i: nat)
    requires BooksOK(h) && k < |h.blocks| && i < |h.blocks| && k != i
    ensures Apart(h.blocks[k], h.blocks[i])
  {
    if i < k {
      TilesDisjoint(h.blocks, h.next, i, k);
    } else {
      TilesDisjoint(h.blocks, h.next, k, i);
    }
  }

  lemma AlignUpFacts(size: nat)
    ensures AlignUp(size) % PAGE_SIZE == 0 && AlignUp(size) >= size && (size > 0 ==> AlignUp(size) > 0)
  {
  }

  /** `umalloc` keeps the invariant and every live block, whether it succeeds or fails; what it grants
      is large enough, mapped, and overlaps nothing live. */
  lemma UMallocOK(h: Heap, size: nat) returns (k: nat)
    requires HeapOK(h) && AllowedSize(h, size)
    ensures HintBound(h)
    ensures var (n, ptr) := UMalloc(h, size);
            HeapOK(n) && LiveKept(h, n, 0) && (ptr != 0 ==> Granted(h, n, k, ptr, AlignUp(size)))
  {
    hide HeapOK, LiveKept, MappedBlock, UserBlock, Extend, Reuse, AlignUp, Apart, BooksOK;
    LayersOf(h);
    LiveSelf(h, 0);
    BooksOf(h);
    k := 0;
    AlignUpFacts(size);
    if size > 0 {
      k := FindFit(h.blocks, AlignUp(size), 0);
      if k < |h.blocks| {
        ReuseOK(h, k);
        ReuseUser(h, k);
        SameMapped(Reuse(h, k).0, h.blocks[k]);
        forall i | 0 <= i < |h.blocks| && !h.blocks[i].isFree
          ensures Apart(Reuse(h, k).0.blocks[k], h.blocks[i])
        {
          ApartBlocks(h, k, i);
          ApartMarked(h.blocks[k], h.blocks[i]);
        }
      } else if h.next + AlignUp(size) <= HEAP_END {
        k := 0;
        ExtendOK(h, AlignUp(size));
        ExtendUser(h, AlignUp(size));
        var (n, ptr) := Extend(h, AlignUp(size));
        if ptr != 0 {
          BooksOf(n);
          forall i | 0 <= i < |h.blocks| ensures Apart(n.blocks[0], h.blocks[i]) {
            assert n.blocks[i + 1] == n.blocks[1..][i];
            ApartBlocks(n, 0, i + 1);
          }
        }
      }
    }
  }

  /** Blocks 0 to k - 1 of the list are in use or too small. */
  predicate NoFitBefore(blocks: seq<Block>, size: nat, k: nat) {
    k <= |blocks| && forall j | 0 <= j < k :: !blocks[j].isFree || blocks[j].size < size
  }

  /** From h to n block k of the list, the first free one of at least `size` bytes, went into use. */
  predicate TookFirstFit(h: Heap, n: Heap, k: nat, size: nat) {
    && k < |h.blocks| && h.blocks[k].isFree && h.blocks[k].size >= size && NoFitBefore(h.blocks, size, k)
    && n.blocks == h.blocks[k := h.blocks[k].(isFree := false)] && n.next == h.next
    && n.totalAllocated == h.totalAllocated + h.blocks[k].size && n.totalFree == h.totalFree - h.blocks[k].size
  }

  /** From h to n the heap grew by `size` bytes, a block in use at the head of the list. */
  predicate Grew(h: Heap, n: Heap, size: nat) {
    && NoFitBefore(h.blocks, size, |h.blocks|)
    && |n.blocks| == |h.blocks| + 1 && n.blocks[1..] == h.blocks && n.next == h.next + size
    && n.blocks[0].addr == h.next && n.blocks[0].size == size && !n.blocks[0].isFree
    && n.totalAllocated == h.totalAllocated + size && n.totalFree == h.totalFree
  }

  /** Which block `umalloc` grants: the first free one of the list that holds the size in whole pages, else
      a new one at the top; above 2^55 - 1 it answers 0 and changes nothing. */
  lemma UMallocChooses(h: Heap, size: nat)
    requires HintBound(h)
    ensures size <= AlignUp(size) < size + 4096 && AlignUp(size) % 4096 == 0
    ensures var (n, ptr) := UMalloc(h, size);
            && (size == 0 ==> n == h && ptr == 0)
            && (size > 0 && ptr != 0 ==>
                  (ptr == h.next && Grew(h, n, AlignUp(size)))
                  || exists k: nat :: TookFirstFit(h, n, k, AlignUp(size)) && ptr == h.blocks[k].addr)
            && (size > 0 && NoFitBefore(h.blocks, AlignUp(size), |h.blocks|) && h.next + AlignUp(size) > 0x7F_FFFF_FFFF_FFFF ==>
                  n == h && ptr == 0)
  {
    hide MapLoop, CleanLoop, AllocPage, FreePage;
    if size > 0 {
      var k, s := FindFit(h.blocks, AlignUp(size), 0), AlignUp(size);
      if k < |h.blocks| {
        assert TookFirstFit(h, Reuse(h, k).0, k, s);
      }
    }
  }

  lemma SameMapped(n: Heap, b: Block)
    ensures MappedBlock(n, b.(isFree := false)) == MappedBlock(n, b)
    ensures UserBlock(n, b.(isFree := false)) == UserBlock(n, b)
  {
  }

  lemma ApartMarked(b: Block, c: Block)
    requires Apart(b, c)
    ensures Apart(b.(isFree := false), c)
  {
  }

  lemma LiveSelf(h: Heap, skip: nat)
    ensures LiveKept(h, h, skip)
  {
  }

  /** Page [lo, hi) of the heap is backed by frame f. */
  ghost predicate Backs(m: Machine, lo: nat, hi: nat, f: nat) {
    exists r: nat | lo <= r < hi :: Present(Pte(m, r)) && FrameOf(Pte(m, r)) == f
  }

  lemma DropFrees(m: Machine, q: nat, ds: set<nat>)
    requires LayersOK(m, ds) && q < HEAP_PAGES && Present(Pte(m, q))
    ensures forall a: nat :: Owned(Drop(m, q).frames, a) <==> Owned(m.frames, a) && a != FrameOf(Pte(m, q))
  {
    HeapPaths(q, q);
    PhysicalOfPage(m, q);
    UnmapsExactlyOne(m, PageVA(q));
    hide UnmapPage, PathOf, Leaf, PageVA, Pte, Owned, FrameOf, FreePage, FramesOK, TreeOK, GetPhysical;
    assert MapOK(m, ds);
    FreeOwned(m.frames, FrameOf(Pte(m, q)));
  }

  /** Releasing pages returns to the allocator exactly the frames that backed them. */
  lemma {:induction false} ReleaseFrees(m: Machine, q: nat, j: nat, n: nat, ds: set<nat>, a: nat)
    requires LayersOK(m, ds) && j <= n && q + n <= HEAP_PAGES
    ensures Owned(ReleaseLoop(m, q, j, n).frames, a) <==> Owned(m.frames, a) && !Backs(m, q + j, q + n, a)
    decreases n - j
  {
    hide Pte, PageVA, GetPhysical, Drop, LayersOK, Keeps, Owned, Backs;
    if j == n {
      NothingBacks(m, q + n, a);
    } else {
      var m' := if GetPhysical(m, PageVA(q + j)) != 0 then Drop(m, q + j) else m;
      ReleaseStep(m, q + j, ds);
      KeepsLayers(m, m', q + j, q + j + 1, ds);
      ReleaseFrees(m', q, j + 1, n, ds, a);
      BacksSplit(m, m', q + j, q + n, a, ds);
      if GetPhysical(m, PageVA(q + j)) != 0 {
        DropFrees(m, q + j, ds);
      }
    }
  }

  lemma NothingBacks(m: Machine, q: nat, a: nat)
    ensures !Backs(m, q, q, a)
  {
  }

  lemma BacksSplit(m: Machine, n: Machine, lo: nat, hi: nat, a: nat, ds: set<nat>)
    requires lo < hi <= HEAP_PAGES && Keeps(m, n, lo, lo + 1, ds)
    ensures Backs(m, lo, hi, a) <==> Backs(n, lo + 1, hi, a) || (Present(Pte(m, lo)) && FrameOf(Pte(m, lo)) == a)
  {
    hide Pte, LayersOK, FrameAt, Present, FrameOf;
    if Backs(m, lo, hi, a) {
      var r: nat :| lo <= r < hi && Present(Pte(m, r)) && FrameOf(Pte(m, r)) == a;
      assert r != lo ==> Pte(n, r) == Pte(m, r);
    }
    if Backs(n, lo + 1, hi, a) {
      var r: nat :| lo + 1 <= r < hi && Present(Pte(n, r)) && FrameOf(Pte(n, r)) == a;
      assert Pte(n, r) == Pte(m, r);
    }
  }

  /** `ufree` of an address that is no block in use changes nothing; otherwise that block becomes
      free, none of its pages stays mapped, exactly the frames that backed it go back to the
      allocator, and every other live block is kept. */
  lemma UFreeOK(h: Heap, ptr: nat)
    requires HeapOK(h)
    ensures var n, k := UFree(h, ptr), FindInUse(h.blocks, ptr, 0);
            && HeapOK(n) && LiveKept(h, n, ptr)
            && (ptr == 0 || k == |h.blocks| ==> n == h)
            && (ptr != 0 && k < |h.blocks| ==>
                  var lo, hi := First(h.blocks[k]), First(h.blocks[k]) + Pages(h.blocks[k]);
                  && n.blocks == h.blocks[k := h.blocks[k].(isFree := true)] && NoneMapped(n.m, lo, hi)
                  && forall a: nat :: Owned(n.m.frames, a) <==> Owned(h.m.frames, a) && !Backs(h.m, lo, hi, a))
  {
    hide Keeps, LayersOK, First, Pages, Descs, BooksOK, FreeUnmapped, NoneMapped, ReleaseLoop, Backs, Owned, Pte,
         SameBlock;
    BooksOf(h);
    var k := FindInUse(h.blocks, ptr, 0);
    if ptr != 0 && k < |h.blocks| {
      var q, n, ds := First(h.blocks[k]), Pages(h.blocks[k]), Descs(h.blocks);
      BlockInHeap(h, k);
      AllMappedNone(h.m, q);
      ReleaseLoopKeeps(h.m, q, 0, n, ds);
      MarkedOK(h, UFree(h, ptr), k, true);
      forall a: nat
        ensures Owned(UFree(h, ptr).m.frames, a) <==> Owned(h.m.frames, a) && !Backs(h.m, q, q + n, a)
      {
        ReleaseFrees(h.m, q, 0, n, ds, a);
      }
    } else {
      LiveSelf(h, ptr);
    }
  }

  // ---------------------------------------------------------------- what a failure leaves behind

  lemma {:induction false} MapLoopStops(m: Machine, q: nat, i: nat, n: nat, ds: set<nat>)
    requires LayersOK(m, ds) && i <= n && q + n <= HEAP_PAGES
    ensures m.frames.hint <= |m.frames.used|
    ensures var r := MapLoop(m, q, i, n);
            forall p: nat | q + r.done <= p < q + n :: Pte(r.m, p) == Pte(m, p)
    decreases n - i
  {
    hide Pte, MapFresh, LayersOK, Keeps, Spare, AllocPage;
    LayersHint(m, ds);
    if i < n {
      MapFreshKeeps(m, q + i, ds);
      var (m', ok, a) := MapFresh(m, q + i);
      KeepsLayers(m, m', q + i, q + i + 1, ds);
      OthersSame(m, m', q + i, ds);
      if ok {
        MapLoopStops(m', q, i + 1, n, ds);
      }
    }
  }

  lemma OthersSame(m: Machine, n: Machine, q: nat, ds: set<nat>)
    requires Keeps(m, n, q, q + 1, ds)
    ensures forall p: nat | p < HEAP_PAGES && p != q :: Pte(n, p) == Pte(m, p)
  {
  }

  /** What a failed extension leaves mapped, by how its loop ended: only the failure to get a page table
      skips the clean-up. */
  lemma LeftMapped(h: Heap, size: nat)
    requires HeapOK(h) && size > 0 && size % PAGE_SIZE == 0 && h.next + size <= HEAP_TOP
    requires NoneMapped(h.m, PageOf(h.next), PageOf(h.next) + size / PAGE_SIZE)
    ensures HintBound(h)
    ensures var r := MapLoop(h.m, PageOf(h.next), 0, size / PAGE_SIZE);
            var (n, ptr) := Extend(h, size);
            ptr == 0 ==>
              (NoneMapped(n.m, PageOf(h.next), PageOf(h.next) + size / PAGE_SIZE)
               <==> r.complete || r.page == 0 || r.done == 0)
  {
    hide Keeps, LayersOK, Pte, PageOf, HeapOK, LiveKept, Descs, MapLoop, CleanLoop, Spare, AllocPage, FreePage, Present;
    LayersOf(h);
    BooksOf(h);
    TopPage(h, size);
    var q, n, ds := PageOf(h.next), size / PAGE_SIZE, Descs(h.blocks);
    AllMappedNone(h.m, q);
    MapLoopKeeps(h.m, q, 0, n, ds);
    MapLoopStops(h.m, q, 0, n, ds);
    var r := MapLoop(h.m, q, 0, n);
    if !r.complete && r.page != 0 {
      SameTables(r.m, r.m.(frames := FreePage(r.m.frames, r.page)));
      assert r.done > 0 ==> Present(Pte(r.m, q));
    } else {
      ExtendFails(h, r.m, r.done, n);
      CleanedRest(h, r.m, r.done, n);
    }
  }

  lemma CleanedRest(h: Heap, m: Machine, done: nat, n: nat)
    requires HeapOK(h) && done <= n && PageOf(h.next) + n <= HEAP_PAGES
    requires Keeps(h.m, m, PageOf(h.next), PageOf(h.next) + n, Descs(h.blocks))
    requires AllMapped(m, PageOf(h.next), PageOf(h.next) + done)
    requires NoneMapped(m, PageOf(h.next) + done, PageOf(h.next) + n)
    ensures NoneMapped(CleanLoop(m, PageOf(h.next), 0, done), PageOf(h.next), PageOf(h.next) + n)
  {
    var q, ds := PageOf(h.next), Descs(h.blocks);
    hide LayersOK, Pte, PageOf, CleanLoop, ReleaseLoop, HeapOK, Descs, FrameAt, FrameOf;
    KeepsLayers(h.m, m, q, q + n, ds);
    CleanIsRelease(m, q, 0, done, ds);
    AllMappedNone(m, q);
    ReleaseLoopKeeps(m, q, 0, done, ds);
  }

  // ---------------------------------------------------------------- the start

  /** `vmm_init`. */
  function Empty(m: Machine): Heap { Heap(m, [], HEAP_START, 0, 0) }

  lemma EmptyOK(m: Machine)
    requires MachineOK(m) && HeapSlots(m) && NoneMapped(m, 0, HEAP_PAGES)
    ensures HeapOK(Empty(m))
    ensures Empty(m).m == m && Empty(m).blocks == [] && Empty(m).next == 0x4000_0000_0000
    ensures Empty(m).totalAllocated == Empty(m).totalFree == 0
  {
    hide Pte, MachineOK;
  }

  /** What the boot code has to leave for the heap to start: an allocator in order, a root table outside
      the memory it hands out, and no entry in the root's upper user half. */
  lemma BootOK(m: Machine)
    requires FramesOK(m.frames) && !Available(m.frames.regions, m.root) && m.tables == map[m.root := []]
    requires forall i: nat :: i in m.slots <==> 128 <= i < 256
    requires forall i: nat | 128 <= i < 256 :: !Present(Entry(m, m.root, i))
    ensures HeapOK(Empty(m))
  {
    hide Entry, PathOf, PageVA, FramesOK;
    forall q: nat | q < HEAP_PAGES ensures !Present(Pte(m, q)) {
      HeapPaths(q, q);
    }
    EmptyOK(m);
  }

  /** The limit the code checks lets two addresses through that are one page to the tables: with the
      heap grown past 2^48 bytes a new block would alias an old one. */
  lemma LimitAliases(v: nat)
    requires HEAP_START <= v < HEAP_TOP
    ensures v + 0x1_0000_0000_0000 < HEAP_END && PathOf(v + 0x1_0000_0000_0000) == PathOf(v)
  {
    hide PathOf;
    SamePath(v + 0x1_0000_0000_0000, v);
  }

  /** Below 2^47 no two pages do. */
  lemma NoAliases(v: nat, w: nat)
    requires HEAP_START <= v < HEAP_TOP && HEAP_START <= w < HEAP_TOP
    ensures PathOf(v) == PathOf(w) <==> PageOf(v) == PageOf(w)
  {
    hide PathOf;
    SamePath(v, w);
    assert v / 0x1000 == 0x4_0000_0000 + PageOf(v) && w / 0x1000 == 0x4_0000_0000 + PageOf(w);
  }

  /** The heap [HEAP_START, top) has a path of its own for each of its pages exactly if it is no longer than
      2^48 bytes. */
  lemma AliasesExactly(top: nat)
    ensures (forall v: nat, w: nat | HEAP_START <= v < top && HEAP_START <= w < top && PathOf(v) == PathOf(w) ::
               PageOf(v) == PageOf(w))
            <==> top <= HEAP_START + 0x1_0000_0000_0000
  {
    hide PathOf;
    if top <= HEAP_START + 0x1_0000_0000_0000 {
      forall v: nat, w: nat | HEAP_START <= v < top && HEAP_START <= w < top && PathOf(v) == PathOf(w)
        ensures PageOf(v) == PageOf(w)
      {
        SamePath(v, w);
        NearPages(v / 0x1000, w / 0x1000);
        assert v / 0x1000 == 0x4_0000_0000 + PageOf(v) && w / 0x1000 == 0x4_0000_0000 + PageOf(w);
      }
    } else {
      var v, w := HEAP_START, HEAP_START + 0x1_0000_0000_0000;
      SamePath(v, w);
      assert PathOf(v) == PathOf(w) && PageOf(v) != PageOf(w);
    }
  }

  /** Page numbers less than 2^36 apart that agree in the low 36 bits. */
  lemma NearPages(a: nat, b: nat)
    requires 0x4_0000_0000 <= a < 0x14_0000_0000 && 0x4_0000_0000 <= b < 0x14_0000_0000
    requires a % 0x10_0000_0000 == b % 0x10_0000_0000
    ensures a == b
  {
  }
}
