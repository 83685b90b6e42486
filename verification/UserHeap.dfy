/** The user heap as the kernel keeps it: linked block descriptors over the page tables and the frame
    allocator, proved to do what HeapIsolation and HeapRun say. */
module UserHeap {
  import opened FrameSpec
  import opened PageSpec
  import opened HeapSpec
  import opened HeapIsolation
  import opened HeapRun
  import opened PageTables
  import Pmm

  /** `vmm_block_t`; `at` is the page kmalloc returned for it. */
  class VmmBlock {
    const at: nat
    var addr: nat
    var size: nat
    var isFree: bool
    var next: VmmBlock?

    constructor (at: nat, addr: nat, size: nat, next: VmmBlock?)
      ensures this.at == at && this.addr == addr && this.size == size && !isFree && this.next == next
    {
      this.at, this.addr, this.size, isFree, this.next := at, addr, size, false, next;
    }
  }

  ghost function BlockOf(b: VmmBlock): Block
    reads b
  {
    Block(b.addr, b.size, b.isFree, b.at)
  }

  ghost function Blocks(nodes: seq<VmmBlock>): (r: seq<Block>)
    reads nodes
    ensures |r| == |nodes| && forall i | 0 <= i < |r| :: r[i] == BlockOf(nodes[i])
  {
    if nodes == [] then [] else [BlockOf(nodes[0])] + Blocks(nodes[1..])
  }

  /** What follows node i. */
  predicate NextOf(nodes: seq<VmmBlock>, i: nat, next: VmmBlock?) {
    if i + 1 < |nodes| then next == nodes[i + 1] else next == null
  }

  ghost predicate Chained(nodes: seq<VmmBlock>, head: VmmBlock?)
    reads nodes
  {
    && head == (if nodes == [] then null else nodes[0])
    && (forall i | 0 <= i < |nodes| :: NextOf(nodes, i, nodes[i].next))
    && (forall i, j | 0 <= i < j < |nodes| :: nodes[i] != nodes[j])
  }

  lemma ChainPushed(nodes: seq<VmmBlock>, block: VmmBlock)
    requires Chained(nodes, block.next) && block !in nodes
    ensures Chained([block] + nodes, block)
  {
    var all := [block] + nodes;
    forall i | 0 <= i < |all| ensures NextOf(all, i, all[i].next) {
      assert i > 0 ==> NextOf(nodes, i - 1, nodes[i - 1].next);
    }
  }

  /** `vmm_info`. */
  class UserMemory {
    const pages: PageManager
    var freeList: VmmBlock?
    var nextAddr: nat
    var totalAllocated: int
    var totalFree: int
    ghost var nodes: seq<VmmBlock>

    ghost predicate Wf()
      reads this, nodes, pages, pages.pmm, pages.pmm.bitmap
    {
      pages.Wf() && Chained(nodes, freeList)
    }

    ghost function View(): (h: Heap)
      requires Wf()
      reads this, nodes, pages, pages.pmm, pages.pmm.bitmap
      ensures HintBound(h)
    {
      Heap(pages.View(), Blocks(nodes), nextAddr, totalAllocated, totalFree)
    }

    constructor (pages: PageManager)
      requires pages.Wf() && MachineOK(pages.View()) && HeapSlots(pages.View()) && NoneMapped(pages.View(), 0, HEAP_PAGES)
      ensures Wf() && this.pages == pages && View() == Empty(pages.View()) && HeapOK(View())
    {
      this.pages := pages;
      freeList, nextAddr, totalAllocated, totalFree, nodes := null, HEAP_START, 0, 0, [];
      new;
      EmptyOK(pages.View());
    }

    /** The search of `umalloc`. */
    method FindFree(size: nat) returns (b: VmmBlock?, ghost k: nat)
      requires Wf()
      ensures k == FindFit(View().blocks, size, 0)
      ensures b == if k < |nodes| then nodes[k] else null
    {
      hide PageManager.View, PageManager.Wf;
      b, k := freeList, 0;
      while b != null
        invariant k <= |nodes| && b == if k < |nodes| then nodes[k] else null
        invariant FindFit(View().blocks, size, k) == FindFit(View().blocks, size, 0)
        decreases |nodes| - k
      {
        if b.isFree && b.size >= size {
          return;
        }
        b, k := b.next, k + 1;
      }
    }

    /** The search of `ufree` and `urealloc`. */
    method FindUsed(addr: nat) returns (b: VmmBlock?, ghost k: nat)
      requires Wf()
      ensures k == FindInUse(View().blocks, addr, 0)
      ensures b == if k < |nodes| then nodes[k] else null
    {
      hide PageManager.View, PageManager.Wf;
      b, k := freeList, 0;
      while b != null
        invariant k <= |nodes| && b == if k < |nodes| then nodes[k] else null
        invariant FindInUse(View().blocks, addr, k) == FindInUse(View().blocks, addr, 0)
        decreases |nodes| - k
      {
        if b.addr == addr && !b.isFree {
          return;
        }
        b, k := b.next, k + 1;
      }
    }

    method MarkNode(b: VmmBlock, isFree: bool, ghost k: nat)
      requires Chained(nodes, freeList) && k < |nodes| && nodes[k] == b
      modifies b`isFree
      ensures Chained(nodes, freeList)
      ensures Blocks(nodes) == old(Blocks(nodes))[k := old(Blocks(nodes))[k].(isFree := isFree)]
      ensures b.size == old(Blocks(nodes))[k].size
    {
      b.isFree := isFree;
    }

    /** Marks a block and moves its size from one total to the other. */
    method SetFree(b: VmmBlock, isFree: bool, ghost k: nat)
      requires Wf() && k < |nodes| && nodes[k] == b
      modifies b`isFree, `totalAllocated, `totalFree
      ensures Wf() && View() == Mark(old(View()), k, isFree)
    {
      hide PageManager.View, Pmm.PageAllocator.View, Pmm.PageAllocator.Wf, PageManager.Wf, Chained, Blocks;
      MarkNode(b, isFree, k);
      if isFree {
        totalAllocated := totalAllocated - b.size;
        totalFree := totalFree + b.size;
      } else {
        totalAllocated := totalAllocated + b.size;
        totalFree := totalFree - b.size;
      }
    }

    /** A page from the allocator, mapped at one heap page. */
    method MapOne(virtPage: nat, ghost q: nat) returns (ok: bool, page: nat)
      requires pages.Wf() && virtPage == PageVA(q)
      modifies pages`mem, pages`totalTables, pages`tables, pages.pmm`usedPages, pages.pmm`nextAllocHint,
               pages.pmm.bitmap
      ensures pages.Wf() && (pages.View(), ok, page) == MapFresh(old(pages.View()), q)
    {
      hide AllocPage, PageSpec.MapPage, Pmm.Bits;
      ok := false;
      page := pages.pmm.AllocPage();
      if page == 0 {
        NoPage(old(pages.pmm.View()));
        return;
      }
      ok := pages.MapPage(virtPage, page, HEAP_FLAGS);
    }

    /** The mapping loops of `umalloc`: pages from the allocator at heap pages [q, q + n). */
    method MapPages(virt: nat, n: nat, ghost q: nat) returns (done: nat, page: nat)
      requires pages.Wf() && virt == PageVA(q)
      modifies pages`mem, pages`totalTables, pages`tables, pages.pmm`usedPages, pages.pmm`nextAllocHint,
               pages.pmm.bitmap
      ensures pages.Wf()
      ensures var r := MapLoop(old(pages.View()), q, 0, n);
              pages.View() == r.m && done == r.done && (done < n ==> page == r.page)
    {
      hide MapFresh, PageManager.View, Pmm.PageAllocator.View;
      done, page := 0, 0;
      while done < n
        invariant done <= n && pages.Wf()
        invariant MapLoop(pages.View(), q, done, n) == MapLoop(old(pages.View()), q, 0, n)
      {
        var ok;
        ok, page := MapOne(virt + done * PAGE_SIZE, q + done);
        if !ok {
          return;
        }
        done := done + 1;
      }
    }

    /** Unmaps heap page q and frees the frame behind it. */
    method DropPage(virtPage: nat, ghost q: nat)
      requires pages.Wf() && virtPage == PageVA(q)
      modifies pages`mem, pages.pmm`usedPages, pages.pmm`nextAllocHint, pages.pmm.bitmap
      ensures pages.Wf() && pages.View() == Drop(old(pages.View()), q)
    {
      hide PageSpec.UnmapPage, FreePage, Pmm.Bits;
      var phys := pages.GetPhysical(virtPage);
      pages.UnmapPage(virtPage);
      pages.pmm.FreePage(phys);
    }

    /** The clean-up loops of `umalloc`. */
    method CleanPages(virt: nat, n: nat, ghost q: nat)
      requires pages.Wf() && virt == PageVA(q)
      modifies pages`mem, pages.pmm`usedPages, pages.pmm`nextAllocHint, pages.pmm.bitmap
      ensures pages.Wf() && pages.View() == CleanLoop(old(pages.View()), q, 0, n)
    {
      hide Drop, PageManager.View, Pmm.PageAllocator.View;
      var j := 0;
      while j < n
        invariant j <= n && pages.Wf()
        invariant CleanLoop(pages.View(), q, j, n) == CleanLoop(old(pages.View()), q, 0, n)
      {
        DropPage(virt + j * PAGE_SIZE, q + j);
        j := j + 1;
      }
    }

    /** The loop of `ufree`. */
    method ReleasePages(virt: nat, n: nat, ghost q: nat)
      requires pages.Wf() && virt == PageVA(q)
      modifies pages`mem, pages.pmm`usedPages, pages.pmm`nextAllocHint, pages.pmm.bitmap
      ensures pages.Wf() && pages.View() == ReleaseLoop(old(pages.View()), q, 0, n)
    {
      hide Drop, PageManager.View, Pmm.PageAllocator.View, PageSpec.GetPhysical;
      var i := 0;
      while i < n
        invariant i <= n && pages.Wf()
        invariant ReleaseLoop(pages.View(), q, i, n) == ReleaseLoop(old(pages.View()), q, 0, n)
      {
        var physPage := pages.GetPhysical(virt + i * PAGE_SIZE);
        if physPage != 0 {
          DropPage(virt + i * PAGE_SIZE, q + i);
        }
        i := i + 1;
      }
    }

    method ReuseBlock(b: VmmBlock, ghost k: nat) returns (ptr: nat)
      requires Wf() && k < |nodes| && nodes[k] == b && BooksOK(View())
      modifies `totalAllocated, `totalFree, b`isFree
      modifies pages`mem, pages`totalTables, pages`tables, pages.pmm`usedPages, pages.pmm`nextAllocHint,
               pages.pmm.bitmap
      ensures Wf() && (View(), ptr) == Reuse(old(View()), k)
    {
      hide MapLoop, PageManager.View, Pmm.PageAllocator.View, Pmm.PageAllocator.Wf, Tiles, SumOf, Chained, Blocks;
      BlockAddrs(View(), k);
      ghost var q := First(BlockOf(b));
      SetFree(b, false, k);
      label Marked:
      var done, page := MapPages(b.addr, b.size / PAGE_SIZE, q);
      assert Chained(nodes, freeList) && Blocks(nodes) == old@Marked(Blocks(nodes));
      return if done < b.size / PAGE_SIZE then 0 else b.addr;
    }

    /** A new block at the head of the list. */
    method PushBlock(at: nat, addr: nat, size: nat)
      requires Chained(nodes, freeList)
      modifies `freeList, `nodes
      ensures Chained(nodes, freeList) && Blocks(nodes) == [Block(addr, size, false, at)] + old(Blocks(nodes))
      ensures fresh(set n | n in nodes && n !in old(nodes))
    {
      var block := new VmmBlock(at, addr, size, freeList);
      ghost var before := nodes;
      assert Chained(before, freeList) && Blocks(before) == old(Blocks(nodes));
      freeList := block;
      nodes := [block] + nodes;
      assert nodes[1..] == before;
      ChainPushed(before, block);
    }

    /** The new block on the list, the top moved past it. */
    method AddBlock(at: nat, size: nat)
      requires Wf()
      modifies `freeList, `nodes, `nextAddr, `totalAllocated
      ensures Wf() && fresh(set n | n in nodes && n !in old(nodes)) && pages.View() == old(pages.View())
      ensures var h := old(View());
              View() == Heap(h.m, [Block(h.next, size, false, at)] + h.blocks, h.next + size, h.totalAllocated + size, h.totalFree)
    {
      hide PageManager.View, PageManager.Wf, Chained, Blocks;
      PushBlock(at, nextAddr, size);
      assert pages.View() == old(pages.View());
      nextAddr := nextAddr + size;
      totalAllocated := totalAllocated + size;
    }

    /** The page for a descriptor. */
    method AllocDescriptor() returns (at: nat)
      requires pages.Wf()
      modifies pages.pmm`usedPages, pages.pmm`nextAllocHint, pages.pmm.bitmap
      ensures pages.Wf()
      ensures var (p, d) := AllocPage(old(pages.View()).frames);
              at == d && pages.View() == old(pages.View()).(frames := p)
      ensures at == 0 ==> pages.View() == old(pages.View())
    {
      hide AllocPage, Pmm.Bits;
      at := pages.pmm.KMalloc(DESCRIPTOR_SIZE);
      NoPage(old(pages.pmm.View()));
    }

    /** The second half of growing the heap: the descriptor and the list. */
    method Describe(size: nat, ghost q: nat) returns (ptr: nat)
      requires Wf() && nextAddr == PageVA(q)
      modifies `freeList, `nodes, `nextAddr, `totalAllocated
      modifies pages`mem, pages.pmm`usedPages, pages.pmm`nextAllocHint, pages.pmm.bitmap
      ensures Wf() && fresh(set n | n in nodes && n !in old(nodes))
      ensures var h := old(View());
              var (p, d) := AllocPage(h.m.frames);
              (View(), ptr) ==
              if d == 0 then (h.(m := CleanLoop(h.m, q, 0, size / PAGE_SIZE)), 0)
              else
                (Heap(h.m.(frames := p), [Block(h.next, size, false, d)] + h.blocks, h.next + size,
                      h.totalAllocated + size, h.totalFree), h.next)
    {
      hide CleanLoop, AllocPage, PageManager.View, PageManager.Wf, Pmm.PageAllocator.View, Pmm.PageAllocator.Wf,
           Chained, Blocks, PageVA, Pmm.Bits;
      var at := AllocDescriptor();
      if at == 0 {
        CleanPages(nextAddr, size / PAGE_SIZE, q);
        return 0;
      }
      AddBlock(at, size);
      return nextAddr - size;
    }

    method ExtendHeap(size: nat) returns (ptr: nat)
      requires Wf() && nextAddr == PageVA(PageOf(nextAddr))
      modifies `freeList, `nodes, `nextAddr, `totalAllocated
      modifies pages`mem, pages`totalTables, pages`tables, pages.pmm`usedPages, pages.pmm`nextAllocHint,
               pages.pmm.bitmap
      ensures Wf() && (View(), ptr) == Extend(old(View()), size)
      ensures fresh(set n | n in nodes && n !in old(nodes))
    {
      hide MapLoop, CleanLoop, AllocPage, FreePage, Pmm.PageAllocator.View, Pmm.PageAllocator.Wf, Chained, Blocks,
           PageOf, PageVA;
      ghost var q := PageOf(nextAddr);
      var done, page := MapPages(nextAddr, size / PAGE_SIZE, q);
      if done < size / PAGE_SIZE {
        if page == 0 {
          CleanPages(nextAddr, done, q);
        } else {
          pages.pmm.FreePage(page);
        }
        return 0;
      }
      ptr := Describe(size, q);
    }

    /** `umalloc`. */
    method UMalloc(size: nat) returns (ptr: nat)
      requires Wf() && HeapOK(View()) && AllowedSize(View(), size)
      modifies this, nodes, pages`mem, pages`totalTables, pages`tables, pages.pmm`usedPages, pages.pmm`nextAllocHint,
               pages.pmm.bitmap
      ensures Wf() && HeapOK(View()) && (View(), ptr) == HeapIsolation.UMalloc(old(View()), size)
      ensures fresh(set n | n in nodes && n !in old(nodes))
    {
      hide Extend, Reuse, HeapOK, AllowedSize, Pmm.PageAllocator.View, PageManager.View, Chained, Blocks, PageOf,
           PageVA, Granted, LiveKept;
      ghost var _ := UMallocOK(View(), size);
      if size == 0 {
        return 0;
      }
      var aligned := AlignUp(size);
      var b, k := FindFree(aligned);
      BooksOf(View());
      if b != null {
        ptr := ReuseBlock(b, k);
        return;
      }
      if nextAddr + aligned > HEAP_END {
        return 0;
      }
      TopPage(View(), 0);
      ptr := ExtendHeap(aligned);
    }

    /** `ufree`. */
    method UFree(ptr: nat)
      requires Wf() && HeapOK(View())
      modifies this, nodes, pages`mem, pages.pmm`usedPages, pages.pmm`nextAllocHint, pages.pmm.bitmap
      ensures Wf() && nodes == old(nodes) && HeapOK(View()) && View() == HeapIsolation.UFree(old(View()), ptr)
    {
      hide HeapOK, ReleaseLoop, Pmm.PageAllocator.View, Pmm.PageAllocator.Wf, PageManager.View, Chained, Blocks,
           First, PageVA, LiveKept, NoneMapped, Backs, Owned;
      UFreeOK(View(), ptr);
      if ptr == 0 {
        return;
      }
      var b, k := FindUsed(ptr);
      if b != null {
        BooksOf(View());
        BlockAddrs(View(), k);
        ghost var q := First(BlockOf(b));
        SetFree(b, true, k);
        ReleasePages(b.addr, b.size / PAGE_SIZE, q);
      }
    }

    /** A load and a store through the tables, as the processor does them. */
    method LoadByte(v: nat) returns (b: nat)
      requires pages.Wf() && HeapAddr(v) && Present(Pte(pages.View(), PageOf(v)))
      ensures b == ReadByte(pages.View(), v)
    {
      hide PageSpec.GetPhysical, AlignDown, AsBytes, Pmm.PageAllocator.View;
      PhysicalAddr(pages.View(), v);
      var phys := pages.GetPhysical(v);
      return AsBytes(FrameAt(pages.mem, AlignDown(phys)))[phys % PAGE_SIZE];
    }

    method StoreByte(v: nat, b: nat)
      requires pages.Wf() && HeapAddr(v) && Present(Pte(pages.View(), PageOf(v)))
      modifies pages`mem
      ensures pages.Wf() && pages.View() == WriteByte(old(pages.View()), v, b)
    {
      hide PageSpec.GetPhysical, AlignDown, WithByte, Pmm.PageAllocator.View;
      PhysicalAddr(pages.View(), v);
      var phys := pages.GetPhysical(v);
      var f := AlignDown(phys);
      pages.mem := pages.mem[f := WithByte(FrameAt(pages.mem, f), phys % PAGE_SIZE, b)];
    }

    /** One turn of the copy loop of `urealloc`. */
    method CopyByte(dst: nat, src: nat, i: nat, ghost n: nat, ghost p: nat, ghost s: nat, ghost to: nat,
        ghost from: nat, ghost ds: set<nat>)
      requires pages.Wf() && dst == PageVA(p) && src == PageVA(s) && i < n
      requires LayersOK(pages.View(), ds) && CopyFits(pages.View(), p, s, n, to, from)
      modifies pages`mem
      ensures pages.Wf() && LayersOK(pages.View(), ds) && CopyFits(pages.View(), p, s, n, to, from)
      ensures pages.View() == WriteByte(old(pages.View()), dst + i, ReadByte(old(pages.View()), src + i))
    {
      hide LayersOK, CopyFits, ReadByte, WriteByte, PageManager.View, PageManager.Wf, PageVA, Keeps, HeapAddr, PageOf,
           Pte, Present;
      CopyStep(pages.View(), p, s, i, n, to, from, ds);
      CopyMapped(pages.View(), p, s, i, n, to, from);
      var b := LoadByte(src + i);
      StoreByte(dst + i, b);
    }

    /** The copy loop of `urealloc`, between two places that do not overlap. */
    method CopyBytes(dst: nat, src: nat, n: nat, ghost p: nat, ghost s: nat, ghost to: nat, ghost from: nat,
        ghost ds: set<nat>)
      requires pages.Wf() && dst == PageVA(p) && src == PageVA(s)
      requires LayersOK(pages.View(), ds) && CopyFits(pages.View(), p, s, n, to, from)
      modifies pages`mem
      ensures pages.Wf() && pages.View() == CopyLoop(old(pages.View()), dst, src, 0, n)
    {
      hide LayersOK, CopyFits, ReadByte, WriteByte, PageManager.View, PageManager.Wf, PageVA, Pmm.PageAllocator.View;
      var i := 0;
      while i < n
        invariant i <= n && pages.Wf() && LayersOK(pages.View(), ds) && CopyFits(pages.View(), p, s, n, to, from)
        invariant CopyLoop(pages.View(), dst, src, i, n) == CopyLoop(old(pages.View()), dst, src, 0, n)
      {
        CopyByte(dst, src, i, n, p, s, to, from, ds);
        i := i + 1;
      }
    }

    /** Copies the bytes of one block to another. */
    method CopyBlock(dst: nat, src: nat, n: nat, ghost i: nat, ghost k: nat)
      requires Wf() && HeapOK(View()) && i < |nodes| && k < |nodes| && i != k
      requires var g := View();
               && g.blocks[i].addr == src && g.blocks[k].addr == dst && n == g.blocks[i].size <= g.blocks[k].size
               && MappedBlock(g, g.blocks[i]) && MappedBlock(g, g.blocks[k])
      modifies pages`mem
      ensures Wf() && View() == old(View()).(m := CopyLoop(old(View()).m, dst, src, 0, n))
    {
      hide LayersOK, CopyFits, CopyLoop, PageManager.View, PageManager.Wf, PageVA, Chained, Blocks, MappedBlock,
           Pages, First, Descs;
      BooksOf(View());
      BlocksFit(View(), i, k);
      ghost var b, c := View().blocks[i], View().blocks[k];
      CopyBytes(dst, src, n, First(c), First(b), Pages(c), Pages(b), Descs(View().blocks));
    }

    /** The path of `urealloc` that moves a block. */
    method MoveBlock(ptr: nat, oldSize: nat, size: nat, ghost i: nat) returns (p: nat)
      requires Wf() && HeapOK(View()) && i == FindInUse(View().blocks, ptr, 0) && i < |nodes| && ptr != 0
      requires size > oldSize && oldSize == View().blocks[i].size && AlignUp(size) == size
      requires AllowedSize(View(), size) && MappedBlock(View(), View().blocks[i])
      modifies this, nodes, pages`mem, pages`totalTables, pages`tables, pages.pmm`usedPages, pages.pmm`nextAllocHint,
               pages.pmm.bitmap
      ensures Wf() && HeapOK(View()) && fresh(set n | n in nodes && n !in old(nodes))
      ensures var (g, q) := HeapIsolation.UMalloc(old(View()), size);
              p == q && View() == if q == 0 then g else HeapIsolation.UFree(g.(m := CopyLoop(g.m, q, ptr, 0, oldSize)), ptr)
    {
      hide HeapIsolation.UMalloc, HeapIsolation.UFree, HeapOK, AllowedSize, CopyLoop, Chained, Blocks, MappedBlock,
           AlignUp, PageManager.View, PageManager.Wf, FindInUse;
      ghost var i', k := MoveFits(View(), ptr, size, i);
      p := UMalloc(size);
      if p != 0 {
        CopyBlock(p, ptr, oldSize, i', k);
        UFree(ptr);
      }
    }

    /** `urealloc`. */
    method URealloc(ptr: nat, size: nat) returns (p: nat)
      requires Wf() && HeapOK(View()) && AllowedRealloc(View(), ptr, size)
      modifies this, nodes, pages`mem, pages`totalTables, pages`tables, pages.pmm`usedPages, pages.pmm`nextAllocHint,
               pages.pmm.bitmap
      ensures Wf() && HeapOK(View()) && (View(), p) == HeapRun.URealloc(old(View()), ptr, size)
      ensures fresh(set n | n in nodes && n !in old(nodes))
    {
      hide HeapIsolation.UMalloc, HeapIsolation.UFree, HeapOK, AllowedSize, CopyLoop, PageManager.View,
           PageManager.Wf, Chained, Blocks, MappedBlock, AlignUp;
      if ptr == 0 {
        p := UMalloc(size);
        return;
      }
      if size == 0 {
        UFree(ptr);
        return 0;
      }
      var b, k := FindUsed(ptr);
      if b == null {
        return 0;
      }
      var oldSize, aligned := b.size, AlignUp(size);
      if aligned <= oldSize {
        return ptr;
      }
      AlignUpAgain(size);
      p := MoveBlock(ptr, oldSize, aligned, k);
    }
  }

  lemma CopyMapped(m: Machine, p: nat, s: nat, i: nat, n: nat, to: nat, from: nat)
    requires CopyFits(m, p, s, n, to, from) && i < n
    ensures HeapAddr(PageVA(p) + i) && Present(Pte(m, PageOf(PageVA(p) + i)))
    ensures HeapAddr(PageVA(s) + i) && Present(Pte(m, PageOf(PageVA(s) + i)))
  {
    hide Pte, Present, PageOf, PageVA, HeapAddr;
    BytePage(p, to, i);
    BytePage(s, from, i);
  }
}
