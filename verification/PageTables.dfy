/** The page tables as the kernel walks and writes them, proved to do what PageSpec says. */
module PageTables {
  import opened FrameSpec
  import opened PageSpec
  import opened Pmm

  lemma ZeroedWords(w: Table)
    requires forall k | 0 <= k < 512 :: w[k] == 0
    ensures w == ZeroTable()
  {
  }

  lemma WordsAgain(f: Frame)
    ensures f.Words? ==> AsWords(f) == f.words
  {
  }

  /** An allocator that has no page stays as it is. */
  lemma NoPage(p: Frames)
    requires p.hint <= |p.used|
    ensures AllocPage(p).1 == 0 ==> AllocPage(p).0 == p
  {
  }

  /** `page_mgr`, with the physical memory and the allocator it works on. */
  class PageManager {
    const pmm: PageAllocator
    const root: nat
    var mem: Memory
    var totalTables: nat
    ghost const slots: set<nat>
    ghost var tables: map<nat, seq<nat>>

    constructor (pmm: PageAllocator, root: nat, mem: Memory, ghost slots: set<nat>, ghost tables: map<nat, seq<nat>>)
      requires pmm.Wf()
      ensures Wf() && this.pmm == pmm
      ensures View() == Machine(pmm.View(), mem, root, slots, tables, 0)
    {
      this.pmm, this.root, this.mem, this.totalTables := pmm, root, mem, 0;
      this.slots, this.tables := slots, tables;
    }

    ghost predicate Wf()
      reads pmm, pmm.bitmap
    {
      pmm.Wf()
    }

    ghost function View(): (m: Machine)
      requires Wf()
      reads this, pmm, pmm.bitmap
      ensures m.frames == pmm.View() && m.frames.hint <= |m.frames.used|
    {
      Machine(pmm.View(), mem, root, slots, tables, totalTables)
    }

    function ReadEntry(t: nat, i: nat): nat
      requires i < 512
      reads this
    {
      AsWords(FrameAt(mem, t))[i]
    }

    method WriteEntry(t: nat, i: nat, e: nat)
      requires i < 512
      modifies `mem
      ensures mem == old(mem)[t := Words(AsWords(FrameAt(old(mem), t))[i := e])]
    {
      mem := mem[t := Words(AsWords(FrameAt(mem, t))[i := e])];
    }

    /** The loop of `allocate_page_table`. */
    method ClearTable(a: nat)
      modifies `mem
      ensures mem == old(mem)[a := Words(ZeroTable())]
    {
      hide AsWords;
      var i := 0;
      while i < 512
        invariant 0 <= i <= 512
        invariant mem == if i == 0 then old(mem) else old(mem)[a := FrameAt(mem, a)]
        invariant i > 0 ==> FrameAt(mem, a).Words?
        invariant forall k | 0 <= k < i :: AsWords(FrameAt(mem, a))[k] == 0
      {
        WriteEntry(a, i, 0);
        WordsAgain(FrameAt(mem, a));
        i := i + 1;
      }
      WordsAgain(FrameAt(mem, a));
      ZeroedWords(AsWords(FrameAt(mem, a)));
    }

    method AllocatePageTable() returns (a: nat)
      requires Wf()
      modifies `mem, pmm`usedPages, pmm`nextAllocHint, pmm.bitmap
      ensures Wf() && (View(), a) == AllocTable(old(View()))
    {
      hide FrameSpec.AllocPage, ZeroTable;
      a := pmm.AllocPage();
      if a != 0 {
        ClearTable(a);
      } else {
        NoPage(old(pmm.View()));
      }
    }

    /** One level down: the three times repeated step of `paging_map_page`. */
    method NextTable(t: nat, i: nat, user: bool) returns (a: nat)
      requires Wf() && i < 512
      modifies `mem, `totalTables, `tables, pmm`usedPages, pmm`nextAllocHint, pmm.bitmap
      ensures Wf() && (View(), a) == EnsureTable(old(View()), t, i, user)
    {
      hide AsWords, AsBytes, WordOfBytes, FrameSpec.AllocPage, ZeroTable;
      var e := ReadEntry(t, i);
      if e % 2 != 1 {
        a := AllocatePageTable();
        if a == 0 {
          return;
        }
        WriteEntry(t, i, a + 1 + 2 + (if user then 4 else 0));
        totalTables := totalTables + 1;
        tables := tables[a := (if t in tables then tables[t] else []) + [i]];
      } else {
        a := AlignDown(e);
      }
    }

    method MapPage(vaddr: nat, paddr: nat, flags: nat) returns (ok: bool)
      requires Wf()
      modifies `mem, `totalTables, `tables, pmm`usedPages, pmm`nextAllocHint, pmm.bitmap
      ensures Wf() && (View(), ok) == PageSpec.MapPage(old(View()), vaddr, paddr, flags)
    {
      hide AsBytes, WordOfBytes, EnsureTable, PathOf, AsWords;
      var p, user := PathOf(vaddr), flags / 4 % 2 == 1;
      var pdp := NextTable(root, p.a, user);
      if pdp == 0 {
        return false;
      }
      var pd := NextTable(pdp, p.b, user);
      if pd == 0 {
        return false;
      }
      var pt := NextTable(pd, p.c, user);
      if pt == 0 {
        return false;
      }
      WriteEntry(pt, p.d, Or(AlignDown(paddr), flags));
      return true;
    }

    method UnmapPage(vaddr: nat)
      requires Wf()
      modifies `mem
      ensures Wf() && View() == PageSpec.UnmapPage(old(View()), vaddr)
    {
      hide AsBytes, WordOfBytes, PathOf, AsWords;
      var p := PathOf(vaddr);
      var e := ReadEntry(root, p.a);
      if e % 2 != 1 {
        return;
      }
      var pdp := AlignDown(e);
      e := ReadEntry(pdp, p.b);
      if e % 2 != 1 {
        return;
      }
      var pd := AlignDown(e);
      e := ReadEntry(pd, p.c);
      if e % 2 != 1 {
        return;
      }
      WriteEntry(AlignDown(e), p.d, 0);
    }

    method GetPhysical(vaddr: nat) returns (paddr: nat)
      requires Wf()
      ensures paddr == PageSpec.GetPhysical(View(), vaddr)
    {
      hide AsBytes, WordOfBytes, PathOf, AsWords;
      var p := PathOf(vaddr);
      var e := ReadEntry(root, p.a);
      if e % 2 != 1 {
        return 0;
      }
      var pdp := AlignDown(e);
      e := ReadEntry(pdp, p.b);
      if e % 2 != 1 {
        return 0;
      }
      var pd := AlignDown(e);
      e := ReadEntry(pd, p.c);
      if e % 2 != 1 {
        return 0;
      }
      e := ReadEntry(AlignDown(e), p.d);
      if e % 2 != 1 {
        return 0;
      }
      return AlignDown(e) + vaddr % PAGE_SIZE;
    }
  }
}
