/** The allocator as the kernel keeps it: a byte array of bits, a hint and counters, proved to do
    what FrameSpec says. */
module Pmm {
  import opened FrameSpec

  // ---------------------------------------------------------------- bits in bytes

  /** `1 << i`. */
  function Mask(i: nat): bv8
    requires i < 8
  {
    if i == 0 then 1 else if i == 1 then 2 else if i == 2 then 4 else if i == 3 then 8
    else if i == 4 then 16 else if i == 5 then 32 else if i == 6 then 64 else 128
  }

  predicate TestBit(b: bv8, i: nat) requires i < 8 { b & Mask(i) != 0 }

  lemma BitLaws(b: bv8, i: nat, j: nat)
    requires i < 8 && j < 8
    ensures TestBit(b | Mask(i), j) == (i == j || TestBit(b, j))
    ensures TestBit(b & !Mask(i), j) == (i != j && TestBit(b, j))
    ensures !TestBit(0, i)
  {
  }

  /** Bit i of the bitmap. */
  predicate BitAt(a: seq<bv8>, i: nat) requires i / 8 < |a| { TestBit(a[i / 8], i % 8) }

  function Bits(a: seq<bv8>, n: nat): (s: seq<bool>)
    requires n <= 8 * |a|
    ensures |s| == n && forall i | 0 <= i < n :: s[i] == BitAt(a, i)
  {
    if n == 0 then [] else Bits(a, n - 1) + [BitAt(a, n - 1)]
  }

  /** The bitmap with bit i set, and with bit i cleared. */
  function WithBit(a: seq<bv8>, i: nat): (b: seq<bv8>)
    requires i / 8 < |a|
    ensures |b| == |a|
  {
    a[i / 8 := a[i / 8] | Mask(i % 8)]
  }

  function WithoutBit(a: seq<bv8>, i: nat): (b: seq<bv8>)
    requires i / 8 < |a|
    ensures |b| == |a|
  {
    a[i / 8 := a[i / 8] & !Mask(i % 8)]
  }

  lemma SamePlace(i: nat, j: nat)
    ensures i == j <==> i / 8 == j / 8 && i % 8 == j % 8
  {
  }

  lemma BitAfterSet(a: seq<bv8>, i: nat, j: nat)
    requires i / 8 < |a| && j / 8 < |a|
    ensures BitAt(WithBit(a, i), j) == (i == j || BitAt(a, j))
  {
    SamePlace(i, j);
    InByte(a, i / 8, i % 8, j / 8, j % 8);
    hide TestBit, Mask;
  }

  lemma BitAfterClear(a: seq<bv8>, i: nat, j: nat)
    requires i / 8 < |a| && j / 8 < |a|
    ensures BitAt(WithoutBit(a, i), j) == (i != j && BitAt(a, j))
  {
    SamePlace(i, j);
    InByte(a, i / 8, i % 8, j / 8, j % 8);
    hide TestBit, Mask;
  }

  lemma InByte(a: seq<bv8>, p: nat, m: nat, q: nat, n: nat)
    requires p < |a| && q < |a| && m < 8 && n < 8
    ensures TestBit(a[p := a[p] | Mask(m)][q], n) == ((p == q && m == n) || TestBit(a[q], n))
    ensures TestBit(a[p := a[p] & !Mask(m)][q], n) == (!(p == q && m == n) && TestBit(a[q], n))
  {
    hide TestBit, Mask;
    BitLaws(a[p], m, n);
  }

  lemma BitsSet(a: seq<bv8>, n: nat, i: nat)
    requires i < n <= 8 * |a|
    ensures Bits(WithBit(a, i), n) == Bits(a, n)[i := true]
  {
    hide BitAt, WithBit;
    forall j | 0 <= j < n ensures Bits(WithBit(a, i), n)[j] == Bits(a, n)[i := true][j] {
      BitAfterSet(a, i, j);
    }
  }

  lemma BitsClear(a: seq<bv8>, n: nat, i: nat)
    requires i < n <= 8 * |a|
    ensures Bits(WithoutBit(a, i), n) == Bits(a, n)[i := false]
  {
    hide BitAt, WithoutBit;
    forall j | 0 <= j < n ensures Bits(WithoutBit(a, i), n)[j] == Bits(a, n)[i := false][j] {
      BitAfterClear(a, i, j);
    }
  }

  // ---------------------------------------------------------------- the bounds of memory

  /** The lowest start of an available region, or the largest 64-bit number if none is lower. */
  predicate LowestBase(regions: seq<Region>, lo: nat) {
    && (forall k | 0 <= k < |regions| && regions[k].available :: lo <= regions[k].base)
    && (lo == 0xFFFF_FFFF_FFFF_FFFF || exists k | 0 <= k < |regions| && regions[k].available :: lo == regions[k].base)
  }

  /** The highest end of an available region, or 0 if none is higher. */
  predicate HighestEnd(regions: seq<Region>, hi: nat) {
    && (forall k | 0 <= k < |regions| && regions[k].available :: regions[k].base + regions[k].length <= hi)
    && (hi == 0 || exists k | 0 <= k < |regions| && regions[k].available :: hi == regions[k].base + regions[k].length)
  }

  /** [start, end) is the least range of whole pages around all available regions: every region is
      inside, and the first and the last page each touch one (a start of 2^64 - 1 or more apart, which
      no 64-bit region has room behind). */
  predicate Framed(regions: seq<Region>, start: nat, end: nat) {
    && start % 4096 == 0 && end % 4096 == 0
    && (forall k | 0 <= k < |regions| && regions[k].available ::
          start <= regions[k].base && regions[k].base + regions[k].length <= end)
    && ((exists k | 0 <= k < |regions| && regions[k].available :: regions[k].base < 0xFFFF_FFFF_FFFF_FFFF) ==>
          exists k | 0 <= k < |regions| && regions[k].available :: regions[k].base < start + 4096)
    && (end == 0 || exists k | 0 <= k < |regions| && regions[k].available ::
          end < regions[k].base + regions[k].length + 4096)
  }

  lemma SpanStep(regions: seq<Region>, r: Region, lo: nat, hi: nat)
    requires LowestBase(regions, lo) && HighestEnd(regions, hi)
    ensures LowestBase(regions + [r], if r.available && r.base < lo then r.base else lo)
    ensures HighestEnd(regions + [r], if r.available && r.base + r.length > hi then r.base + r.length else hi)
  {
    var rs := regions + [r];
    assert rs[|regions|] == r && forall k | 0 <= k < |regions| :: rs[k] == regions[k];
  }

  lemma SpanIsTight(regions: seq<Region>, lo: nat, hi: nat)
    requires LowestBase(regions, lo) && HighestEnd(regions, hi)
    ensures Framed(regions, AlignDown(lo), AlignUp(hi))
  {
    if hi != 0 {
      var k :| 0 <= k < |regions| && regions[k].available && hi == regions[k].base + regions[k].length;
      assert AlignUp(hi) < hi + 4096;
    }
    if exists k | 0 <= k < |regions| && regions[k].available :: regions[k].base < 0xFFFF_FFFF_FFFF_FFFF {
      var k :| 0 <= k < |regions| && regions[k].available && lo == regions[k].base;
      assert regions[k].base < AlignDown(lo) + 4096;
    }
  }

  // ---------------------------------------------------------------- the allocator in the kernel

  /** `pmm_info` with the memory map. */
  class PageAllocator {
    const regions: seq<Region>
    var memoryStart: nat
    var memoryEnd: nat
    var totalPages: nat
    var usedPages: int
    var nextAllocHint: nat
    var bitmap: array<bv8>

    ghost predicate Wf()
      reads this, bitmap
    {
      && totalPages <= 8 * bitmap.Length && nextAllocHint <= totalPages
      && memoryEnd == memoryStart + totalPages * PAGE_SIZE
    }

    ghost function View(): (p: Frames)
      requires Wf()
      reads this, bitmap
      ensures p.hint <= |p.used| == totalPages
    {
      Frames(memoryStart, regions, Bits(bitmap[..], totalPages), nextAllocHint, usedPages)
    }

    /** `pmm_init`: memory spans all available regions; the caller provides a bitmap that is zero
        (the source leaves the bytes at its fixed address as they are). */
    constructor (regions: seq<Region>, zeroed: array<bv8>)
      requires exists k | 0 <= k < |regions| :: regions[k].available
      requires forall k | 0 <= k < |regions| && regions[k].available ::
                 regions[k].base + regions[k].length <= 8 * zeroed.Length * PAGE_SIZE
      requires forall i | 0 <= i < zeroed.Length :: zeroed[i] == 0
      ensures Wf() && this.regions == regions && bitmap == zeroed && FramesOK(View())
      ensures forall i | 0 <= i < totalPages :: !View().used[i]
      ensures forall a: nat | Available(regions, a) :: memoryStart <= a < memoryEnd
      ensures Framed(regions, memoryStart, memoryEnd) && memoryEnd == memoryStart + 4096 * totalPages
      ensures nextAllocHint == 0 && usedPages == 0
    {
      hide AlignUp, AlignDown, BitAt, Bits, Count;
      var minAddr, maxAddr := Span(regions);
      this.regions := regions;
      AlignedSpan(minAddr, maxAddr);
      SpanIsTight(regions, minAddr, maxAddr);
      AlignUpBound(maxAddr, 8 * zeroed.Length);
      memoryStart := AlignDown(minAddr);
      memoryEnd := AlignUp(maxAddr);
      totalPages := (AlignUp(maxAddr) - AlignDown(minAddr)) / PAGE_SIZE;
      usedPages := 0;
      nextAllocHint := 0;
      bitmap := zeroed;
      new;
      NoBits(bitmap[..], totalPages);
      CountNone(Bits(bitmap[..], totalPages));
    }

    /** The lowest start and the highest end of the available regions. */
    static method Span(regions: seq<Region>) returns (minAddr: nat, maxAddr: nat)
      ensures LowestBase(regions, minAddr) && HighestEnd(regions, maxAddr)
    {
      maxAddr, minAddr := 0, 0xFFFF_FFFF_FFFF_FFFF;
      var n := 0;
      assert regions[..n] == [];
      while n < |regions|
        invariant n <= |regions|
        invariant LowestBase(regions[..n], minAddr) && HighestEnd(regions[..n], maxAddr)
      {
        SpanStep(regions[..n], regions[n], minAddr, maxAddr);
        assert regions[..n + 1] == regions[..n] + [regions[n]];
        if regions[n].available {
          if regions[n].base < minAddr {
            minAddr := regions[n].base;
          }
          if regions[n].base + regions[n].length > maxAddr {
            maxAddr := regions[n].base + regions[n].length;
          }
        }
        n := n + 1;
      }
      assert regions[..n] == regions;
    }

    method IsAddressAvailable(addr: nat) returns (r: bool)
      ensures r == Available(regions, addr)
    {
      var i := 0;
      while i < |regions|
        invariant i <= |regions|
        invariant forall k | 0 <= k < i :: !(InRegion(regions[k], addr) && addr >= KERNEL_TOP)
      {
        if regions[i].available {
          var start := regions[i].base;
          var end := start + regions[i].length;
          if addr >= start && addr < end && addr >= KERNEL_TOP {
            return true;
          }
        }
        i := i + 1;
      }
      return false;
    }

    method TestBitmap(i: nat) returns (r: bool)
      requires i / 8 < bitmap.Length
      ensures r == BitAt(bitmap[..], i)
    {
      return bitmap[i / 8] & Mask(i % 8) != 0;
    }

    method SetBitmap(i: nat)
      requires i / 8 < bitmap.Length
      modifies bitmap
      ensures bitmap[..] == WithBit(old(bitmap[..]), i)
    {
      hide Mask;
      bitmap[i / 8] := bitmap[i / 8] | Mask(i % 8);
    }

    method ClearBitmap(i: nat)
      requires i / 8 < bitmap.Length
      modifies bitmap
      ensures bitmap[..] == WithoutBit(old(bitmap[..]), i)
    {
      hide Mask;
      bitmap[i / 8] := bitmap[i / 8] & !Mask(i % 8);
    }

    /** Marks page i used, counts it and moves the hint behind it. */
    method MarkUsed(i: nat)
      requires Wf() && i < totalPages
      modifies `usedPages, `nextAllocHint, bitmap
      ensures Wf() && View() == Take(old(View()), i)
    {
      hide BitAt, WithBit;
      BitsSet(bitmap[..], totalPages, i);
      SetBitmap(i);
      usedPages := usedPages + 1;
      nextAllocHint := i + 1;
    }

    /** One of the two search loops of `pmm_alloc_page`. */
    method SearchPage(lo: nat, hi: nat) returns (i: nat)
      requires Wf() && lo <= hi <= totalPages
      ensures i == FirstFree(View(), lo, hi)
    {
      i := lo;
      while i < hi
        invariant lo <= i <= hi
        invariant FirstFree(View(), i, hi) == FirstFree(View(), lo, hi)
      {
        var usable := IsAddressAvailable(memoryStart + i * PAGE_SIZE);
        var taken := TestBitmap(i);
        if usable && !taken {
          return i;
        }
        i := i + 1;
      }
    }

    method AllocPage() returns (addr: nat)
      requires Wf()
      modifies `usedPages, `nextAllocHint, bitmap
      ensures Wf() && (View(), addr) == FrameSpec.AllocPage(old(View()))
    {
      var i := SearchPage(nextAllocHint, totalPages);
      if i < totalPages {
        MarkUsed(i);
        return memoryStart + i * PAGE_SIZE;
      }
      var j := SearchPage(0, nextAllocHint);
      if j < nextAllocHint {
        MarkUsed(j);
        return memoryStart + j * PAGE_SIZE;
      }
      return 0;
    }

    method FreePage(addr: nat)
      requires Wf()
      modifies `usedPages, `nextAllocHint, bitmap
      ensures Wf() && View() == FrameSpec.FreePage(old(View()), addr)
    {
      if addr < memoryStart || addr >= memoryEnd {
        return;
      }
      var pageIndex := (addr - memoryStart) / PAGE_SIZE;
      hide BitAt, WithoutBit;
      var taken := TestBitmap(pageIndex);
      if taken {
        BitsClear(bitmap[..], totalPages, pageIndex);
        ClearBitmap(pageIndex);
        usedPages := usedPages - 1;
        if pageIndex < nextAllocHint {
          nextAllocHint := pageIndex;
        }
      }
    }

    /** The inner loop of kmalloc: are the k pages from i on all free? */
    method RunIsFree(i: nat, k: nat) returns (found: bool)
      requires Wf() && i + k <= totalPages
      ensures found == FreeRun(View(), i, k)
    {
      var j := 0;
      while j < k
        invariant j <= k && forall n: nat | i <= n < i + j :: Free(View(), n)
      {
        var usable := IsAddressAvailable(memoryStart + (i + j) * PAGE_SIZE);
        var taken := TestBitmap(i + j);
        if !usable || taken {
          assert !Free(View(), i + j);
          return false;
        }
        assert Free(View(), i + j);
        j := j + 1;
      }
      return true;
    }

    /** kmalloc's marking loop. */
    method MarkPages(i: nat, k: nat)
      requires Wf() && i + k <= totalPages
      modifies `usedPages, bitmap
      ensures Wf() && View() == MarkRun(old(View()), i, k)
    {
      hide BitAt, WithBit;
      var j := 0;
      while j < k
        invariant j <= k && Wf() && View() == MarkRun(old(View()), i, j)
      {
        BitsSet(bitmap[..], totalPages, i + j);
        SetBitmap(i + j);
        usedPages := usedPages + 1;
        j := j + 1;
      }
    }

    method KMalloc(size: nat) returns (addr: nat)
      requires Wf() && SizeAllowed(size, totalPages)
      modifies `usedPages, `nextAllocHint, bitmap
      ensures Wf() && (View(), addr) == FrameSpec.KMalloc(old(View()), size)
    {
      hide HintOK, Usable, Bits, FreeRun;
      if size == 0 {
        return 0;
      }
      var pagesNeeded := (size + PAGE_SIZE - 1) / PAGE_SIZE;
      if pagesNeeded == 1 {
        addr := AllocPage();
        return;
      }
      var i := 0;
      while i <= totalPages - pagesNeeded
        invariant i <= totalPages - pagesNeeded + 1 && unchanged(this, bitmap)
        invariant FirstRun(View(), pagesNeeded, i, totalPages - pagesNeeded)
               == FirstRun(View(), pagesNeeded, 0, totalPages - pagesNeeded)
      {
        var found := RunIsFree(i, pagesNeeded);
        if found {
          MarkPages(i, pagesNeeded);
          return memoryStart + i * PAGE_SIZE;
        }
        i := i + 1;
      }
      return 0;
    }

    method KFree(ptr: nat)
      requires Wf()
      modifies `usedPages, `nextAllocHint, bitmap
      ensures Wf() && View() == FrameSpec.KFree(old(View()), ptr)
    {
      if ptr == 0 {
        return;
      }
      FreePage(AlignDown(ptr));
    }
  }

  lemma NoBits(a: seq<bv8>, n: nat)
    requires n <= 8 * |a| && forall i | 0 <= i < |a| :: a[i] == 0
    ensures forall i | 0 <= i < n :: !Bits(a, n)[i]
  {
    forall i | 0 <= i < n ensures !Bits(a, n)[i] {
      NoBit(a, i);
    }
  }

  lemma NoBit(a: seq<bv8>, i: nat)
    requires i / 8 < |a| && a[i / 8] == 0
    ensures !BitAt(a, i)
  {
    BitLaws(0, i % 8, 0);
    hide TestBit;
  }
}
