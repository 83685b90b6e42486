/** Who holds which pages: a ledger of the live allocations, kept beside the frame allocator over
    every run in which only live allocations are freed. */
module FrameLedger {
  import opened FrameSpec

  /** An allocation of `count` pages from page `first` on. */
  datatype Run = Run(first: nat, count: nat)

  /** The live allocations, and the pages nobody can give back. */
  datatype Ledger = Ledger(live: seq<Run>, leaked: set<nat>)

  predicate Holds(r: Run, j: nat) { r.first <= j < r.first + r.count }

  predicate InLive(live: seq<Run>, j: nat) { exists k | 0 <= k < |live| :: Holds(live[k], j) }

  function Total(live: seq<Run>): nat
    decreases |live|
  {
    if live == [] then 0 else Total(live[..|live| - 1]) + live[|live| - 1].count
  }

  /** Pages lo to hi - 1. */
  function Pages(lo: nat, hi: nat): (s: set<nat>)
    ensures forall j: nat :: j in s <==> lo <= j < hi
    ensures lo <= hi ==> |s| == hi - lo
    decreases hi
  {
    if hi <= lo then {} else Pages(lo, hi - 1) + {hi - 1}
  }

  /** The live allocation that starts at an address, or the number of live allocations. */
  function Find(p: Frames, live: seq<Run>, addr: nat): (k: nat)
    ensures k <= |live| && (k < |live| ==> PageAddr(p, live[k].first) == addr)
    ensures forall i | 0 <= i < k :: PageAddr(p, live[i].first) != addr
    decreases |live|
  {
    if live == [] then 0 else if PageAddr(p, live[0].first) == addr then 0 else 1 + Find(p, live[1..], addr)
  }

  function Remove(live: seq<Run>, k: nat): seq<Run>
    requires k < |live|
  {
    live[..k] + live[k + 1..]
  }

  /** An address returned by an allocation goes into the ledger ... */
  function Entered(p: Frames, g: Ledger, addr: nat, k: nat): Ledger {
    if addr < p.start || addr == 0 then g else g.(live := g.live + [Run(PageIndex(p, addr), k)])
  }

  /** ... and one given back is struck out, all its pages but the first being lost. */
  function Struck(p: Frames, g: Ledger, addr: nat): Ledger {
    var k := Find(p, g.live, addr);
    if k == |g.live| then g
    else
      var r := g.live[k];
      Ledger(Remove(g.live, k), g.leaked + Pages(r.first + 1, r.first + r.count))
  }

  /** The ledger after a call. */
  function Book(p: Frames, g: Ledger, c: Call): Ledger
    requires p.hint <= |p.used| && Allowed(p, c)
  {
    match c
    case Alloc => Entered(p, g, AllocPage(p).1, 1)
    case Malloc(size) => Entered(p, g, KMalloc(p, size).1, PagesNeeded(size))
    case Release(addr) => Struck(p, g, addr)
    case Mfree(ptr) => Struck(p, g, ptr)
  }

  /** A caller frees only what it holds; `kfree` may also be handed 0. */
  predicate Legal(p: Frames, g: Ledger, c: Call) {
    && Allowed(p, c)
    && (c.Release? ==> Find(p, g.live, c.addr) < |g.live|)
    && (c.Mfree? && c.ptr != 0 ==> Find(p, g.live, c.ptr) < |g.live|)
  }

  ghost predicate Disjoint(live: seq<Run>) {
    forall a: nat, b: nat, j: nat | a < b < |live| :: !(Holds(live[a], j) && Holds(live[b], j))
  }

  /** The live allocations are pairwise disjoint, a page is used exactly if it is live or lost, and
      the counter is the sum of both. */
  ghost predicate LedgerOK(p: Frames, g: Ledger) {
    && FramesOK(p)
    && Disjoint(g.live)
    && (forall k | 0 <= k < |g.live| :: RunOK(p, g.live[k]))
    && (forall j: nat :: !(InLive(g.live, j) && j in g.leaked))
    && (forall j: nat :: j < |p.used| && p.used[j] <==> InLive(g.live, j) || j in g.leaked)
    && p.usedPages == Total(g.live) + |g.leaked|
  }

  predicate RunOK(p: Frames, r: Run) {
    r.count > 0 && r.first + r.count <= |p.used| && PageAddr(p, r.first) != 0
  }

  // ---------------------------------------------------------------- one call

  lemma InLiveAdd(live: seq<Run>, r: Run, j: nat)
    ensures InLive(live + [r], j) <==> InLive(live, j) || Holds(r, j)
  {
    var l := live + [r];
    assert l[|live|] == r;
    if InLive(live, j) {
      var k :| 0 <= k < |live| && Holds(live[k], j);
      assert l[k] == live[k];
    }
  }

  lemma InLiveRemove(live: seq<Run>, k: nat, j: nat)
    requires k < |live| && Disjoint(live)
    ensures InLive(Remove(live, k), j) <==> InLive(live, j) && !Holds(live[k], j)
  {
    var l := Remove(live, k);
    if InLive(l, j) {
      var i :| 0 <= i < |l| && Holds(l[i], j);
      assert l[i] == live[if i < k then i else i + 1];
    }
    if InLive(live, j) && !Holds(live[k], j) {
      var i :| 0 <= i < |live| && Holds(live[i], j);
      assert i != k && l[if i < k then i else i - 1] == live[i];
    }
  }

  lemma RemoveDisjoint(live: seq<Run>, k: nat)
    requires k < |live| && Disjoint(live)
    ensures Disjoint(Remove(live, k))
  {
    var l := Remove(live, k);
    forall a: nat, b: nat, j: nat | a < b < |l| ensures !(Holds(l[a], j) && Holds(l[b], j)) {
      var a', b' := if a < k then a else a + 1, if b < k then b else b + 1;
      assert l[a] == live[a'] && l[b] == live[b'];
    }
  }

  lemma {:induction false} TotalRemove(live: seq<Run>, k: nat)
    requires k < |live|
    ensures Total(Remove(live, k)) == Total(live) - live[k].count
    decreases |live|
  {
    var n := |live| - 1;
    if k == n {
      assert Remove(live, k) == live[..n];
    } else {
      TotalRemove(live[..n], k);
      assert Remove(live, k)[..n - 1] == Remove(live[..n], k);
    }
  }

  /** What an allocation took is live afterwards, and was nobody's before. */
  lemma EnteredKeeps(p: Frames, q: Frames, g: Ledger, i: nat, k: nat)
    requires LedgerOK(p, g) && FramesOK(q) && Took(p, q, i, k) && k > 0 && PageAddr(p, i) != 0
    ensures LedgerOK(q, g.(live := g.live + [Run(i, k)]))
  {
    hide FramesOK, Available;
    var r := Run(i, k);
    var l := g.live + [r];
    forall j: nat ensures InLive(l, j) <==> InLive(g.live, j) || Holds(r, j) {
      InLiveAdd(g.live, r, j);
    }
    forall j: nat ensures Holds(r, j) ==> !InLive(g.live, j) && j !in g.leaked {
      assert Holds(r, j) ==> Free(p, j);
    }
    hide InLive;
    forall a: nat, b: nat, j: nat | a < b < |l| ensures !(Holds(l[a], j) && Holds(l[b], j)) {
      if b == |g.live| && Holds(l[a], j) {
        LiveAt(g.live, a, j);
      }
    }
    assert l[..|g.live|] == g.live;
  }

  lemma LiveAt(live: seq<Run>, a: nat, j: nat)
    requires a < |live| && Holds(live[a], j)
    ensures InLive(live, j)
  {
  }

  /** Freeing one live allocation gives its first page back and loses the others. */
  lemma StruckKeeps(p: Frames, g: Ledger, addr: nat)
    requires LedgerOK(p, g) && Find(p, g.live, addr) < |g.live|
    ensures LedgerOK(FreePage(p, addr), Struck(p, g, addr))
    ensures var r := g.live[Find(p, g.live, addr)];
            && FreePage(p, addr).usedPages == p.usedPages - 1
            && |Struck(p, g, addr).leaked| == |g.leaked| + r.count - 1
  {
    hide FreePage, FramesOK, LedgerOK, PageAddr, Remove, Find, Pages;
    var k := Find(p, g.live, addr);
    var r := g.live[k];
    LiveFreed(p, g, k);
    LiveNotLost(p, g, k);
    StruckOK(p, FreePage(p, addr), g, k);
  }

  /** q is p with one live allocation's first page given back. */
  lemma StruckOK(p: Frames, q: Frames, g: Ledger, k: nat)
    requires LedgerOK(p, g) && k < |g.live| && FramesOK(q) && |q.used| == |p.used| && q.start == p.start
    requires q.usedPages == p.usedPages - 1
    requires forall j: nat | j < |p.used| :: q.used[j] == (p.used[j] && j != g.live[k].first)
    ensures var r := g.live[k];
            LedgerOK(q, Ledger(Remove(g.live, k), g.leaked + Pages(r.first + 1, r.first + r.count)))
  {
    hide FramesOK, InLive, Disjoint, Total, PageAddr, RunOK, Remove, Pages, Holds;
    TotalRemove(g.live, k);
    RemoveDisjoint(g.live, k);
    LiveNotLost(p, g, k);
    StruckPages(p, g, k);
    SameRuns(p, q, g.live, k);
  }

  lemma LiveNotLost(p: Frames, g: Ledger, k: nat)
    requires LedgerOK(p, g) && k < |g.live|
    ensures var r := g.live[k]; r.count > 0 && g.leaked !! Pages(r.first + 1, r.first + r.count)
  {
    forall j: nat | Holds(g.live[k], j) ensures j !in g.leaked {
      LiveAt(g.live, k, j);
    }
  }

  /** The first page of a live allocation is used, and freeing it clears its bit alone. */
  lemma LiveFreed(p: Frames, g: Ledger, k: nat)
    requires LedgerOK(p, g) && k < |g.live|
    ensures var q, r := FreePage(p, PageAddr(p, g.live[k].first)), g.live[k];
            && FramesOK(q) && |q.used| == |p.used| && q.start == p.start && q.usedPages == p.usedPages - 1
            && forall j: nat | j < |p.used| :: q.used[j] == (p.used[j] && j != r.first)
  {
    var r := g.live[k];
    LiveAt(g.live, k, r.first);
    assert RunOK(p, r);
    PageIndexOf(p, r.first);
    FreeKeeps(p, PageAddr(p, r.first));
    assert p.used[r.first] && !FreePage(p, PageAddr(p, r.first)).used[r.first];
  }

  lemma SameRuns(p: Frames, q: Frames, live: seq<Run>, k: nat)
    requires k < |live| && forall i | 0 <= i < |live| :: RunOK(p, live[i])
    requires |q.used| == |p.used| && q.start == p.start
    ensures forall i | 0 <= i < |Remove(live, k)| :: RunOK(q, Remove(live, k)[i])
  {
    forall i | 0 <= i < |Remove(live, k)| ensures RunOK(q, Remove(live, k)[i]) {
      assert Remove(live, k)[i] == live[if i < k then i else i + 1];
    }
  }

  lemma StruckPages(p: Frames, g: Ledger, k: nat)
    requires LedgerOK(p, g) && k < |g.live|
    ensures var r, live := g.live[k], Remove(g.live, k);
            var leaked := g.leaked + Pages(r.first + 1, r.first + r.count);
            && (forall j: nat :: !(InLive(live, j) && j in leaked))
            && forall j: nat :: (InLive(live, j) || j in leaked <==> j < |p.used| && p.used[j] && j != r.first)
  {
    var r, live := g.live[k], Remove(g.live, k);
    forall j: nat ensures InLive(live, j) <==> InLive(g.live, j) && !Holds(r, j) {
      InLiveRemove(g.live, k, j);
    }
    forall j: nat | Holds(r, j) ensures InLive(g.live, j) {
      LiveAt(g.live, k, j);
    }
    hide FramesOK, InLive, Disjoint, Total;
  }

  /** One legal call keeps the ledger true. */
  lemma BookKeeps(p: Frames, g: Ledger, c: Call)
    requires LedgerOK(p, g) && Legal(p, g, c)
    ensures LedgerOK(Perform(p, c), Book(p, g, c))
  {
    hide LedgerOK, FramesOK, KMalloc, AllocPage, FreePage;
    FramesOf(p, g);
    match c
    case Alloc =>
      AllocKeeps(p, g);
    case Malloc(size) =>
      MallocKeeps(p, g, size);
    case Release(addr) =>
      StruckKeeps(p, g, addr);
    case Mfree(ptr) =>
      if ptr != 0 {
        Aligned(p, g, ptr);
        StruckKeeps(p, g, ptr);
      } else {
        NotAtZero(p, g);
      }
  }

  lemma FramesOf(p: Frames, g: Ledger)
    requires LedgerOK(p, g)
    ensures FramesOK(p)
  {
  }

  lemma AllocKeeps(p: Frames, g: Ledger)
    requires LedgerOK(p, g)
    ensures LedgerOK(AllocPage(p).0, Book(p, g, Alloc))
  {
    hide LedgerOK, FramesOK;
    FramesOf(p, g);
    AllocIsLowest(p);
    if AllocPage(p).1 != 0 {
      var i := AllocTakes(p);
      PageIndexOf(p, i);
      EnteredKeeps(p, AllocPage(p).0, g, i, 1);
    }
  }

  lemma MallocKeeps(p: Frames, g: Ledger, size: nat)
    requires LedgerOK(p, g) && SizeAllowed(size, |p.used|)
    ensures LedgerOK(KMalloc(p, size).0, Book(p, g, Malloc(size)))
  {
    FramesOf(p, g);
    if size > 0 {
      var i := KMallocTakes(p, size);
      hide LedgerOK, FramesOK, KMalloc;
      if KMalloc(p, size).1 != 0 {
        PageIndexOf(p, i);
        EnteredKeeps(p, KMalloc(p, size).0, g, i, PagesNeeded(size));
      }
    }
  }

  /** A live allocation starts at a page address, so aligning its pointer changes nothing. */
  lemma Aligned(p: Frames, g: Ledger, ptr: nat)
    requires LedgerOK(p, g) && Find(p, g.live, ptr) < |g.live|
    ensures AlignDown(ptr) == ptr
  {
  }

  lemma NotAtZero(p: Frames, g: Ledger)
    requires LedgerOK(p, g)
    ensures Find(p, g.live, 0) == |g.live|
  {
  }

  // ---------------------------------------------------------------- whole runs

  /** The ledger after a list of calls, by which `PerformAll` has changed the allocator. */
  function BookAll(p: Frames, g: Ledger, calls: seq<Call>): Ledger
    requires p.hint <= |p.used|
    decreases |calls|
  {
    if calls == [] then g
    else
      var q, h := PerformAll(p, calls[..|calls| - 1]), BookAll(p, g, calls[..|calls| - 1]);
      if Allowed(q, calls[|calls| - 1]) then Book(q, h, calls[|calls| - 1]) else h
  }

  /** Every call was legal when it was made. */
  predicate LegalRun(p: Frames, g: Ledger, calls: seq<Call>)
    requires p.hint <= |p.used|
    decreases |calls|
  {
    calls == [] || var before := calls[..|calls| - 1];
                   && LegalRun(p, g, before)
                   && Legal(PerformAll(p, before), BookAll(p, g, before), calls[|calls| - 1])
  }

  /** Over every legal run no two live allocations, of one page or of several, ever share a page;
      exactly the live and the lost pages are used; and the counter is the total of the live ones
      plus the pages lost. */
  lemma {:induction false} RunDisjoint(p: Frames, g: Ledger, calls: seq<Call>)
    requires LedgerOK(p, g) && LegalRun(p, g, calls)
    ensures LedgerOK(PerformAll(p, calls), BookAll(p, g, calls))
    decreases |calls|
  {
    if calls != [] {
      RunDisjoint(p, g, calls[..|calls| - 1]);
      hide LedgerOK, Book, Perform;
      BookKeeps(PerformAll(p, calls[..|calls| - 1]), BookAll(p, g, calls[..|calls| - 1]), calls[|calls| - 1]);
    }
  }

  /** The empty ledger is true of an allocator with no page used. */
  lemma EmptyLedger(p: Frames)
    requires FramesOK(p) && forall i | 0 <= i < |p.used| :: !p.used[i]
    ensures LedgerOK(p, Ledger([], {}))
  {
    CountNone(p.used);
  }
}
