/** Four-level page tables on values: physical memory, the tables that live in it, and the partial
    map from virtual pages to frames they stand for. */
module PageSpec {
  import opened Arithmetic
  import opened FrameSpec
  import opened Wrappers

  // ---------------------------------------------------------------- physical memory

  type Table = s: seq<nat> | |s| == 512 witness seq(512, i => 0)
  type Page = s: seq<nat> | |s| == 4096 witness seq(4096, i => 0)

  /** A frame as it was last written: 512 words, or 4096 bytes. */
  datatype Frame = Words(words: Table) | Bytes(bytes: Page)

  type Memory = map<nat, Frame>

  function ZeroTable(): Table { seq(512, i => 0) }

  function FrameAt(mem: Memory, a: nat): Frame { if a in mem then mem[a] else Words(ZeroTable()) }

  function Pow256(k: nat): nat { if k == 0 then 1 else 256 * Pow256(k - 1) }

  lemma Pow256Positive(k: nat)
    ensures Pow256(k) >= 1
  {
  }

  function ByteOfWord(w: nat, k: nat): nat { Pow256Positive(k); w / Pow256(k) % 256 }

  function AsBytes(f: Frame): Page {
    match f
    case Words(w) => seq(4096, k requires 0 <= k < 4096 => ByteOfWord(w[k / 8], k % 8))
    case Bytes(b) => b
  }

  function WordOfBytes(b: Page, i: nat): nat
    requires i < 512
  {
    b[8 * i] + 0x100 * b[8 * i + 1] + 0x1_0000 * b[8 * i + 2] + 0x100_0000 * b[8 * i + 3]
    + 0x1_0000_0000 * b[8 * i + 4] + 0x100_0000_0000 * b[8 * i + 5]
    + 0x1_0000_0000_0000 * b[8 * i + 6] + 0x100_0000_0000_0000 * b[8 * i + 7]
  }

  function AsWords(f: Frame): Table {
    match f
    case Words(w) => w
    case Bytes(b) => seq(512, i requires 0 <= i < 512 => WordOfBytes(b, i))
  }

  // ---------------------------------------------------------------- the machine

  /** Allocator, memory, page-table root.  `slots` are the root entries whose subtrees are built of
      4 KiB pages alone (the boot code maps others with 2 MiB pages).  `tables` records the frames
      that serve as tables, each with the indices that lead to it from the root. */
  datatype Machine = Machine(frames: Frames, mem: Memory, root: nat, slots: set<nat>,
                             tables: map<nat, seq<nat>>, totalTables: nat)

  function Entry(m: Machine, t: nat, i: nat): nat
    requires i < 512
  {
    AsWords(FrameAt(m.mem, t))[i]
  }

  function SetEntry(m: Machine, t: nat, i: nat, e: nat): Machine
    requires i < 512
  {
    m.(mem := m.mem[t := Words(AsWords(FrameAt(m.mem, t))[i := e])])
  }

  predicate Present(e: nat) { e % 2 == 1 }

  /** `e & ~0xFFF`. */
  function FrameOf(e: nat): nat { AlignDown(e) }

  /** The entry for a table: present, writable, and user if asked. */
  function TableEntry(a: nat, user: bool): nat { a + 3 + (if user then 4 else 0) }

  /** Bitwise or. */
  function Or(a: nat, b: nat): nat {
    if a == 0 then b else 2 * Or(a / 2, b / 2) + (if a % 2 == 1 || b % 2 == 1 then 1 else 0)
  }

  /** The entry for a page. */
  function LeafEntry(paddr: nat, flags: nat): nat { Or(AlignDown(paddr), flags) }

  /** Where no bits meet, the or is the sum; s is the power of 2 that parts them. */
  lemma {:induction false} OrIsSum(a: nat, s: nat, f: nat)
    requires f < s && (exists n: nat :: IsPower(s, n))
    ensures Or(a * s, f) == a * s + f
    decreases s
  {
    var n: nat :| IsPower(s, n);
    if n > 0 {
      assert IsPower(s / 2, n - 1);
      assert a * s == 2 * (a * (s / 2));
      OrIsSum(a, s / 2, f / 2);
    } else {
      OrZero(a * s);
    }
  }

  /** s == 2^n. */
  predicate IsPower(s: nat, n: nat) { if n == 0 then s == 1 else s % 2 == 0 && IsPower(s / 2, n - 1) }

  lemma {:induction false} OrZero(a: nat)
    ensures Or(a, 0) == a
  {
    if a > 0 {
      OrZero(a / 2);
    }
  }

  // ---------------------------------------------------------------- paths

  /** The four indices of a virtual address, from the root down. */
  datatype Path = Path(a: nat, b: nat, c: nat, d: nat)

  predicate Indices(p: Path) { p.a < 512 && p.b < 512 && p.c < 512 && p.d < 512 }

  /** `get_page_indices`. */
  function PathOf(vaddr: nat): (p: Path)
    ensures Indices(p)
  {
    Path(vaddr / 0x80_0000_0000 % 512, vaddr / 0x4000_0000 % 512, vaddr / 0x20_0000 % 512, vaddr / 0x1000 % 512)
  }

  lemma Radix512(n: nat)
    ensures n % 0x10_0000_0000
         == (n / 0x800_0000 % 512) * 0x800_0000 + (n / 0x4_0000 % 512) * 0x4_0000 + (n / 512 % 512) * 512 + n % 512
  {
    var a, b, c := n / 512, n / 0x4_0000, n / 0x800_0000;
    assert a / 512 == b;
    assert b / 512 == c;
    assert c / 512 == n / 0x10_0000_0000;
    assert n == 512 * a + n % 512;
    assert a == 512 * b + a % 512;
    assert b == 512 * c + b % 512;
    assert c == 512 * (c / 512) + c % 512;
  }

  lemma PathDivisions(v: nat)
    ensures v / 0x80_0000_0000 == v / 0x1000 / 0x800_0000
    ensures v / 0x4000_0000 == v / 0x1000 / 0x4_0000
    ensures v / 0x20_0000 == v / 0x1000 / 512
  {
  }

  /** The two addresses have the same page number as far as the walk looks: 36 bits. */
  predicate SamePage(u: nat, v: nat) { u / 0x1000 % 0x10_0000_0000 == v / 0x1000 % 0x10_0000_0000 }

  /** Two addresses share their indices exactly if their page numbers agree in the low 36 bits: the
      walk looks at 48 address bits, so an address and the same address plus 2^48 are one page. */
  lemma SamePath(u: nat, v: nat)
    ensures PathOf(u) == PathOf(v) <==> SamePage(u, v)
  {
    PathDivisions(u);
    PathDivisions(v);
    Radix512(u / 0x1000);
    Radix512(v / 0x1000);
  }

  /** The four indices and the offset in the page are, in this order, the digits of the low 48 bits. */
  lemma PathIsAddress(v: nat)
    ensures var p := PathOf(v);
            v % 0x1_0000_0000_0000
            == p.a * 0x80_0000_0000 + p.b * 0x4000_0000 + p.c * 0x20_0000 + p.d * 0x1000 + v % 0x1000
  {
    PathDivisions(v);
    Radix512(v / 0x1000);
    OffsetApart(v);
    assert v / 0x1000 % 512 == PathOf(v).d;
  }

  /** The low 48 bits are 36 of the page number over 12 of the offset. */
  lemma OffsetApart(v: nat)
    ensures v % 0x1_0000_0000_0000 == v / 0x1000 % 0x10_0000_0000 * 0x1000 + v % 0x1000
  {
    var n := v / 0x1000;
    var q, r := n / 0x10_0000_0000, n % 0x10_0000_0000 * 0x1000 + v % 0x1000;
    assert n == q * 0x10_0000_0000 + n % 0x10_0000_0000;
    assert v == n * 0x1000 + v % 0x1000;
    DivMod(v, 0x1_0000_0000_0000, q, r);
  }

  // ---------------------------------------------------------------- walking

  function Child(m: Machine, t: nat, i: nat): Option<nat>
    requires i < 512
  {
    if Present(Entry(m, t, i)) then Some(FrameOf(Entry(m, t, i))) else None
  }

  /** The last-level table on the path, if the upper levels are present. */
  function LastTable(m: Machine, p: Path): Option<nat>
    requires Indices(p)
  {
    match Child(m, m.root, p.a)
    case None => None
    case Some(t3) =>
      match Child(m, t3, p.b)
      case None => None
      case Some(t2) => Child(m, t2, p.c)
  }

  /** The page's own entry; 0 if the walk does not get there. */
  function Leaf(m: Machine, p: Path): nat
    requires Indices(p)
  {
    match LastTable(m, p)
    case None => 0
    case Some(t1) => Entry(m, t1, p.d)
  }

  /** `paging_get_physical`; 0 for an unmapped page. */
  function GetPhysical(m: Machine, vaddr: nat): nat {
    var e := Leaf(m, PathOf(vaddr));
    if Present(e) then FrameOf(e) + vaddr % PAGE_SIZE else 0
  }

  // ---------------------------------------------------------------- the invariant

  /** Frame a is handed out. */
  predicate Owned(p: Frames, a: nat) {
    a % PAGE_SIZE == 0 && InMemory(p, a) && PageIndex(p, a) < |p.used| && p.used[PageIndex(p, a)]
  }

  /** Entry i of table t is one the walk may follow to another table. */
  predicate Tracked(m: Machine, t: nat, i: nat) {
    t in m.tables && |m.tables[t]| < 3 && i < 512 && (t == m.root ==> i in m.slots)
  }

  /** The tables form a tree: every followed entry leads to a table whose indices are its parent's
      plus the entry's own.  Since a frame has one sequence of indices, no two places in the tree
      share a frame.  All tables but the root are pages the allocator has handed out. */
  ghost predicate TreeOK(m: Machine) {
    && m.root in m.tables && m.tables[m.root] == []
    && !Available(m.frames.regions, m.root)
    && (forall t | t in m.tables ::
          |m.tables[t]| <= 3 && (t != m.root ==> t != 0 && m.tables[t] != [] && Owned(m.frames, t)))
    && (forall t, i: nat | Tracked(m, t, i) && Present(Entry(m, t, i)) ::
          FrameOf(Entry(m, t, i)) in m.tables && m.tables[FrameOf(Entry(m, t, i))] == m.tables[t] + [i])
  }

  ghost predicate MachineOK(m: Machine) { FramesOK(m.frames) && TreeOK(m) }

  /** Paths of the subtrees made of 4 KiB pages. */
  predicate Walkable(m: Machine, p: Path) { Indices(p) && p.a in m.slots }

  lemma LastTableInTree(m: Machine, p: Path)
    requires TreeOK(m) && Walkable(m, p)
    ensures LastTable(m, p).Some? ==>
              LastTable(m, p).value in m.tables && m.tables[LastTable(m, p).value] == [p.a, p.b, p.c]
  {
    if Child(m, m.root, p.a).Some? {
      assert Tracked(m, m.root, p.a);
      var t3 := Child(m, m.root, p.a).value;
      assert m.tables[t3] == [p.a];
      if Child(m, t3, p.b).Some? {
        assert Tracked(m, t3, p.b);
        var t2 := Child(m, t3, p.b).value;
        assert m.tables[t2] == [p.a, p.b];
        if Child(m, t2, p.c).Some? {
          assert Tracked(m, t2, p.c);
        }
      }
    }
  }

  // ---------------------------------------------------------------- allocation of tables

  /** `allocate_page_table`: a page from the allocator, cleared. */
  function AllocTable(m: Machine): (Machine, nat)
    requires m.frames.hint <= |m.frames.used|
  {
    var (p, a) := AllocPage(m.frames);
    if a == 0 then (m, 0) else (m.(frames := p, mem := m.mem[a := Words(ZeroTable())]), a)
  }

  /** The table entry i of table t leads to, allocated and linked if there is none yet; 0 if there
      is no page for it. */
  function EnsureTable(m: Machine, t: nat, i: nat, user: bool): (r: (Machine, nat))
    requires m.frames.hint <= |m.frames.used| && i < 512
    ensures r.0.frames.hint <= |r.0.frames.used|
  {
    if Present(Entry(m, t, i)) then (m, FrameOf(Entry(m, t, i)))
    else
      var (n, a) := AllocTable(m);
      if a == 0 then (m, 0)
      else
        var prefix := if t in m.tables then m.tables[t] else [];
        (SetEntry(n, t, i, TableEntry(a, user)).(tables := m.tables[a := prefix + [i]], totalTables := m.totalTables + 1), a)
  }

  /** n was reached from m by adding tables: nothing already handed out was taken back or written,
      except tables. */
  ghost predicate Grown(m: Machine, n: Machine) {
    && n.root == m.root && n.slots == m.slots && n.frames.start == m.frames.start
    && n.frames.regions == m.frames.regions && |n.frames.used| == |m.frames.used|
    && (forall t | t in m.tables :: t in n.tables && n.tables[t] == m.tables[t])
    && (forall a: nat | Owned(m.frames, a) :: Owned(n.frames, a))
    && (forall t | t in n.tables && t !in m.tables :: !Owned(m.frames, t) && Owned(n.frames, t))
    && (forall a: nat | Owned(m.frames, a) && a !in m.tables :: FrameAt(n.mem, a) == FrameAt(m.mem, a))
  }

  /** ... and no translation changed. */
  ghost predicate Extends(m: Machine, n: Machine) {
    Grown(m, n) && forall p: Path | Walkable(m, p) :: Leaf(n, p) == Leaf(m, p)
  }

  lemma ExtendsTrans(l: Machine, m: Machine, n: Machine)
    requires Extends(l, m) && Extends(m, n)
    ensures Extends(l, n)
  {
    hide Leaf, Owned, FrameAt, Indices;
    forall p: Path | Walkable(l, p) ensures Leaf(n, p) == Leaf(l, p) {
      assert Walkable(m, p);
    }
  }

  // ---------------------------------------------------------------- adding a table

  /** A page just handed out belonged to no one, and is not the root. */
  lemma FreshPage(m: Machine) returns (k: nat)
    requires MachineOK(m) && AllocPage(m.frames).1 != 0
    ensures var (p, a) := AllocPage(m.frames);
            && Free(m.frames, k) && a == PageAddr(m.frames, k) && p == Take(m.frames, k)
            && FramesOK(p) && !Owned(m.frames, a) && Owned(p, a)
            && a !in m.tables && a % PAGE_SIZE == 0
            && forall b: nat | Owned(m.frames, b) :: Owned(p, b)
  {
    AllocIsLowest(m.frames);
    k := AllocTakes(m.frames);
    PageIndexOf(m.frames, k);
  }

  lemma TableEntryFacts(a: nat, user: bool)
    requires a % PAGE_SIZE == 0
    ensures Present(TableEntry(a, user)) && FrameOf(TableEntry(a, user)) == a
  {
  }

  /** n is m with the cleared table a linked at entry i of table t: the entries, seen one by one. */
  ghost predicate Linked(m: Machine, n: Machine, t: nat, i: nat, a: nat) {
    && i < 512 && a != 0 && a !in m.tables && t in m.tables
    && (forall u: nat, j: nat | u in m.tables && j < 512 && !(u == t && j == i) :: Entry(n, u, j) == Entry(m, u, j))
    && (forall j: nat | j < 512 :: Entry(n, a, j) == 0)
    && !Present(Entry(m, t, i)) && Present(Entry(n, t, i)) && FrameOf(Entry(n, t, i)) == a
    && n.root == m.root && n.slots == m.slots && n.tables == m.tables[a := m.tables[t] + [i]]
  }

  lemma EnsureLinks(m: Machine, t: nat, i: nat, user: bool)
    requires MachineOK(m) && t in m.tables && i < 512 && !Present(Entry(m, t, i)) && AllocPage(m.frames).1 != 0
    ensures var (n, a) := EnsureTable(m, t, i, user);
            && a == AllocPage(m.frames).1 && n.frames == AllocPage(m.frames).0 && Linked(m, n, t, i, a)
            && Entry(n, t, i) == a + (if user then 7 else 3) && a % PAGE_SIZE == 0
            && forall b: nat | b != a && b !in m.tables :: FrameAt(n.mem, b) == FrameAt(m.mem, b)
  {
    hide FrameOf, Present, SetEntry, AllocPage, FramesOK, Owned, Free, Take;
    FramesHint(m);
    var k := FreshPage(m);
    var (n, a) := EnsureTable(m, t, i, user);
    TableEntryFacts(a, user);
    ClearedTable(m);
    EntryAfterSet(AllocTable(m).0, t, i, TableEntry(a, user));
  }

  lemma FramesHint(m: Machine)
    requires MachineOK(m)
    ensures m.frames.hint <= |m.frames.used|
  {
  }

  lemma ClearedTable(m: Machine)
    requires m.frames.hint <= |m.frames.used| && AllocPage(m.frames).1 != 0
    ensures var (n, a) := AllocTable(m);
            && a == AllocPage(m.frames).1 && n == m.(frames := AllocPage(m.frames).0, mem := n.mem)
            && (forall j: nat | j < 512 :: Entry(n, a, j) == 0)
            && (forall u: nat, j: nat | u != a && j < 512 :: Entry(n, u, j) == Entry(m, u, j))
            && forall b: nat | b != a :: FrameAt(n.mem, b) == FrameAt(m.mem, b)
  {
    hide AllocPage;
  }

  /** A new table hangs in the tree where it was linked ... */
  lemma LinkedTree(m: Machine, n: Machine, t: nat, i: nat, a: nat)
    requires TreeOK(m) && Linked(m, n, t, i, a) && |m.tables[t]| < 3
    requires n.frames.regions == m.frames.regions && Owned(n.frames, a)
    requires forall b: nat | Owned(m.frames, b) :: Owned(n.frames, b)
    ensures TreeOK(n)
  {
    hide Entry, Owned, FrameOf;
    forall u, j: nat | Tracked(n, u, j) && Present(Entry(n, u, j))
      ensures FrameOf(Entry(n, u, j)) in n.tables && n.tables[FrameOf(Entry(n, u, j))] == n.tables[u] + [j]
    {
      if u != a && !(u == t && j == i) {
        assert Tracked(m, u, j) && Entry(n, u, j) == Entry(m, u, j);
      }
    }
  }

  /** ... and, being empty, it changes no translation. */
  lemma LinkedLeaf(m: Machine, n: Machine, t: nat, i: nat, a: nat, p: Path)
    requires TreeOK(m) && Linked(m, n, t, i, a) && |m.tables[t]| < 3 && Walkable(m, p)
    ensures Leaf(n, p) == Leaf(m, p)
  {
    hide Entry, Owned, FrameOf;
    LastTableInTree(m, p);
    assert Tracked(m, m.root, p.a);
    if Child(m, m.root, p.a).Some? {
      var t3 := Child(m, m.root, p.a).value;
      assert Tracked(m, t3, p.b) && m.tables[t3] == [p.a];
      assert Child(n, n.root, p.a) == Some(t3);
      if Child(m, t3, p.b).Some? {
        var t2 := Child(m, t3, p.b).value;
        assert Tracked(m, t2, p.c) && m.tables[t2] == [p.a, p.b];
        assert Child(n, t3, p.b) == Some(t2);
        if Child(m, t2, p.c).None? {
          assert Child(n, t2, p.c).Some? ==> Child(n, t2, p.c).value == a;
        }
      } else {
        assert Child(n, t3, p.b).Some? ==> Child(n, t3, p.b).value == a;
      }
    } else {
      assert Child(n, n.root, p.a).Some? ==> Child(n, n.root, p.a).value == a;
    }
  }

  /** Getting or creating a table on the way down keeps everything; where it fails the allocator has
      no page left and nothing changed. */
  lemma EnsureKeeps(m: Machine, t: nat, i: nat, user: bool)
    requires MachineOK(m) && Tracked(m, t, i)
    ensures var (n, a) := EnsureTable(m, t, i, user);
            && MachineOK(n) && Extends(m, n)
            && (a == 0 ==> n == m && AllocPage(m.frames).1 == 0)
            && (a != 0 ==> Child(n, t, i) == Some(a) && a in n.tables && n.tables[a] == m.tables[t] + [i])
            && (a != 0 && !Present(Entry(m, t, i)) ==> Entry(n, t, i) == a + (if user then 7 else 3))
            && (forall b: nat | b !in n.tables :: FrameAt(n.mem, b) == FrameAt(m.mem, b))
            && n.totalTables - m.totalTables == |n.tables| - |m.tables|
  {
    var (n, a) := EnsureTable(m, t, i, user);
    if Present(Entry(m, t, i)) {
      assert FrameOf(Entry(m, t, i)) in m.tables;
    } else {
      if AllocPage(m.frames).1 != 0 {
        var k := FreshPage(m);
        EnsureLinks(m, t, i, user);
        hide EnsureTable, Owned, Leaf, Entry, FrameOf;
        LinkedTree(m, n, t, i, a);
        forall p: Path | Walkable(m, p) ensures Leaf(n, p) == Leaf(m, p) {
          LinkedLeaf(m, n, t, i, a, p);
        }
      }
    }
  }

  // ---------------------------------------------------------------- mapping and unmapping

  /** Bit 2 of the flags, `PAGE_USER`. */
  predicate IsUser(flags: nat) { flags / 4 % 2 == 1 }

  /** `paging_map_page`. */
  function MapPage(m: Machine, vaddr: nat, paddr: nat, flags: nat): (Machine, bool)
    requires m.frames.hint <= |m.frames.used|
  {
    var p, user := PathOf(vaddr), IsUser(flags);
    var (m1, t3) := EnsureTable(m, m.root, p.a, user);
    if t3 == 0 then (m1, false)
    else
      var (m2, t2) := EnsureTable(m1, t3, p.b, user);
      if t2 == 0 then (m2, false)
      else
        var (m3, t1) := EnsureTable(m2, t2, p.c, user);
        if t1 == 0 then (m3, false)
        else (SetEntry(m3, t1, p.d, LeafEntry(paddr, flags)), true)
  }

  /** `paging_unmap_page`: clears the page's own entry, if the walk gets there. */
  function UnmapPage(m: Machine, vaddr: nat): Machine {
    match LastTable(m, PathOf(vaddr))
    case None => m
    case Some(t1) => SetEntry(m, t1, PathOf(vaddr).d, 0)
  }

  /** The three levels of tables on a path, created as needed. */
  function EnsurePath(m: Machine, p: Path, user: bool): (Machine, nat)
    requires m.frames.hint <= |m.frames.used| && Indices(p)
  {
    var (m1, t3) := EnsureTable(m, m.root, p.a, user);
    if t3 == 0 then (m1, 0)
    else
      var (m2, t2) := EnsureTable(m1, t3, p.b, user);
      if t2 == 0 then (m2, 0)
      else EnsureTable(m2, t2, p.c, user)
  }

  /** Between m and n only tables were added or written, and each new table is counted. */
  ghost predicate OnlyTables(m: Machine, n: Machine) {
    && (forall b: nat | b !in n.tables :: FrameAt(n.mem, b) == FrameAt(m.mem, b))
    && n.totalTables - m.totalTables == |n.tables| - |m.tables|
  }

  lemma OnlyTablesTrans(l: Machine, m: Machine, n: Machine)
    requires OnlyTables(l, m) && OnlyTables(m, n) && Extends(m, n)
    ensures OnlyTables(l, n)
  {
    hide Leaf, Owned;
  }

  lemma ExtendsSelf(m: Machine)
    requires TreeOK(m)
    ensures Extends(m, m) && OnlyTables(m, m)
  {
    hide Leaf;
  }

  lemma EnsureStep(l: Machine, m: Machine, t: nat, i: nat, user: bool)
    requires MachineOK(m) && Extends(l, m) && OnlyTables(l, m) && Tracked(m, t, i)
    ensures var (n, a) := EnsureTable(m, t, i, user);
            && MachineOK(n) && Extends(m, n) && Extends(l, n) && OnlyTables(l, n)
            && (a == 0 ==> AllocPage(m.frames).1 == 0 && n == m)
            && (a != 0 ==> Child(n, t, i) == Some(a) && a in n.tables && n.tables[a] == m.tables[t] + [i])
  {
    var n := EnsureTable(m, t, i, user).0;
    EnsureKeeps(m, t, i, user);
    hide EnsureTable, MachineOK;
    ExtendsTrans(l, m, n);
    OnlyTablesTrans(l, m, n);
  }

  /** A link once made stays. */
  lemma ChildStays(m: Machine, n: Machine, t: nat, i: nat, j: nat, u: nat, user: bool)
    requires MachineOK(m) && t in m.tables && u in m.tables && Tracked(m, t, i) && Tracked(m, u, j)
    requires Child(m, t, i).Some? && EnsureTable(m, u, j, user).0 == n
    ensures Child(n, t, i) == Child(m, t, i)
  {
    if !Present(Entry(m, u, j)) && AllocPage(m.frames).1 != 0 {
      EnsureLinks(m, u, j, user);
      hide EnsureTable, Entry;
    }
  }

  lemma EnsurePathKeeps(m: Machine, p: Path, user: bool)
    requires MachineOK(m) && Walkable(m, p)
    ensures var (n, t1) := EnsurePath(m, p, user);
            && MachineOK(n) && Extends(m, n) && OnlyTables(m, n)
            && (t1 == 0 ==> AllocPage(n.frames).1 == 0)
            && (t1 != 0 ==> LastTable(n, p) == Some(t1) && t1 in n.tables && n.tables[t1] == [p.a, p.b, p.c])
  {
    hide Entry, Leaf, Owned, EnsureTable, Extends, OnlyTables;
    ExtendsSelf(m);
    ExtendsParts(m, m);
    EnsureStep(m, m, m.root, p.a, user);
    var (m1, t3) := EnsureTable(m, m.root, p.a, user);
    ExtendsParts(m, m1);
    if t3 != 0 {
      assert Tracked(m1, t3, p.b);
      EnsureStep(m, m1, t3, p.b, user);
      var (m2, t2) := EnsureTable(m1, t3, p.b, user);
      ExtendsParts(m1, m2);
      ChildStays(m1, m2, m1.root, p.a, p.b, t3, user);
      if t2 != 0 {
        assert Tracked(m2, t2, p.c) && Tracked(m2, t3, p.b);
        EnsureStep(m, m2, t2, p.c, user);
        var m3 := EnsureTable(m2, t2, p.c, user).0;
        ExtendsParts(m2, m3);
        ChildStays(m2, m3, m2.root, p.a, p.c, t2, user);
        ChildStays(m2, m3, t3, p.b, p.c, t2, user);
      }
    }
  }

  lemma ExtendsParts(m: Machine, n: Machine)
    requires Extends(m, n)
    ensures n.root == m.root && n.slots == m.slots
    ensures forall t | t in m.tables :: t in n.tables && n.tables[t] == m.tables[t]
  {
  }

  /** Writing a page's own entry changes that page's translation and no other. */
  lemma SetLeaf(m: Machine, p: Path, t1: nat, e: nat)
    requires TreeOK(m) && Walkable(m, p) && LastTable(m, p) == Some(t1)
    ensures var n := SetEntry(m, t1, p.d, e);
            && TreeOK(n) && Leaf(n, p) == e
            && (forall q: Path | Walkable(m, q) && q != p :: Leaf(n, q) == Leaf(m, q))
            && (forall b: nat | b != t1 :: FrameAt(n.mem, b) == FrameAt(m.mem, b))
  {
    var n := SetEntry(m, t1, p.d, e);
    LastTableInTree(m, p);
    EntryAfterSet(m, t1, p.d, e);
    hide Entry, SetEntry, Owned, FrameOf;
    LastLevelTree(m, n, t1, p.d);
    forall q: Path | Walkable(m, q) ensures LastTable(n, q) == LastTable(m, q) {
      SameWalk(m, n, q);
    }
    forall q: Path | Walkable(m, q) && q != p ensures Leaf(n, q) == Leaf(m, q) {
      LastTableInTree(m, q);
    }
  }

  lemma EntryAfterSet(m: Machine, t: nat, i: nat, e: nat)
    requires i < 512
    ensures var n := SetEntry(m, t, i, e);
            && n.(mem := m.mem) == m
            && (forall u: nat, j: nat | j < 512 :: Entry(n, u, j) == if u == t && j == i then e else Entry(m, u, j))
            && forall b: nat | b != t :: FrameAt(n.mem, b) == FrameAt(m.mem, b)
  {
  }

  lemma LastLevelTree(m: Machine, n: Machine, t: nat, i: nat)
    requires TreeOK(m) && t in m.tables && |m.tables[t]| == 3 && n.(mem := m.mem) == m
    requires forall u: nat, j: nat | j < 512 && !(u == t && j == i) :: Entry(n, u, j) == Entry(m, u, j)
    ensures TreeOK(n)
  {
    hide Entry, Owned, FrameOf;
    forall u, j: nat | Tracked(n, u, j) && Present(Entry(n, u, j))
      ensures FrameOf(Entry(n, u, j)) in n.tables && n.tables[FrameOf(Entry(n, u, j))] == n.tables[u] + [j]
    {
      assert Tracked(m, u, j) && Entry(n, u, j) == Entry(m, u, j);
    }
  }

  /** The upper levels of a walk look only at tables above the last level. */
  lemma SameWalk(m: Machine, n: Machine, q: Path)
    requires TreeOK(m) && Walkable(m, q) && n.root == m.root
    requires forall u, j: nat | j < 512 && u in m.tables && |m.tables[u]| < 3 :: Entry(n, u, j) == Entry(m, u, j)
    ensures LastTable(n, q) == LastTable(m, q)
  {
    hide Entry, Owned, FrameOf;
    if Child(m, m.root, q.a).Some? {
      assert Tracked(m, m.root, q.a);
      var t3 := Child(m, m.root, q.a).value;
      if Child(m, t3, q.b).Some? {
        assert Tracked(m, t3, q.b);
      }
    }
  }

  lemma MapViaPath(m: Machine, vaddr: nat, paddr: nat, flags: nat)
    requires m.frames.hint <= |m.frames.used|
    ensures var p := PathOf(vaddr);
            var (n, t1) := EnsurePath(m, p, IsUser(flags));
            MapPage(m, vaddr, paddr, flags)
            == if t1 == 0 then (n, false) else (SetEntry(n, t1, p.d, LeafEntry(paddr, flags)), true)
  {
    hide SetEntry, Entry, EnsureTable, PathOf;
  }

  /** `paging_map_page` sets exactly one page's entry and returns 1, or, when a table cannot be
      allocated on the way, returns 0 with no translation changed (and then no page is left).  Either
      way it writes nothing but tables, takes nothing back, and the tables remain a tree of distinct
      frames. */
  lemma MapsExactlyOne(m: Machine, vaddr: nat, paddr: nat, flags: nat)
    requires MachineOK(m) && Walkable(m, PathOf(vaddr))
    ensures var (n, ok) := MapPage(m, vaddr, paddr, flags);
            && MachineOK(n) && Grown(m, n)
            && (forall b: nat | b !in n.tables :: FrameAt(n.mem, b) == FrameAt(m.mem, b))
            && n.totalTables - m.totalTables == |n.tables| - |m.tables|
            && (forall q: Path | Walkable(m, q) && (q != PathOf(vaddr) || !ok) :: Leaf(n, q) == Leaf(m, q))
            && (ok ==> Leaf(n, PathOf(vaddr)) == LeafEntry(paddr, flags))
            && (!ok ==> AllocPage(n.frames).1 == 0)
  {
    var p := PathOf(vaddr);
    MapViaPath(m, vaddr, paddr, flags);
    EnsurePathKeeps(m, p, IsUser(flags));
    var (n, t1) := EnsurePath(m, p, IsUser(flags));
    hide PathOf, Leaf, Entry, LeafEntry, EnsurePath, MapPage, SetEntry, Owned, LastTable, Grown, TreeOK, FramesOK;
    ExtendsParts(m, n);
    if t1 != 0 {
      SetLeaf(n, p, t1, LeafEntry(paddr, flags));
      SetEntryFields(n, t1, p.d, LeafEntry(paddr, flags));
      GrownBySet(m, n, SetEntry(n, t1, p.d, LeafEntry(paddr, flags)), t1);
    }
  }

  /** The table links of n that are not in m: present, writable, and user exactly if asked. */
  ghost predicate LinksMarked(m: Machine, n: Machine, user: bool) {
    && n.root == m.root && n.slots == m.slots
    && (forall t | t in m.tables :: t in n.tables && n.tables[t] == m.tables[t])
    && (forall t: nat, i: nat | Tracked(m, t, i) && Present(Entry(m, t, i)) :: Entry(n, t, i) == Entry(m, t, i))
    && forall t: nat, i: nat | Tracked(n, t, i) && Present(Entry(n, t, i)) && !(t in m.tables && Present(Entry(m, t, i))) ::
         Entry(n, t, i) % 8 == if user then 7 else 3
  }

  lemma MarkedSelf(m: Machine, user: bool)
    ensures LinksMarked(m, m, user)
  {
    hide Entry;
  }

  lemma MarkedTrans(l: Machine, m: Machine, n: Machine, user: bool)
    requires LinksMarked(l, m, user) && LinksMarked(m, n, user)
    ensures LinksMarked(l, n, user)
  {
    hide Entry, Present;
    forall t: nat, i: nat | Tracked(l, t, i) && Present(Entry(l, t, i)) ensures Entry(n, t, i) == Entry(l, t, i) {
      assert Tracked(m, t, i);
    }
    forall t: nat, i: nat | Tracked(n, t, i) && Present(Entry(n, t, i)) && !(t in l.tables && Present(Entry(l, t, i)))
      ensures Entry(n, t, i) % 8 == if user then 7 else 3
    {
      if t in m.tables && Present(Entry(m, t, i)) {
        assert Tracked(m, t, i) && Entry(n, t, i) == Entry(m, t, i);
      }
    }
  }

  lemma LowBits(a: nat)
    requires a % PAGE_SIZE == 0
    ensures (a + 3) % 8 == 3 && (a + 7) % 8 == 7
  {
    var q := 512 * (a / 4096);
    assert a == q * 8;
    DivMod(a + 3, 8, q, 3);
    DivMod(a + 7, 8, q, 7);
  }

  lemma EnsureMarks(m: Machine, t: nat, i: nat, user: bool)
    requires MachineOK(m) && t in m.tables && i < 512
    ensures m.frames.hint <= |m.frames.used|
    ensures LinksMarked(m, EnsureTable(m, t, i, user).0, user)
  {
    FramesHint(m);
    MarkedSelf(m, user);
    if !Present(Entry(m, t, i)) && AllocPage(m.frames).1 != 0 {
      EnsureLinks(m, t, i, user);
      LowBits(AllocPage(m.frames).1);
      hide EnsureTable, Entry, FrameOf, MachineOK, AllocPage;
    }
  }

  lemma PathMarks(m: Machine, p: Path, user: bool)
    requires MachineOK(m) && Walkable(m, p)
    ensures m.frames.hint <= |m.frames.used|
    ensures LinksMarked(m, EnsurePath(m, p, user).0, user)
  {
    hide Entry, Leaf, Owned, EnsureTable, Extends, OnlyTables, LinksMarked, FramesOK;
    FramesHint(m);
    EnsureMarks(m, m.root, p.a, user);
    EnsureKeeps(m, m.root, p.a, user);
    var (m1, t3) := EnsureTable(m, m.root, p.a, user);
    ExtendsParts(m, m1);
    if t3 != 0 {
      EnsureMarks(m1, t3, p.b, user);
      EnsureKeeps(m1, t3, p.b, user);
      var (m2, t2) := EnsureTable(m1, t3, p.b, user);
      MarkedTrans(m, m1, m2, user);
      if t2 != 0 {
        EnsureMarks(m2, t2, p.c, user);
        MarkedTrans(m, m2, EnsureTable(m2, t2, p.c, user).0, user);
      }
    }
  }

  lemma SetMarks(m: Machine, t: nat, i: nat, e: nat, user: bool)
    requires t in m.tables && |m.tables[t]| == 3 && i < 512
    ensures LinksMarked(m, SetEntry(m, t, i, e), user)
  {
    EntryAfterSet(m, t, i, e);
    hide SetEntry, Entry;
  }

  /** The tables `paging_map_page` adds are present and writable, and open to user programs exactly if bit 2
      of the flags is set; links it finds stay as they are. */
  lemma MapsMarked(m: Machine, vaddr: nat, paddr: nat, flags: nat)
    requires MachineOK(m) && Walkable(m, PathOf(vaddr))
    ensures m.frames.hint <= |m.frames.used|
    ensures LinksMarked(m, MapPage(m, vaddr, paddr, flags).0, flags / 4 % 2 == 1)
  {
    hide PathOf, EnsurePath, MapPage, LinksMarked, LeafEntry, Leaf, LastTable, Extends, OnlyTables, SetEntry, TreeOK,
         FramesOK;
    var p, user := PathOf(vaddr), IsUser(flags);
    FramesHint(m);
    MapViaPath(m, vaddr, paddr, flags);
    EnsurePathKeeps(m, p, user);
    PathMarks(m, p, user);
    var (n, t1) := EnsurePath(m, p, user);
    if t1 != 0 {
      SetMarks(n, t1, p.d, LeafEntry(paddr, flags), user);
      MarkedTrans(m, n, SetEntry(n, t1, p.d, LeafEntry(paddr, flags)), user);
    }
  }

  lemma GrownBySet(m: Machine, n: Machine, n': Machine, t: nat)
    requires Grown(m, n) && t in n.tables && n'.(mem := n.mem) == n
    requires forall b: nat | b != t :: FrameAt(n'.mem, b) == FrameAt(n.mem, b)
    ensures Grown(m, n')
  {
    hide Owned, FrameAt;
  }

  lemma SetEntryFields(m: Machine, t: nat, i: nat, e: nat)
    requires i < 512
    ensures SetEntry(m, t, i, e).(mem := m.mem) == m
  {
  }

  /** `paging_unmap_page` clears exactly one page's entry and leaves the allocator and all memory but
      the last-level table alone. */
  lemma UnmapsExactlyOne(m: Machine, vaddr: nat)
    requires MachineOK(m) && Walkable(m, PathOf(vaddr))
    ensures var n := UnmapPage(m, vaddr);
            && MachineOK(n) && n.(mem := m.mem) == m
            && Leaf(n, PathOf(vaddr)) == 0
            && (forall q: Path | Walkable(m, q) && q != PathOf(vaddr) :: Leaf(n, q) == Leaf(m, q))
            && (forall b: nat | b !in m.tables :: FrameAt(n.mem, b) == FrameAt(m.mem, b))
  {
    var p := PathOf(vaddr);
    hide PathOf, Entry;
    LastTableInTree(m, p);
    match LastTable(m, p)
    case None =>
    case Some(t1) =>
      SetLeaf(m, p, t1, 0);
      SetEntryFields(m, t1, p.d, 0);
      hide SetEntry, Leaf;
  }

  /** Mapping in terms of addresses: with PRESENT and flags below 0x1000 the page reads back as the
      frame plus the offset in the page, and every address of another page reads as before. */
  lemma MapThenRead(m: Machine, vaddr: nat, paddr: nat, flags: nat, w: nat)
    requires MachineOK(m) && Walkable(m, PathOf(vaddr)) && Walkable(m, PathOf(w))
    requires flags < 0x1000 && flags % 2 == 1 && MapPage(m, vaddr, paddr, flags).1
    ensures GetPhysical(MapPage(m, vaddr, paddr, flags).0, w)
         == if SamePage(w, vaddr) then AlignDown(paddr) + w % PAGE_SIZE else GetPhysical(m, w)
  {
    hide MapPage, PathOf, Leaf, LastTable, LeafEntry, FrameOf, Present, Grown, MachineOK, FrameAt, SamePage;
    MapsExactlyOne(m, vaddr, paddr, flags);
    SamePath(w, vaddr);
    LeafEntryFacts(paddr, flags);
  }

  lemma LeafEntryFacts(paddr: nat, flags: nat)
    requires flags < 0x1000
    ensures Present(LeafEntry(paddr, flags)) <==> flags % 2 == 1
    ensures FrameOf(LeafEntry(paddr, flags)) == AlignDown(paddr)
  {
    hide LeafEntry, AlignDown;
    LeafIsSum(paddr, flags);
    SumParts(AlignDown(paddr), flags);
  }

  /** A page address plus flags comes apart again. */
  lemma SumParts(a: nat, flags: nat)
    requires a % PAGE_SIZE == 0 && flags < 0x1000
    ensures (a + flags) % 2 == flags % 2 && AlignDown(a + flags) == a
  {
    var q := a / PAGE_SIZE;
    assert a == 4096 * q;
    assert (4096 * q + flags) % 4096 == flags;
  }

  lemma LeafIsSum(paddr: nat, flags: nat)
    requires flags < 0x1000
    ensures LeafEntry(paddr, flags) == AlignDown(paddr) + flags && AlignDown(paddr) % PAGE_SIZE == 0
  {
    hide Or, IsPower;
    PageIsPower();
    assert AlignDown(paddr) == paddr / 4096 * 4096;
    OrIsSum(paddr / 4096, 4096, flags);
  }

  lemma PageIsPower()
    ensures exists n: nat :: IsPower(4096, n)
  {
    assert IsPower(8, 3);
    assert IsPower(64, 6);
    assert IsPower(512, 9);
    assert IsPower(4096, 12);
  }

  lemma UnmapThenRead(m: Machine, vaddr: nat, w: nat)
    requires MachineOK(m) && Walkable(m, PathOf(vaddr)) && Walkable(m, PathOf(w))
    ensures GetPhysical(UnmapPage(m, vaddr), w)
         == if SamePage(w, vaddr) then 0 else GetPhysical(m, w)
  {
    hide UnmapPage, PathOf, Leaf, LastTable, MachineOK, FrameAt, FrameOf, SamePage;
    UnmapsExactlyOne(m, vaddr);
    SamePath(w, vaddr);
  }
}
