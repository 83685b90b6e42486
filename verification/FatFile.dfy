/** An open file of the driver: one sector of write-back buffer and a position split into
    file sector, cursor, disk sector and sectors left in the cluster.  This module says which
    bytes such a record stands for, on values; the driver itself is in FatDriver. */
module FatFile {
  import opened Arithmetic
  import opened FatTable

  function ZeroBlock(): Block { seq(512, i => 0) }

  type Name11 = s: seq<Byte> | |s| == 11 witness seq(11, i => 0)
  type Stamps = s: seq<Byte> | |s| == 12 witness seq(12, i => 0)

  /** `FileS`: the flag bits are the booleans; `name` is filename and extension, `stamps` the
      bytes of the directory entry that hold times (and the reserved byte). */
  datatype FileS = FileS(
    open: bool, read: bool, write: bool, append: bool, dirty: bool, fsDirty: bool,
    buffer: Block, sector: int, cluster: nat, sectorsLeft: int, cursor: nat, error: nat,
    name: Name11, attributes: Byte, stamps: Stamps,
    size: nat, fullFirstCluster: nat, entrySector: nat, entryNumber: nat,
    parentCluster: nat, fileSector: nat)

  predicate IsDir(attributes: Byte) { attributes / 0x10 % 2 == 1 }

  function Pos(f: FileS): nat { f.fileSector * 512 + f.cursor }

  /** The block at number b, or zeroes for a number outside the disk. */
  function Blk(disk: Disk, b: int): Block { if 0 <= b < |disk| then disk[b] else ZeroBlock() }

  /** All clusters of `s` are usable and none comes twice: the shape of an allocated chain. */
  predicate Clusters(v: Volume, s: seq<nat>) {
    Distinct(s) && forall i | 0 <= i < |s| :: Usable(v, s[i])
  }

  /** Sector k of the file whose chain is `s` exists. */
  predicate InChain(v: Volume, s: seq<nat>, k: nat) { v.spc >= 1 && k / v.spc < |s| }

  /** Disk block that holds sector k of the file whose chain is `s`. */
  function SecAt(v: Volume, s: seq<nat>, k: nat): int
    requires InChain(v, s, k)
  {
    SectorOf(v, s[k / v.spc], k % v.spc)
  }

  /** n bytes fit into the chain. */
  predicate Room(v: Volume, s: seq<nat>, n: nat)
  {
    n == 0 || InChain(v, s, (n - 1) / 512)
  }

  /** The record's four position fields name sector k of chain s. */
  predicate AtSector(v: Volume, f: FileS, s: seq<nat>, k: nat)
  {
    && InChain(v, s, k)
    && f.cluster == s[k / v.spc]
    && f.sector == SecAt(v, s, k)
    && f.sectorsLeft == v.spc - 1 - k % v.spc
  }

  /** The record and the disk describe an open regular file with chain `s`.  A file that has no
      cluster yet lives in the buffer alone. */
  predicate FileOK(v: Volume, disk: Disk, f: FileS, s: seq<nat>) {
    && v.spc >= 1
    && f.cursor <= 512 && Pos(f) <= f.size
    && if s == [] then
         && f.fullFirstCluster == 0 && f.sector == 0 && f.cluster == 0 && f.fileSector == 0
         && f.sectorsLeft == 0 && f.size <= 512 && (f.size > 0 ==> f.dirty)
       else
         && f.fullFirstCluster == s[0]
         && Room(v, s, f.size)
         && AtSector(v, f, s, f.fileSector)
         && (!f.dirty ==> f.buffer == Blk(disk, f.sector))
  }

  /** Sector k of the file as the driver sees it: the buffer in front of the disk. */
  function SectorView(v: Volume, disk: Disk, f: FileS, s: seq<nat>, k: nat): Block
  {
    if k == f.fileSector then f.buffer
    else if InChain(v, s, k) then Blk(disk, SecAt(v, s, k))
    else ZeroBlock()
  }

  function ByteAt(v: Volume, disk: Disk, f: FileS, s: seq<nat>, q: nat): Byte {
    SectorView(v, disk, f, s, q / 512)[q % 512]
  }

  /** The byte sequence the open file stands for. */
  function Content(v: Volume, disk: Disk, f: FileS, s: seq<nat>): (c: seq<Byte>)
    ensures |c| == f.size
  {
    seq(f.size, q requires 0 <= q => ByteAt(v, disk, f, s, q))
  }

  // ---------------------------------------------------------------- arithmetic of positions

  lemma DivMonotone(a: nat, b: nat, m: nat)
    requires a <= b && m >= 1
    ensures a / m <= b / m
  {
    if a / m > b / m {
      MulMonotone(b / m + 1, a / m, m);
    }
  }

  /** Sector k + 1 is the next one of the cluster, or the first one of the next cluster. */
  lemma NextDivMod(k: nat, m: nat)
    requires m >= 1
    ensures k % m + 1 < m ==> (k + 1) / m == k / m && (k + 1) % m == k % m + 1
    ensures k % m + 1 == m ==> (k + 1) / m == k / m + 1 && (k + 1) % m == 0
  {
    var q, r := k / m, k % m;
    assert k + 1 == q * m + (r + 1);
    if r + 1 < m {
      DivMod(k + 1, m, q, r + 1);
    } else {
      assert (q + 1) * m == q * m + m;
      DivMod(k + 1, m, q + 1, 0);
    }
  }

  /** Cluster index and sector in the cluster of byte n, computed the two ways the driver does. */
  lemma ByteToCluster(n: nat, m: nat)
    requires m >= 1
    ensures n / (m * 512) == n / 512 / m
    ensures (n - n / (m * 512) * m * 512) / 512 == n / 512 % m
  {
    var k := n / 512;
    var q, r := k / m, k % m;
    assert n == (q * m + r) * 512 + n % 512;
    assert (q * m + r) * 512 == q * (m * 512) + r * 512;
    assert r * 512 + n % 512 < m * 512;
    DivMod(n, m * 512, q, r * 512 + n % 512);
    assert q * m * 512 == q * (m * 512);
  }

  lemma SecAtRange(v: Volume, s: seq<nat>, k: nat)
    requires VolumeOK(v) && Clusters(v, s) && InChain(v, s, k)
    ensures v.rootStart + v.rootLen <= SecAt(v, s, k) < v.blocks
    ensures 1 <= SecAt(v, s, k) && !InFat(v, SecAt(v, s, k))
  {
    SectorOfRange(v, s[k / v.spc], k % v.spc);
  }

  /** Different sectors of one file are different disk blocks. */
  lemma SecAtInjective(v: Volume, s: seq<nat>, k: nat, l: nat)
    requires Clusters(v, s) && InChain(v, s, k) && InChain(v, s, l)
    requires SecAt(v, s, k) == SecAt(v, s, l)
    ensures k == l
  {
    hide SectorOf;
    SectorOfInjective(v, s[k / v.spc], k % v.spc, s[l / v.spc], l % v.spc);
    SameQuotient(k, l, v.spc);
  }

  lemma SameQuotient(k: nat, l: nat, m: nat)
    requires m >= 1 && k / m == l / m && k % m == l % m
    ensures k == l
  {
  }

  /** Files on disjoint chains share no disk block. */
  lemma SecAtDisjoint(v: Volume, s: seq<nat>, t: seq<nat>, k: nat, l: nat)
    requires Disjoint(s, t) && InChain(v, s, k) && InChain(v, t, l)
    ensures SecAt(v, s, k) != SecAt(v, t, l)
  {
    if SecAt(v, s, k) == SecAt(v, t, l) {
      SectorOfInjective(v, s[k / v.spc], k % v.spc, t[l / v.spc], l % v.spc);
    }
  }

  // ---------------------------------------------------------------- what keeps the content

  /** The two disks agree on every data block of the chain. */
  ghost predicate SameData(v: Volume, d0: Disk, d1: Disk, s: seq<nat>)
  {
    forall k: nat | InChain(v, s, k) :: Blk(d1, SecAt(v, s, k)) == Blk(d0, SecAt(v, s, k))
  }

  /** A file is unaffected by whatever leaves its own data blocks alone. */
  lemma FileKept(v: Volume, d0: Disk, d1: Disk, f: FileS, s: seq<nat>)
    requires FileOK(v, d0, f, s) && SameData(v, d0, d1, s)
    ensures FileOK(v, d1, f, s) && Content(v, d1, f, s) == Content(v, d0, f, s)
  {
  }

  lemma OutsideKeepsData(v: Volume, disk: Disk, s: seq<nat>, b: nat, x: Block)
    requires HasFat(v, disk) && Clusters(v, s) && b < v.rootStart + v.rootLen
    ensures b < |disk| && SameData(v, disk, disk[b := x], s)
  {
    forall k: nat | InChain(v, s, k)
      ensures Blk(disk[b := x], SecAt(v, s, k)) == Blk(disk, SecAt(v, s, k))
    {
      SecAtRange(v, s, k);
    }
  }

  lemma DisjointKeepsData(v: Volume, disk: Disk, s: seq<nat>, t: seq<nat>, l: nat, x: Block)
    requires HasFat(v, disk) && Clusters(v, t) && Disjoint(s, t) && InChain(v, t, l)
    ensures 0 <= SecAt(v, t, l) < |disk| && SameData(v, disk, disk[SecAt(v, t, l) := x], s)
  {
    SecAtRange(v, t, l);
    forall k: nat | InChain(v, s, k)
      ensures Blk(disk[SecAt(v, t, l) := x], SecAt(v, s, k)) == Blk(disk, SecAt(v, s, k))
    {
      SecAtDisjoint(v, s, t, k, l);
    }
  }

  lemma EntryWriteKeepsData(v: Volume, disk: Disk, s: seq<nat>, c: nat, e: nat)
    requires HasFat(v, disk) && Clusters(v, s) && c < Entries(v)
    ensures SameData(v, disk, WriteEntry(v, disk, c, e), s)
  {
    hide StoreEntry, SameData, EntryBlock, EntryOffset, Entries, Clusters;
    EntryBlockInFat(v, c);
    EntryFits(v, c);
    OutsideKeepsData(v, disk, s, EntryBlock(v, c), StoreEntry(v, disk[EntryBlock(v, c)], EntryOffset(v, c), e));
  }

  lemma SameDataTrans(v: Volume, d0: Disk, d1: Disk, d2: Disk, s: seq<nat>)
    requires SameData(v, d0, d1, s) && SameData(v, d1, d2, s)
    ensures SameData(v, d0, d2, s)
  {
  }

  lemma SameContent(v: Volume, d0: Disk, f0: FileS, s0: seq<nat>, d1: Disk, f1: FileS, s1: seq<nat>)
    requires f0.size == f1.size
    requires forall k: nat | k * 512 < f0.size :: SectorView(v, d1, f1, s1, k) == SectorView(v, d0, f0, s0, k)
    ensures Content(v, d1, f1, s1) == Content(v, d0, f0, s0)
  {
    forall q | 0 <= q < f0.size
      ensures Content(v, d1, f1, s1)[q] == Content(v, d0, f0, s0)[q]
    {
      assert q / 512 * 512 < f0.size;
    }
  }

  // ---------------------------------------------------------------- flushing and stepping

  /** Writing the buffer back changes no byte of the file. */
  lemma FlushKeeps(v: Volume, disk: Disk, f: FileS, s: seq<nat>)
    requires HasFat(v, disk) && Clusters(v, s) && s != [] && FileOK(v, disk, f, s)
    ensures 0 <= f.sector < |disk|
    ensures var d := disk[f.sector := f.buffer];
            FileOK(v, d, f.(dirty := false), s)
            && Content(v, d, f.(dirty := false), s) == Content(v, disk, f, s)
  {
    SecAtRange(v, s, f.fileSector);
    var d, g := disk[f.sector := f.buffer], f.(dirty := false);
    forall k: nat | InChain(v, s, k)
      ensures SectorView(v, d, g, s, k) == SectorView(v, disk, f, s, k)
    {
      if SecAt(v, s, k) == f.sector {
        SecAtInjective(v, s, k, f.fileSector);
      }
    }
    forall k: nat | k * 512 < f.size ensures SectorView(v, d, g, s, k) == SectorView(v, disk, f, s, k) { }
    SameContent(v, disk, f, s, d, g, s);
  }

  /** The file record restarted at byte p: what seeking there from the first cluster, one sector
      after the other, arrives at. */
  function SeekTo(v: Volume, disk: Disk, f: FileS, s: seq<nat>, p: nat): FileS
    requires InChain(v, s, p / 512)
  {
    var k := p / 512;
    f.(fileSector := k, cursor := p % 512, cluster := s[k / v.spc], sector := SecAt(v, s, k),
       sectorsLeft := v.spc - 1 - k % v.spc, buffer := Blk(disk, SecAt(v, s, k)))
  }

  /** Moving the position of a clean file changes no byte of it. */
  lemma SeekKeeps(v: Volume, disk: Disk, f: FileS, s: seq<nat>, p: nat)
    requires s != [] && FileOK(v, disk, f, s) && !f.dirty
    requires InChain(v, s, p / 512) && p <= f.size
    ensures var g := SeekTo(v, disk, f, s, p);
            FileOK(v, disk, g, s) && Pos(g) == p && Content(v, disk, g, s) == Content(v, disk, f, s)
  {
    var g := SeekTo(v, disk, f, s, p);
    SameContent(v, disk, f, s, disk, g, s);
  }

  lemma InChainMonotone(v: Volume, s: seq<nat>, j: nat, k: nat)
    requires InChain(v, s, k) && j <= k
    ensures InChain(v, s, j)
  {
    DivMonotone(j, k, v.spc);
  }

  /** The record after moving on to sector k of chain s, which is in the buffer. */
  function Stepped(v: Volume, disk: Disk, f: FileS, s: seq<nat>, k: nat): FileS
    requires InChain(v, s, k)
  {
    f.(fileSector := f.fileSector + 1, cursor := 0, cluster := s[k / v.spc], sector := SecAt(v, s, k),
       sectorsLeft := v.spc - 1 - k % v.spc, buffer := Blk(disk, SecAt(v, s, k)))
  }

  /** A step overwrites the buffer. */
  lemma SteppedFrom(v: Volume, disk: Disk, f: FileS, g: FileS, s: seq<nat>, k: nat)
    requires InChain(v, s, k) && g == f.(buffer := g.buffer, fsDirty := g.fsDirty)
    ensures Stepped(v, disk, g, s, k) == Stepped(v, disk, f, s, k).(fsDirty := g.fsDirty)
    ensures g == f ==> Stepped(v, disk, g, s, k) == Stepped(v, disk, f, s, k)
    ensures g.fsDirty == f.fsDirty ==> Stepped(v, disk, g, s, k) == Stepped(v, disk, f, s, k)
    ensures Stepped(v, disk, g, s, k).fsDirty == g.fsDirty
  {
  }

  /** The next sector of the same cluster, as a position. */
  lemma StepInCluster(v: Volume, s: seq<nat>, k: nat)
    requires InChain(v, s, k) && v.spc - 1 - k % v.spc > 0
    ensures InChain(v, s, k + 1) && (k + 1) / v.spc == k / v.spc
    ensures SecAt(v, s, k + 1) == SecAt(v, s, k) + 1 && (k + 1) % v.spc == k % v.spc + 1
  {
    NextDivMod(k, v.spc);
  }

  /** From the last sector of a cluster the next sector is the first one of the next cluster. */
  lemma StepToCluster(v: Volume, s: seq<nat>, k: nat)
    requires InChain(v, s, k) && v.spc - 1 - k % v.spc == 0
    ensures (k + 1) / v.spc == k / v.spc + 1 && (k + 1) % v.spc == 0
    ensures InChain(v, s, k + 1) <==> k / v.spc + 1 < |s|
  {
    NextDivMod(k, v.spc);
  }

  /** Record f with the position and buffer of g. */
  function Moved(f: FileS, g: FileS): FileS {
    f.(sector := g.sector, cluster := g.cluster, sectorsLeft := g.sectorsLeft, cursor := g.cursor,
       fileSector := g.fileSector, buffer := g.buffer)
  }

  lemma SteppedMoves(v: Volume, disk: Disk, f: FileS, g: FileS, s: seq<nat>, k: nat)
    requires InChain(v, s, k) && g == Moved(f, g)
    ensures var h := Stepped(v, disk, g, s, k);
            h == Moved(f, h) && AtSector(v, h, s, k) && h.buffer == Blk(disk, h.sector) && h.sector == SecAt(v, s, k)
  {
  }

  lemma SelectedMoves(v: Volume, disk: Disk, f: FileS, g: FileS, s: seq<nat>)
    requires v.spc >= 1 && |s| >= 1
    requires g == f.(sector := SectorOf(v, s[0], 0), sectorsLeft := v.spc - 1, cluster := s[0], cursor := 0,
                     buffer := Blk(disk, SectorOf(v, s[0], 0)))
    ensures g == Moved(f, g) && AtSector(v, g, s, 0) && g.buffer == Blk(disk, g.sector) && g.sector == SecAt(v, s, 0)
  {
  }

  lemma MovedUpdate(f: FileS, g: FileS, sector: nat, number: nat)
    requires g == Moved(f, g)
    ensures var h := g.(entrySector := sector, entryNumber := number);
            h == Moved(f, h).(entrySector := sector, entryNumber := number)
  {
  }

  // ---------------------------------------------------------------- bytes at the position

  /** Sequence c with `data` written over it from position p on, growing c if need be. */
  function Overwrite(c: seq<Byte>, p: nat, data: seq<Byte>): seq<Byte>
    requires p <= |c|
  {
    c[..p] + data + (if p + |data| <= |c| then c[p + |data|..] else [])
  }

  lemma OverwriteSnoc(c: seq<Byte>, p: nat, data: seq<Byte>, b: Byte)
    requires p <= |c|
    ensures Overwrite(Overwrite(c, p, data), p + |data|, [b]) == Overwrite(c, p, data + [b])
  {
  }

  /** Overwriting replaces just the bytes from p on, and the sequence grows only as far as it has to. */
  lemma OverwriteBytes(c: seq<Byte>, p: nat, data: seq<Byte>)
    requires p <= |c|
    ensures |Overwrite(c, p, data)| == if p + |data| <= |c| then |c| else p + |data|
    ensures forall i | 0 <= i < |Overwrite(c, p, data)| ::
              Overwrite(c, p, data)[i] == if p <= i < p + |data| then data[i - p] else c[i]
  {
    forall i | 0 <= i < |Overwrite(c, p, data)|
      ensures Overwrite(c, p, data)[i] == if p <= i < p + |data| then data[i - p] else c[i]
    {
      if i >= p + |data| {
        assert c[p + |data|..][i - p - |data|] == c[i];
      }
    }
  }

  lemma OverwriteNothing(c: seq<Byte>, p: nat)
    requires p <= |c|
    ensures Overwrite(c, p, []) == c
  {
  }

  /** How many of `count` bytes from position p on a file of `size` bytes has. */
  function Rest(size: nat, p: nat, count: nat): int { if p + count <= size then count else size - p }

  lemma OverwriteReadBack(c: seq<Byte>, p: nat, data: seq<Byte>)
    requires p <= |c|
    ensures p + |data| <= |Overwrite(c, p, data)| && Overwrite(c, p, data)[p..p + |data|] == data
  {
  }

  /** The byte under the cursor is the byte of the file at the position. */
  lemma ByteUnderCursor(v: Volume, disk: Disk, f: FileS, s: seq<nat>)
    requires f.cursor < 512 && Pos(f) < f.size
    ensures Content(v, disk, f, s)[Pos(f)] == f.buffer[f.cursor]
  {
    assert Pos(f) / 512 == f.fileSector && Pos(f) % 512 == f.cursor;
  }

  /** The record after one byte of `fat_write`. */
  function Typed(f: FileS, b: Byte): FileS
    requires f.cursor < 512
  {
    f.(size := if Pos(f) == f.size then f.size + 1 else f.size,
       fsDirty := f.fsDirty || Pos(f) == f.size,
       buffer := f.buffer[f.cursor := b], cursor := f.cursor + 1, dirty := true)
  }

  lemma TypedOK(v: Volume, disk: Disk, f: FileS, s: seq<nat>, b: Byte)
    requires FileOK(v, disk, f, s) && f.cursor < 512
    ensures FileOK(v, disk, Typed(f, b), s)
    ensures Content(v, disk, Typed(f, b), s) == Overwrite(Content(v, disk, f, s), Pos(f), [b])
    ensures Pos(Typed(f, b)) == Pos(f) + 1
  {
    var g, c := Typed(f, b), Content(v, disk, f, s);
    assert Pos(f) / 512 == f.fileSector && Pos(f) % 512 == f.cursor;
    forall q | 0 <= q < g.size
      ensures Content(v, disk, g, s)[q] == Overwrite(c, Pos(f), [b])[q]
    {
      if q < Pos(f) || q > Pos(f) {
        assert q / 512 == f.fileSector ==> q % 512 != f.cursor;
        assert Content(v, disk, g, s)[q] == c[q];
      }
    }
  }

  // ---------------------------------------------------------------- the three ways to seek

  function Quotient(n: nat, m: nat): nat requires m >= 1 { n / m }

  /** Index, in the file's chain, of the cluster byte p lies in. */
  function ClusterOfByte(v: Volume, p: nat): nat
    requires v.spc >= 1
  {
    Quotient(p, v.spc * 512)
  }

  datatype Whence = SeekSet | SeekCur | SeekEnd

  /** The requested position as the driver's 32-bit unsigned value. */
  function Target(f: FileS, ptr: int, dir: Whence): nat {
    Unsigned32(match dir case SeekSet => ptr case SeekCur => Pos(f) + ptr case SeekEnd => f.size + ptr)
  }

  function Unsigned32(n: int): nat { n % 0x1_0000_0000 }

  /** Where a seek leads: counted from the start, the position or the end; below 0 it wraps. */
  lemma TargetNumbers(f: FileS, ptr: int, dir: Whence)
    ensures var n: int := if dir == SeekSet then ptr else if dir == SeekCur then f.fileSector * 512 + f.cursor + ptr
                          else f.size + ptr;
            && (0 <= n < 0x1_0000_0000 ==> Target(f, ptr, dir) == n)
            && (-0x1_0000_0000 <= n < 0 ==> Target(f, ptr, dir) == n + 0x1_0000_0000)
  {
  }

  lemma AtEnd(f: FileS)
    ensures Target(f, 0, SeekEnd) <= f.size && (f.size < 0x1_0000_0000 ==> Target(f, 0, SeekEnd) == f.size)
  {
  }

  /** Byte p lies within the first n clusters of a file. */
  predicate Within(v: Volume, n: nat, p: nat) { v.spc >= 1 && p / 512 / v.spc < n }

  lemma WithinIsInChain(v: Volume, s: seq<nat>, p: nat)
    ensures Within(v, |s|, p) <==> InChain(v, s, p / 512)
  {
  }

  /** A cursor that has rolled over stands at the start of the next sector. */
  lemma RollsOver(f: FileS)
    requires f.cursor <= 512
    ensures Pos(f) / 512 == if f.cursor == 512 then f.fileSector + 1 else f.fileSector
  {
  }

  /** Where n bytes fit, the sector of byte q below n is there. */
  lemma RoomAhead(v: Volume, s: seq<nat>, q: nat, n: nat)
    requires q < n
    ensures Room(v, s, n) ==> InChain(v, s, q / 512)
  {
    if Room(v, s, n) {
      InChainMonotone(v, s, q / 512, (n - 1) / 512);
    }
  }

  lemma AtSectorInChain(v: Volume, f: FileS, s: seq<nat>, k: nat)
    requires AtSector(v, f, s, k)
    ensures forall p: nat | p / 512 <= k :: Within(v, |s|, p)
  {
    forall p: nat | p / 512 <= k ensures Within(v, |s|, p) {
      InChainMonotone(v, s, p / 512, k);
    }
  }

  lemma WithinMore(v: Volume, n: nat, m: nat, p: nat)
    requires n <= m
    ensures Within(v, n, p) ==> Within(v, m, p)
  {
  }

  /** Seeking inside the sector in the buffer only moves the cursor. */
  lemma SeekInSector(v: Volume, disk: Disk, f: FileS, s: seq<nat>, p: nat)
    requires FileOK(v, disk, f, s) && s != [] && !f.dirty && p / 512 == f.fileSector
    ensures InChain(v, s, p / 512) && f.(cursor := p % 512) == SeekTo(v, disk, f, s, p)
  {
  }

  /** Seeking inside the cluster shifts sector and sectors-left by the sector distance. */
  lemma SeekInCluster(v: Volume, disk: Disk, f: FileS, s: seq<nat>, old_pos: nat, p: nat)
    requires FileOK(v, disk, f, s) && s != [] && old_pos / 512 == f.fileSector
    requires ClusterOfByte(v, p) == ClusterOfByte(v, old_pos)
    ensures InChain(v, s, p / 512)
    ensures var sec := f.sector + p / 512 - old_pos / 512;
            f.(fileSector := p / 512, sector := sec, sectorsLeft := f.sectorsLeft - p / 512 + old_pos / 512,
               cursor := p % 512, buffer := Blk(disk, sec)) == SeekTo(v, disk, f, s, p)
  {
    hide IsChain, HasFat, Blk, SectorOf;
    ByteToCluster(p, v.spc);
    ByteToCluster(old_pos, v.spc);
    SectorAdds(v, s[p / 512 / v.spc], p / 512 % v.spc, old_pos / 512 % v.spc);
    DivModAdds(p / 512, old_pos / 512, v.spc);
  }

  lemma SectorAdds(v: Volume, c: nat, i: nat, j: nat)
    ensures SectorOf(v, c, i) == SectorOf(v, c, j) + i - j
  {
  }

  lemma DivModAdds(k: nat, l: nat, m: nat)
    requires m >= 1 && k / m == l / m
    ensures k - l == k % m - l % m
  {
  }

  /** Seeking along the chain: from the cluster the walk arrives at, the rest is arithmetic. */
  lemma SeekFromStart(v: Volume, disk: Disk, f: FileS, s: seq<nat>, p: nat)
    requires InChain(v, s, p / 512)
    ensures var fc := ClusterOfByte(v, p);
            var sec := (p - fc * v.spc * 512) / 512;
            && fc < |s|
            && f.(cluster := s[fc], fileSector := p / 512, cursor := p % 512,
                  sector := s[fc] * v.spc + v.cluster0 + sec, sectorsLeft := v.spc - sec - 1,
                  buffer := Blk(disk, s[fc] * v.spc + v.cluster0 + sec)) == SeekTo(v, disk, f, s, p)
  {
    ByteToCluster(p, v.spc);
  }

  /** Record f with the cluster, buffer and marks a chain walk leaves. */
  function Drifted(f: FileS, g: FileS): FileS {
    f.(cluster := g.cluster, buffer := g.buffer, error := g.error, fsDirty := g.fsDirty)
  }

  /** The record at the first byte of sector k. */
  function AtStartOf(v: Volume, disk: Disk, f: FileS, s: seq<nat>, k: nat): FileS
    requires InChain(v, s, k)
  {
    Placed(disk, f, k, s[k / v.spc], SecAt(v, s, k), v.spc - 1 - k % v.spc)
  }

  /** The record at the start of a sector, its block loaded. */
  function Placed(disk: Disk, f: FileS, k: nat, c: nat, sector: int, left: int): FileS {
    f.(fileSector := k, cursor := 0, cluster := c, sector := sector, sectorsLeft := left, buffer := Blk(disk, sector))
  }

  lemma SeekToStart(v: Volume, disk: Disk, f: FileS, s: seq<nat>, k: nat)
    requires InChain(v, s, k)
    ensures k * 512 / 512 == k && SeekTo(v, disk, f, s, k * 512) == AtStartOf(v, disk, f, s, k)
  {
  }

  lemma DriftsNowhere(f: FileS)
    ensures f == Drifted(f, f)
  {
  }

  lemma DriftsOn(f: FileS, g: FileS, h: FileS)
    requires g == Drifted(f, g)
    requires h == g.(cluster := h.cluster, buffer := h.buffer, error := h.error, fsDirty := h.fsDirty)
    ensures h == Drifted(f, h) && h.write == f.write
    ensures h.entrySector == f.entrySector && h.entryNumber == f.entryNumber
  {
  }

  /** A position in the file never lies beyond the cluster after the last. */
  lemma SizeWithin(v: Volume, s: seq<nat>, size: nat, p: nat)
    requires v.spc >= 1 && |s| >= 1 && Room(v, s, size) && p <= size
    ensures ClusterOfByte(v, p) == p / 512 / v.spc <= |s|
  {
    ByteToCluster(p, v.spc);
    if p > 0 {
      var k := (p - 1) / 512;
      InChainMonotone(v, s, k, (size - 1) / 512);
      NextDivMod(k, v.spc);
      DivMonotone(p / 512, k + 1, v.spc);
    }
  }

  /** A size that fits into the chain, though the position at its end does not lie in it. */
  lemma EndsWithClusters(v: Volume, s: seq<nat>, size: nat)
    requires v.spc >= 1 && |s| >= 1 && Room(v, s, size) && !Within(v, |s|, size)
    ensures size == |s| * v.spc * 512 && size % 512 == 0 && ClusterOfByte(v, size) == |s|
  {
    SizeWithin(v, s, size, size);
    var n, k := |s| * v.spc, (size - 1) / 512;
    MulMonotone(k / v.spc + 1, |s|, v.spc);
    assert k == k / v.spc * v.spc + k % v.spc;
    assert k < n;
    var m := size / 512;
    assert m == m / v.spc * v.spc + m % v.spc;
    assert m >= n;
  }

  /** The block with `data` written over it from n on. */
  function Patched(b: Block, n: nat, data: seq<Byte>): Block
    requires n + |data| <= 512
  {
    b[..n] + data + b[n + |data|..]
  }

  lemma PatchedNothing(b: Block, n: nat)
    requires n <= 512
    ensures Patched(b, n, []) == b
  {
  }

  lemma PatchedNext(b: Block, n: nat, data: seq<Byte>, i: nat)
    requires i < |data| && n + i < 512
    ensures Patched(b, n, data[..i])[n + i := data[i]] == Patched(b, n, data[..i + 1])
  {
  }

  /** The sector after the last one of a cluster-aligned end. */
  lemma EndOfChainPos(v: Volume, s: seq<nat>, k: nat, p: nat)
    requires InChain(v, s, k) && !InChain(v, s, k + 1)
    requires p / 512 == k + 1
    ensures ClusterOfByte(v, p) == |s|
  {
    ByteToCluster(p, v.spc);
    NextDivMod(k, v.spc);
  }
}
