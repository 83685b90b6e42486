/** What holds of the whole volume between driver calls, on values: the forest of chains, the place
    of directory entries, and the steps that keep both. */
module FatSystem {
  import opened FatTable
  import opened FatFile

  /** The disk after the first n clusters of the chain were freed one by one. */
  ghost function Freed(v: Volume, disk: Disk, s: seq<nat>, n: nat): Disk
    requires HasFat(v, disk) && IsChain(v, disk, s) && n <= |s|
  {
    ZeroAll(v, disk, s[..n])
  }

  lemma ZeroNone(v: Volume, disk: Disk, s: seq<nat>)
    requires HasFat(v, disk) && IsChain(v, disk, s)
    ensures |s| >= 1 && Freed(v, disk, s, 0) == disk
  {
  }

  lemma ChainInFat(v: Volume, disk: Disk, s: seq<nat>, n: nat)
    requires HasFat(v, disk) && IsChain(v, disk, s) && n < |s|
    ensures InFat(v, EntryBlock(v, s[n])) && EntryOffset(v, s[n]) + EntryLen(v) <= 512
  {
    hide Entry, EntryBlock;
    assert Usable(v, s[n]);
    EntryBlockInFat(v, s[n]);
    EntryFits(v, s[n]);
  }

  /** One round of freeing on the cached block is one step of the simple walk, and what it loads is
      the next cluster of the chain or, at its end, an end mark. */
  lemma FreeStep(v: Volume, disk0: Disk, s: seq<nat>, n: nat, disk: Disk, buf: Block)
    requires HasFat(v, disk0) && IsChain(v, disk0, s) && n < |s| && HasFat(v, disk)
    requires InFat(v, EntryBlock(v, s[n])) && EntryOffset(v, s[n]) + EntryLen(v) <= 512
    requires disk[EntryBlock(v, s[n]) := buf] == Freed(v, disk0, s, n)
    ensures var off := EntryOffset(v, s[n]);
            disk[EntryBlock(v, s[n]) := StoreEntry(v, buf, off, 0)] == Freed(v, disk0, s, n + 1)
            && (if n + 1 == |s| then LoadEntry(v, buf, off) >= Marker(v)
                else LoadEntry(v, buf, off) == s[n + 1] < Marker(v))
  {
    hide StoreEntry, LoadEntry, EntryBlock, EntryOffset;
    assert buf == Freed(v, disk0, s, n)[EntryBlock(v, s[n])];
    EntryAfterZeroAll(v, disk0, s[..n], s[n]);
    ChainAcyclic(v, disk0, s);
    assert s[n] !in s[..n];
    LastIffMarked(v, disk0, s, n);
    assert s[..n + 1][..n] == s[..n];
  }

  // ---------------------------------------------------------------- the volume

  /** The invariant of the FAT: the chains form a forest and free entries may be allocated. */
  predicate SystemOK(v: Volume, disk: Disk, chains: seq<seq<nat>>) {
    HasFat(v, disk) && |chains| >= 4 && Forest(v, disk, chains) && FreeOK(v, disk)
  }

  lemma ForestClusters(v: Volume, disk: Disk, chains: seq<seq<nat>>, k: nat)
    requires HasFat(v, disk) && Forest(v, disk, chains) && k < |chains|
    ensures Clusters(v, chains[k])
  {
    if chains[k] != [] {
      ChainAcyclic(v, disk, chains[k]);
    }
  }

  lemma SystemParts(v: Volume, disk: Disk, chains: seq<seq<nat>>)
    requires SystemOK(v, disk, chains)
    ensures HasFat(v, disk) && FreeOK(v, disk) && Forest(v, disk, chains) && |chains| >= 4
  {
  }

  /** What the FAT holds for cluster number n of owner o's chain. */
  lemma StandsIn(v: Volume, disk: Disk, chains: seq<seq<nat>>, o: nat, n: nat)
    requires SystemOK(v, disk, chains) && o < |chains| && n < |chains[o]|
    ensures var c := chains[o][n];
            && HasFat(v, disk) && FreeOK(v, disk) && c < Entries(v) && Usable(v, c)
            && EntryBlock(v, c) < |disk| && EntryOffset(v, c) + EntryLen(v) <= 512
            && (if n + 1 < |chains[o]| then
                  Usable(v, chains[o][n + 1]) && Entry(v, disk, c) == chains[o][n + 1] < Marker(v)
                else Entry(v, disk, c) >= Marker(v))
  {
    ChainInFat(v, disk, chains[o], n);
    LastIffMarked(v, disk, chains[o], n);
  }

  /** Sector k of owner o's chain is disk block b. */
  predicate Holds(v: Volume, chains: seq<seq<nat>>, o: nat, k: nat, b: int) {
    o < |chains| && InChain(v, chains[o], k) && SecAt(v, chains[o], k) == b
  }

  /** Block b belongs to a directory: the fixed FAT16 root, or a chain whose owner is no open file. */
  ghost predicate DirBlock(v: Volume, chains: seq<seq<nat>>, b: nat) {
    || v.rootStart <= b < v.rootStart + v.rootLen
    || exists o: nat, k: nat :: 4 <= o && Holds(v, chains, o, k, b)
  }

  /** A write to a directory block touches neither the FAT nor any open file's data. */
  lemma DirWriteKeeps(v: Volume, disk: Disk, chains: seq<seq<nat>>, b: nat, x: Block)
    requires SystemOK(v, disk, chains) && DirBlock(v, chains, b)
    ensures 1 <= b < |disk| && !InFat(v, b)
    ensures SystemOK(v, disk[b := x], chains) && DataKept(v, disk, disk[b := x], chains)
  {
    if !(v.rootStart <= b < v.rootStart + v.rootLen) {
      var o: nat, k: nat :| 4 <= o && Holds(v, chains, o, k, b);
      ForestClusters(v, disk, chains, o);
      SecAtRange(v, chains[o], k);
      forall j: nat | j < 4 ensures SameData(v, disk, disk[b := x], chains[j]) {
        DisjointKeepsData(v, disk, chains[j], chains[o], k, x);
      }
    } else {
      forall j: nat | j < 4 ensures SameData(v, disk, disk[b := x], chains[j]) {
        ForestClusters(v, disk, chains, j);
        OutsideKeepsData(v, disk, chains[j], b, x);
      }
    }
    OutsideFatKeepsSystem(v, disk, chains, b, x);
  }

  lemma OutsideFatKeepsSystem(v: Volume, disk: Disk, chains: seq<seq<nat>>, b: nat, x: Block)
    requires SystemOK(v, disk, chains) && b < |disk| && !InFat(v, b)
    ensures SystemOK(v, disk[b := x], chains)
  {
    var d := disk[b := x];
    SameFatSameEntries(v, disk, d);
    hide Entry;
  }

  /** Appending a cluster to an open file's chain moves no directory block. */
  lemma DirBlockStays(v: Volume, chains: seq<seq<nat>>, fd: nat, s: seq<nat>, b: nat)
    requires fd < 4 <= |chains| && DirBlock(v, chains, b)
    ensures DirBlock(v, chains[fd := s], b)
  {
    if !(v.rootStart <= b < v.rootStart + v.rootLen) {
      var o: nat, k: nat :| 4 <= o && Holds(v, chains, o, k, b);
      assert Holds(v, chains[fd := s], o, k, b);
    }
  }

  // ---------------------------------------------------------------- directory entries

  /** The disk with block b replaced, if there is such a block. */
  function SetBlk(disk: Disk, b: int, x: Block): Disk { if 0 <= b < |disk| then disk[b := x] else disk }

  /** The disk once the record's buffer is written back if it is dirty. */
  function Flushed(disk: Disk, f: FileS): Disk { if f.dirty then SetBlk(disk, f.sector, f.buffer) else disk }

  type DirEntry = s: seq<Byte> | |s| == 32 witness seq(32, i => 0)

  /** The 32 bytes of the directory entry for the file record. */
  function Dirent(f: FileS): DirEntry {
    f.name + [f.attributes] + f.stamps[..8]
    + [f.fullFirstCluster / 0x1_0000 % 0x100, f.fullFirstCluster / 0x100_0000 % 0x100]
    + f.stamps[8..]
    + [f.fullFirstCluster % 0x100, f.fullFirstCluster / 0x100 % 0x100]
    + [f.size % 0x100, f.size / 0x100 % 0x100, f.size / 0x1_0000 % 0x100, f.size / 0x100_0000 % 0x100]
  }

  function DirentAt(b: Block, n: nat): DirEntry
    requires n < 16
  {
    b[n * 32..n * 32 + 32]
  }

  /** The block with its entry n replaced. */
  function PutDirent(b: Block, n: nat, f: FileS): Block
    requires n < 16
  {
    b[..n * 32] + Dirent(f) + b[n * 32 + 32..]
  }

  /** Saving a directory entry stores it in its slot and leaves the 15 others of the block alone. */
  lemma DirentStored(b: Block, n: nat, f: FileS, m: nat)
    requires n < 16 && m < 16
    ensures DirentAt(PutDirent(b, n, f), m) == if m == n then Dirent(f) else DirentAt(b, m)
  {
    hide Dirent;
    var d: seq<Byte> := Dirent(f);
    if m == n {
      MiddleSlice(b[..n * 32], d, b[n * 32 + 32..]);
    } else if m < n {
      SliceBefore(b, d, n * 32, m * 32);
    } else {
      SliceBehind(b, d, n * 32, m * 32);
    }
  }

  lemma MiddleSlice(a: seq<Byte>, d: seq<Byte>, c: seq<Byte>)
    ensures (a + d + c)[|a|..|a| + |d|] == d
  {
  }

  /** The 32 bytes from i on of b with the 32 bytes from n on replaced: i before n ... */
  lemma SliceBefore(b: seq<Byte>, d: seq<Byte>, n: nat, i: nat)
    requires i + 32 <= n && n + 32 <= |b| && |d| == 32
    ensures (b[..n] + d + b[n + 32..])[i..i + 32] == b[i..i + 32]
  {
  }

  /** ... and i behind. */
  lemma SliceBehind(b: seq<Byte>, d: seq<Byte>, n: nat, i: nat)
    requires n + 32 <= i && i + 32 <= |b| && |d| == 32
    ensures (b[..n] + d + b[n + 32..])[i..i + 32] == b[i..i + 32]
  {
    var a, c := b[..n] + d, b[n + 32..];
    assert (a + c)[i..i + 32] == c[i - n - 32..i - n];
  }

  /** First cluster and size as a lookup reads them from an entry (FAT32). */
  function EntryCluster(e: DirEntry): nat {
    var b26: int, b27: int, b20: int, b21: int := e[26], e[27], e[20], e[21];
    b26 + 0x100 * b27 + 0x1_0000 * (b20 + 0x100 * b21)
  }

  function EntrySize(e: DirEntry): nat {
    var b0: int, b1: int, b2: int, b3: int := e[28], e[29], e[30], e[31];
    b0 + 0x100 * b1 + 0x1_0000 * b2 + 0x100_0000 * b3
  }

  /** What is where in the 32 bytes: name and attributes, then the times, around the upper half of the first
      cluster, then its lower half and the length, least byte first. */
  lemma DirentBytes(f: FileS)
    ensures var e := Dirent(f);
            && e[..11] == f.name && e[11] == f.attributes && e[12..20] == f.stamps[..8] && e[22..26] == f.stamps[8..]
            && e[20] == f.fullFirstCluster / 0x1_0000 % 0x100 && e[21] == f.fullFirstCluster / 0x100_0000 % 0x100
            && e[26] == f.fullFirstCluster % 0x100 && e[27] == f.fullFirstCluster / 0x100 % 0x100
            && e[28] == f.size % 0x100 && e[29] == f.size / 0x100 % 0x100
            && e[30] == f.size / 0x1_0000 % 0x100 && e[31] == f.size / 0x100_0000 % 0x100
  {
  }

  /** Name, attributes, first cluster and size survive the round trip through the entry. */
  lemma DirentRoundTrip(f: FileS)
    requires f.fullFirstCluster < 0x1_0000_0000 && f.size < 0x1_0000_0000
    ensures Dirent(f)[..11] == f.name && Dirent(f)[11] == f.attributes
    ensures EntryCluster(Dirent(f)) == f.fullFirstCluster && EntrySize(Dirent(f)) == f.size
  {
    DirentFields(f);
    hide Dirent, EntryCluster, EntrySize;
  }

  predicate FreeSlot(b: Block, n: nat) { n < 16 && b[n * 32] == 0 }

  predicate HasSlot(b: Block) { exists n | 0 <= n < 16 :: FreeSlot(b, n) }

  predicate FirstInBlock(b: Block, n: nat) { FreeSlot(b, n) && forall m | 0 <= m < n :: !FreeSlot(b, m) }

  /** Slot `number` of sector k of owner o's chain, a directory that starts at cluster `parent`, is its
      first free one. */
  ghost predicate FirstSlot(v: Volume, disk: Disk, chains: seq<seq<nat>>, parent: nat, o: nat, k: nat, number: nat) {
    && 4 <= o < |chains| && InChain(v, chains[o], k) && chains[o][0] == parent
    && FirstInBlock(Blk(disk, SecAt(v, chains[o], k)), number)
    && forall j: nat | j < k && InChain(v, chains[o], j) :: !HasSlot(Blk(disk, SecAt(v, chains[o], j)))
  }

  /** Slot `number` of block `sector` is the first free one of the directory at cluster `parent`. */
  ghost predicate FirstSlotOf(v: Volume, disk: Disk, chains: seq<seq<nat>>, parent: nat, sector: nat, number: nat) {
    exists o: nat, k: nat :: FirstSlot(v, disk, chains, parent, o, k, number) && SecAt(v, chains[o], k) == sector
  }

  /** What keeps the data of the directory keeps its first free slot. */
  lemma FirstSlotKept(v: Volume, d0: Disk, cs0: seq<seq<nat>>, d1: Disk, cs1: seq<seq<nat>>, parent: nat, sector: nat, number: nat)
    requires FirstSlotOf(v, d1, cs1, parent, sector, number) && |cs0| == |cs1|
    requires forall o: nat | 4 <= o < |cs0| :: cs0[o] == cs1[o] && SameData(v, d0, d1, cs0[o])
    ensures FirstSlotOf(v, d0, cs0, parent, sector, number)
  {
    hide HasSlot, FreeSlot;
    var o: nat, k: nat :| FirstSlot(v, d1, cs1, parent, o, k, number) && SecAt(v, cs1[o], k) == sector;
    assert SameData(v, d0, d1, cs0[o]);
    assert FirstSlot(v, d0, cs0, parent, o, k, number);
  }

  /** The directory that starts at cluster `parent` is owner o's chain, with a free slot in sector k. */
  predicate SlotIn(v: Volume, disk: Disk, chains: seq<seq<nat>>, parent: nat, o: nat, k: nat) {
    && 4 <= o < |chains| && InChain(v, chains[o], k)
    && chains[o][0] == parent && HasSlot(Blk(disk, SecAt(v, chains[o], k)))
  }

  ghost predicate ParentHasSlot(v: Volume, disk: Disk, chains: seq<seq<nat>>, parent: nat) {
    exists o: nat, k: nat :: SlotIn(v, disk, chains, parent, o, k)
  }

  /** The record needs no directory entry: it is the root, it was opened for reading a name that
      does not exist, or it has no cluster yet. */
  predicate SkipsEntry(v: Volume, f: FileS) {
    f.fullFirstCluster == v.rootCluster || (f.entrySector == 0 && !f.write) || f.fullFirstCluster == 0
  }

  /** The record's directory entry can be saved: in the slot it has, or in a free one of its parent. */
  ghost predicate CanSaveEntry(v: Volume, disk: Disk, chains: seq<seq<nat>>, f: FileS) {
    || SavedEntry(v, chains, f.entrySector, f.entryNumber)
    || (f.entrySector == 0 && (SkipsEntry(v, f) || ParentHasSlot(v, disk, chains, f.parentCluster)))
  }

  /** Slot `number` of block `sector` is a directory entry. */
  ghost predicate SavedEntry(v: Volume, chains: seq<seq<nat>>, sector: nat, number: nat) {
    sector != 0 && DirBlock(v, chains, sector) && number < 16
  }

  /** The two disks agree on the data of all open files. */
  ghost predicate DataKept(v: Volume, d0: Disk, d1: Disk, chains: seq<seq<nat>>) {
    forall j: nat | j < 4 && j < |chains| :: SameData(v, d0, d1, chains[j])
  }

  lemma DataKeptSame(v: Volume, disk: Disk, chains: seq<seq<nat>>)
    ensures DataKept(v, disk, disk, chains)
  {
  }

  lemma DataKeptTrans(v: Volume, d0: Disk, d1: Disk, d2: Disk, chains: seq<seq<nat>>)
    requires DataKept(v, d0, d1, chains) && DataKept(v, d1, d2, chains)
    ensures DataKept(v, d0, d2, chains)
  {
    forall j: nat | j < 4 && j < |chains| ensures SameData(v, d0, d2, chains[j]) {
      SameDataTrans(v, d0, d1, d2, chains[j]);
    }
  }

  /** A prefix of a chain has no more data than the chain. */
  lemma DataKeptPrefix(v: Volume, d0: Disk, d1: Disk, chains: seq<seq<nat>>, k: nat, c: nat)
    requires k < |chains| && DataKept(v, d0, d1, chains[k := chains[k] + [c]])
    ensures DataKept(v, d0, d1, chains)
  {
    var t := chains[k] + [c];
    if k < 4 {
      assert SameData(v, d0, d1, chains[k := t][k]);
      forall i: nat | InChain(v, chains[k], i)
        ensures Blk(d1, SecAt(v, chains[k], i)) == Blk(d0, SecAt(v, chains[k], i))
      {
        assert InChain(v, t, i) && SecAt(v, t, i) == SecAt(v, chains[k], i);
      }
    }
    forall j: nat | j < 4 && j < |chains| && j != k ensures SameData(v, d0, d1, chains[j]) {
      assert SameData(v, d0, d1, chains[k := t][j]);
    }
  }

  // ---------------------------------------------------------------- entries on the disk

  /** The slot of the record holds the record's own directory entry. */
  predicate EntryOnDisk(disk: Disk, f: FileS) {
    f.entrySector != 0 && f.entryNumber < 16 && DirentAt(Blk(disk, f.entrySector), f.entryNumber) == Dirent(f)
  }

  /** The directory knows of the file what the record says, or the record is marked as changed, or it needs
      no entry. */
  predicate Recorded(v: Volume, disk: Disk, f: FileS) { f.fsDirty || SkipsEntry(v, f) || EntryOnDisk(disk, f) }

  /** Slot n of block b holds an entry. */
  predicate Taken(disk: Disk, b: nat, n: nat) { n < 16 && Blk(disk, b)[n * 32] != 0 }

  predicate IsSlotOf(f: FileS, b: nat, n: nat) { f.entrySector == b && f.entryNumber == n }

  /** From record f to g of one file the entries of all others stay, and g is at none of their slots. */
  ghost predicate SlotsKept(v: Volume, d0: Disk, d1: Disk, chains: seq<seq<nat>>, f: FileS, g: FileS) {
    forall b: nat, n: nat | DirBlock(v, chains, b) && Taken(d0, b, n) && !IsSlotOf(f, b, n) ::
      DirentAt(Blk(d1, b), n) == DirentAt(Blk(d0, b), n) && !IsSlotOf(g, b, n)
  }

  /** The file has a name, and its slot, if it has one, holds an entry. */
  predicate Occupies(disk: Disk, f: FileS) {
    f.name[0] != 0 && (f.entrySector != 0 ==> Taken(disk, f.entrySector, f.entryNumber))
  }

  /** ... and the file's own stays as good as it was. */
  ghost predicate EntriesKept(v: Volume, d0: Disk, d1: Disk, chains: seq<seq<nat>>, f: FileS, g: FileS) {
    && SlotsKept(v, d0, d1, chains, f, g)
    && (Recorded(v, d0, f) ==> Recorded(v, d1, g)) && (Occupies(d0, f) ==> Occupies(d1, g))
  }

  /** All directory blocks are as they were. */
  ghost predicate DirsKept(v: Volume, d0: Disk, d1: Disk, chains: seq<seq<nat>>) {
    forall b: nat | DirBlock(v, chains, b) :: Blk(d1, b) == Blk(d0, b)
  }

  /** What a directory entry says of the record has not changed. */
  predicate SameEntry(f: FileS, g: FileS) {
    && g.name == f.name && g.attributes == f.attributes && g.stamps == f.stamps && g.size == f.size
    && g.fullFirstCluster == f.fullFirstCluster && g.write == f.write
    && g.entrySector == f.entrySector && g.entryNumber == f.entryNumber && (f.fsDirty ==> g.fsDirty)
  }

  lemma EntriesFromDirs(v: Volume, d0: Disk, d1: Disk, chains: seq<seq<nat>>, f: FileS, g: FileS)
    requires DirsKept(v, d0, d1, chains) && SameEntry(f, g)
    requires f.entrySector != 0 ==> SavedEntry(v, chains, f.entrySector, f.entryNumber)
    ensures EntriesKept(v, d0, d1, chains, f, g)
  {
    hide Dirent, DirBlock, DirentAt, Blk;
    if EntryOnDisk(d0, f) {
      SameDirent(f, g);
    }
  }

  lemma EntriesSame(v: Volume, disk: Disk, chains: seq<seq<nat>>, f: FileS, g: FileS)
    requires SameEntry(f, g)
    ensures EntriesKept(v, disk, disk, chains, f, g)
  {
    hide Dirent, DirBlock, DirentAt, Blk;
    if EntryOnDisk(disk, f) {
      SameDirent(f, g);
    }
  }

  lemma SameDirent(f: FileS, g: FileS)
    requires g.name == f.name && g.attributes == f.attributes && g.stamps == f.stamps
    requires g.fullFirstCluster == f.fullFirstCluster && g.size == f.size
    ensures Dirent(g) == Dirent(f)
  {
  }

  /** Slot `number` of block `sector` lists a file: its name, attributes, first cluster and length. */
  predicate Lists(disk: Disk, sector: nat, number: nat, name: Name11, attributes: Byte, cluster: nat, length: nat) {
    number < 16 &&
    var e := DirentAt(Blk(disk, sector), number);
    && e[..11] == name && e[11] == attributes
    && (cluster < 0x1_0000_0000 ==> EntryCluster(e) == cluster)
    && (length < 0x1_0000_0000 ==> EntrySize(e) == length)
  }

  /** A file no longer marked as changed is in the directory as it is, if it has to be. */
  lemma StillRecorded(v: Volume, fd: nat, d0: Disk, fs0: seq<FileS>, cs0: seq<seq<nat>>,
                      d1: Disk, fs1: seq<FileS>, cs1: seq<seq<nat>>)
    requires OthersSame(v, fd, d0, fs0, cs0, d1, fs1, cs1) && fd < 4 && !fs1[fd].fsDirty
    ensures var g := fs1[fd];
            Recorded(v, d0, fs0[fd]) && !SkipsEntry(v, g) ==>
              Lists(d1, g.entrySector, g.entryNumber, g.name, g.attributes, g.fullFirstCluster, g.size)
  {
    hide EntryOnDisk, SlotsKept, Lists, Occupies, Content;
    if EntryOnDisk(d1, fs1[fd]) {
      EntryLists(d1, fs1[fd]);
    }
  }

  lemma RecordedStays(v: Volume, fd: nat, d0: Disk, fs0: seq<FileS>, cs0: seq<seq<nat>>,
                      d1: Disk, fs1: seq<FileS>, cs1: seq<seq<nat>>)
    requires OthersSame(v, fd, d0, fs0, cs0, d1, fs1, cs1) && fd < 4 && Recorded(v, d0, fs0[fd])
    ensures Recorded(v, d1, fs1[fd])
  {
    hide Recorded, SlotsKept, Occupies, Content;
  }

  lemma EntryLists(disk: Disk, f: FileS)
    requires EntryOnDisk(disk, f)
    ensures Lists(disk, f.entrySector, f.entryNumber, f.name, f.attributes, f.fullFirstCluster, f.size)
  {
    hide Dirent, DirentAt, EntryCluster, EntrySize;
    DirentFields(f);
  }

  lemma DirentFields(f: FileS)
    ensures Dirent(f)[..11] == f.name && Dirent(f)[11] == f.attributes
    ensures f.fullFirstCluster < 0x1_0000_0000 ==> EntryCluster(Dirent(f)) == f.fullFirstCluster
    ensures f.size < 0x1_0000_0000 ==> EntrySize(Dirent(f)) == f.size
  {
    hide Dirent;
    DirentBytes(f);
    LittleEndian(f.fullFirstCluster);
    LittleEndian(f.size);
  }

  /** The directories are the same chains. */
  predicate SameDirs(cs0: seq<seq<nat>>, cs1: seq<seq<nat>>) {
    |cs1| == |cs0| && forall o | 4 <= o < |cs0| :: cs1[o] == cs0[o]
  }

  /** A walk along the chain between two changes of nothing but the place of the record. */
  lemma WalkedEntries(v: Volume, d0: Disk, d1: Disk, cs0: seq<seq<nat>>, cs1: seq<seq<nat>>,
                      e: FileS, f: FileS, g: FileS, h: FileS)
    requires SameEntry(e, f) && EntriesKept(v, d0, d1, cs0, f, g) && SameEntry(g, h) && SameDirs(cs0, cs1)
    ensures EntriesKept(v, d0, d1, cs0, e, h)
  {
    hide EntriesKept, SameEntry, SameDirs;
    EntriesSame(v, d0, cs0, e, f);
    EntriesSame(v, d1, cs1, g, h);
    SameDirsSelf(cs0);
    EntriesTrans(v, d0, d0, d1, cs0, cs0, e, f, g);
    EntriesTrans(v, d0, d1, d1, cs0, cs1, e, g, h);
  }

  /** What only moves the record does not concern the directory. */
  lemma MovedEntries(v: Volume, d0: Disk, d1: Disk, cs0: seq<seq<nat>>, cs1: seq<seq<nat>>, f: FileS, g: FileS, h: FileS)
    requires EntriesKept(v, d0, d1, cs0, f, g) && h == Moved(g, h) && SameDirs(cs0, cs1)
    ensures EntriesKept(v, d0, d1, cs0, f, h)
  {
    hide EntriesKept, SameDirs;
    WalkedEntries(v, d0, d1, cs0, cs1, f, f, g, h);
  }

  lemma SteppedEntries(v: Volume, d0: Disk, d1: Disk, cs0: seq<seq<nat>>, cs1: seq<seq<nat>>, f: FileS, g: FileS,
                       s: seq<nat>, k: nat)
    requires EntriesKept(v, d0, d1, cs0, f, g) && InChain(v, s, k) && SameDirs(cs0, cs1)
    ensures EntriesKept(v, d0, d1, cs0, f, Stepped(v, d1, g, s, k))
  {
    hide EntriesKept, SameDirs, SecAt;
    MovedEntries(v, d0, d1, cs0, cs1, f, g, Stepped(v, d1, g, s, k));
  }

  lemma SameDirsSelf(chains: seq<seq<nat>>)
    ensures SameDirs(chains, chains)
  {
  }

  lemma SameDirsTrans(cs0: seq<seq<nat>>, cs1: seq<seq<nat>>, cs2: seq<seq<nat>>)
    requires SameDirs(cs0, cs1) && SameDirs(cs1, cs2)
    ensures SameDirs(cs0, cs2)
  {
  }

  lemma DirsSame(chains: seq<seq<nat>>, fd: nat, s: seq<nat>)
    requires fd < 4 && fd < |chains|
    ensures SameDirs(chains, chains[fd := s]) && SameDirs(chains, chains)
  {
  }

  lemma DirBlockSame(v: Volume, cs0: seq<seq<nat>>, cs1: seq<seq<nat>>, b: nat)
    requires SameDirs(cs0, cs1)
    ensures DirBlock(v, cs0, b) <==> DirBlock(v, cs1, b)
  {
    if DirBlock(v, cs0, b) && !(v.rootStart <= b < v.rootStart + v.rootLen) {
      var o: nat, k: nat :| 4 <= o && Holds(v, cs0, o, k, b);
      assert Holds(v, cs1, o, k, b);
    }
    if DirBlock(v, cs1, b) && !(v.rootStart <= b < v.rootStart + v.rootLen) {
      var o: nat, k: nat :| 4 <= o && Holds(v, cs1, o, k, b);
      assert Holds(v, cs0, o, k, b);
    }
  }

  lemma EntriesTrans(v: Volume, d0: Disk, d1: Disk, d2: Disk, cs0: seq<seq<nat>>, cs1: seq<seq<nat>>,
                     f: FileS, g: FileS, h: FileS)
    requires EntriesKept(v, d0, d1, cs0, f, g) && EntriesKept(v, d1, d2, cs1, g, h) && SameDirs(cs0, cs1)
    ensures EntriesKept(v, d0, d2, cs0, f, h)
  {
    hide Recorded, DirBlock, Blk, SameDirs;
    forall b: nat, n: nat | DirBlock(v, cs0, b) && Taken(d0, b, n) && !IsSlotOf(f, b, n)
      ensures DirentAt(Blk(d2, b), n) == DirentAt(Blk(d0, b), n) && !IsSlotOf(h, b, n)
    {
      DirBlockSame(v, cs0, cs1, b);
      TakenSame(d0, d1, b, n);
    }
  }

  lemma TakenSame(d0: Disk, d1: Disk, b: nat, n: nat)
    requires Taken(d0, b, n) && DirentAt(Blk(d1, b), n) == DirentAt(Blk(d0, b), n)
    ensures Taken(d1, b, n)
  {
    hide Blk;
    assert DirentAt(Blk(d1, b), n)[0] == Blk(d1, b)[n * 32] && DirentAt(Blk(d0, b), n)[0] == Blk(d0, b)[n * 32];
  }

  lemma DirsKeptTrans(v: Volume, d0: Disk, d1: Disk, d2: Disk, chains: seq<seq<nat>>)
    requires DirsKept(v, d0, d1, chains) && DirsKept(v, d1, d2, chains)
    ensures DirsKept(v, d0, d2, chains)
  {
    hide DirBlock, Blk;
  }

  /** A FAT entry is in no directory. */
  lemma DirsKeptFat(v: Volume, disk: Disk, chains: seq<seq<nat>>, c: nat, e: nat)
    requires SystemOK(v, disk, chains) && c < Entries(v)
    ensures DirsKept(v, disk, WriteEntry(v, disk, c, e), chains)
  {
    EntryBlockInFat(v, c);
    hide DirBlock, EntryBlock, StoreEntry, SystemOK, Entries;
    forall b: nat | DirBlock(v, chains, b) ensures Blk(WriteEntry(v, disk, c, e), b) == Blk(disk, b) {
      DirWriteKeeps(v, disk, chains, b, ZeroBlock());
    }
  }

  lemma DirsKeptGrow(v: Volume, disk: Disk, chains: seq<seq<nat>>, last: nat, c: nat)
    requires SystemOK(v, disk, chains) && c < Entries(v) && last < Entries(v)
    ensures DirsKept(v, disk, Grow(v, disk, last, c), chains)
  {
    EntryBlockInFat(v, c);
    EntryBlockInFat(v, last);
    hide DirBlock, EntryBlock, StoreEntry, SystemOK, Entries;
    forall b: nat | DirBlock(v, chains, b) ensures Blk(Grow(v, disk, last, c), b) == Blk(disk, b) {
      DirWriteKeeps(v, disk, chains, b, ZeroBlock());
    }
  }

  /** The first free slot holds no entry. */
  lemma FirstIsFree(v: Volume, disk: Disk, chains: seq<seq<nat>>, parent: nat, sector: nat, number: nat)
    requires FirstSlotOf(v, disk, chains, parent, sector, number)
    ensures !Taken(disk, sector, number)
  {
  }

  /** A sector of an open file is in no directory. */
  lemma DirsKeptData(v: Volume, disk: Disk, chains: seq<seq<nat>>, j: nat, k: nat, x: Block)
    requires SystemOK(v, disk, chains) && j < 4 && InChain(v, chains[j], k)
    ensures DirsKept(v, disk, SetBlk(disk, SecAt(v, chains[j], k), x), chains)
  {
    ForestClusters(v, disk, chains, j);
    SecAtRange(v, chains[j], k);
    forall b: nat | DirBlock(v, chains, b) ensures b != SecAt(v, chains[j], k) {
      if !(v.rootStart <= b < v.rootStart + v.rootLen) {
        var o: nat, i: nat :| 4 <= o && Holds(v, chains, o, i, b);
        ForestClusters(v, disk, chains, o);
        SecAtDisjoint(v, chains[j], chains[o], k, i);
      }
    }
  }

  lemma FirstByte(f: FileS)
    ensures Dirent(f)[0] == f.name[0]
  {
  }

  /** Saving the entry of f in its own slot, or in a free one. */
  lemma EntriesFromSave(v: Volume, d0: Disk, d1: Disk, chains: seq<seq<nat>>, f: FileS, g: FileS)
    requires DirBlock(v, chains, g.entrySector) && 1 <= g.entrySector < |d0| && g.entryNumber < 16
    requires d1 == SetBlk(d0, g.entrySector, PutDirent(Blk(d0, g.entrySector), g.entryNumber, f))
    requires g == f.(entrySector := g.entrySector, entryNumber := g.entryNumber, fsDirty := false, buffer := g.buffer)
    requires if f.entrySector != 0 then g.entrySector == f.entrySector && g.entryNumber == f.entryNumber
             else !Taken(d0, g.entrySector, g.entryNumber)
    ensures EntriesKept(v, d0, d1, chains, f, g) && EntryOnDisk(d1, g)
  {
    hide Dirent, DirBlock, PutDirent;
    var b0 := Blk(d0, g.entrySector);
    DirentStored(b0, g.entryNumber, f, g.entryNumber);
    SameDirent(f, g);
    FirstByte(f);
    assert DirentAt(Blk(d1, g.entrySector), g.entryNumber)[0] == Blk(d1, g.entrySector)[g.entryNumber * 32];
    forall b: nat, n: nat | DirBlock(v, chains, b) && Taken(d0, b, n) && !IsSlotOf(f, b, n)
      ensures DirentAt(Blk(d1, b), n) == DirentAt(Blk(d0, b), n) && !IsSlotOf(g, b, n)
    {
      if b == g.entrySector {
        DirentStored(b0, g.entryNumber, f, n);
      }
    }
  }

  // ---------------------------------------------------------------- allocation and growth

  lemma FatWritesKeepData(v: Volume, disk: Disk, chains: seq<seq<nat>>, last: nat, c: nat)
    requires SystemOK(v, disk, chains) && last < Entries(v) && c < Entries(v)
    ensures forall j: nat | j < |chains| ::
              SameData(v, disk, WriteEntry(v, disk, c, EndOfChain(v)), chains[j])
              && SameData(v, disk, Grow(v, disk, last, c), chains[j])
  {
    forall j: nat | j < |chains|
      ensures SameData(v, disk, WriteEntry(v, disk, c, EndOfChain(v)), chains[j])
      ensures SameData(v, disk, Grow(v, disk, last, c), chains[j])
    {
      ForestClusters(v, disk, chains, j);
      var d := WriteEntry(v, disk, c, EndOfChain(v));
      EntryWriteKeepsData(v, disk, chains[j], c, EndOfChain(v));
      EntryWriteKeepsData(v, d, chains[j], last, c);
      SameDataTrans(v, disk, d, Grow(v, disk, last, c), chains[j]);
    }
  }

  /** Growing owner k's chain by a free cluster. */
  lemma GrowSystem(v: Volume, disk: Disk, chains: seq<seq<nat>>, k: nat, c: nat)
    requires SystemOK(v, disk, chains) && k < |chains| && chains[k] != [] && NextFree(v, disk, c)
    ensures chains[k][|chains[k]| - 1] < Entries(v)
    ensures var s := chains[k];
            var d := Grow(v, disk, s[|s| - 1], c);
            SystemOK(v, d, chains[k := s + [c]])
            && DataKept(v, disk, d, chains)
  {
    var s := chains[k];
    assert Usable(v, s[|s| - 1]);
    LowestInVolume(v, disk, c);
    GrowKeepsForest(v, disk, chains, k, c);
    FatWritesKeepData(v, disk, chains, s[|s| - 1], c);
  }

  /** Giving owner k, which has no cluster, a first one. */
  lemma AllocateSystem(v: Volume, disk: Disk, chains: seq<seq<nat>>, k: nat, c: nat)
    requires SystemOK(v, disk, chains) && k < |chains| && chains[k] == [] && NextFree(v, disk, c)
    ensures var d := WriteEntry(v, disk, c, EndOfChain(v));
            SystemOK(v, d, chains[k := [c]])
            && DataKept(v, disk, d, chains)
  {
    LowestInVolume(v, disk, c);
    AllocateKeepsForest(v, disk, chains, k, c);
    FatWritesKeepData(v, disk, chains, c, c);
  }

  /** Marking an entry that belongs to no cluster of the volume. */
  lemma MarkedSystem(v: Volume, disk: Disk, d: Disk, chains: seq<seq<nat>>)
    requires SystemOK(v, disk, chains) && MarkedBehind(v, disk, d)
    ensures SystemOK(v, d, chains) && NoFree(v, disk) && NoFree(v, d)
    ensures forall j: nat | j < |chains| :: SameData(v, disk, d, chains[j])
  {
    var c: nat :| LowestFree(v, disk, c) && c >= v.clusterEnd && d == WriteEntry(v, disk, c, EndOfChain(v));
    LowestInVolume(v, disk, c);
    MarkKeepsForest(v, disk, chains, c);
    FatWritesKeepData(v, disk, chains, c, c);
  }

  lemma MarkedData(v: Volume, disk: Disk, d: Disk, chains: seq<seq<nat>>)
    requires SystemOK(v, disk, chains) && MarkedBehind(v, disk, d)
    ensures DataKept(v, disk, d, chains)
  {
    hide SameData, MarkedBehind;
    MarkedSystem(v, disk, d, chains);
  }

  /** What growing owner k's chain means for the driver that does it: the second FAT block is read
      after the first was written, and the file's directory entry can still be saved. */
  lemma GrownEntry(v: Volume, disk: Disk, chains: seq<seq<nat>>, k: nat, c: nat, f: FileS)
    requires SystemOK(v, disk, chains) && k < 4 && chains[k] != [] && NextFree(v, disk, c)
    requires SavedEntry(v, chains, f.entrySector, f.entryNumber)
    ensures 2 <= c < Entries(v) && c < Marker(v) && !NoFree(v, disk)
    ensures var last := chains[k][|chains[k]| - 1];
            var d := WriteEntry(v, disk, c, EndOfChain(v));
            && last < Entries(v) && EntryBlock(v, last) < |d| && EntryOffset(v, last) + EntryLen(v) <= 512
            && d[EntryBlock(v, last) := StoreEntry(v, d[EntryBlock(v, last)], EntryOffset(v, last), c)]
               == Grow(v, disk, last, c)
    ensures SavedEntry(v, chains[k := chains[k] + [c]], f.entrySector, f.entryNumber)
  {
    StandsIn(v, disk, chains, k, |chains[k]| - 1);
    LowestInVolume(v, disk, c);
    DirBlockStays(v, chains, k, chains[k] + [c], f.entrySector);
  }

  lemma SecAtStart(v: Volume, s: seq<nat>)
    requires v.spc >= 1 && |s| >= 1
    ensures InChain(v, s, 0) && 0 / v.spc == 0 && 0 % v.spc == 0 && SecAt(v, s, 0) == SectorOf(v, s[0], 0)
  {
  }

  /** A sector of a directory's chain is a directory block. */
  lemma DirSector(v: Volume, disk: Disk, chains: seq<seq<nat>>, o: nat, k: nat)
    requires SystemOK(v, disk, chains) && 4 <= o < |chains| && InChain(v, chains[o], k)
    ensures SecAt(v, chains[o], k) >= 1 && DirBlock(v, chains, SecAt(v, chains[o], k))
  {
    assert Holds(v, chains, o, k, SecAt(v, chains[o], k));
    ForestClusters(v, disk, chains, o);
    SecAtRange(v, chains[o], k);
  }

  // ---------------------------------------------------------------- the open files

  predicate Active(f: FileS) { f.open && !IsDir(f.attributes) }

  /** Open regular file i is consistent with the volume, and one that has clusters and may grow
      has a directory entry. */
  ghost predicate FdOK(v: Volume, disk: Disk, chains: seq<seq<nat>>, f: FileS, i: nat) {
    && i < |chains|
    && FileOK(v, disk, f, chains[i])
    && (f.entrySector != 0 ==> SavedEntry(v, chains, f.entrySector, f.entryNumber))
    && (chains[i] != [] && f.write ==> f.entrySector != 0)
  }

  ghost predicate AllButOK(v: Volume, disk: Disk, files: seq<FileS>, chains: seq<seq<nat>>, fd: nat) {
    && SystemOK(v, disk, chains) && |files| == 4
    && forall i: nat | i < 4 && i != fd && Active(files[i]) :: FdOK(v, disk, chains, files[i], i)
  }

  /** The driver invariant. */
  ghost predicate AllOK(v: Volume, disk: Disk, files: seq<FileS>, chains: seq<seq<nat>>) {
    && SystemOK(v, disk, chains) && |files| == 4
    && forall i: nat | i < 4 && Active(files[i]) :: FdOK(v, disk, chains, files[i], i)
  }

  /** Between the two states nothing but file fd changed: the other records, the other chains, what the
      other open files contain, and all directory entries but the file's own, which the directory still
      knows as well as it did. */
  ghost predicate OthersSame(v: Volume, fd: nat, d0: Disk, fs0: seq<FileS>, cs0: seq<seq<nat>>,
                             d1: Disk, fs1: seq<FileS>, cs1: seq<seq<nat>>) {
    && |fs0| == |fs1| == 4 && |cs0| == |cs1|
    && (forall i: nat | i < |cs0| && i != fd :: cs1[i] == cs0[i])
    && (forall i: nat | i < 4 && i != fd :: fs1[i] == fs0[i])
    && (forall i: nat | i < 4 && i != fd && i < |cs0| && Active(fs0[i]) ::
          Content(v, d1, fs0[i], cs0[i]) == Content(v, d0, fs0[i], cs0[i]))
    && (fd < 4 ==> EntriesKept(v, d0, d1, cs0, fs0[fd], fs1[fd]))
  }

  lemma OthersSameTrans(v: Volume, fd: nat, d0: Disk, fs0: seq<FileS>, cs0: seq<seq<nat>>,
                        d1: Disk, fs1: seq<FileS>, cs1: seq<seq<nat>>,
                        d2: Disk, fs2: seq<FileS>, cs2: seq<seq<nat>>)
    requires OthersSame(v, fd, d0, fs0, cs0, d1, fs1, cs1) && OthersSame(v, fd, d1, fs1, cs1, d2, fs2, cs2)
    ensures OthersSame(v, fd, d0, fs0, cs0, d2, fs2, cs2)
  {
    hide Content, EntriesKept;
    if fd < 4 {
      EntriesTrans(v, d0, d1, d2, cs0, cs1, fs0[fd], fs1[fd], fs2[fd]);
    }
  }

  /** Whatever keeps the data of the other chains keeps the other files. */
  lemma OthersKept(v: Volume, fd: nat, d0: Disk, fs0: seq<FileS>, cs0: seq<seq<nat>>,
                   d1: Disk, f: FileS, s: seq<nat>)
    requires AllButOK(v, d0, fs0, cs0, fd) && fd < 4
    requires SystemOK(v, d1, cs0[fd := s])
    requires forall j: nat | j < 4 && j != fd :: SameData(v, d0, d1, cs0[j])
    requires EntriesKept(v, d0, d1, cs0, fs0[fd], f)
    ensures OthersSame(v, fd, d0, fs0, cs0, d1, fs0[fd := f], cs0[fd := s])
    ensures AllButOK(v, d1, fs0[fd := f], cs0[fd := s], fd)
  {
    hide EntriesKept;
    forall i: nat | i < 4 && i != fd && Active(fs0[i])
      ensures Content(v, d1, fs0[i], cs0[i]) == Content(v, d0, fs0[i], cs0[i])
      ensures FdOK(v, d1, cs0[fd := s], fs0[i], i)
    {
      assert FdOK(v, d0, cs0, fs0[i], i);
      FileKept(v, d0, d1, fs0[i], cs0[i]);
      if fs0[i].entrySector != 0 {
        DirBlockStays(v, cs0, fd, s, fs0[i].entrySector);
      }
    }
  }

  lemma CloseGap(v: Volume, disk: Disk, files: seq<FileS>, chains: seq<seq<nat>>, fd: nat)
    requires fd < 4 && AllButOK(v, disk, files, chains, fd)
    requires Active(files[fd]) ==> FdOK(v, disk, chains, files[fd], fd)
    ensures AllOK(v, disk, files, chains)
  {
  }

  lemma OpenGap(v: Volume, disk: Disk, files: seq<FileS>, chains: seq<seq<nat>>, fd: nat)
    requires fd < 4 && AllOK(v, disk, files, chains)
    ensures AllButOK(v, disk, files, chains, fd) && (Active(files[fd]) ==> FdOK(v, disk, chains, files[fd], fd))
  {
  }

  lemma GapParts(v: Volume, disk: Disk, files: seq<FileS>, chains: seq<seq<nat>>, fd: nat)
    requires AllButOK(v, disk, files, chains, fd)
    ensures SystemOK(v, disk, chains) && HasFat(v, disk) && |files| == 4 && 4 <= |chains|
  {
  }

  /** Writing file fd's own sector back. */
  lemma OwnWrite(v: Volume, disk: Disk, files: seq<FileS>, chains: seq<seq<nat>>, fd: nat)
    requires AllOK(v, disk, files, chains) && fd < 4 && Active(files[fd]) && chains[fd] != []
    ensures 0 <= files[fd].sector < |disk|
    ensures var f := files[fd];
            var d := disk[f.sector := f.buffer];
            var g := f.(dirty := false);
            && AllOK(v, d, files[fd := g], chains)
            && OthersSame(v, fd, disk, files, chains, d, files[fd := g], chains)
            && Content(v, d, g, chains[fd]) == Content(v, disk, f, chains[fd])
            && (NoFree(v, d) <==> NoFree(v, disk)) && (Full(v, d) <==> Full(v, disk))
  {
    var f := files[fd];
    OpenGap(v, disk, files, chains, fd);
    ForestClusters(v, disk, chains, fd);
    FlushKeeps(v, disk, f, chains[fd]);
    SecAtRange(v, chains[fd], f.fileSector);
    var d := disk[f.sector := f.buffer];
    OutsideFatKeepsSystem(v, disk, chains, f.sector, f.buffer);
    SameFatSameEntries(v, disk, d);
    DirsKeptData(v, disk, chains, fd, f.fileSector, f.buffer);
    EntriesFromDirs(v, disk, d, chains, f, f.(dirty := false));
    hide EntriesKept;
    forall j: nat | j < 4 && j != fd ensures SameData(v, disk, d, chains[j]) {
      assert if j < fd then Disjoint(chains[j], chains[fd]) else Disjoint(chains[fd], chains[j]);
      DisjointKeepsData(v, disk, chains[j], chains[fd], f.fileSector, f.buffer);
    }
    OthersKept(v, fd, disk, files, chains, d, f.(dirty := false), chains[fd]);
    assert chains[fd := chains[fd]] == chains;
    CloseGap(v, d, files[fd := f.(dirty := false)], chains, fd);
  }

  // ---------------------------------------------------------------- the first cluster of a new file

  /** A file that is not in its directory yet has a free slot waiting there. */
  ghost predicate HasPlace(v: Volume, disk: Disk, chains: seq<seq<nat>>, f: FileS, fd: nat) {
    fd < |chains| && (chains[fd] == [] && f.write && f.entrySector == 0 ==>
                        ParentHasSlot(v, disk, chains, f.parentCluster))
  }

  /** The file waits for no directory slot: it has clusters or an entry, or is not to be written. */
  predicate HasHome(f: FileS, s: seq<nat>) { s != [] || !f.write || f.entrySector != 0 }

  /** Saving file fd for the first time cannot fail for want of a directory slot. */
  ghost predicate CanStart(v: Volume, disk: Disk, chains: seq<seq<nat>>, f: FileS, fd: nat) {
    fd < |chains| && (chains[fd] == [] && f.dirty && f.write && f.entrySector == 0 ==>
                        ParentHasSlot(v, disk, chains, f.parentCluster))
  }

  /** The record once its first cluster c is allocated and the buffer is written there. */
  function Started(v: Volume, f: FileS, c: nat): FileS {
    f.(fullFirstCluster := c, fsDirty := true, sector := SectorOf(v, c, 0), sectorsLeft := v.spc - 1,
       cluster := c, dirty := false)
  }

  function StartedDisk(v: Volume, disk: Disk, f: FileS, c: nat): Disk
    requires HasFat(v, disk) && c < Entries(v)
  {
    SetBlk(WriteEntry(v, disk, c, EndOfChain(v)), SectorOf(v, c, 0), f.buffer)
  }

  /** g is record f after it was saved: position, size, name and mode are those of f. */
  predicate SavedFrom(f: FileS, g: FileS) {
    g == f.(dirty := false, fsDirty := g.fsDirty, buffer := g.buffer, fullFirstCluster := g.fullFirstCluster,
            sector := g.sector, sectorsLeft := g.sectorsLeft, cluster := g.cluster,
            entrySector := g.entrySector, entryNumber := g.entryNumber)
  }

  /** Every chain keeps its data while owner k gets cluster c and writes its first sector. */
  lemma StartKeepsData(v: Volume, disk: Disk, chains: seq<seq<nat>>, k: nat, c: nat, f: FileS, j: nat)
    requires SystemOK(v, disk, chains) && k < |chains| && chains[k] == [] && NextFree(v, disk, c)
    requires j < |chains| && j != k
    ensures SameData(v, disk, StartedDisk(v, disk, f, c), chains[j])
  {
    var d1 := WriteEntry(v, disk, c, EndOfChain(v));
    ForestClusters(v, disk, chains, j);
    EntryWriteKeepsData(v, disk, chains[j], c, EndOfChain(v));
    if chains[j] != [] {
      FreeOnNoChain(v, disk, chains[j], c);
    }
    LowestInVolume(v, disk, c);
    SecAtStart(v, [c]);
    DisjointKeepsData(v, d1, chains[j], [c], 0, f.buffer);
    SameDataTrans(v, disk, d1, StartedDisk(v, disk, f, c), chains[j]);
  }

  lemma StartSystem(v: Volume, disk: Disk, files: seq<FileS>, chains: seq<seq<nat>>, fd: nat, c: nat)
    requires AllOK(v, disk, files, chains) && fd < 4 && Active(files[fd])
    requires chains[fd] == [] && files[fd].dirty && NextFree(v, disk, c)
    ensures 0 <= SectorOf(v, c, 0) < |disk|
    ensures var f := files[fd];
            var d, g, cs := StartedDisk(v, disk, f, c), Started(v, f, c), chains[fd := [c]];
            && SystemOK(v, d, cs) && AllButOK(v, d, files[fd := g], cs, fd)
            && OthersSame(v, fd, disk, files, chains, d, files[fd := g], cs)
            && FileOK(v, d, g, [c]) && Content(v, d, g, [c]) == Content(v, disk, f, [])
            && !NoFree(v, disk) && files[fd].sector == 0
            && |WriteEntry(v, disk, c, EndOfChain(v))| == |disk|
            && d == SetBlk(WriteEntry(v, disk, c, EndOfChain(v)), g.sector, f.buffer)
  {
    var f := files[fd];
    var d, g := StartedDisk(v, disk, f, c), Started(v, f, c);
    LowestInVolume(v, disk, c);
    SectorOfRange(v, c, 0);
    AllocateSystem(v, disk, chains, fd, c);
    OutsideFatKeepsSystem(v, WriteEntry(v, disk, c, EndOfChain(v)), chains[fd := [c]], SectorOf(v, c, 0), f.buffer);
    forall j: nat | j < 4 && j != fd ensures SameData(v, disk, d, chains[j]) {
      StartKeepsData(v, disk, chains, fd, c, f, j);
    }
    OpenGap(v, disk, files, chains, fd);
    StartEntries(v, disk, chains, fd, c, f);
    OthersKept(v, fd, disk, files, chains, d, g, [c]);
    StartedFile(v, disk, d, f, c);
  }

  /** The first cluster of a new file is in no directory. */
  lemma StartDirs(v: Volume, disk: Disk, chains: seq<seq<nat>>, k: nat, c: nat, f: FileS)
    requires SystemOK(v, disk, chains) && k < 4 && chains[k] == [] && NextFree(v, disk, c) && c < Entries(v)
    ensures DirsKept(v, disk, StartedDisk(v, disk, f, c), chains)
  {
    var d, cs := WriteEntry(v, disk, c, EndOfChain(v)), chains[k := [c]];
    AllocateSystem(v, disk, chains, k, c);
    DirsKeptFat(v, disk, chains, c, EndOfChain(v));
    SecAtStart(v, [c]);
    DirsKeptData(v, d, cs, k, 0, f.buffer);
    DirsSame(chains, k, [c]);
    hide NextFree, SystemOK, DirBlock, Blk, WriteEntry;
    forall b: nat | DirBlock(v, chains, b) ensures Blk(StartedDisk(v, disk, f, c), b) == Blk(disk, b) {
      DirBlockSame(v, chains, cs, b);
    }
  }

  lemma StartEntries(v: Volume, disk: Disk, chains: seq<seq<nat>>, k: nat, c: nat, f: FileS)
    requires SystemOK(v, disk, chains) && k < 4 && chains[k] == [] && NextFree(v, disk, c) && c < Entries(v)
    requires f.entrySector != 0 ==> SavedEntry(v, chains, f.entrySector, f.entryNumber)
    ensures EntriesKept(v, disk, StartedDisk(v, disk, f, c), chains, f, Started(v, f, c))
  {
    StartDirs(v, disk, chains, k, c, f);
    hide SystemOK, NextFree, DirBlock, Blk, StartedDisk, EntryOnDisk, SkipsEntry, DirentAt;
  }

  lemma StartedFile(v: Volume, d0: Disk, d1: Disk, f: FileS, c: nat)
    requires FileOK(v, d0, f, []) && f.dirty && Blk(d1, SectorOf(v, c, 0)) == f.buffer
    ensures FileOK(v, d1, Started(v, f, c), [c])
    ensures Content(v, d1, Started(v, f, c), [c]) == Content(v, d0, f, [])
  {
    SecAtStart(v, [c]);
    SameContent(v, d0, f, [], d1, Started(v, f, c), [c]);
  }

  /** After the first save the directory entry can be written: the parent's free slot is still free. */
  lemma StartedEntry(v: Volume, disk: Disk, files: seq<FileS>, chains: seq<seq<nat>>, fd: nat, c: nat)
    requires AllOK(v, disk, files, chains) && fd < 4 && Active(files[fd])
    requires chains[fd] == [] && files[fd].dirty && NextFree(v, disk, c)
    requires CanStart(v, disk, chains, files[fd], fd)
    ensures CanSaveEntry(v, StartedDisk(v, disk, files[fd], c), chains[fd := [c]], Started(v, files[fd], c))
    ensures c != v.rootCluster && c != 0
  {
    LowestInVolume(v, disk, c);
    var f := files[fd];
    assert FdOK(v, disk, chains, f, fd);
    if f.entrySector != 0 {
      DirBlockStays(v, chains, fd, [c], f.entrySector);
    } else if f.write {
      var o: nat, k: nat :| SlotIn(v, disk, chains, f.parentCluster, o, k);
      StartKeepsData(v, disk, chains, fd, c, f, o);
      assert SlotIn(v, StartedDisk(v, disk, f, c), chains[fd := [c]], f.parentCluster, o, k);
    }
  }

  /** The slot found after the first save was the first free one before it. */
  lemma StartedSlot(v: Volume, disk: Disk, chains: seq<seq<nat>>, fd: nat, c: nat, f: FileS, sector: nat, number: nat)
    requires SystemOK(v, disk, chains) && fd < 4 && chains[fd] == [] && NextFree(v, disk, c)
    requires FirstSlotOf(v, StartedDisk(v, disk, f, c), chains[fd := [c]], f.parentCluster, sector, number)
    ensures FirstSlotOf(v, disk, chains, f.parentCluster, sector, number)
  {
    forall o: nat | 4 <= o < |chains| ensures SameData(v, disk, StartedDisk(v, disk, f, c), chains[o]) {
      StartKeepsData(v, disk, chains, fd, c, f, o);
    }
    FirstSlotKept(v, disk, chains, StartedDisk(v, disk, f, c), chains[fd := [c]], f.parentCluster, sector, number);
  }

  /** The record after `fat_flush_fileinfo`. */
  function EntryWritten(f: FileS, g: FileS, disk: Disk): FileS {
    f.(entrySector := g.entrySector, entryNumber := g.entryNumber, fsDirty := g.fsDirty, buffer := Blk(disk, f.sector))
  }

  /** Saving the directory entry of the clean file fd disturbs no file, fd included. */
  lemma EntrySaved(v: Volume, d0: Disk, files: seq<FileS>, chains: seq<seq<nat>>, fd: nat, d1: Disk, g: FileS)
    requires fd < 4 && AllButOK(v, d0, files, chains, fd) && FileOK(v, d0, files[fd], chains[fd])
    requires !files[fd].dirty && chains[fd] != []
    requires SystemOK(v, d1, chains) && DataKept(v, d0, d1, chains)
    requires g.entrySector != 0 ==> SavedEntry(v, chains, g.entrySector, g.entryNumber)
    requires g.write ==> g.entrySector != 0
    requires g == EntryWritten(files[fd], g, d1) && EntriesKept(v, d0, d1, chains, files[fd], g)
    ensures AllOK(v, d1, files[fd := g], chains)
    ensures OthersSame(v, fd, d0, files, chains, d1, files[fd := g], chains)
    ensures Content(v, d1, g, chains[fd]) == Content(v, d0, files[fd], chains[fd])
  {
    hide EntriesKept;
    assert chains[fd := chains[fd]] == chains;
    OthersKept(v, fd, d0, files, chains, d1, g, chains[fd]);
    assert SameData(v, d0, d1, chains[fd]);
    FileKept(v, d0, d1, files[fd], chains[fd]);
    SameContent(v, d1, files[fd], chains[fd], d1, g, chains[fd]);
  }

  // ---------------------------------------------------------------- moving on to the next sector

  /** Changing record fd alone disturbs no other file. */
  lemma OnlyRecord(v: Volume, disk: Disk, files: seq<FileS>, chains: seq<seq<nat>>, fd: nat, g: FileS)
    requires fd < 4 && AllButOK(v, disk, files, chains, fd) && SameEntry(files[fd], g)
    ensures AllButOK(v, disk, files[fd := g], chains, fd)
    ensures OthersSame(v, fd, disk, files, chains, disk, files[fd := g], chains)
  {
    EntriesSame(v, disk, chains, files[fd], g);
    hide EntriesKept;
  }

  lemma PrefixSecAt(v: Volume, s: seq<nat>, s': seq<nat>, i: nat)
    requires s <= s' && InChain(v, s, i)
    ensures InChain(v, s', i) && SecAt(v, s', i) == SecAt(v, s, i)
  {
    var n := i / v.spc;
    assert s'[n] == s[n];
  }

  lemma ContentSought(v: Volume, d0: Disk, f: FileS, s: seq<nat>, d1: Disk, s': seq<nat>, p: nat)
    requires FileOK(v, d0, f, s) && !f.dirty && s != [] && s <= s' && SameData(v, d0, d1, s) && InChain(v, s', p / 512)
    ensures Content(v, d1, SeekTo(v, d1, f, s', p), s') == Content(v, d0, f, s)
  {
    var g := SeekTo(v, d1, f, s', p);
    forall i: nat | i * 512 < f.size
      ensures SectorView(v, d1, g, s', i) == SectorView(v, d0, f, s, i)
    {
      InChainMonotone(v, s, i, (f.size - 1) / 512);
      ViewOfClean(v, d0, f, s, i);
      PrefixSecAt(v, s, s', i);
    }
    SameContent(v, d0, f, s, d1, g, s');
  }

  lemma ViewOfClean(v: Volume, disk: Disk, f: FileS, s: seq<nat>, i: nat)
    requires FileOK(v, disk, f, s) && !f.dirty && s != [] && InChain(v, s, i)
    ensures SectorView(v, disk, f, s, i) == Blk(disk, SecAt(v, s, i))
  {
  }

  /** A clean file that seeks to p, in a chain that may just have grown. */
  lemma SoughtOK(v: Volume, d0: Disk, files: seq<FileS>, chains: seq<seq<nat>>, fd: nat,
                 d1: Disk, s': seq<nat>, p: nat, g: FileS)
    requires AllOK(v, d0, files, chains) && fd < 4 && Active(files[fd]) && !files[fd].dirty
    requires chains[fd] != [] && chains[fd] <= s' && p <= files[fd].size && InChain(v, s', p / 512)
    requires SystemOK(v, d1, chains[fd := s']) && DataKept(v, d0, d1, chains)
    requires g == SeekTo(v, d1, files[fd], s', p).(fsDirty := g.fsDirty, error := g.error)
    requires EntriesKept(v, d0, d1, chains, files[fd], g)
    ensures AllOK(v, d1, files[fd := g], chains[fd := s'])
    ensures OthersSame(v, fd, d0, files, chains, d1, files[fd := g], chains[fd := s'])
    ensures Content(v, d1, g, s') == Content(v, d0, files[fd], chains[fd])
    ensures SameMode(files[fd], g) && !g.dirty && Pos(g) == p && g == SeekTo(v, d1, g, s', p)
  {
    hide EntriesKept;
    var f, s := files[fd], chains[fd];
    OpenGap(v, d0, files, chains, fd);
    OthersKept(v, fd, d0, files, chains, d1, g, s');
    assert SameData(v, d0, d1, s);
    ContentSought(v, d0, f, s, d1, s', p);
    SameContent(v, d1, SeekTo(v, d1, f, s', p), s', d1, g, s');
    if f.entrySector != 0 {
      DirBlockStays(v, chains, fd, s', f.entrySector);
    }
    assert Room(v, s, f.size) ==> Room(v, s', f.size);
  }

  /** A rolled-over clean file stepping to its next sector. */
  lemma SteppedOK(v: Volume, d0: Disk, files: seq<FileS>, chains: seq<seq<nat>>, fd: nat,
                  d1: Disk, s': seq<nat>, g: FileS)
    requires AllOK(v, d0, files, chains) && fd < 4 && Active(files[fd]) && !files[fd].dirty
    requires files[fd].cursor == 512 && chains[fd] != [] && chains[fd] <= s'
    requires InChain(v, s', files[fd].fileSector + 1)
    requires g == Stepped(v, d1, files[fd], s', files[fd].fileSector + 1).(fsDirty := g.fsDirty)
    requires SystemOK(v, d1, chains[fd := s']) && DataKept(v, d0, d1, chains)
    requires EntriesKept(v, d0, d1, chains, files[fd], g)
    ensures AllOK(v, d1, files[fd := g], chains[fd := s'])
    ensures OthersSame(v, fd, d0, files, chains, d1, files[fd := g], chains[fd := s'])
    ensures Content(v, d1, g, s') == Content(v, d0, files[fd], chains[fd])
    ensures SameMode(files[fd], g) && !g.dirty && g.cursor == 0 && g.fileSector == files[fd].fileSector + 1
    ensures g == Moved(files[fd], g).(error := g.error, fsDirty := g.fsDirty)
  {
    hide EntriesKept;
    var k := files[fd].fileSector + 1;
    PosInFile(v, d0, files, chains, fd);
    assert k * 512 / 512 == k && k * 512 % 512 == 0;
    SoughtOK(v, d0, files, chains, fd, d1, s', k * 512, g);
  }

  lemma FdParts(v: Volume, disk: Disk, files: seq<FileS>, chains: seq<seq<nat>>, fd: nat)
    requires AllOK(v, disk, files, chains) && fd < 4 && Active(files[fd])
    ensures SystemOK(v, disk, chains) && |files| == 4 && fd < |chains| && FileOK(v, disk, files[fd], chains[fd])
    ensures chains[fd] == [] || AtSector(v, files[fd], chains[fd], files[fd].fileSector)
    ensures chains[fd] == [] <==> files[fd].fullFirstCluster == 0
    ensures chains[fd] == [] <==> files[fd].sector == 0
    ensures chains[fd] != [] ==> chains[fd][0] == files[fd].fullFirstCluster
    ensures files[fd].entrySector != 0 ==> SavedEntry(v, chains, files[fd].entrySector, files[fd].entryNumber)
    ensures chains[fd] != [] && files[fd].write ==> files[fd].entrySector != 0
  {
    assert FdOK(v, disk, chains, files[fd], fd);
    if chains[fd] != [] {
      ForestClusters(v, disk, chains, fd);
      SecAtRange(v, chains[fd], files[fd].fileSector);
    }
  }

  lemma SelfSame(v: Volume, fd: nat, disk: Disk, files: seq<FileS>, chains: seq<seq<nat>>)
    requires |files| == 4
    ensures OthersSame(v, fd, disk, files, chains, disk, files, chains)
  {
    if fd < 4 {
      EntriesSame(v, disk, chains, files[fd], files[fd]);
    }
    hide EntriesKept;
  }

  /** What `fat_flush_fileinfo` leaves, whether it saved the entry or had nothing to do. */
  lemma EntryMayBeSaved(v: Volume, d0: Disk, files: seq<FileS>, chains: seq<seq<nat>>, fd: nat, d1: Disk, g: FileS)
    requires fd < 4 && AllButOK(v, d0, files, chains, fd) && FileOK(v, d0, files[fd], chains[fd])
    requires !files[fd].dirty && chains[fd] != []
    requires SystemOK(v, d1, chains) && DataKept(v, d0, d1, chains)
    requires CanSaveEntry(v, d0, chains, files[fd])
    requires SkipsEntry(v, files[fd]) ==> d1 == d0 && g == files[fd]
    requires SkipsEntry(v, files[fd]) && files[fd].write ==> files[fd].entrySector != 0
    requires !SkipsEntry(v, files[fd]) ==>
               DirBlock(v, chains, g.entrySector) && g.entryNumber < 16 && g == EntryWritten(files[fd], g, d1)
    requires EntriesKept(v, d0, d1, chains, files[fd], g)
    ensures AllOK(v, d1, files[fd := g], chains)
    ensures OthersSame(v, fd, d0, files, chains, d1, files[fd := g], chains)
    ensures Content(v, d1, g, chains[fd]) == Content(v, d0, files[fd], chains[fd])
  {
    hide EntriesKept;
    if SkipsEntry(v, files[fd]) {
      assert g == EntryWritten(files[fd], g, d1);
    } else {
      DirWriteKeeps(v, d0, chains, g.entrySector, ZeroBlock());
    }
    EntrySaved(v, d0, files, chains, fd, d1, g);
  }

  /** What no operation short of writing bytes changes about a record. */
  predicate SameMode(f: FileS, g: FileS) {
    && g.open == f.open && g.read == f.read && g.write == f.write && g.append == f.append
    && g.name == f.name && g.attributes == f.attributes && g.stamps == f.stamps
    && g.size == f.size && g.parentCluster == f.parentCluster
  }

  /** The mode bits and attributes, which no operation on an open file changes. */
  predicate SameFlags(f: FileS, g: FileS) {
    && g.open == f.open && g.read == f.read && g.write == f.write && g.append == f.append
    && g.attributes == f.attributes && g.name == f.name && g.parentCluster == f.parentCluster
  }

  /** The record with its own sector read into the buffer again. */
  function Reloaded(v: Volume, disk: Disk, f: FileS): FileS { f.(buffer := Blk(disk, f.sector)) }

  /** Stepping past the end of a chain that cannot grow spoils the buffer and nothing else: with the
      file's own sector reloaded the file is as before. */
  lemma FailedStep(v: Volume, d0: Disk, files: seq<FileS>, chains: seq<seq<nat>>, fd: nat, d1: Disk, g: FileS)
    requires AllOK(v, d0, files, chains) && fd < 4 && Active(files[fd]) && !files[fd].dirty && chains[fd] != []
    requires SystemOK(v, d1, chains) && DataKept(v, d0, d1, chains)
    requires g == files[fd].(buffer := g.buffer, error := g.error) && EntriesKept(v, d0, d1, chains, files[fd], g)
    ensures AllButOK(v, d1, files[fd := g], chains, fd)
    ensures OthersSame(v, fd, d0, files, chains, d1, files[fd := g], chains)
    ensures var h := Reloaded(v, d1, g);
            AllOK(v, d1, files[fd := g][fd := h], chains)
            && Content(v, d1, h, chains[fd]) == Content(v, d0, files[fd], chains[fd])
  {
    var h := Reloaded(v, d1, g);
    assert FdOK(v, d0, chains, files[fd], fd);
    assert chains[fd := chains[fd]] == chains && files[fd := g][fd := h] == files[fd := h];
    EntriesSame(v, d1, chains, g, h);
    EntriesTrans(v, d0, d1, d1, chains, chains, files[fd], g, h);
    hide EntriesKept;
    OthersKept(v, fd, d0, files, chains, d1, g, chains[fd]);
    OthersKept(v, fd, d0, files, chains, d1, h, chains[fd]);
    assert SameData(v, d0, d1, chains[fd]);
    FileKept(v, d0, d1, files[fd], chains[fd]);
    SameContent(v, d1, files[fd], chains[fd], d1, h, chains[fd]);
  }

  /** Marking an entry that belongs to no cluster of the volume changes no file. */
  lemma MarkedAll(v: Volume, d0: Disk, files: seq<FileS>, chains: seq<seq<nat>>, fd: nat, d1: Disk)
    requires AllOK(v, d0, files, chains) && fd < 4 && Active(files[fd]) && MarkedBehind(v, d0, d1)
    ensures AllOK(v, d1, files, chains) && OthersSame(v, fd, d0, files, chains, d1, files, chains)
    ensures Content(v, d1, files[fd], chains[fd]) == Content(v, d0, files[fd], chains[fd])
    ensures NoFree(v, d0) && NoFree(v, d1)
  {
    MarkedSystem(v, d0, d1, chains);
    OpenGap(v, d0, files, chains, fd);
    assert chains[fd := chains[fd]] == chains && files[fd := files[fd]] == files;
    MarkedEntries(v, d0, d1, chains, files[fd], files[fd]);
    hide EntriesKept;
    OthersKept(v, fd, d0, files, chains, d1, files[fd], chains[fd]);
    FileKept(v, d0, d1, files[fd], chains[fd]);
    CloseGap(v, d1, files, chains, fd);
  }

  lemma MarkedEntries(v: Volume, d0: Disk, d1: Disk, chains: seq<seq<nat>>, f: FileS, g: FileS)
    requires SystemOK(v, d0, chains) && MarkedBehind(v, d0, d1) && SameEntry(f, g)
    requires f.entrySector != 0 ==> SavedEntry(v, chains, f.entrySector, f.entryNumber)
    ensures EntriesKept(v, d0, d1, chains, f, g)
  {
    var c: nat :| LowestFree(v, d0, c) && c >= v.clusterEnd && d1 == WriteEntry(v, d0, c, EndOfChain(v));
    DirsKeptFat(v, d0, chains, c, EndOfChain(v));
    EntriesFromDirs(v, d0, d1, chains, f, g);
  }

  lemma IsMarked(v: Volume, d0: Disk, d1: Disk, c: nat)
    requires HasFat(v, d0) && LowestFree(v, d0, c) && c >= v.clusterEnd && d1 == WriteEntry(v, d0, c, EndOfChain(v))
    ensures MarkedBehind(v, d0, d1)
  {
  }

  lemma IsNext(v: Volume, disk: Disk, c: nat)
    requires HasFat(v, disk) && LowestFree(v, disk, c) && c < v.clusterEnd
    ensures NextFree(v, disk, c) && c < Entries(v)
  {
  }

  lemma SameRecord(files: seq<FileS>, fd: nat)
    requires fd < |files|
    ensures files[fd := files[fd]] == files
  {
  }

  /** A rolled-over file has bytes, so it is saved or dirty. */
  lemma RolledOver(v: Volume, disk: Disk, files: seq<FileS>, chains: seq<seq<nat>>, fd: nat)
    requires AllOK(v, disk, files, chains) && fd < 4 && Active(files[fd]) && files[fd].cursor == 512
    ensures chains[fd] != [] || files[fd].dirty
  {
    assert FdOK(v, disk, chains, files[fd], fd);
  }

  /** Writing a file's own sector back frees and takes no cluster. */
  lemma NoFreeKept(v: Volume, disk: Disk, files: seq<FileS>, chains: seq<seq<nat>>, fd: nat)
    requires AllOK(v, disk, files, chains) && fd < 4 && Active(files[fd])
    ensures HasFat(v, disk)
    ensures chains[fd] != [] ==>
              var d := Flushed(disk, files[fd]);
              HasFat(v, d) && (NoFree(v, d) <==> NoFree(v, disk)) && (Full(v, d) <==> Full(v, disk))
  {
    if chains[fd] != [] {
      OwnWrite(v, disk, files, chains, fd);
    }
  }

  lemma Sizes(v: Volume, disk: Disk, files: seq<FileS>, chains: seq<seq<nat>>)
    requires AllOK(v, disk, files, chains)
    ensures |files| == 4 && 4 <= |chains| && HasFat(v, disk)
  {
  }

  lemma PosInFile(v: Volume, disk: Disk, files: seq<FileS>, chains: seq<seq<nat>>, fd: nat)
    requires AllOK(v, disk, files, chains) && fd < 4 && Active(files[fd])
    ensures |files| == 4 && 4 <= |chains|
    ensures files[fd].cursor <= 512 && Pos(files[fd]) <= files[fd].size
  {
    assert FdOK(v, disk, chains, files[fd], fd);
  }

  /** Where a rolled-over file goes on, its chain goes on. */
  lemma RoomBeyond(v: Volume, disk: Disk, files: seq<FileS>, chains: seq<seq<nat>>, fd: nat)
    requires AllOK(v, disk, files, chains) && fd < 4 && Active(files[fd])
    requires files[fd].cursor == 512 && Pos(files[fd]) < files[fd].size
    ensures chains[fd] != [] && InChain(v, chains[fd], files[fd].fileSector + 1)
    ensures CanStart(v, disk, chains, files[fd], fd)
  {
    assert FdOK(v, disk, chains, files[fd], fd);
    InChainMonotone(v, chains[fd], files[fd].fileSector + 1, (files[fd].size - 1) / 512);
  }

  lemma CursorMoves(v: Volume, disk: Disk, files: seq<FileS>, chains: seq<seq<nat>>, fd: nat)
    requires AllOK(v, disk, files, chains) && fd < 4 && Active(files[fd])
    requires files[fd].cursor < 512 && Pos(files[fd]) < files[fd].size
    ensures var g := files[fd].(cursor := files[fd].cursor + 1);
            && AllOK(v, disk, files[fd := g], chains)
            && OthersSame(v, fd, disk, files, chains, disk, files[fd := g], chains)
            && Content(v, disk, g, chains[fd]) == Content(v, disk, files[fd], chains[fd])
  {
    var g := files[fd].(cursor := files[fd].cursor + 1);
    EntriesSame(v, disk, chains, files[fd], g);
    hide EntriesKept;
    assert FdOK(v, disk, chains, files[fd], fd);
    SameContent(v, disk, files[fd], chains[fd], disk, g, chains[fd]);
  }

  /** The record `fat_lseek` builds from the cluster it arrived at. */
  function Arrived(v: Volume, disk: Disk, f: FileS, c: nat, p: nat): FileS
    requires v.spc >= 1
  {
    var sec := (p - ClusterOfByte(v, p) * v.spc * 512) / 512;
    var b := Wrap32(c * v.spc + v.cluster0 + sec);
    f.(cluster := c, fileSector := p / 512, cursor := p % 512, sector := b, sectorsLeft := v.spc - sec - 1,
       buffer := Blk(disk, b))
  }

  /** A block number as a 32-bit number. */
  function Wrap32(n: int): nat { n % 0x1_0000_0000 }

  /** A cluster number as it is, and -1 for none. */
  lemma LinkNumber(v: Volume, c: int)
    ensures 0 <= c < Marker(v) ==> Wrap32(c) == c
    ensures Wrap32(-1) == 0xFFFF_FFFF
  {
  }

  lemma NoWrap(v: Volume, s: seq<nat>, k: nat)
    requires VolumeOK(v) && Clusters(v, s) && InChain(v, s, k)
    ensures Wrap32(SecAt(v, s, k)) == SecAt(v, s, k)
  {
    SecAtRange(v, s, k);
  }

  /** A seek off the end of a chain: cluster 0xFFFFFFFF, and the block its number names. */
  predicate Nowhere(v: Volume, disk: Disk, f: FileS, g: FileS, p: nat) {
    v.spc >= 1 && g == Arrived(v, disk, f, 0xFFFF_FFFF, p).(error := g.error, fsDirty := g.fsDirty)
  }

  /** The record fallen back to the start of its sector, with a block of the FAT in its buffer. */
  predicate FellBack(v: Volume, disk: Disk, f: FileS, g: FileS) {
    g == f.(cursor := 0, buffer := Blk(disk, EntryBlock(v, f.cluster)), error := g.error)
  }

  /** Where a seek of a saved file to a byte it cannot reach leaves the record. */
  predicate Missed(v: Volume, disk: Disk, f: FileS, g: FileS, p: nat) {
    if Pos(f) == p && f.cursor == 512 then FellBack(v, disk, f, g) else Nowhere(v, disk, f, g, p)
  }

  /** What the walk leaves in the record besides its marks is overwritten on arrival. */
  lemma ArrivedFrom(v: Volume, disk: Disk, f: FileS, g: FileS, c: nat, p: nat)
    requires v.spc >= 1 && g == Drifted(f, g)
    ensures Arrived(v, disk, g, c, p) == Arrived(v, disk, f, c, p).(error := g.error, fsDirty := g.fsDirty)
    ensures var h := Arrived(v, disk, g, c, p);
            && SameMode(f, h) && Pos(h) == p && h == Arrived(v, disk, f, c, p).(error := h.error, fsDirty := h.fsDirty)
            && h.fullFirstCluster == f.fullFirstCluster && h.entrySector == f.entrySector && SameEntry(g, h)
  {
  }

  lemma ReloadedArrives(v: Volume, d0: Disk, disk: Disk, f: FileS, c: nat, p: nat)
    requires v.spc >= 1
    ensures Arrived(v, disk, Reloaded(v, d0, f), c, p) == Arrived(v, disk, f, c, p)
  {
  }

  lemma SoughtNearMode(v: Volume, disk: Disk, f: FileS, oldPos: nat, p: nat)
    ensures var g := SoughtNear(v, disk, f, oldPos, p);
            SameMode(f, g) && SameEntry(f, g)
  {
    hide Blk, Wrap32;
  }

  lemma SoughtInBuffer(v: Volume, disk: Disk, f: FileS, oldPos: nat, p: nat)
    requires oldPos < 512 && p < 512
    ensures SoughtNear(v, disk, f, oldPos, p) == f.(cursor := p)
  {
    hide Blk, Wrap32;
  }

  /** What a seek leaves of a file that cannot be saved and had to leave its only sector, which has number 0
      in the record: with more than one sector in a cluster the record goes one block on or back from there,
      with one it is in cluster 0 or 0xFFFFFFFF.  From its very end to there only the cursor moves. */
  predicate Spoilt(v: Volume, disk: Disk, f: FileS, g: FileS, p: nat) {
    if Pos(f) == 512 && p == 512 then g == f.(cursor := 0)
    else
      && g == f.(fileSector := p / 512, cursor := p % 512, cluster := g.cluster, sector := g.sector,
                 sectorsLeft := g.sectorsLeft, buffer := Blk(disk, g.sector))
      && if v.spc > 1 then
           && g.cluster == f.cluster && g.sector == (if p == 512 then 1 else 0xFFFF_FFFF)
           && g.sectorsLeft == f.sectorsLeft + (if p == 512 then -1 else 1)
         else
           && g.cluster == (if p == 512 then 0xFFFF_FFFF else 0) && g.sectorsLeft == 0
           && g.sector == (g.cluster + v.cluster0) % 0x1_0000_0000
  }

  /** Bytes 0 to 512 in clusters. */
  lemma FirstSector(v: Volume, p: nat)
    requires p <= 512 && v.spc >= 1
    ensures ClusterOfByte(v, p) == if p == 512 && v.spc == 1 then 1 else 0
    ensures ClusterOfByte(v, 512) == if v.spc == 1 then 1 else 0
  {
    if v.spc > 1 {
      assert p < v.spc * 512;
    }
  }

  /** Over the edge of the one sector, to it or from it. */
  lemma SoughtOverEdge(v: Volume, disk: Disk, f: FileS, p: nat)
    requires v.spc >= 1 && f.sector == 0 && f.fileSector == 0 && f.fullFirstCluster == 0 && f.cursor <= 512 && p <= 512
    requires f.cursor == 512 || p == 512
    ensures v.spc > 1 || f.cursor == p ==> Spoilt(v, disk, f, SoughtNear(v, disk, f, f.cursor, p), p)
    ensures v.spc == 1 && f.cursor != p ==>
              Spoilt(v, disk, f, Arrived(v, disk, f, if p == 512 then 0xFFFF_FFFF else 0, p), p)
  {
    hide Blk;
  }

  lemma ArrivedAgain(v: Volume, disk: Disk, f: FileS, c: nat, p: nat)
    requires v.spc >= 1
    ensures Arrived(v, disk, f.(cluster := c), c, p) == Arrived(v, disk, f, c, p)
  {
  }

  lemma ArrivedMode(v: Volume, disk: Disk, f: FileS, c: nat, p: nat)
    requires v.spc >= 1
    ensures var g := Arrived(v, disk, f, c, p);
            SameMode(f, g) && SameEntry(f, g) && g.fullFirstCluster == f.fullFirstCluster && g.cluster == c
  {
    hide Blk, Wrap32;
  }

  lemma MovesNowhere(f: FileS)
    ensures f == Moved(f, f) && SameMode(f, f)
  {
  }

  /** A seek of the saved file f with chain s to p asks in vain for a cluster of the volume, and the FAT
      has a zero entry that belongs to none: p lies beyond the clusters, or the cursor has rolled over at
      their end. */
  ghost predicate GoesAstray(v: Volume, disk: Disk, f: FileS, s: seq<nat>, p: nat)
    requires HasFat(v, disk)
  {
    && NoFree(v, disk) && !Full(v, disk)
    && (!Within(v, |s|, p) || (f.cursor == 512 && !InChain(v, s, f.fileSector + 1)))
  }

  lemma AstrayBefore(v: Volume, d0: Disk, d1: Disk, f: FileS, g: FileS, s: seq<nat>, p: nat)
    requires HasFat(v, d0) && HasFat(v, d1) && GoesAstray(v, d1, g, s, p)
    requires (NoFree(v, d1) ==> NoFree(v, d0)) && (Full(v, d0) ==> Full(v, d1))
    requires f.cursor == g.cursor && f.fileSector == g.fileSector
    ensures GoesAstray(v, d0, f, s, p)
  {
  }

  /** Where the record stood before does not matter to where a failed walk leaves it. */
  lemma NowhereFrom(v: Volume, disk: Disk, f: FileS, h: FileS, g: FileS, p: nat)
    requires h == Moved(f, h).(error := h.error, fsDirty := h.fsDirty) && Nowhere(v, disk, h, g, p)
    ensures Nowhere(v, disk, f, g, p)
  {
  }

  /** A record that moved, on a disk that kept all data. */
  lemma MovedRecord(v: Volume, d0: Disk, files: seq<FileS>, chains: seq<seq<nat>>, fd: nat, d1: Disk, g: FileS)
    requires fd < 4 && AllButOK(v, d0, files, chains, fd) && SystemOK(v, d1, chains) && DataKept(v, d0, d1, chains)
    requires EntriesKept(v, d0, d1, chains, files[fd], g)
    ensures AllButOK(v, d1, files[fd := g], chains, fd)
    ensures OthersSame(v, fd, d0, files, chains, d1, files[fd := g], chains)
  {
    assert chains[fd := chains[fd]] == chains;
    OthersKept(v, fd, d0, files, chains, d1, g, chains[fd]);
  }

  /** An open file's record names a cluster of the volume. */
  lemma InVolume(v: Volume, disk: Disk, files: seq<FileS>, chains: seq<seq<nat>>, fd: nat)
    requires AllOK(v, disk, files, chains) && fd < 4 && Active(files[fd]) && chains[fd] != []
    ensures files[fd].cluster != 0xFFFF_FFFF && files[fd].fullFirstCluster != 0
  {
    hide SystemOK, AllOK, FileOK, FdOK, SavedEntry, SecAt, IsDir, Entry;
    FdParts(v, disk, files, chains, fd);
    StandsIn(v, disk, chains, fd, files[fd].fileSector / v.spc);
    SystemParts(v, disk, chains);
  }

  /** Arriving in the right cluster of the (possibly grown) chain completes the seek. */
  lemma ArrivedOK(v: Volume, d0: Disk, files: seq<FileS>, chains: seq<seq<nat>>, fd: nat,
                  d1: Disk, s': seq<nat>, p: nat, fc: nat, g: FileS)
    requires v.spc >= 1 && fc < |s'|
    requires AllOK(v, d0, files, chains) && fd < 4 && Active(files[fd]) && !files[fd].dirty
    requires chains[fd] != [] && chains[fd] <= s' && p <= files[fd].size && fc == ClusterOfByte(v, p)
    requires Within(v, |s'|, p) && SystemOK(v, d1, chains[fd := s']) && DataKept(v, d0, d1, chains)
    requires g == Arrived(v, d1, files[fd], s'[fc], p).(fsDirty := g.fsDirty, error := g.error)
    requires EntriesKept(v, d0, d1, chains, files[fd], g)
    ensures AllOK(v, d1, files[fd := g], chains[fd := s']) && AllButOK(v, d1, files[fd := g], chains[fd := s'], fd)
    ensures OthersSame(v, fd, d0, files, chains, d1, files[fd := g], chains[fd := s'])
    ensures Content(v, d1, g, s') == Content(v, d0, files[fd], chains[fd])
    ensures InChain(v, s', p / 512) && g == SeekTo(v, d1, g, s', p)
  {
    hide EntriesKept;
    SeekFromStart(v, d1, files[fd], s', p);
    ForestClusters(v, d1, chains[fd := s'], fd);
    NoWrap(v, s', p / 512);
    SoughtOK(v, d0, files, chains, fd, d1, s', p, g);
    OpenGap(v, d1, files[fd := g], chains[fd := s'], fd);
  }

  lemma OthersSameFrom(v: Volume, fd: nat, d0: Disk, fs0: seq<FileS>, cs0: seq<seq<nat>>, g: FileS,
                       d1: Disk, fs1: seq<FileS>, cs1: seq<seq<nat>>)
    requires fd < 4 && |fs0| == 4 && OthersSame(v, fd, d0, fs0[fd := g], cs0, d1, fs1, cs1)
    requires SameEntry(fs0[fd], g)
    ensures OthersSame(v, fd, d0, fs0, cs0, d1, fs1, cs1)
  {
    EntriesSame(v, d0, cs0, fs0[fd], g);
    EntriesTrans(v, d0, d0, d1, cs0, cs0, fs0[fd], g, fs1[fd]);
    hide EntriesKept;
  }

  /** The two short ways to seek: inside the sector, and inside the cluster. */
  function SoughtNear(v: Volume, disk: Disk, f: FileS, old_pos: nat, p: nat): FileS {
    if old_pos / 512 == p / 512 then f.(cursor := p % 512)
    else
      var sec := Wrap32(f.sector + p / 512 - old_pos / 512);
      f.(fileSector := p / 512, sector := sec, sectorsLeft := f.sectorsLeft - p / 512 + old_pos / 512,
         cursor := p % 512, buffer := Blk(disk, sec))
  }

  lemma SoughtNearOK(v: Volume, disk: Disk, files: seq<FileS>, chains: seq<seq<nat>>, fd: nat, old_pos: nat, p: nat)
    requires v.spc >= 1
    requires AllOK(v, disk, files, chains) && fd < 4 && Active(files[fd]) && !files[fd].dirty
    requires chains[fd] != [] && p <= files[fd].size && old_pos / 512 == files[fd].fileSector
    requires old_pos / 512 == p / 512 || ClusterOfByte(v, p) == ClusterOfByte(v, old_pos)
    ensures var g := SoughtNear(v, disk, files[fd], old_pos, p);
            && AllOK(v, disk, files[fd := g], chains)
            && OthersSame(v, fd, disk, files, chains, disk, files[fd := g], chains)
            && Content(v, disk, g, chains[fd]) == Content(v, disk, files[fd], chains[fd])
            && SameMode(files[fd], g) && Pos(g) == p
            && InChain(v, chains[fd], p / 512) && g == SeekTo(v, disk, g, chains[fd], p)
  {
    var f, s := files[fd], chains[fd];
    assert FdOK(v, disk, chains, f, fd);
    if old_pos / 512 == p / 512 {
      SeekInSector(v, disk, f, s, p);
    } else {
      SeekInCluster(v, disk, f, s, old_pos, p);
      ForestClusters(v, disk, chains, fd);
      NoWrap(v, s, p / 512);
    }
    DataKeptSame(v, disk, chains);
    assert chains[fd := s] == chains;
    EntriesSame(v, disk, chains, f, SoughtNear(v, disk, f, old_pos, p));
    hide EntriesKept;
    SoughtOK(v, disk, files, chains, fd, disk, s, p, SoughtNear(v, disk, f, old_pos, p));
  }

  /** Where a rolled-over file's chain ends, the file ends, and every earlier byte is in the chain. */
  lemma RolledAtEnd(v: Volume, disk: Disk, files: seq<FileS>, chains: seq<seq<nat>>, fd: nat, p: nat)
    requires v.spc >= 1
    requires AllOK(v, disk, files, chains) && fd < 4 && Active(files[fd]) && chains[fd] != []
    requires files[fd].cursor == 512 && p <= files[fd].size
    requires !InChain(v, chains[fd], files[fd].fileSector + 1)
    ensures p / 512 == files[fd].fileSector + 1 ==> p == Pos(files[fd])
    ensures p / 512 != files[fd].fileSector + 1 ==>
              InChain(v, chains[fd], p / 512) && ClusterOfByte(v, p) != ClusterOfByte(v, Pos(files[fd]))
  {
    var f, s := files[fd], chains[fd];
    assert FdOK(v, disk, chains, f, fd);
    var k := f.fileSector;
    if f.size > (k + 1) * 512 {
      InChainMonotone(v, s, k + 1, (f.size - 1) / 512);
    }
    if p / 512 != k + 1 {
      InChainMonotone(v, s, p / 512, k);
      EndOfChainPos(v, s, k, Pos(f));
      ByteToCluster(p, v.spc);
    }
  }

  lemma ReloadClean(v: Volume, disk: Disk, files: seq<FileS>, chains: seq<seq<nat>>, fd: nat)
    requires AllOK(v, disk, files, chains) && fd < 4 && Active(files[fd]) && !files[fd].dirty && chains[fd] != []
    ensures Reloaded(v, disk, files[fd]) == files[fd] && files[fd := files[fd]] == files
  {
    assert FdOK(v, disk, chains, files[fd], fd);
  }

  /** A clean file that has just stepped to its next sector, in a chain of at least n clusters. */
  lemma LeftSector(v: Volume, disk: Disk, files: seq<FileS>, chains: seq<seq<nat>>, fd: nat, n: nat, p: nat)
    requires AllOK(v, disk, files, chains) && fd < 4 && Active(files[fd]) && !files[fd].dirty && chains[fd] != []
    requires n <= |chains[fd]|
    ensures HasFat(v, disk) && Reloaded(v, disk, files[fd]) == files[fd] && files[fd := files[fd]] == files
    ensures Within(v, n, p) || p / 512 <= files[fd].fileSector ==> Within(v, |chains[fd]|, p)
  {
    ReloadClean(v, disk, files, chains, fd);
    hide FileOK, FdOK, SavedEntry, SecAt;
    FdParts(v, disk, files, chains, fd);
    hide AllOK, SystemOK;
    SystemParts(v, disk, chains);
    WithinMore(v, n, |chains[fd]|, p);
    AtSectorInChain(v, files[fd], chains[fd], files[fd].fileSector);
  }

  /** A clean file without clusters is empty, so it can only seek to where it is. */
  lemma EmptySought(v: Volume, disk: Disk, files: seq<FileS>, chains: seq<seq<nat>>, fd: nat, old_pos: nat, p: nat)
    requires AllOK(v, disk, files, chains) && fd < 4 && Active(files[fd]) && !files[fd].dirty && chains[fd] == []
    requires p <= files[fd].size && old_pos == Pos(files[fd])
    ensures p == 0 && old_pos == 0 && files[fd].cursor == 0 && files[fd].size == 0
    ensures files[fd := SoughtNear(v, disk, files[fd], old_pos, p)] == files
    ensures OthersSame(v, fd, disk, files, chains, disk, files, chains)
  {
    assert FdOK(v, disk, chains, files[fd], fd);
  }

  lemma InOneSector(v: Volume, disk: Disk, files: seq<FileS>, chains: seq<seq<nat>>, fd: nat)
    requires AllOK(v, disk, files, chains) && fd < 4 && Active(files[fd]) && chains[fd] == []
    ensures Pos(files[fd]) <= files[fd].size <= 512
    ensures files[fd].sector == 0 && files[fd].fileSector == 0 && files[fd].fullFirstCluster == 0
  {
    assert FdOK(v, disk, chains, files[fd], fd);
  }

  /** The end of a saved file, and what a cursor that has rolled over at the end of the chain says of it. */
  lemma EndOfSaved(v: Volume, disk: Disk, files: seq<FileS>, chains: seq<seq<nat>>, fd: nat)
    requires AllOK(v, disk, files, chains) && fd < 4 && Active(files[fd]) && chains[fd] != []
    ensures v.spc >= 1 && Room(v, chains[fd], files[fd].size)
    ensures files[fd].cursor == 512 && !InChain(v, chains[fd], files[fd].fileSector + 1) ==>
              !Within(v, |chains[fd]|, files[fd].size)
  {
    var f, s := files[fd], chains[fd];
    assert FdOK(v, disk, chains, f, fd);
    if f.cursor == 512 && Within(v, |s|, f.size) {
      assert f.fileSector + 1 <= f.size / 512;
      InChainMonotone(v, s, f.fileSector + 1, f.size / 512);
    }
  }

  lemma PlaceToStart(v: Volume, disk: Disk, chains: seq<seq<nat>>, f: FileS, fd: nat)
    requires HasPlace(v, disk, chains, f, fd)
    ensures CanStart(v, disk, chains, f, fd)
  {
  }

  lemma PlaceKept(v: Volume, d0: Disk, cs0: seq<seq<nat>>, f: FileS, d1: Disk, cs1: seq<seq<nat>>, g: FileS, fd: nat)
    requires HasPlace(v, d0, cs0, f, fd) && fd < |cs1| && SameMode(f, g)
    requires cs1[fd] == [] ==> d1 == d0 && cs1 == cs0 && g.entrySector == f.entrySector
    ensures HasPlace(v, d1, cs1, g, fd) && (HasHome(f, cs0[fd]) ==> HasHome(g, cs1[fd]))
  {
  }

  /** A file that lives in its buffer alone moves about in it. */
  lemma MovesInBuffer(v: Volume, disk: Disk, files: seq<FileS>, chains: seq<seq<nat>>, fd: nat, p: nat)
    requires AllOK(v, disk, files, chains) && fd < 4 && Active(files[fd]) && chains[fd] == []
    requires p < 512 && p <= files[fd].size
    ensures var g := files[fd].(cursor := p);
            && AllOK(v, disk, files[fd := g], chains) && Pos(g) == p
            && OthersSame(v, fd, disk, files, chains, disk, files[fd := g], chains)
            && Content(v, disk, g, chains[fd]) == Content(v, disk, files[fd], chains[fd])
  {
    var g := files[fd].(cursor := p);
    EntriesSame(v, disk, chains, files[fd], g);
    hide EntriesKept;
    assert FdOK(v, disk, chains, files[fd], fd);
    SameContent(v, disk, files[fd], chains[fd], disk, g, chains[fd]);
  }

  /** Putting one byte under the cursor of file fd. */
  lemma TypedAll(v: Volume, disk: Disk, files: seq<FileS>, chains: seq<seq<nat>>, fd: nat, b: Byte)
    requires AllOK(v, disk, files, chains) && fd < 4 && Active(files[fd]) && files[fd].cursor < 512
    ensures var g := Typed(files[fd], b);
            && AllOK(v, disk, files[fd := g], chains)
            && OthersSame(v, fd, disk, files, chains, disk, files[fd := g], chains)
            && Pos(files[fd]) <= files[fd].size
            && Content(v, disk, g, chains[fd]) == Overwrite(Content(v, disk, files[fd], chains[fd]), Pos(files[fd]), [b])
            && Pos(g) == Pos(files[fd]) + 1 && g.cursor <= 512 && SameFlags(files[fd], g)
            && g.entrySector == files[fd].entrySector
  {
    assert FdOK(v, disk, chains, files[fd], fd);
    TypedOK(v, disk, files[fd], chains[fd], b);
  }

  /** The mark that says the directory entry is out of date changes no file. */
  lemma StaleAll(v: Volume, disk: Disk, files: seq<FileS>, chains: seq<seq<nat>>, fd: nat)
    requires AllOK(v, disk, files, chains) && fd < 4 && Active(files[fd])
    ensures var g := files[fd].(fsDirty := true);
            && AllOK(v, disk, files[fd := g], chains)
            && OthersSame(v, fd, disk, files, chains, disk, files[fd := g], chains)
            && Content(v, disk, g, chains[fd]) == Content(v, disk, files[fd], chains[fd])
  {
    var g := files[fd].(fsDirty := true);
    EntriesSame(v, disk, chains, files[fd], g);
    hide EntriesKept;
    assert FdOK(v, disk, chains, files[fd], fd);
    SameContent(v, disk, files[fd], chains[fd], disk, g, chains[fd]);
  }

  // ---------------------------------------------------------------- closing

  /** The first n bytes on the chain, as they are on the disk. */
  function OnDisk(v: Volume, disk: Disk, s: seq<nat>, n: nat): (c: seq<Byte>)
    ensures |c| == n
  {
    seq(n, q requires 0 <= q =>
          if InChain(v, s, q / 512) then Blk(disk, SecAt(v, s, q / 512))[q % 512] else 0)
  }

  /** Byte q of a file on the disk, in numbers: q / 512 sectors in, counted through its clusters. */
  lemma OnDiskByte(v: Volume, disk: Disk, s: seq<nat>, n: nat, q: nat)
    requires q < n && v.spc >= 1 && q / 512 / v.spc < |s|
    requires 0 <= s[q / 512 / v.spc] * v.spc + v.cluster0 + q / 512 % v.spc < |disk|
    ensures OnDisk(v, disk, s, n)[q] == disk[s[q / 512 / v.spc] * v.spc + v.cluster0 + q / 512 % v.spc][q % 512]
  {
  }

  /** A clean file is what is on the disk. */
  lemma CleanOnDisk(v: Volume, disk: Disk, files: seq<FileS>, chains: seq<seq<nat>>, fd: nat)
    requires AllOK(v, disk, files, chains) && fd < 4 && Active(files[fd]) && !files[fd].dirty
    ensures OnDisk(v, disk, chains[fd], files[fd].size) == Content(v, disk, files[fd], chains[fd])
  {
    var f, s := files[fd], chains[fd];
    assert FdOK(v, disk, chains, f, fd);
    forall q | 0 <= q < f.size
      ensures OnDisk(v, disk, s, f.size)[q] == Content(v, disk, f, s)[q]
    {
      InChainMonotone(v, s, q / 512, (f.size - 1) / 512);
      ViewOfClean(v, disk, f, s, q / 512);
    }
  }

  /** All flags cleared. */
  function ShutDown(f: FileS): FileS {
    f.(open := false, read := false, write := false, append := false, dirty := false, fsDirty := false)
  }

  lemma ClosedOK(v: Volume, disk: Disk, files: seq<FileS>, chains: seq<seq<nat>>, fd: nat)
    requires AllOK(v, disk, files, chains) && fd < 4 && (!files[fd].fsDirty || SkipsEntry(v, files[fd]))
    ensures AllOK(v, disk, files[fd := ShutDown(files[fd])], chains)
    ensures OthersSame(v, fd, disk, files, chains, disk, files[fd := ShutDown(files[fd])], chains)
  {
    hide Dirent;
    SameDirent(files[fd], ShutDown(files[fd]));
    assert EntriesKept(v, disk, disk, chains, files[fd], ShutDown(files[fd]));
    hide EntriesKept;
  }

  lemma SavedCanSave(v: Volume, disk: Disk, files: seq<FileS>, chains: seq<seq<nat>>, fd: nat)
    requires AllOK(v, disk, files, chains) && fd < 4 && Active(files[fd])
    ensures CanSaveEntry(v, disk, chains, files[fd])
    ensures AllButOK(v, disk, files, chains, fd) && FileOK(v, disk, files[fd], chains[fd])
    ensures chains[fd] == [] ==> SkipsEntry(v, files[fd])
    ensures SkipsEntry(v, files[fd]) && chains[fd] != [] && files[fd].write ==> files[fd].entrySector != 0
  {
    assert FdOK(v, disk, chains, files[fd], fd);
  }

  /** What closing leaves of a file whose directory entry was out of date. */
  lemma EntryClosed(v: Volume, d0: Disk, files: seq<FileS>, chains: seq<seq<nat>>, fd: nat, d1: Disk, g: FileS)
    requires AllOK(v, d0, files, chains) && fd < 4 && Active(files[fd]) && !files[fd].dirty
    requires SystemOK(v, d1, chains) && DataKept(v, d0, d1, chains)
    requires SkipsEntry(v, files[fd]) ==> d1 == d0 && g == files[fd]
    requires !SkipsEntry(v, files[fd]) ==>
               && DirBlock(v, chains, g.entrySector) && g.entryNumber < 16 && g == EntryWritten(files[fd], g, d1)
               && d1 == SetBlk(d0, g.entrySector, PutDirent(Blk(d0, g.entrySector), g.entryNumber, files[fd]))
    requires EntriesKept(v, d0, d1, chains, files[fd], g)
    ensures AllOK(v, d1, files[fd := g], chains)
    ensures OthersSame(v, fd, d0, files, chains, d1, files[fd := g], chains)
    ensures Content(v, d1, g, chains[fd]) == Content(v, d0, files[fd], chains[fd])
    ensures SkipsEntry(v, ShutDown(g)) || EntryOnDisk(d1, ShutDown(g))
    ensures g.fullFirstCluster == files[fd].fullFirstCluster && g.size == files[fd].size
    ensures !g.dirty && g.open == files[fd].open && g.attributes == files[fd].attributes
  {
    hide SystemOK, FileOK, Content, FdOK, AllOK, AllButOK, OthersSame, DataKept, CanSaveEntry, PutDirent, Dirent,
         DirBlock, EntriesKept;
    Sizes(v, d0, files, chains);
    SavedCanSave(v, d0, files, chains, fd);
    if SkipsEntry(v, files[fd]) {
      assert files[fd := g] == files;
      SelfSame(v, fd, d0, files, chains);
    } else {
      EntryMayBeSaved(v, d0, files, chains, fd, d1, g);
      GapParts(v, d0, files, chains, fd);
      DirWriteKeeps(v, d0, chains, g.entrySector, ZeroBlock());
      DirentStored(Blk(d0, g.entrySector), g.entryNumber, files[fd], g.entryNumber);
      SameDirent(files[fd], ShutDown(g));
    }
  }

  // ---------------------------------------------------------------- all entries together

  /** What the directories know of the open files is right, or marked as out of date; their slots hold
      entries, and no two files have one slot. */
  ghost predicate Booked(v: Volume, disk: Disk, files: seq<FileS>) {
    && |files| == 4
    && (forall i: nat | i < 4 && Active(files[i]) :: Recorded(v, disk, files[i]) && Occupies(disk, files[i]))
    && (forall i: nat, j: nat | i < 4 && j < 4 && i != j && Active(files[i]) && Active(files[j]) && files[i].entrySector != 0 ::
          !IsSlotOf(files[j], files[i].entrySector, files[i].entryNumber))
  }

  /** What changes one file only leaves all of them booked. */
  lemma BookedKept(v: Volume, fd: nat, d0: Disk, fs0: seq<FileS>, cs0: seq<seq<nat>>,
                   d1: Disk, fs1: seq<FileS>, cs1: seq<seq<nat>>)
    requires AllOK(v, d0, fs0, cs0) && Booked(v, d0, fs0) && OthersSame(v, fd, d0, fs0, cs0, d1, fs1, cs1)
    requires fd < 4 && Active(fs0[fd]) && Active(fs1[fd])
    ensures Booked(v, d1, fs1)
  {
    hide SystemOK, FileOK, Content, Dirent, DirBlock, SkipsEntry, IsDir;
    forall i: nat | i < 4 && i != fd && Active(fs1[i])
      ensures Recorded(v, d1, fs1[i]) && Occupies(d1, fs1[i])
      ensures fs1[i].entrySector != 0 ==> !IsSlotOf(fs1[fd], fs1[i].entrySector, fs1[i].entryNumber)
    {
      OtherBooked(v, fd, d0, fs0, cs0, d1, fs1[fd], i);
    }
    forall i: nat | i < 4 && i != fd && Active(fs1[i]) && fs1[fd].entrySector != 0
      ensures !IsSlotOf(fs1[i], fs1[fd].entrySector, fs1[fd].entryNumber)
    {
      assert IsSlotOf(fs1[i], fs1[fd].entrySector, fs1[fd].entryNumber) ==>
               IsSlotOf(fs1[fd], fs1[i].entrySector, fs1[i].entryNumber);
    }
  }

  lemma OtherBooked(v: Volume, fd: nat, d0: Disk, fs0: seq<FileS>, cs0: seq<seq<nat>>, d1: Disk, g: FileS, i: nat)
    requires AllOK(v, d0, fs0, cs0) && Booked(v, d0, fs0) && fd < 4 && i < 4 && i != fd
    requires Active(fs0[fd]) && Active(fs0[i]) && EntriesKept(v, d0, d1, cs0, fs0[fd], g)
    ensures Recorded(v, d1, fs0[i]) && Occupies(d1, fs0[i])
    ensures fs0[i].entrySector != 0 ==> !IsSlotOf(g, fs0[i].entrySector, fs0[i].entryNumber)
  {
    hide SystemOK, FileOK, Dirent, DirBlock, SkipsEntry, IsDir, Blk, DirentAt;
    var f := fs0[i];
    assert FdOK(v, d0, cs0, f, i);
    assert Recorded(v, d0, f) && Occupies(d0, f);
    if f.entrySector != 0 {
      assert !IsSlotOf(fs0[fd], f.entrySector, f.entryNumber);
      TakenSame(d0, d1, f.entrySector, f.entryNumber);
    }
  }

  lemma BookedOne(v: Volume, disk: Disk, files: seq<FileS>, fd: nat)
    requires Booked(v, disk, files) && fd < 4 && Active(files[fd])
    ensures Recorded(v, disk, files[fd])
  {
  }
}
