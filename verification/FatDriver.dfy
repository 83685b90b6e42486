/** The driver: cluster allocation, chain walking and growth, the write-back buffer, reading,
    writing and seeking, over the global state of gristle.c. */
module FatDriver {
  import opened FatTable
  import opened FatFile
  import opened FatSystem

  const MAX_OPEN_FILES := 4

  /** From position f of an open record, a seek to p left it at g in good order: the file did not have
      to leave a first sector it could not save, and the chain walk found a cluster. */
  predicate Arrives(f: FileS, g: FileS, p: nat) {
    if g.fullFirstCluster == 0 then Pos(f) < 512 && p < 512 else Pos(g) == p && g.cluster != 0xFFFF_FFFF
  }

  /** A flush does not change where the record stands. */
  lemma FlushedStands(f: FileS, g: FileS, ptr: int, dir: Whence, h: FileS, p: nat)
    requires f == g || SavedFrom(f, g)
    ensures Target(g, ptr, dir) == Target(f, ptr, dir) && g.size == f.size && Pos(g) == Pos(f) && g.cursor == f.cursor
    ensures SameMode(f, g) && (Active(f) ==> Active(g)) && (f == g || !g.dirty)
    ensures (SameMode(g, h) ==> SameMode(f, h)) && (Arrives(g, h, p) <==> Arrives(f, h, p))
  {
  }

  /** The record of a seek that failed says so. */
  lemma NotThere(v: Volume, disk: Disk, f: FileS, g: FileS, p: nat)
    requires f.fullFirstCluster != 0
    requires Missed(v, disk, f, g, p)
    ensures !Arrives(f, g, p) && (Pos(g) != p || g.cluster == 0xFFFF_FFFF)
  {
    hide Blk, EntryBlock, Arrived, SameMode, SameEntry;
    if v.spc >= 1 {
      ArrivedMode(v, disk, f, 0xFFFF_FFFF, p);
    }
  }

  /** g stands where the seek of an append left record f of a saved file whose end it could not reach:
      at the start of its own last sector with a block of the FAT in its buffer, or at the block with the
      wrapped number of cluster 0xFFFFFFFF. */
  predicate Astray(v: Volume, disk: Disk, f: FileS, g: FileS) {
    && g.cursor == 0 && !g.dirty
    && if f.cursor == 512 && Pos(f) == f.size then g.sector == f.sector && g.buffer == Blk(disk, EntryBlock(v, f.cluster))
       else g.sector == Wrap32(0xFFFF_FFFF * v.spc + v.cluster0) && g.buffer == Blk(disk, g.sector)
  }

  /** ... and up to 512 bytes went to the start of that buffer. */
  predicate WroteAstray(v: Volume, disk: Disk, f: FileS, g: FileS, data: seq<Byte>)
    requires |data| <= 512
  {
    && g.cursor == |data| && g.dirty == (data != [])
    && if f.cursor == 512 && Pos(f) == f.size
       then g.sector == f.sector && g.buffer == Patched(Blk(disk, EntryBlock(v, f.cluster)), 0, data)
       else g.sector == Wrap32(0xFFFF_FFFF * v.spc + v.cluster0) && g.buffer == Patched(Blk(disk, g.sector), 0, data)
  }

  /** The size after n bytes typed at the position: they count only from the end on. */
  function TypedSize(f: FileS, n: nat): nat { if Pos(f) <= f.size < Pos(f) + n then Pos(f) + n else f.size }

  /** A file whose end lies behind its clusters ends with them. */
  lemma LandsAstray(v: Volume, disk: Disk, f: FileS, g: FileS, s: seq<nat>)
    requires !f.dirty && v.spc >= 1 && s != [] && Room(v, s, f.size) && !Within(v, |s|, f.size)
    requires Missed(v, disk, f, g, f.size)
    ensures Astray(v, disk, f, g)
  {
    hide Blk, EntryBlock, Wrap32;
    EndsWithClusters(v, s, f.size);
  }

  class Gristle {
    const v: Volume
    var disk: Disk
    var sysbuf: Block
    var files: seq<FileS>
    /** Chains of the volume by owner: owners below MAX_OPEN_FILES are the open files, the others
        are the directories and the files that are not open. */
    ghost var chains: seq<seq<nat>>
    /** The driver has gone where the model does not follow: it was handed a cluster behind the volume,
        or is about to write through a record that a failed seek left elsewhere.  The model stops
        there; it happens only with no cluster of the volume free. */
    var astray: bool

    /** Finds the lowest zero entry of the FAT and marks it as the end of a chain; 0 when there is none.
        Its cluster belongs to the volume exactly if a cluster of the volume is free: the number of
        clusters is nowhere looked at. */
    method GetFreeCluster() returns (r: nat)
      requires HasFat(v, disk) && FreeOK(v, disk)
      modifies `disk, `sysbuf
      ensures r == 0 <==> forall c: nat | c < Entries(v) :: Entry(v, old(disk), c) != 0
      ensures r == 0 ==> disk == old(disk)
      ensures r != 0 ==> LowestFree(v, old(disk), r) && disk == WriteEntry(v, old(disk), r, EndOfChain(v))
      ensures 0 < r < v.clusterEnd <==> !NoFree(v, old(disk))
    {
      hide LoadEntry, StoreEntry, EntryBlock, EntryOffset, VolumeOK, SlotOffset, EndOfChain;
      FatOnDisk(v);
      var i := v.fatStart;
      while i < v.fatStart + v.fatLen
        invariant v.fatStart <= i <= v.fatStart + v.fatLen
        invariant disk == old(disk)
        invariant forall c: nat | c < ClusterAt(v, i, 0) :: Entry(v, disk, c) != 0
      {
        sysbuf := disk[i];
        var j := 0;
        while j < PerBlock(v)
          invariant j <= PerBlock(v)
          invariant disk == old(disk) && sysbuf == disk[i]
          invariant forall c: nat | c < ClusterAt(v, i, j) :: Entry(v, disk, c) != 0
        {
          ClusterAtPlace(v, i, j);
          EntryFits(v, ClusterAt(v, i, j));
          if LoadEntry(v, sysbuf, SlotOffset(v, j)) == 0 {
            LowestInVolume(v, disk, ClusterAt(v, i, j));
            sysbuf := StoreEntry(v, sysbuf, SlotOffset(v, j), EndOfChain(v));
            disk := disk[i := sysbuf];
            return ClusterAt(v, i, j);
          }
          j := j + 1;
        }
        i := i + 1;
      }
      return 0;
    }

    /** Frees the chain that starts at `cluster`, keeping one FAT block in `sysbuf` and writing it
        back when the walk leaves it. */
    method FreeClusters(cluster: nat, ghost s: seq<nat>)
      requires HasFat(v, disk) && IsChain(v, disk, s) && s[0] == cluster
      modifies `disk, `sysbuf
      ensures disk == ZeroAll(v, old(disk), s)
    {
      hide StoreEntry, LoadEntry, ZeroAll, Entry, EntryBlock, EntryOffset, IsChain;
      var c := cluster;
      var currentBlock := -1;
      ghost var n := 0;
      ZeroNone(v, disk, s);
      while true
        invariant n < |s| && c == s[n] && HasFat(v, disk) && HasFat(v, old(disk))
        invariant IsChain(v, old(disk), s)
        invariant currentBlock == -1 ==> disk == Freed(v, old(disk), s, n)
        invariant currentBlock != -1 ==>
                    InFat(v, currentBlock) && disk[currentBlock := sysbuf] == Freed(v, old(disk), s, n)
        decreases |s| - n
      {
        ChainInFat(v, old(disk), s, n);
        if EntryBlock(v, c) != currentBlock {
          if currentBlock != -1 {
            disk := disk[currentBlock := sysbuf];
          }
          sysbuf := disk[EntryBlock(v, c)];
          currentBlock := EntryBlock(v, c);
        }
        assert disk[currentBlock := sysbuf] == Freed(v, old(disk), s, n);
        FreeStep(v, old(disk), s, n, disk, sysbuf);
        var estart := EntryOffset(v, c);
        c := LoadEntry(v, sysbuf, estart);
        sysbuf := StoreEntry(v, sysbuf, estart, 0);
        n := n + 1;
        if c >= Marker(v) {
          break;
        }
      }
      disk := disk[currentBlock := sysbuf];
      assert s[..|s|] == s;
    }

    /** Selects the first sector of a cluster; cluster 1 stands for the fixed FAT16 root. */
    method SelectCluster(fd: nat, cluster: nat)
      requires fd < |files|
      modifies `files
      ensures cluster != 1 ==>
                files == old(files)[fd := old(files[fd]).(
                  sector := SectorOf(v, cluster, 0), sectorsLeft := v.spc - 1, cluster := cluster, cursor := 0,
                  buffer := Blk(disk, SectorOf(v, cluster, 0)))]
      ensures cluster == 1 ==>
                files == old(files)[fd := old(files[fd]).(
                  sector := v.rootStart, sectorsLeft := v.rootLen, cluster := 1, cursor := 0,
                  buffer := Blk(disk, v.rootStart))]
    {
      if cluster == 1 {
        files := files[fd := files[fd].(sector := v.rootStart, sectorsLeft := v.rootLen, cluster := 1, cursor := 0)];
      } else {
        files := files[fd := files[fd].(sector := cluster * v.spc + v.cluster0, sectorsLeft := v.spc - 1,
                                        cluster := cluster, cursor := 0)];
      }
      files := files[fd := files[fd].(buffer := Blk(disk, files[fd].sector))];
    }

    /** The next cluster of the chain the record stands in, or -1 at its end; a file opened for
        writing grows there instead.  The record stands in cluster number n of owner o's chain.
        Every caller has flushed the buffer, so the flush the source starts with does nothing.
        Handed a cluster behind the volume, the source goes on and links it; the model stops. */
    method NextCluster(fd: nat, ghost o: nat, ghost n: nat) returns (r: int)
      requires SystemOK(v, disk, chains) && |files| == 4 && fd < 4 && !astray
      requires o < |chains| && n < |chains[o]| && files[fd].cluster == chains[o][n]
      requires n + 1 == |chains[o]| ==> o == fd
      requires o == fd && files[fd].write ==>
                SavedEntry(v, chains, files[fd].entrySector, files[fd].entryNumber)
      modifies `disk, `sysbuf, `files, `chains, `astray
      decreases if o == fd then 1 else 0, 1
      ensures |files| == 4 && |chains| == old(|chains|)
      ensures SystemOK(v, disk, chains) && (!astray ==> -1 <= r < Marker(v))
      ensures DataKept(v, old(disk), disk, old(chains))
      ensures n + 1 < old(|chains[o]|) ==>
                r == old(chains[o][n + 1]) && unchanged(`disk, `chains, `astray)
                && files == old(files)[fd := old(files[fd]).(buffer := files[fd].buffer)]
      ensures n + 1 == old(|chains[o]|) && (!old(files[fd].write) || NoFree(v, old(disk))) ==>
                unchanged(`chains) && (!astray ==> r == -1 && unchanged(`disk))
                && files == old(files)[fd := old(files[fd]).(buffer := files[fd].buffer, error := files[fd].error)]
                && files[fd].buffer == Blk(old(disk), EntryBlock(v, old(files[fd].cluster)))
                && files[fd].error == (if old(files[fd].write) then old(files[fd].error) else 2)
      ensures n + 1 == old(|chains[o]|) && old(files[fd].write) && !NoFree(v, old(disk)) ==>
                r >= 0 && !astray && NextFree(v, old(disk), r) && chains == old(chains)[fd := old(chains[fd]) + [r]]
                && files == old(files)[fd := old(files[fd]).(buffer := files[fd].buffer, fsDirty := files[fd].fsDirty)]
      ensures astray ==> MarkedBehind(v, old(disk), disk) && NoFree(v, disk) && old(files[fd].write)
      ensures EntriesKept(v, old(disk), disk, old(chains), old(files[fd]), files[fd])
    {
      hide SystemOK, FreeOK, Entries, EntryBlock, EntryOffset, LoadEntry, StoreEntry, DataKept, SavedEntry, NoFree,
           LowestFree, EntriesKept;
      DataKeptSame(v, disk, chains);
      var f := files[fd];
      StandsIn(v, disk, chains, o, n);
      var off := EntryOffset(v, f.cluster);
      var b := EntryBlock(v, f.cluster);
      files := files[fd := files[fd].(buffer := disk[b])];
      EntriesSame(v, disk, chains, f, files[fd]);
      var j := LoadEntry(v, files[fd].buffer, off);
      if j >= Marker(v) {
        if !f.write {
          files := files[fd := files[fd].(error := 2)];
          EntriesSame(v, disk, chains, f, files[fd]);
          return -1;
        }
        var k := GetFreeCluster();
        if k == 0 {
          return -1;
        }
        if k >= v.clusterEnd {
          astray := true;
          MarkedSystem(v, old(disk), disk, chains);
          MarkedData(v, old(disk), disk, chains);
          MarkedEntries(v, old(disk), disk, chains, f, files[fd]);
          return -1;
        }
        IsNext(v, old(disk), k);
        ghost var h := files[fd];
        LinkCluster(fd, k, b, off, old(disk));
        EntriesTrans(v, old(disk), old(disk), disk, old(chains), old(chains), f, h, files[fd]);
        return k;
      }
      return j;
    }

    /** The end of `fat_next_cluster` with a free cluster k in hand, marked on what was disk d0: links it
        to the last cluster, whose entry is at `off` in FAT block b, and saves the directory entry. */
    method LinkCluster(fd: nat, k: nat, b: nat, off: nat, ghost d0: Disk)
      requires SystemOK(v, d0, chains) && |files| == 4 && fd < 4 && fd < |chains| && chains[fd] != [] && !astray
      requires HasFat(v, d0) && NextFree(v, d0, k) && k < Entries(v) && disk == WriteEntry(v, d0, k, EndOfChain(v))
      requires files[fd].cluster == chains[fd][|chains[fd]| - 1]
      requires b == EntryBlock(v, files[fd].cluster) && off == EntryOffset(v, files[fd].cluster)
      requires SavedEntry(v, chains, files[fd].entrySector, files[fd].entryNumber)
      modifies `disk, `sysbuf, `files, `chains, `astray
      decreases 1, 0, 1
      ensures |files| == 4 && !astray && SystemOK(v, disk, chains) && DataKept(v, d0, disk, old(chains))
      ensures chains == old(chains)[fd := old(chains[fd]) + [k]] && k < Marker(v)
      ensures files == old(files)[fd := old(files[fd]).(buffer := files[fd].buffer, fsDirty := files[fd].fsDirty)]
      ensures EntriesKept(v, d0, disk, old(chains), old(files[fd]), files[fd])
    {
      hide SystemOK, FreeOK, Entries, EntryBlock, EntryOffset, LoadEntry, StoreEntry, DataKept, SavedEntry, NoFree,
           NextFree, PutDirent, FirstSlotOf, DirBlock, WriteEntry, EntriesKept, DirsKept, Grow, SameDirs;
      GrowSystem(v, d0, chains, fd, k);
      GrownEntry(v, d0, chains, fd, k, files[fd]);
      files := files[fd := files[fd].(buffer := disk[b])];
      files := files[fd := files[fd].(buffer := StoreEntry(v, files[fd].buffer, off, k))];
      disk := disk[b := files[fd].buffer];
      DirsKeptGrow(v, d0, chains, chains[fd][|chains[fd]| - 1], k);
      EntriesFromDirs(v, d0, disk, chains, old(files[fd]), files[fd]);
      chains := chains[fd := chains[fd] + [k]];
      ghost var grown, h := disk, files[fd];
      FlushFileinfo(fd);
      DirsSame(old(chains), fd, chains[fd]);
      EntriesTrans(v, d0, grown, disk, old(chains), chains, old(files[fd]), h, files[fd]);
      DataKeptPrefix(v, grown, disk, old(chains), fd, k);
      DataKeptTrans(v, d0, grown, disk, old(chains));
    }

    /** Saves the directory entry of the record: in the slot it has, or in the first free slot of
        its parent directory.  The buffer is clean at every call, so the flush inside the source
        does nothing; on return the buffer holds the record's own sector again. */
    method FlushFileinfo(fd: nat)
      requires SystemOK(v, disk, chains) && |files| == 4 && fd < 4 && !astray
      requires CanSaveEntry(v, disk, chains, files[fd])
      modifies `disk, `sysbuf, `files, `chains, `astray
      decreases 1, 0, 0
      ensures |files| == 4
      ensures SystemOK(v, disk, chains) && unchanged(`chains, `astray)
      ensures DataKept(v, old(disk), disk, chains)
      ensures SkipsEntry(v, old(files[fd])) ==> unchanged(`disk, `files)
      ensures !SkipsEntry(v, old(files[fd])) ==>
                var f, g := old(files[fd]), files[fd];
                && DirBlock(v, chains, g.entrySector) && g.entryNumber < 16
                && (f.entrySector != 0 ==> g.entrySector == f.entrySector && g.entryNumber == f.entryNumber)
                && (f.entrySector == 0 ==>
                      FirstSlotOf(v, old(disk), chains, f.parentCluster, g.entrySector, g.entryNumber))
                && disk == SetBlk(old(disk), g.entrySector, PutDirent(Blk(old(disk), g.entrySector), g.entryNumber, f))
                && files == old(files)[fd := f.(entrySector := g.entrySector, entryNumber := g.entryNumber,
                                                fsDirty := false, buffer := Blk(disk, f.sector))]
                && EntryOnDisk(disk, g)
      ensures EntriesKept(v, old(disk), disk, old(chains), old(files[fd]), files[fd])
    {
      hide SystemOK, DataKept, Dirent, PutDirent, ParentHasSlot, Forest, FreeOK, FirstSlotOf, NoFree, NextFree,
           MarkedBehind, DirBlock, SetBlk, Blk, HasFat, Entry, EntriesKept, EntryOnDisk, Taken;
      DataKeptSame(v, disk, chains);
      var f := files[fd];
      EntriesSame(v, disk, chains, f, f);
      if f.fullFirstCluster == v.rootCluster {
        return;
      }
      if f.entrySector == 0 && !f.write {
        return;
      }
      if f.fullFirstCluster == 0 {
        return;
      }
      if f.entrySector == 0 {
        FindSlot(fd);
        FirstIsFree(v, disk, chains, f.parentCluster, files[fd].entrySector, files[fd].entryNumber);
        files := files[fd := files[fd].(sectorsLeft := f.sectorsLeft, fileSector := f.fileSector,
                                        cursor := f.cursor, sector := f.sector, cluster := f.cluster)];
      } else {
        files := files[fd := files[fd].(buffer := Blk(disk, f.entrySector))];
      }
      DirWriteKeeps(v, disk, chains, files[fd].entrySector, ZeroBlock());
      WriteDirent(fd, f);
      EntriesFromSave(v, old(disk), disk, chains, f, files[fd]);
    }

    /** Puts the entry of f into the directory block in the buffer, writes the block, and reads the
        record's own sector back. */
    method WriteDirent(fd: nat, f: FileS)
      requires SystemOK(v, disk, chains) && |files| == 4 && fd < 4
      requires DirBlock(v, chains, files[fd].entrySector) && files[fd].entryNumber < 16
      requires files[fd].buffer == Blk(disk, files[fd].entrySector)
      modifies `disk, `files
      ensures SystemOK(v, disk, chains) && DataKept(v, old(disk), disk, chains) && |files| == 4
      ensures var g := old(files[fd]);
              && disk == SetBlk(old(disk), g.entrySector, PutDirent(Blk(old(disk), g.entrySector), g.entryNumber, f))
              && files == old(files)[fd := g.(fsDirty := false, buffer := Blk(disk, g.sector))]
    {
      hide SystemOK, DataKept, Dirent, DirBlock;
      var g := files[fd];
      DirWriteKeeps(v, disk, chains, g.entrySector, PutDirent(g.buffer, g.entryNumber, f));
      var de := Dirent(f);
      files := files[fd := g.(buffer := g.buffer[..g.entryNumber * 32] + de + g.buffer[g.entryNumber * 32 + 32..])];
      disk := disk[g.entrySector := files[fd].buffer];
      files := files[fd := files[fd].(buffer := Blk(disk, files[fd].sector))];
      files := files[fd := files[fd].(fsDirty := false)];
    }

    /** Walks the parent directory to its first free slot and records the slot as the file's own. */
    method FindSlot(fd: nat)
      requires SystemOK(v, disk, chains) && |files| == 4 && fd < 4 && !astray
      requires ParentHasSlot(v, disk, chains, files[fd].parentCluster)
      modifies `disk, `sysbuf, `files, `chains, `astray
      decreases 0, 3
      ensures |files| == 4
      ensures unchanged(`disk, `chains, `astray)
      ensures var f, g := old(files[fd]), files[fd];
              && FirstSlotOf(v, disk, chains, f.parentCluster, g.entrySector, g.entryNumber)
              && DirBlock(v, chains, g.entrySector) && g.entryNumber < 16 && g.buffer == Blk(disk, g.entrySector)
              && files == old(files)[fd := Moved(f, g).(entrySector := g.entrySector, entryNumber := g.entryNumber)]
    {
      hide SystemOK, Forest, DataKept, SavedEntry, NoFree, NextFree, SecAt, Stepped, AtSector, Moved, DirBlock, FreeOK,
           HasSlot, FirstInBlock, MarkedBehind, Blk, Entry, EntryBlock, EntryOffset, Entries;
      ghost var o: nat, k0: nat :| SlotIn(v, disk, chains, files[fd].parentCluster, o, k0);
      ghost var k := 0;
      StandsIn(v, disk, chains, o, 0);
      SecAtStart(v, chains[o]);
      SelectCluster(fd, files[fd].parentCluster);
      SelectedMoves(v, disk, old(files[fd]), files[fd], chains[o]);
      var i := 0;
      while true
        invariant unchanged(`disk, `chains, `astray) && k <= k0 && |files| == 4
        invariant AtSector(v, files[fd], chains[o], k) && files[fd].buffer == Blk(disk, files[fd].sector)
        invariant InChain(v, chains[o], k) && files[fd].sector == SecAt(v, chains[o], k)
        invariant files == old(files)[fd := files[fd]] && files[fd] == Moved(old(files[fd]), files[fd])
        invariant forall j: nat | j < k && InChain(v, chains[o], j) :: !HasSlot(Blk(disk, SecAt(v, chains[o], j)))
        decreases k0 - k
      {
        i := SlotOfBlock(files[fd].buffer);
        if i < 16 {
          break;
        }
        InChainMonotone(v, chains[o], k + 1, k0);
        SteppedMoves(v, disk, old(files[fd]), files[fd], chains[o], k + 1);
        var _ := AdvanceSector(fd, o, k);
        k := k + 1;
      }
      DirSector(v, disk, chains, o, k);
      MovedUpdate(old(files[fd]), files[fd], files[fd].sector, i);
      files := files[fd := files[fd].(entrySector := files[fd].sector, entryNumber := i)];
      assert FirstSlot(v, disk, chains, old(files[fd].parentCluster), o, k, i);
    }

    /** The inner loop of the search: the first free one of the 16 slots in the buffer, or 16. */
    method SlotOfBlock(b: Block) returns (i: nat)
      ensures if HasSlot(b) then i < 16 && FirstInBlock(b, i) else i == 16
    {
      i := 0;
      while i < 16
        invariant i <= 16 && forall n | 0 <= n < i :: !FreeSlot(b, n)
      {
        if b[i * 32] == 0 {
          assert FreeSlot(b, i);
          return;
        }
        i := i + 1;
      }
    }

    /** On to the next sector of the same cluster. */
    method StepSector(fd: nat, ghost s: seq<nat>, ghost k: nat)
      requires fd < |files| && AtSector(v, files[fd], s, k) && files[fd].sectorsLeft > 0
      modifies `files
      ensures InChain(v, s, k + 1) && files == old(files)[fd := Stepped(v, disk, old(files[fd]), s, k + 1)]
    {
      hide Blk, SectorOf;
      StepInCluster(v, s, k);
      files := files[fd := files[fd].(sectorsLeft := files[fd].sectorsLeft - 1,
                                      fileSector := files[fd].fileSector + 1, cursor := 0)];
      files := files[fd := files[fd].(sector := files[fd].sector + 1)];
      files := files[fd := files[fd].(buffer := Blk(disk, files[fd].sector))];
    }

    /** On to the first sector of the next cluster. */
    method EnterCluster(fd: nat, c: nat, ghost s: seq<nat>, ghost k: nat)
      requires fd < |files| && InChain(v, s, k + 1) && s[(k + 1) / v.spc] == c >= 2 && (k + 1) % v.spc == 0
      modifies `files
      ensures files == old(files)[fd := Stepped(v, disk, old(files[fd]), s, k + 1)]
    {
      files := files[fd := files[fd].(fileSector := files[fd].fileSector + 1)];
      SelectCluster(fd, c);
    }

    /** `fat_next_sector` once the buffer is clean: on to the sector after sector k of owner o's chain. */
    method AdvanceSector(fd: nat, ghost o: nat, ghost k: nat) returns (r: int)
      requires SystemOK(v, disk, chains) && |files| == 4 && fd < 4 && !astray
      requires o < |chains| && AtSector(v, files[fd], chains[o], k)
      requires !InChain(v, chains[o], k + 1) ==> o == fd
      requires o == fd && files[fd].write ==>
                SavedEntry(v, chains, files[fd].entrySector, files[fd].entryNumber)
      modifies `disk, `sysbuf, `files, `chains, `astray
      decreases if o == fd then 1 else 0, 2
      ensures |files| == 4 && |chains| == old(|chains|)
      ensures SystemOK(v, disk, chains)
      ensures DataKept(v, old(disk), disk, old(chains))
      ensures InChain(v, old(chains[o]), k + 1) ==>
                r == 0 && unchanged(`disk, `chains, `astray)
                && files == old(files)[fd := Stepped(v, disk, old(files[fd]), chains[o], k + 1)]
      ensures !InChain(v, old(chains[o]), k + 1) && (!old(files[fd].write) || NoFree(v, old(disk))) ==>
                unchanged(`chains) && (!astray ==> r == -1 && unchanged(`disk))
                && files == old(files)[fd := old(files[fd]).(buffer := files[fd].buffer, error := files[fd].error)]
                && files[fd].buffer == Blk(old(disk), EntryBlock(v, old(files[fd].cluster)))
      ensures !InChain(v, old(chains[o]), k + 1) && old(files[fd].write) && !NoFree(v, old(disk)) ==>
                r == 0 && !astray && |chains[fd]| == |old(chains[fd])| + 1 && chains[fd][..|old(chains[fd])|] == old(chains[fd])
                && NextFree(v, old(disk), chains[fd][|old(chains[fd])|])
                && chains == old(chains)[fd := chains[fd]] && InChain(v, chains[fd], k + 1)
                && files == old(files)[fd := Stepped(v, disk, old(files[fd]), chains[fd], k + 1).(fsDirty := files[fd].fsDirty)]
      ensures astray ==> MarkedBehind(v, old(disk), disk) && NoFree(v, disk) && old(files[fd].write)
      ensures EntriesKept(v, old(disk), disk, old(chains), old(files[fd]), files[fd])
    {
      hide SystemOK, DataKept, SavedEntry, NoFree, NextFree, MarkedBehind, EntryBlock, Blk, SectorOf, HasFat, Entries,
           FreeOK, EntryOffset, Entry, EntriesKept, SameDirs, Stepped, LowestFree, Marker, Usable, VolumeOK;
      DataKeptSame(v, disk, chains);
      if files[fd].sectorsLeft > 0 {
        StepSector(fd, chains[o], k);
        EntriesSame(v, disk, chains, old(files[fd]), old(files[fd]));
        SameDirsSelf(chains);
        SteppedEntries(v, disk, disk, chains, chains, old(files[fd]), old(files[fd]), chains[o], k + 1);
        return 0;
      }
      StepToCluster(v, chains[o], k);
      var c := NextCluster(fd, o, k / v.spc);
      if !astray && c > -1 {
        StandsIn(v, disk, chains, o, k / v.spc + 1);
        ghost var h := files[fd];
        EnterCluster(fd, c, chains[o], k);
        SystemParts(v, disk, chains);
        DirsSame(old(chains), fd, chains[fd]);
        SteppedFrom(v, disk, old(files[fd]), h, chains[o], k + 1);
        SteppedEntries(v, old(disk), disk, old(chains), chains, old(files[fd]), h, chains[o], k + 1);
        return 0;
      }
      return -1;
    }
  
    // -------------------------------------------------------------- whole operations

    /** The driver invariant: the FAT is a forest and every open regular file is consistent. */
    ghost predicate Valid() reads this { AllOK(v, disk, files, chains) }

    /** The byte sequence open file fd stands for. */
    ghost function Bytes(fd: nat): seq<Byte>
      requires fd < |files| && fd < |chains|
      reads this
    {
      Content(v, disk, files[fd], chains[fd])
    }

    /** The record with its own sector in the buffer, where a failed step has left another block; a
        file without clusters has its bytes nowhere but in the buffer. */
    ghost function Settled(fd: nat): FileS
      requires fd < |files| && fd < |chains|
      reads this
    {
      if chains[fd] == [] then files[fd] else Reloaded(v, disk, files[fd])
    }

    /** What file fd contains, whatever a failed step left in its buffer ... */
    ghost function Kept(fd: nat): seq<Byte>
      requires fd < |files| && fd < |chains|
      reads this
    {
      Content(v, disk, Settled(fd), chains[fd])
    }

    /** ... if nothing but the buffer is amiss. */
    ghost predicate Recoverable(fd: nat) reads this {
      fd < 4 && |files| == 4 && fd < |chains| && AllOK(v, disk, files[fd := Settled(fd)], chains)
    }

    /** Writes the buffer back if it is dirty; a file without clusters gets its first one, and, if it
        has no directory entry yet, the first free slot of its parent.  No byte of any file changes.
        Fails only when no cluster of the volume is free. */
    method Flush(fd: nat) returns (r: int)
      requires Valid() && !astray && fd < 4 && Active(files[fd]) && CanStart(v, disk, chains, files[fd], fd)
      modifies `disk, `sysbuf, `files, `chains, `astray
      ensures |files| == 4 && |chains| == old(|chains|)
      ensures OthersSame(v, fd, old(disk), old(files), old(chains), disk, files, chains)
      ensures Valid() && Bytes(fd) == old(Bytes(fd))
      ensures !astray ==> r == if old(files[fd].dirty && chains[fd] == [] && NoFree(v, disk)) then -1 else 0
      ensures astray ==> old(files[fd].dirty && chains[fd] == [] && NoFree(v, disk)) && MarkedBehind(v, old(disk), disk)
      ensures astray || r == -1 ==> unchanged(`files, `chains) && (!astray ==> unchanged(`disk)) && NoFree(v, disk)
      ensures !old(files[fd].dirty) ==> unchanged(`disk, `files, `chains)
      ensures !astray && r == 0 ==> SavedFrom(old(files[fd]), files[fd])
      ensures old(chains[fd] != [] || !files[fd].dirty) ==>
                unchanged(`chains) && files[fd] == old(files[fd]).(dirty := false)
                && disk == Flushed(old(disk), old(files[fd]))
      ensures !astray && r == 0 && old(chains[fd] == [] && files[fd].dirty) ==>
                && |chains[fd]| == 1 && NextFree(v, old(disk), chains[fd][0])
                && if old(files[fd].entrySector) != 0 then
                     files[fd].entrySector == old(files[fd].entrySector) && files[fd].entryNumber == old(files[fd].entryNumber)
                   else old(files[fd].write) ==>
                     FirstSlotOf(v, old(disk), old(chains), old(files[fd].parentCluster),
                                 files[fd].entrySector, files[fd].entryNumber)
      ensures !astray && r == 0 && old(chains[fd] == [] && files[fd].dirty && (files[fd].write || files[fd].entrySector != 0)) ==>
                Lists(disk, files[fd].entrySector, files[fd].entryNumber, old(files[fd].name), old(files[fd].attributes),
                      chains[fd][0], |old(Bytes(fd))|)
    {
      hide Lists, EntryOnDisk, EntriesKept, SystemOK, NoFree, NextFree, LowestFree, FileOK, Content, FdOK, AllOK,
           AllButOK, OthersSame, SavedEntry, DataKept, CanSaveEntry, ParentHasSlot, WriteEntry, FreeOK, Dirent,
           PutDirent, MarkedBehind, FirstSlotOf;
      r := 0;
      FdParts(v, disk, files, chains, fd);
      SystemParts(v, disk, chains);
      if files[fd].dirty {
        if files[fd].sector == 0 {
          var cluster := GetFreeCluster();
          if cluster == 0 {
            SelfSame(v, fd, disk, files, chains);
            return -1;
          }
          if cluster >= v.clusterEnd {
            astray := true;
            IsMarked(v, old(disk), disk, cluster);
            MarkedAll(v, old(disk), files, chains, fd, disk);
            return -1;
          }
          IsNext(v, old(disk), cluster);
          StartFile(fd, cluster, old(disk));
          if old(files[fd].write || files[fd].entrySector != 0) {
            EntryLists(disk, files[fd]);
          }
        } else {
          OwnWrite(v, disk, files, chains, fd);
          WriteBack(fd);
        }
      } else {
        SelfSame(v, fd, disk, files, chains);
      }
    }

    /** A dirty buffer goes to the sector the record names. */
    method WriteBack(fd: nat)
      requires fd < |files| && 0 <= files[fd].sector < |disk|
      modifies `disk, `files
      ensures disk == old(disk)[old(files[fd].sector) := old(files[fd].buffer)]
      ensures files == old(files)[fd := old(files[fd]).(dirty := false)]
    {
      disk := disk[files[fd].sector := files[fd].buffer];
      files := files[fd := files[fd].(dirty := false)];
    }

    /** The rest of the first save, once the first cluster is marked on what was disk d0. */
    method StartFile(fd: nat, cluster: nat, ghost d0: Disk)
      requires !astray && fd < 4 && AllOK(v, d0, files, chains) && Active(files[fd]) && |files| == 4 && fd < |chains|
      requires chains[fd] == [] && files[fd].dirty && CanStart(v, d0, chains, files[fd], fd)
      requires HasFat(v, d0) && NextFree(v, d0, cluster) && disk == WriteEntry(v, d0, cluster, EndOfChain(v))
      modifies `disk, `sysbuf, `files, `chains, `astray
      ensures !astray && |files| == 4 && chains == old(chains)[fd := [cluster]]
      ensures OthersSame(v, fd, d0, old(files), old(chains), disk, files, chains)
      ensures Valid() && Bytes(fd) == Content(v, d0, old(files[fd]), [])
      ensures SavedFrom(old(files[fd]), files[fd])
      ensures if old(files[fd].entrySector) != 0 then
                files[fd].entrySector == old(files[fd].entrySector) && files[fd].entryNumber == old(files[fd].entryNumber)
              else old(files[fd].write) ==>
                FirstSlotOf(v, d0, old(chains), old(files[fd].parentCluster), files[fd].entrySector, files[fd].entryNumber)
      ensures old(files[fd].write || files[fd].entrySector != 0) ==> EntryOnDisk(disk, files[fd])
      ensures files[fd].fullFirstCluster == cluster
    {
      hide SystemOK, NoFree, NextFree, LowestFree, FileOK, Content, FdOK, AllOK, AllButOK, OthersSame, SavedEntry,
           DataKept, CanSaveEntry, ParentHasSlot, WriteEntry, FreeOK, Dirent, PutDirent, FirstSlotOf, DirBlock,
           CanStart, EntriesKept, EntryOnDisk;
      FdParts(v, d0, files, chains, fd);
      StartSystem(v, d0, files, chains, fd, cluster);
      StartedEntry(v, d0, files, chains, fd, cluster);
      files := files[fd := files[fd].(fullFirstCluster := cluster, fsDirty := true,
                                      sector := cluster * v.spc + v.cluster0, sectorsLeft := v.spc - 1,
                                      cluster := cluster)];
      chains := chains[fd := [cluster]];
      disk := disk[files[fd].sector := files[fd].buffer];
      files := files[fd := files[fd].(dirty := false)];
      ghost var d, fs, cs := disk, files, chains;
      assert files == old(files)[fd := Started(v, old(files[fd]), cluster)];
      FlushFileinfo(fd);
      assert files == fs[fd := files[fd]];
      EntryMayBeSaved(v, d, fs, cs, fd, disk, files[fd]);
      OthersSameTrans(v, fd, d0, old(files), old(chains), d, fs, cs, disk, files, chains);
      if old(files[fd].entrySector) == 0 && old(files[fd].write) {
        StartedSlot(v, d0, old(chains), fd, cluster, old(files[fd]), files[fd].entrySector, files[fd].entryNumber);
      }
    }

    /** `fat_next_sector` on an open file whose cursor has rolled over.  On success no byte changed and
        the position is the start of the next sector, in a chain that may have grown.  It fails only
        at the end of a chain that cannot grow; then the buffer holds the FAT block just looked up,
        and only reloading the file's own sector makes the record consistent again. */
    method NextSector(fd: nat) returns (r: int)
      requires Valid() && !astray && fd < 4 && Active(files[fd]) && CanStart(v, disk, chains, files[fd], fd)
      requires files[fd].cursor == 512
      modifies `disk, `sysbuf, `files, `chains, `astray
      ensures |files| == 4 && |chains| == old(|chains|) && SameMode(old(files[fd]), files[fd])
      ensures OthersSame(v, fd, old(disk), old(files), old(chains), disk, files, chains)
      ensures AllButOK(v, disk, files, chains, fd)
      ensures !astray ==> r == 0 || r == -1
      ensures !astray && r == 0 ==>
                && Valid() && Bytes(fd) == old(Bytes(fd)) && !files[fd].dirty
                && chains[fd] != [] && |chains[fd]| >= |old(chains[fd])|
                && files[fd].cursor == 0 && files[fd].fileSector == old(files[fd].fileSector) + 1
      ensures !astray && r == -1 ==> Recoverable(fd) && Kept(fd) == old(Bytes(fd)) && (NoFree(v, disk) || !files[fd].write)
      ensures (astray ==> NoFree(v, disk)) && (old(chains[fd]) != [] ==> chains[fd] != [])
      ensures astray && old(chains[fd]) != [] ==>
                files[fd].write && NoFree(v, old(disk)) && !Full(v, old(disk))
                && !InChain(v, old(chains[fd]), old(files[fd].fileSector) + 1)
      ensures old(chains[fd]) != [] ==>
                files[fd] == Moved(old(files[fd]), files[fd]).(dirty := false, error := files[fd].error, fsDirty := files[fd].fsDirty)
      ensures !astray && old(chains[fd]) != [] ==>
                (r == 0 <==> InChain(v, old(chains[fd]), old(files[fd].fileSector) + 1)
                             || (old(files[fd].write) && !NoFree(v, old(disk))))
      ensures !astray && r == -1 && old(chains[fd]) != [] ==>
                && unchanged(`chains)
                && files[fd] == old(files[fd]).(dirty := false, buffer := files[fd].buffer, error := files[fd].error)
                && files[fd].buffer == Blk(disk, EntryBlock(v, files[fd].cluster))
      ensures old(chains[fd] != [] && !files[fd].dirty) && !astray ==>
                (r == -1 || InChain(v, old(chains[fd]), old(files[fd].fileSector) + 1) ==> unchanged(`disk, `chains))
      ensures old(chains[fd]) != [] && InChain(v, old(chains[fd]), old(files[fd].fileSector) + 1) ==> unchanged(`chains)
    {
      hide SystemOK, NoFree, NextFree, FileOK, Content, FdOK, AllOK, AllButOK, OthersSame, SavedEntry, DataKept,
           CanSaveEntry, ParentHasSlot, EntryBlock, AtSector, InChain, CanStart, MarkedBehind, FirstSlotOf, HasFat,
           Full, Flushed;
      RolledOver(v, disk, files, chains, fd);
      FdParts(v, disk, files, chains, fd);
      NoFreeKept(v, disk, files, chains, fd);
      r := Flush(fd);
      FdParts(v, disk, files, chains, fd);
      OpenGap(v, disk, files, chains, fd);
      if astray || r != 0 {
        SameRecord(files, fd);
        return -1;
      }
      ghost var d, fs, cs := disk, files, chains;
      r := NextOfSaved(fd);
      OthersSameTrans(v, fd, old(disk), old(files), old(chains), d, fs, cs, disk, files, chains);
    }

    /** The second half of `fat_next_sector`, with nothing left to flush. */
    method NextOfSaved(fd: nat) returns (r: int)
      requires Valid() && !astray && fd < 4 && |files| == 4 && fd < |chains| && Active(files[fd])
      requires HasFat(v, disk) && !files[fd].dirty && chains[fd] != [] && files[fd].cursor == 512
      modifies `disk, `sysbuf, `files, `chains, `astray
      ensures |files| == 4 && |chains| == old(|chains|) && SameMode(old(files[fd]), files[fd])
      ensures OthersSame(v, fd, old(disk), old(files), old(chains), disk, files, chains)
      ensures AllButOK(v, disk, files, chains, fd)
      ensures !astray ==> r == if InChain(v, old(chains[fd]), old(files[fd].fileSector) + 1)
                                  || (old(files[fd].write) && !NoFree(v, old(disk))) then 0 else -1
      ensures !astray && r == 0 ==>
                && Valid() && Bytes(fd) == old(Bytes(fd)) && !files[fd].dirty
                && chains[fd] != [] && |chains[fd]| >= |old(chains[fd])|
                && files[fd].cursor == 0 && files[fd].fileSector == old(files[fd].fileSector) + 1
      ensures !astray && r == -1 ==>
                && Recoverable(fd) && Kept(fd) == old(Bytes(fd)) && (NoFree(v, disk) || !files[fd].write)
                && unchanged(`chains)
                && files[fd] == old(files[fd]).(buffer := files[fd].buffer, error := files[fd].error)
                && files[fd].buffer == Blk(disk, EntryBlock(v, files[fd].cluster))
      ensures files[fd] == Moved(old(files[fd]), files[fd]).(error := files[fd].error, fsDirty := files[fd].fsDirty)
      ensures HasFat(v, disk) && chains[fd] != []
      ensures astray ==>
                && NoFree(v, disk) && files[fd].write && NoFree(v, old(disk)) && !Full(v, old(disk))
                && !InChain(v, old(chains[fd]), old(files[fd].fileSector) + 1)
      ensures !astray && (r == -1 || InChain(v, old(chains[fd]), old(files[fd].fileSector) + 1)) ==>
                unchanged(`disk, `chains)
    {
      hide SystemOK, NoFree, NextFree, FileOK, Content, FdOK, AllOK, AllButOK, OthersSame, SavedEntry, DataKept,
           CanSaveEntry, ParentHasSlot, EntryBlock, AtSector, InChain, MarkedBehind, HasFat, Full, FreeOK, Forest,
           EntriesKept, Stepped;
      FdParts(v, disk, files, chains, fd);
      SystemParts(v, disk, chains);
      r := AdvanceSector(fd, fd, files[fd].fileSector);
      assert files == old(files)[fd := files[fd]] && old(chains) == old(chains)[fd := old(chains[fd])];
      SystemParts(v, disk, chains);
      if !astray && r == 0 {
        assert old(chains[fd]) <= chains[fd];
        SteppedOK(v, old(disk), old(files), old(chains), fd, disk, chains[fd], files[fd]);
        OpenGap(v, disk, files, chains, fd);
      } else {
        FailedStep(v, old(disk), old(files), old(chains), fd, disk, files[fd]);
        if astray {
          MarkedNotFull(v, old(disk), disk);
        }
      }
    }

    /** Reads up to `count` bytes at the position: -1 on a file that is not open for reading, else
        exactly the bytes of the file there, stopping at its end. */
    method Read(fd: nat, count: nat) returns (data: seq<Byte>, r: int)
      requires Valid() && !astray && |files| == 4 && |chains| >= 4 && (fd < 4 ==> !IsDir(files[fd].attributes))
      modifies `disk, `sysbuf, `files, `chains, `astray
      ensures |files| == 4 && |chains| == old(|chains|) && Valid() && !astray
      ensures fd >= 4 || !old(files[fd].open && files[fd].read) ==>
                r == -1 && data == [] && unchanged(`disk, `files, `chains)
      ensures fd < 4 && old(files[fd].open && files[fd].read) ==>
                && OthersSame(v, fd, old(disk), old(files), old(chains), disk, files, chains)
                && SameMode(old(files[fd]), files[fd])
                && Bytes(fd) == old(Bytes(fd)) && Pos(files[fd]) == old(Pos(files[fd])) + r && r == |data|
                && r == (if old(Pos(files[fd])) + count <= |Bytes(fd)| then count else |Bytes(fd)| - old(Pos(files[fd])))
                && Pos(files[fd]) <= |Bytes(fd)| && data == Bytes(fd)[old(Pos(files[fd]))..Pos(files[fd])]
                && (old(HasPlace(v, disk, chains, files[fd], fd)) ==> HasPlace(v, disk, chains, files[fd], fd))
                && (old(HasHome(files[fd], chains[fd])) ==> HasHome(files[fd], chains[fd]))
    {
      if fd >= MAX_OPEN_FILES {
        return [], -1;
      }
      if !(files[fd].open && files[fd].read) {
        return [], -1;
      }
      hide AllOK, HasPlace, HasHome, OthersSame, Content;
      data := ReadBytes(fd, count);
      return data, |data|;
    }

    /** The loop of `fat_read`. */
    method ReadBytes(fd: nat, count: nat) returns (data: seq<Byte>)
      requires Valid() && !astray && |files| == 4 && |chains| >= 4 && fd < 4 && Active(files[fd])
      modifies `disk, `sysbuf, `files, `chains, `astray
      ensures |files| == 4 && |chains| == old(|chains|) && Valid() && !astray
      ensures OthersSame(v, fd, old(disk), old(files), old(chains), disk, files, chains)
      ensures SameMode(old(files[fd]), files[fd])
      ensures Bytes(fd) == old(Bytes(fd)) && Pos(files[fd]) == old(Pos(files[fd])) + |data| <= |Bytes(fd)|
      ensures |data| == Rest(|Bytes(fd)|, old(Pos(files[fd])), count)
      ensures data == Bytes(fd)[old(Pos(files[fd]))..Pos(files[fd])]
      ensures old(HasPlace(v, disk, chains, files[fd], fd)) ==> HasPlace(v, disk, chains, files[fd], fd)
      ensures old(HasHome(files[fd], chains[fd])) ==> HasHome(files[fd], chains[fd])
    {
      hide FileOK, Content, AllOK, OthersSame, HasPlace, HasHome, IsDir;
      data := [];
      ghost var p0, c0 := Pos(files[fd]), Bytes(fd);
      SelfSame(v, fd, disk, files, chains);
      PosInFile(v, disk, files, chains, fd);
      while |data| < count
        invariant |files| == 4 && |chains| == old(|chains|)
        invariant Valid() && !astray && SameMode(old(files[fd]), files[fd])
        invariant OthersSame(v, fd, old(disk), old(files), old(chains), disk, files, chains)
        invariant |data| <= count && Bytes(fd) == c0 && Pos(files[fd]) == p0 + |data| <= |c0|
        invariant data == c0[p0..p0 + |data|]
        invariant old(HasPlace(v, disk, chains, files[fd], fd)) ==> HasPlace(v, disk, chains, files[fd], fd)
        invariant old(HasHome(files[fd], chains[fd])) ==> HasHome(files[fd], chains[fd])
      {
        if files[fd].cursor + files[fd].fileSector * 512 >= files[fd].size {
          break;
        }
        ghost var d, fs, cs := disk, files, chains;
        var b := ReadByte(fd);
        data := data + [b];
        OthersSameTrans(v, fd, old(disk), old(files), old(chains), d, fs, cs, disk, files, chains);
      }
    }

    /** One byte of `fat_read`, of a file that has one at the position.  (The chain always goes on
        where the file does, so fetching the next sector cannot fail here.) */
    method ReadByte(fd: nat) returns (b: Byte)
      requires Valid() && !astray && |files| == 4 && |chains| >= 4 && fd < 4 && Active(files[fd]) && Pos(files[fd]) < files[fd].size
      modifies `disk, `sysbuf, `files, `chains, `astray
      ensures |files| == 4 && |chains| == old(|chains|) && Valid() && !astray
      ensures OthersSame(v, fd, old(disk), old(files), old(chains), disk, files, chains)
      ensures SameMode(old(files[fd]), files[fd])
      ensures Bytes(fd) == old(Bytes(fd)) && Pos(files[fd]) == old(Pos(files[fd])) + 1 <= |Bytes(fd)|
      ensures b == old(Bytes(fd))[old(Pos(files[fd]))]
      ensures old(HasPlace(v, disk, chains, files[fd], fd)) ==> HasPlace(v, disk, chains, files[fd], fd)
      ensures old(HasHome(files[fd], chains[fd])) ==> HasHome(files[fd], chains[fd])
    {
      hide SystemOK, NoFree, FileOK, Content, FdOK, AllOK, AllButOK, OthersSame, SavedEntry,
           CanSaveEntry, ParentHasSlot, EntryBlock, AtSector, InChain, IsDir, HasFat;
      PosInFile(v, disk, files, chains, fd);
      SelfSame(v, fd, disk, files, chains);
      if files[fd].cursor == 512 {
        RoomBeyond(v, disk, files, chains, fd);
        var _ := NextSector(fd);
      }
      ByteUnderCursor(v, disk, files[fd], chains[fd]);
      CursorMoves(v, disk, files, chains, fd);
      OthersSameTrans(v, fd, old(disk), old(files), old(chains), disk, files, chains,
                      disk, files[fd := files[fd].(cursor := files[fd].cursor + 1)], chains);
      b := files[fd].buffer[files[fd].cursor];
      files := files[fd := files[fd].(cursor := files[fd].cursor + 1)];
    }

    /** The record stands in the file's chain, saved, and nothing but its buffer may be amiss. */
    ghost predicate Reloadable(fd: nat) reads this {
      Recoverable(fd) && Active(files[fd]) && !files[fd].dirty && chains[fd] != []
    }

    /** The file stands at byte p exactly as if it had been opened anew and stepped there. */
    ghost predicate Sought(fd: nat, p: nat) reads this {
      && Valid() && fd < 4 && |files| == 4 && fd < |chains| && Pos(files[fd]) == p
      && (chains[fd] != [] ==>
            InChain(v, chains[fd], p / 512) && files[fd] == SeekTo(v, disk, files[fd], chains[fd], p))
    }

    /** One link of the walk, from cluster number n of the file's chain. */
    method FollowLink(fd: nat, ghost n: nat)
      requires fd < 4 && |files| == 4 && !astray && SystemOK(v, disk, chains) && HasFat(v, disk) && fd < |chains|
      requires n < |chains[fd]| && files[fd].cluster == chains[fd][n]
      requires files[fd].write ==> SavedEntry(v, chains, files[fd].entrySector, files[fd].entryNumber)
      modifies `disk, `sysbuf, `files, `chains, `astray
      ensures DataKept(v, old(disk), disk, old(chains)) && |files| == 4
      ensures files == old(files)[fd := files[fd]]
      ensures files[fd] == old(files[fd]).(cluster := files[fd].cluster, buffer := files[fd].buffer,
                                           error := files[fd].error, fsDirty := files[fd].fsDirty)
      ensures SystemOK(v, disk, chains) && HasFat(v, disk)
      ensures astray ==> NoFree(v, disk) && files[fd].write && NoFree(v, old(disk)) && !Full(v, old(disk))
      ensures n + 1 < old(|chains[fd]|) ==> unchanged(`disk, `chains, `astray) && files[fd].cluster == chains[fd][n + 1]
      ensures n + 1 == old(|chains[fd]|) && (!files[fd].write || NoFree(v, old(disk))) ==>
                unchanged(`chains) && (!astray ==> files[fd].cluster == 0xFFFF_FFFF && unchanged(`disk))
      ensures n + 1 == old(|chains[fd]|) && files[fd].write && !NoFree(v, old(disk)) ==>
                !astray && chains == old(chains)[fd := old(chains[fd]) + [files[fd].cluster]]
      ensures EntriesKept(v, old(disk), disk, old(chains), old(files[fd]), files[fd])
      ensures SameDirs(old(chains), chains)
    {
      hide SystemOK, NoFree, NextFree, MarkedBehind, SavedEntry, CanSaveEntry, ParentHasSlot, EntryBlock, AtSector,
           DataKept, Forest, FreeOK, HasFat, Blk, Full, EntriesKept, SameDirs, SameEntry, Usable, LowestFree, Entries,
           Entry, IsChain, Wrap32, Marker;
      SystemParts(v, disk, chains);
      var c := NextCluster(fd, fd, n);
      LinkNumber(v, c);
      SystemParts(v, disk, chains);
      DirsSame(old(chains), fd, chains[fd]);
      if astray {
        MarkedNotFull(v, old(disk), disk);
        return;
      }
      ghost var h := files[fd];
      files := files[fd := files[fd].(cluster := Wrap32(c))];
      MovedEntries(v, old(disk), disk, old(chains), chains, old(files[fd]), h, files[fd]);
    }

    /** Walks the chain from its first cluster, `count` links far: to cluster number `count`, to the
        cluster a writable file grows by, or, where the chain ends, to 0xFFFFFFFF. */
    method WalkChain(fd: nat, count: nat)
      requires fd < 4 && |files| == 4 && !astray && SystemOK(v, disk, chains) && chains[fd] != [] && count <= |chains[fd]|
      requires files[fd].fullFirstCluster == chains[fd][0]
      requires files[fd].write ==> SavedEntry(v, chains, files[fd].entrySector, files[fd].entryNumber)
      modifies `disk, `sysbuf, `files, `chains, `astray
      ensures DataKept(v, old(disk), disk, old(chains)) && |files| == 4
      ensures files == old(files)[fd := files[fd]] && files[fd] == Drifted(old(files[fd]), files[fd])
      ensures count < old(|chains[fd]|) ==> unchanged(`disk, `chains, `astray) && files[fd].cluster == chains[fd][count]
      ensures count == old(|chains[fd]|) && (!old(files[fd].write) || NoFree(v, old(disk))) ==>
                unchanged(`chains) && (!astray ==> files[fd].cluster == 0xFFFF_FFFF && unchanged(`disk))
      ensures count == old(|chains[fd]|) && old(files[fd].write) && !NoFree(v, old(disk)) ==>
                !astray && chains == old(chains)[fd := old(chains[fd]) + [files[fd].cluster]]
      ensures SystemOK(v, disk, chains)
      ensures astray ==> NoFree(v, disk) && old(files[fd].write) && NoFree(v, old(disk)) && !Full(v, old(disk))
      ensures EntriesKept(v, old(disk), disk, old(chains), old(files[fd]), files[fd])
      ensures SameDirs(old(chains), chains)
    {
      hide SystemOK, NoFree, NextFree, MarkedBehind, SavedEntry, CanSaveEntry, ParentHasSlot, EntryBlock, AtSector,
           DataKept, Forest, FreeOK, Drifted, HasFat, Blk, Full, EntriesKept, SameDirs;
      DataKeptSame(v, disk, chains);
      SystemParts(v, disk, chains);
      ghost var f, s := files[fd], chains[fd];
      files := files[fd := files[fd].(cluster := files[fd].fullFirstCluster)];
      DriftsNowhere(f);
      DriftsOn(f, f, files[fd]);
      EntriesSame(v, disk, chains, f, files[fd]);
      SameDirsSelf(chains);
      var i := 0;
      while i < count
        invariant i <= count && |files| == 4 && DataKept(v, old(disk), disk, old(chains))
        invariant files == old(files)[fd := files[fd]] && files[fd] == Drifted(f, files[fd])
        invariant files[fd].write == f.write && files[fd].entrySector == f.entrySector
        invariant files[fd].entryNumber == f.entryNumber
        invariant HasFat(v, disk) && SystemOK(v, disk, chains) && (astray ==> NoFree(v, disk) && f.write)
        invariant astray ==> NoFree(v, old(disk)) && !Full(v, old(disk))
        invariant i < |s| ==> unchanged(`disk, `chains, `astray) && files[fd].cluster == s[i]
        invariant i == |s| && (!f.write || NoFree(v, old(disk))) ==>
                    unchanged(`chains) && (!astray ==> files[fd].cluster == 0xFFFF_FFFF && unchanged(`disk))
        invariant i == |s| && f.write && !NoFree(v, old(disk)) ==>
                    !astray && chains == old(chains)[fd := s + [files[fd].cluster]]
        invariant EntriesKept(v, old(disk), disk, old(chains), f, files[fd]) && SameDirs(old(chains), chains)
      {
        ghost var g, d, cs := files[fd], disk, chains;
        FollowLink(fd, i);
        EntriesTrans(v, old(disk), d, disk, old(chains), cs, f, g, files[fd]);
        SameDirsTrans(old(chains), cs, chains);
        DriftsOn(f, g, files[fd]);
        i := i + 1;
      }
    }

    /** Selects the sector of byte p in the cluster the record stands in, which is the file's
        cluster number `fileCluster`. */
    method LandAt(fd: nat, p: nat, fileCluster: nat)
      requires fd < |files| && v.spc >= 1 && fileCluster == ClusterOfByte(v, p)
      modifies `files
      ensures files == old(files)[fd := Arrived(v, disk, old(files[fd]), old(files[fd].cluster), p)]
    {
      var newSec := (p - fileCluster * v.spc * 512) / 512;
      files := files[fd := files[fd].(fileSector := p / 512, cursor := p % 512)];
      files := files[fd := files[fd].(sector := Wrap32(files[fd].cluster * v.spc + v.cluster0 + newSec),
                                      sectorsLeft := v.spc - newSec - 1)];
      files := files[fd := files[fd].(buffer := Blk(disk, files[fd].sector))];
    }

    /** The last resort of `fat_lseek`: from the first cluster along the chain to position p.  A chain
        that ends right before p grows if the file may be written; if it cannot grow the record is
        left in cluster 0xFFFFFFFF, with the block in its buffer that the 32-bit sector number names. */
    method SeekChain(fd: nat, p: nat) returns (r: int)
      requires fd < 4 && Reloadable(fd) && p <= files[fd].size && HasFat(v, disk) && !astray
      modifies `disk, `sysbuf, `files, `chains, `astray
      ensures r == p && |files| == 4 && |chains| == old(|chains|) && SameMode(old(files[fd]), files[fd])
      ensures chains[fd] != [] && HasFat(v, disk)
      ensures OthersSame(v, fd, old(disk), old(files), old(chains), disk, files, chains)
      ensures AllButOK(v, disk, files, chains, fd) && Pos(files[fd]) == p
      ensures astray ==> NoFree(v, disk) && files[fd].write && !old(Reaches(fd, |chains[fd]|, p))
      ensures astray ==> NoFree(v, old(disk)) && !Full(v, old(disk))
      ensures old(Reaches(fd, |chains[fd]|, p)) ==> Sought(fd, p) && Bytes(fd) == old(Kept(fd))
      ensures !old(Reaches(fd, |chains[fd]|, p)) && !astray ==>
                unchanged(`disk, `chains) && Nowhere(v, disk, old(files[fd]), files[fd], p)
    {
      hide SystemOK, NoFree, Full, FileOK, Content, FdOK, AllOK, AllButOK, OthersSame, SavedEntry, Arrived, Drifted,
           CanSaveEntry, ParentHasSlot, EntryBlock, AtSector, InChain, DataKept, SeekTo, Room, ClusterOfByte, IsDir,
           Forest, FreeOK, EntriesKept, SameDirs;
      ghost var h := Reloaded(v, disk, files[fd]);
      ghost var fs, s := files[fd := h], chains[fd];
      FdParts(v, disk, fs, chains, fd);
      DataKeptSame(v, disk, chains);
      SizeWithin(v, s, h.size, p);
      var fileCluster := ClusterOfByte(v, p);
      WalkChain(fd, fileCluster);
      ghost var g := files[fd];
      LandAt(fd, p, fileCluster);
      ArrivedFrom(v, disk, old(files[fd]), g, g.cluster, p);
      ReloadedArrives(v, old(disk), disk, old(files[fd]), g.cluster, p);
      WalkedEntries(v, old(disk), disk, old(chains), chains, h, old(files[fd]), g, files[fd]);
      assert files == fs[fd := files[fd]];
      OpenGap(v, old(disk), fs, old(chains), fd);
      if Within(v, |s|, p) || (h.write && !NoFree(v, old(disk))) {
        ghost var s' := if Within(v, |s|, p) then s else chains[fd];
        assert chains == old(chains)[fd := s'];
        ArrivedOK(v, old(disk), fs, old(chains), fd, disk, s', p, fileCluster, files[fd]);
      } else {
        MovedRecord(v, old(disk), fs, old(chains), fd, disk, files[fd]);
      }
      OthersSameFrom(v, fd, old(disk), old(files), old(chains), h, disk, files, chains);
      GapParts(v, disk, files, chains, fd);
      return p;
    }

    /** The two short ways of `fat_lseek`: inside the sector, and inside the cluster. */
    method SeekNear(fd: nat, oldPos: nat, p: nat)
      requires fd < |files|
      modifies `files
      ensures files == old(files)[fd := SoughtNear(v, disk, old(files[fd]), oldPos, p)]
    {
      if oldPos / 512 == p / 512 {
        files := files[fd := files[fd].(cursor := p % 512)];
      } else {
        files := files[fd := files[fd].(fileSector := p / 512)];
        files := files[fd := files[fd].(sector := Wrap32(files[fd].sector + p / 512 - oldPos / 512),
                                        sectorsLeft := files[fd].sectorsLeft - p / 512 + oldPos / 512,
                                        cursor := p % 512)];
        files := files[fd := files[fd].(buffer := Blk(disk, files[fd].sector))];
      }
    }

    /** A seek to p can succeed: p lies in the file's n clusters, or the chain may grow. */
    ghost predicate Reaches(fd: nat, n: nat, p: nat)
      requires fd < |files| && HasFat(v, disk)
      reads this
    {
      Within(v, n, p) || (files[fd].write && !NoFree(v, disk))
    }

    /** What `fat_lseek` does first with a cursor that has rolled over: move on to the next sector. */
    method LeaveSector(fd: nat, ghost p: nat) returns (e: int)
      requires Valid() && fd < 4 && Active(files[fd]) && !files[fd].dirty && chains[fd] != [] && p <= files[fd].size
      requires HasFat(v, disk) && !astray
      modifies `disk, `sysbuf, `files, `chains, `astray
      ensures |files| == 4 && |chains| == old(|chains|) && HasFat(v, disk)
      ensures chains[fd] != []
      ensures OthersSame(v, fd, old(disk), old(files), old(chains), disk, files, chains)
      ensures AllButOK(v, disk, files, chains, fd) && SameMode(old(files[fd]), files[fd])
      ensures !astray ==> Reloadable(fd) && Kept(fd) == old(Bytes(fd))
      ensures files[fd] == Moved(old(files[fd]), files[fd]).(error := files[fd].error, fsDirty := files[fd].fsDirty)
      ensures astray ==>
                && NoFree(v, disk) && files[fd].write && NoFree(v, old(disk)) && !Full(v, old(disk))
                && old(files[fd].cursor) == 512 && !InChain(v, old(chains[fd]), old(files[fd].fileSector) + 1)
      ensures !astray ==> (Reaches(fd, |chains[fd]|, p) <==> old(Reaches(fd, |chains[fd]|, p)))
      ensures !astray && !old(Reaches(fd, |chains[fd]|, p)) ==> unchanged(`disk, `chains)
      ensures !astray && e == 0 ==>
                && Valid() && files[fd].fileSector == old(Pos(files[fd])) / 512
                && (Within(v, |chains[fd]|, p) ==> old(Reaches(fd, |chains[fd]|, p)))
                && Kept(fd) == Bytes(fd)
      ensures e != 0 && !astray ==>
                && unchanged(`disk, `chains) && old(files[fd].cursor) == 512
                && files[fd] == old(files[fd]).(error := files[fd].error, buffer := Blk(disk, EntryBlock(v, files[fd].cluster)))
                && if p / 512 == old(Pos(files[fd])) / 512 then
                     p == old(Pos(files[fd])) && !Reaches(fd, |chains[fd]|, p)
                   else ClusterOfByte(v, p) != ClusterOfByte(v, old(Pos(files[fd])))
    {
      hide SystemOK, NoFree, Full, FileOK, Content, FdOK, AllOK, AllButOK, OthersSame, SavedEntry, CanSaveEntry,
           ParentHasSlot, EntryBlock, AtSector, InChain, DataKept, SeekTo, Room, ClusterOfByte, IsDir, Within;
      PosInFile(v, disk, files, chains, fd);
      MovesNowhere(files[fd]);
      WithinIsInChain(v, chains[fd], p);
      SelfSame(v, fd, disk, files, chains);
      OpenGap(v, disk, files, chains, fd);
      ReloadClean(v, disk, files, chains, fd);
      e := 0;
      if files[fd].cursor == 512 {
        ghost var k, s := files[fd].fileSector, chains[fd];
        if !InChain(v, s, k + 1) {
          RolledAtEnd(v, disk, files, chains, fd, p);
        }
        e := NextSector(fd);
        if !astray && e == 0 {
          LeftSector(v, disk, files, chains, fd, |s|, p);
        } else {
          GapParts(v, disk, files, chains, fd);
        }
      }
    }

    /** Seeking a saved, clean file to p <= size by whichever of the three ways applies.  It fails only
        where the chain ends right before p and cannot grow: at the end of a file that fills its
        clusters and is open for reading only (or no cluster is free).  If the cursor had just rolled
        over there, the record falls back one sector with a FAT block in its buffer. */
    method SeekClean(fd: nat, p: nat) returns (r: int)
      requires Valid() && fd < 4 && Active(files[fd]) && !files[fd].dirty && chains[fd] != [] && p <= files[fd].size
      requires HasFat(v, disk) && !astray
      modifies `disk, `sysbuf, `files, `chains, `astray
      ensures r == p && |files| == 4 && |chains| == old(|chains|) && SameMode(old(files[fd]), files[fd])
      ensures chains[fd] != [] && HasFat(v, disk)
      ensures OthersSame(v, fd, old(disk), old(files), old(chains), disk, files, chains)
      ensures AllButOK(v, disk, files, chains, fd)
      ensures astray ==> NoFree(v, disk) && files[fd].write && GoesAstray(v, old(disk), old(files[fd]), old(chains[fd]), p)
      ensures !astray && old(Reaches(fd, |chains[fd]|, p)) ==> Sought(fd, p) && Bytes(fd) == old(Bytes(fd))
      ensures !astray && !old(Reaches(fd, |chains[fd]|, p)) ==>
                && unchanged(`disk, `chains)
                && Missed(v, disk, old(files[fd]), files[fd], p)
    {
      hide SystemOK, NoFree, FileOK, Content, FdOK, AllOK, AllButOK, OthersSame, SavedEntry, Arrived, Settled, Kept,
           Nowhere, CanSaveEntry, ParentHasSlot, EntryBlock, AtSector, InChain, DataKept, SeekTo, Room, ClusterOfByte,
           IsDir, Within, Reloadable, Full;
      Sizes(v, disk, files, chains);
      var oldPos := files[fd].fileSector * 512 + files[fd].cursor;
      var e := LeaveSector(fd, p);
      if astray {
        return p;
      }
      ghost var d, fs, cs := disk, files, chains;
      if oldPos / 512 == p / 512 || ClusterOfByte(v, p) == ClusterOfByte(v, oldPos) {
        SeekNear(fd, oldPos, p);
        if e == 0 {
          SoughtNearOK(v, d, fs, cs, fd, oldPos, p);
          WithinIsInChain(v, chains[fd], p);
          OpenGap(v, disk, files, chains, fd);
        } else {
          OnlyRecord(v, d, fs, cs, fd, files[fd]);
        }
      } else {
        r := SeekChain(fd, p);
        if !old(Reaches(fd, |chains[fd]|, p)) && !astray {
          NowhereFrom(v, disk, old(files[fd]), fs[fd], files[fd], p);
        }
      }
      OthersSameTrans(v, fd, old(disk), old(files), old(chains), d, fs, cs, disk, files, chains);
      return p;
    }

    /** `fat_lseek` after a flush that worked, for a target inside the file. */
    method SeekFlushed(fd: nat, p: nat)
      requires Valid() && fd < 4 && Active(files[fd]) && !files[fd].dirty && p <= files[fd].size
      requires HasFat(v, disk) && !astray
      modifies `disk, `sysbuf, `files, `chains, `astray
      ensures |files| == 4 && |chains| == old(|chains|) && SameMode(old(files[fd]), files[fd]) && HasFat(v, disk)
      ensures OthersSame(v, fd, old(disk), old(files), old(chains), disk, files, chains)
      ensures AllButOK(v, disk, files, chains, fd)
      ensures old(chains[fd]) == [] ==> p == 0 && old(Pos(files[fd])) == 0 && Sought(fd, p) && unchanged(`disk, `files, `chains, `astray)
      ensures old(chains[fd]) != [] ==> chains[fd] != []
      ensures astray ==> NoFree(v, disk) && files[fd].write && GoesAstray(v, old(disk), old(files[fd]), old(chains[fd]), p)
      ensures !astray && old(Reaches(fd, |chains[fd]|, p)) ==> Sought(fd, p) && Bytes(fd) == old(Bytes(fd))
      ensures !astray && !old(Reaches(fd, |chains[fd]|, p)) && old(chains[fd]) != [] ==>
                && unchanged(`disk, `chains)
                && Missed(v, disk, old(files[fd]), files[fd], p)
    {
      hide SystemOK, NoFree, Full, GoesAstray, FileOK, Content, FdOK, AllOK, AllButOK, OthersSame, SavedEntry,
           WriteEntry, Missed, CanSaveEntry, ParentHasSlot, EntryBlock, AtSector, InChain, DataKept, SeekTo, Room,
           IsDir, Within, ClusterOfByte;
      PosInFile(v, disk, files, chains, fd);
      FdParts(v, disk, files, chains, fd);
      SystemParts(v, disk, chains);
      OpenGap(v, disk, files, chains, fd);
      WithinIsInChain(v, chains[fd], p);
      var oldPos := files[fd].fileSector * 512 + files[fd].cursor;
      if chains[fd] == [] {
        EmptySought(v, disk, files, chains, fd, oldPos, p);
      }
      if files[fd].cursor < 512 && oldPos / 512 == p / 512 {
        SeekNear(fd, oldPos, p);
        if chains[fd] != [] {
          SoughtNearOK(v, old(disk), old(files), old(chains), fd, oldPos, p);
          WithinIsInChain(v, chains[fd], p);
          OpenGap(v, disk, files, chains, fd);
        }
      } else {
        var _ := SeekClean(fd, p);
      }
    }

    /** The chain walk of a file that has no chain: every link asked for fails. */
    method WalkUnsaved(fd: nat, p: nat)
      requires fd < 4 && |files| == 4 && v.spc >= 1
      modifies `files
      ensures |files| == 4 && files == old(files)[fd := files[fd]]
      ensures var f, c := old(files[fd]), if ClusterOfByte(v, p) == 0 then old(files[fd].fullFirstCluster) else 0xFFFF_FFFF;
              files[fd] == Arrived(v, disk, f, c, p)
    {
      hide Arrived, ClusterOfByte, Blk;
      var fileCluster := ClusterOfByte(v, p);
      files := files[fd := files[fd].(cluster := files[fd].fullFirstCluster)];
      var i := 0;
      while i < fileCluster
        invariant i <= fileCluster && |files| == 4
        invariant files == old(files)[fd := old(files[fd]).(
                             cluster := if i == 0 then old(files[fd].fullFirstCluster) else 0xFFFF_FFFF)]
      {
        files := files[fd := files[fd].(cluster := 0xFFFF_FFFF)];
        i := i + 1;
      }
      ArrivedAgain(v, disk, old(files[fd]), files[fd].cluster, p);
      LandAt(fd, p, fileCluster);
    }

    /** `fat_lseek` of a file that lives in its buffer alone, after the flush found no cluster for it:
        every flush on the way fails again and changes nothing.  Inside the buffer the cursor moves;
        any other way loads another block over the bytes. */
    method SeekUnsaved(fd: nat, p: nat)
      requires Valid() && fd < 4 && |files| == 4 && fd < |chains| && Active(files[fd]) && chains[fd] == []
      requires p <= files[fd].size && v.spc >= 1
      modifies `files
      ensures |files| == 4 && SameMode(old(files[fd]), files[fd]) && AllButOK(v, disk, files, chains, fd)
      ensures OthersSame(v, fd, disk, old(files), chains, disk, files, chains)
      ensures files[fd].fullFirstCluster == 0 && files[fd].entrySector == old(files[fd].entrySector)
      ensures old(Pos(files[fd])) < 512 && p < 512 ==> Sought(fd, p) && Bytes(fd) == old(Bytes(fd))
      ensures old(Pos(files[fd])) == 512 || p == 512 ==> Spoilt(v, disk, old(files[fd]), files[fd], p)
    {
      hide SystemOK, NoFree, FileOK, Content, FdOK, AllOK, AllButOK, OthersSame, ClusterOfByte, IsDir, Arrived,
           SoughtNear, Drifted, SeekTo, SavedEntry, AtSector, SectorOf, Blk, Wrap32, Unsigned32, HasFat, Spoilt;
      FdParts(v, disk, files, chains, fd);
      InOneSector(v, disk, files, chains, fd);
      OpenGap(v, disk, files, chains, fd);
      var oldPos := files[fd].fileSector * 512 + files[fd].cursor;
      SoughtNearMode(v, disk, files[fd], oldPos, p);
      FirstSector(v, p);
      FirstSector(v, oldPos);
      if oldPos == 512 || p == 512 {
        SoughtOverEdge(v, disk, files[fd], p);
      }
      if oldPos < 512 && p < 512 {
        MovesInBuffer(v, disk, files, chains, fd, p);
        SoughtInBuffer(v, disk, files[fd], oldPos, p);
      }
      if oldPos / 512 == p / 512 || ClusterOfByte(v, p) == ClusterOfByte(v, oldPos) {
        SeekNear(fd, oldPos, p);
      } else {
        ArrivedMode(v, disk, files[fd], if ClusterOfByte(v, p) == 0 then files[fd].fullFirstCluster else 0xFFFF_FFFF, p);
        WalkUnsaved(fd, p);
      }
      assert files == old(files)[fd := files[fd]];
      OnlyRecord(v, disk, old(files), chains, fd, files[fd]);
    }

    /** The seek to p <= size after a flush that answered e. */
    method SeekInRange(fd: nat, p: nat, e: int)
      requires Valid() && !astray && fd < 4 && |files| == 4 && fd < |chains| && Active(files[fd]) && HasFat(v, disk)
      requires p <= files[fd].size && v.spc >= 1
      requires if e == 0 then !files[fd].dirty else chains[fd] == [] && NoFree(v, disk)
      modifies `disk, `sysbuf, `files, `chains, `astray
      ensures |files| == 4 && |chains| == old(|chains|) && HasFat(v, disk)
      ensures OthersSame(v, fd, old(disk), old(files), old(chains), disk, files, chains)
      ensures AllButOK(v, disk, files, chains, fd) && SameMode(old(files[fd]), files[fd])
      ensures astray ==> NoFree(v, disk) && files[fd].write && GoesAstray(v, old(disk), old(files[fd]), old(chains[fd]), p)
      ensures old(chains[fd]) == [] ==>
                unchanged(`disk, `chains, `astray) && files[fd].entrySector == old(files[fd].entrySector)
      ensures old(chains[fd]) != [] ==> chains[fd] != []
      ensures !astray && Arrives(old(files[fd]), files[fd], p) ==> Sought(fd, p) && Bytes(fd) == old(Bytes(fd))
      ensures !astray && !Arrives(old(files[fd]), files[fd], p) ==>
                NoFree(v, disk) || (!files[fd].write && !Within(v, |chains[fd]|, p))
      ensures !astray && old(chains[fd]) != [] ==>
                (Arrives(old(files[fd]), files[fd], p) <==> old(Reaches(fd, |chains[fd]|, p)))
      ensures !astray && old(chains[fd]) != [] && !old(Reaches(fd, |chains[fd]|, p)) ==>
                && unchanged(`disk, `chains) && !Sought(fd, p)
                && Missed(v, disk, old(files[fd]), files[fd], p)
      ensures old(chains[fd]) == [] && e != 0 && !Arrives(old(files[fd]), files[fd], p) ==>
                Spoilt(v, disk, old(files[fd]), files[fd], p)
      ensures old(chains[fd]) == [] && e == 0 ==> Arrives(old(files[fd]), files[fd], p)
    {
      hide SystemOK, NoFree, Full, GoesAstray, FileOK, Content, FdOK, AllOK, AllButOK, OthersSame, SavedEntry, Missed,
           CanSaveEntry, ParentHasSlot, EntryBlock, AtSector, InChain, DataKept, SeekTo, Room, IsDir, Within, HasFat;
      FdParts(v, disk, files, chains, fd);
      PosInFile(v, disk, files, chains, fd);
      if chains[fd] == [] {
        InOneSector(v, disk, files, chains, fd);
      }
      if chains[fd] != [] {
        InVolume(v, disk, files, chains, fd);
      }
      if e == 0 {
        SeekFlushed(fd, p);
        if old(chains[fd]) != [] && !astray {
          if old(Reaches(fd, |chains[fd]|, p)) {
            InVolume(v, disk, files, chains, fd);
          } else {
            NotThere(v, disk, old(files[fd]), files[fd], p);
            if AllOK(v, disk, files, chains) {
              InVolume(v, disk, files, chains, fd);
            }
          }
        }
      } else {
        SeekUnsaved(fd, p);
      }
    }

    /** `fat_lseek`.  Out of range (which includes every negative target, read as a 32-bit unsigned
        number) it answers ptr - 1 and moves nothing.  In range it answers the target, whether it
        arrives there or not; where it arrives, the record stands as if it had been stepped there from
        the first cluster.  A saved file arrives exactly if the target lies in its clusters or it can
        grow.  A file that cannot be saved arrives exactly if it need not leave its buffer; else another
        block is loaded over its bytes, or, sought to the end of its one sector where it stands, it
        falls back to 0. */
    method Lseek(fd: nat, ptr: int, dir: Whence) returns (r: int)
      requires Valid() && !astray && |files| == 4 && |chains| >= 4 && HasFat(v, disk)
      requires fd < 4 && files[fd].open ==> Active(files[fd]) && CanStart(v, disk, chains, files[fd], fd)
      modifies `disk, `sysbuf, `files, `chains, `astray
      ensures |files| == 4 && |chains| == old(|chains|) && HasFat(v, disk)
      ensures fd >= 4 || !old(files[fd].open) ==> r == ptr - 1 && unchanged(`disk, `files, `chains, `astray)
      ensures fd < 4 && old(files[fd].open) ==>
                && SameMode(old(files[fd]), files[fd])
                && (!astray ==>
                      && OthersSame(v, fd, old(disk), old(files), old(chains), disk, files, chains)
                      && AllButOK(v, disk, files, chains, fd))
                && (astray ==> NoFree(v, disk))
                && (astray && old(chains[fd]) != [] ==>
                      files[fd].write && GoesAstray(v, old(disk), old(files[fd]), old(chains[fd]), Target(old(files[fd]), ptr, dir)))
                && (!astray && chains[fd] == [] ==>
                      unchanged(`disk, `chains) && files[fd].entrySector == old(files[fd].entrySector))
      ensures fd < 4 && old(files[fd].open && Target(files[fd], ptr, dir) > files[fd].size) && !astray ==>
                r == ptr - 1 && Valid() && Bytes(fd) == old(Bytes(fd)) && Pos(files[fd]) == old(Pos(files[fd]))
      ensures fd < 4 && old(files[fd].open && Target(files[fd], ptr, dir) <= files[fd].size) && !astray ==>
                var p := Target(old(files[fd]), ptr, dir);
                && r == p
                && (Arrives(old(files[fd]), files[fd], p) ==> Sought(fd, p) && Bytes(fd) == old(Bytes(fd)))
                && (!Arrives(old(files[fd]), files[fd], p) ==>
                      NoFree(v, disk) || (!files[fd].write && !Within(v, |chains[fd]|, p)))
                && (old(chains[fd]) != [] ==>
                      && (Arrives(old(files[fd]), files[fd], p) <==> old(Reaches(fd, |chains[fd]|, p)))
                      && (!old(Reaches(fd, |chains[fd]|, p)) ==>
                            && unchanged(`chains) && !Sought(fd, p)
                            && disk == Flushed(old(disk), old(files[fd]))
                            && Missed(v, disk, old(files[fd]).(dirty := false), files[fd], p)))
                && (old(chains[fd] == [] && files[fd].dirty && NoFree(v, disk)) && !Arrives(old(files[fd]), files[fd], p) ==>
                      Spoilt(v, disk, old(files[fd]), files[fd], p))
                && (old(chains[fd] == [] && (!files[fd].dirty || !NoFree(v, disk))) && Within(v, 1, p) ==>
                      Arrives(old(files[fd]), files[fd], p))
    {
      hide SystemOK, NoFree, Full, GoesAstray, FileOK, Content, FdOK, AllOK, AllButOK, OthersSame, SavedEntry,
           WriteEntry, Missed, CanSaveEntry, ParentHasSlot, EntryBlock, AtSector, InChain, DataKept, SeekTo, Room,
           IsDir, Within, MarkedBehind, FirstSlotOf, NextFree, CanStart, Flushed, Blk, HasFat, Unsigned32, Spoilt,
           Target, Arrives, SavedFrom, SameMode;
      if fd >= MAX_OPEN_FILES {
        return ptr - 1;
      }
      if !files[fd].open {
        return ptr - 1;
      }
      NoFreeKept(v, disk, files, chains, fd);
      PosInFile(v, disk, files, chains, fd);
      FdParts(v, disk, files, chains, fd);
      var e := Flush(fd);
      FlushedStands(old(files[fd]), files[fd], ptr, dir, files[fd], 0);
      OpenGap(v, disk, files, chains, fd);
      FdParts(v, disk, files, chains, fd);
      SystemParts(v, disk, chains);
      if astray {
        return -1;
      }
      var newPos := Target(files[fd], ptr, dir);
      if newPos > files[fd].size {
        return ptr - 1;
      }
      ghost var d, fs, cs := disk, files, chains;
      SeekInRange(fd, newPos, e);
      FlushedStands(old(files[fd]), fs[fd], ptr, dir, files[fd], newPos);
      if astray && old(chains[fd]) != [] {
        AstrayBefore(v, old(disk), d, old(files[fd]), fs[fd], cs[fd], newPos);
      }
      OthersSameTrans(v, fd, old(disk), old(files), old(chains), d, fs, cs, disk, files, chains);
      return newPos;
    }

    /** One round of the loop of `fat_write`. */
    method WriteByte(fd: nat, b: Byte) returns (e: int)
      requires Valid() && !astray && fd < 4 && |files| == 4 && fd < |chains| && Active(files[fd]) && files[fd].write
      requires HasPlace(v, disk, chains, files[fd], fd) && files[fd].cursor <= 512
      modifies `disk, `sysbuf, `files, `chains, `astray
      ensures |files| == 4 && |chains| == old(|chains|) && HasFat(v, disk)
      ensures OthersSame(v, fd, old(disk), old(files), old(chains), disk, files, chains)
      ensures AllButOK(v, disk, files, chains, fd) && SameFlags(old(files[fd]), files[fd])
      ensures old(Pos(files[fd])) <= old(|Bytes(fd)|)
      ensures e == 0 ==>
                && !astray && Valid() && files[fd].cursor <= 512 && HasPlace(v, disk, chains, files[fd], fd)
                && Bytes(fd) == Overwrite(old(Bytes(fd)), old(Pos(files[fd])), [b])
                && Pos(files[fd]) == old(Pos(files[fd])) + 1
                && (old(HasHome(files[fd], chains[fd])) ==> HasHome(files[fd], chains[fd]))
      ensures e != 0 ==> NoFree(v, disk) && (!astray ==> Recoverable(fd) && Kept(fd) == old(Bytes(fd)))
      ensures old(chains[fd] != [] && InChain(v, chains[fd], Pos(files[fd]) / 512)) ==> e == 0 && unchanged(`chains)
    {
      hide SystemOK, NoFree, FileOK, Content, FdOK, AllOK, AllButOK, OthersSame, SavedEntry, WriteEntry, Settled,
           CanSaveEntry, ParentHasSlot, EntryBlock, AtSector, InChain, DataKept, SeekTo, Room, IsDir, Within,
           Overwrite, Typed, HasFat;
      PosInFile(v, disk, files, chains, fd);
      SelfSame(v, fd, disk, files, chains);
      e := 0;
      RollsOver(files[fd]);
      if files[fd].cursor == 512 {
        e := NextSector(fd);
        GapParts(v, disk, files, chains, fd);
        if astray || e != 0 {
          e := -1;
          return;
        }
      }
      ghost var d, fs, cs := disk, files, chains;
      TypedAll(v, disk, files, chains, fd, b);
      TypeByte(fd, b);
      OthersSameTrans(v, fd, old(disk), old(files), old(chains), d, fs, cs, disk, files, chains);
      OpenGap(v, disk, files, chains, fd);
      GapParts(v, disk, files, chains, fd);
    }

    /** The loop of `fat_write`. */
    method WriteBytes(fd: nat, data: seq<Byte>) returns (r: int)
      requires Valid() && fd < 4 && Active(files[fd]) && files[fd].write && HasPlace(v, disk, chains, files[fd], fd)
      requires !astray
      modifies `disk, `sysbuf, `files, `chains, `astray
      ensures |files| == 4 && |chains| == old(|chains|) && HasFat(v, disk)
      ensures OthersSame(v, fd, old(disk), old(files), old(chains), disk, files, chains)
      ensures AllButOK(v, disk, files, chains, fd)
      ensures SameFlags(old(files[fd]), files[fd])
      ensures !astray ==> r == |data| || r == -1
      ensures astray || r == -1 ==> NoFree(v, disk)
      ensures old(Pos(files[fd])) <= old(|Bytes(fd)|)
      ensures !astray && r == |data| ==>
                && Valid() && HasPlace(v, disk, chains, files[fd], fd)
                && Bytes(fd) == Overwrite(old(Bytes(fd)), old(Pos(files[fd])), data)
                && Pos(files[fd]) == old(Pos(files[fd])) + |data|
                && (old(HasHome(files[fd], chains[fd])) ==> HasHome(files[fd], chains[fd]))
                && (data != [] ==> files[fd].fsDirty)
      ensures !astray && r == -1 ==>
                && Recoverable(fd)
                && exists n: nat | n < |data| :: Kept(fd) == Overwrite(old(Bytes(fd)), old(Pos(files[fd])), data[..n])
      ensures data == [] ==> r == 0 && unchanged(`disk, `files, `chains, `astray)
      ensures old(chains[fd] != [] && Room(v, chains[fd], Pos(files[fd]) + |data|)) ==>
                !astray && r == |data| && unchanged(`chains)
    {
      hide SystemOK, NoFree, FileOK, Content, FdOK, AllOK, AllButOK, OthersSame, SavedEntry, WriteEntry, Settled,
           CanSaveEntry, ParentHasSlot, EntryBlock, AtSector, InChain, DataKept, SeekTo, Room, IsDir, Within,
           Overwrite, Typed, HasFat;
      Sizes(v, disk, files, chains);
      SelfSame(v, fd, disk, files, chains);
      PosInFile(v, disk, files, chains, fd);
      FdParts(v, disk, files, chains, fd);
      SystemParts(v, disk, chains);
      ghost var p0, c0 := Pos(files[fd]), Bytes(fd);
      OverwriteNothing(c0, p0);
      var i := 0;
      while i < |data|
        invariant i == 0 ==> unchanged(`disk, `files, `chains, `astray)
        invariant old(chains[fd] != [] && Room(v, chains[fd], Pos(files[fd]) + |data|)) ==> unchanged(`chains)
        invariant |files| == 4 && |chains| == old(|chains|) && HasFat(v, disk)
        invariant Valid() && !astray && SameFlags(old(files[fd]), files[fd]) && files[fd].cursor <= 512
        invariant OthersSame(v, fd, old(disk), old(files), old(chains), disk, files, chains)
        invariant HasPlace(v, disk, chains, files[fd], fd)
        invariant old(HasHome(files[fd], chains[fd])) ==> HasHome(files[fd], chains[fd])
        invariant i <= |data| && p0 <= |c0| && Pos(files[fd]) == p0 + i
        invariant Bytes(fd) == Overwrite(c0, p0, data[..i])
      {
        ghost var d, fs, cs := disk, files, chains;
        RoomAhead(v, old(chains[fd]), p0 + i, p0 + |data|);
        var e := WriteByte(fd, data[i]);
        OthersSameTrans(v, fd, old(disk), old(files), old(chains), d, fs, cs, disk, files, chains);
        if e != 0 {
          return -1;
        }
        assert data[..i + 1] == data[..i] + [data[i]];
        OverwriteSnoc(c0, p0, data[..i], data[i]);
        i := i + 1;
      }
      assert data[..|data|] == data;
      if i > 0 {
        StaleAll(v, disk, files, chains, fd);
        OthersSameTrans(v, fd, old(disk), old(files), old(chains), disk, files, chains,
                        disk, files[fd := files[fd].(fsDirty := true)], chains);
        files := files[fd := files[fd].(fsDirty := true)];
      }
      OpenGap(v, disk, files, chains, fd);
      return i;
    }

    /** One byte of `fat_write`: into the buffer under the cursor, growing the file at its end. */
    method TypeByte(fd: nat, b: Byte)
      requires fd < 4 && |files| == 4 && fd < |chains| && Active(files[fd]) && files[fd].cursor < 512
      modifies `files
      ensures files == old(files)[fd := Typed(old(files[fd]), b)]
    {
      if files[fd].cursor + files[fd].fileSector * 512 == files[fd].size {
        files := files[fd := files[fd].(size := files[fd].size + 1, fsDirty := true)];
      }
      files := files[fd := files[fd].(buffer := files[fd].buffer[files[fd].cursor := b])];
      files := files[fd := files[fd].(cursor := files[fd].cursor + 1)];
      files := files[fd := files[fd].(dirty := true)];
    }

    /** The seek to the end with which `fat_write` begins an append.  A saved file gets there exactly if
        its end lies in its clusters or it can grow. */
    method AppendSeek(fd: nat) returns (arrived: bool)
      requires Valid() && !astray && |files| == 4 && |chains| >= 4 && HasFat(v, disk) && fd < 4
      requires Active(files[fd]) && files[fd].write && HasPlace(v, disk, chains, files[fd], fd)
      modifies `disk, `sysbuf, `files, `chains, `astray
      ensures |files| == 4 && |chains| == old(|chains|) && HasFat(v, disk) && SameMode(old(files[fd]), files[fd])
      ensures var at := Target(old(files[fd]), 0, SeekEnd);
              && at <= old(|Bytes(fd)|)
              && (arrived ==>
                    && !astray && Valid() && Pos(files[fd]) == at && Bytes(fd) == old(Bytes(fd))
                    && OthersSame(v, fd, old(disk), old(files), old(chains), disk, files, chains)
                    && HasPlace(v, disk, chains, files[fd], fd)
                    && (old(HasHome(files[fd], chains[fd])) ==> HasHome(files[fd], chains[fd])))
      ensures !arrived ==> NoFree(v, disk)
      ensures old(chains[fd] != [] && files[fd].size < 0x1_0000_0000) ==>
                && (arrived <==> old(Reaches(fd, |chains[fd]|, files[fd].size)))
                && (astray ==> old(!Full(v, disk)))
                && (!arrived && !astray ==>
                      && disk == Flushed(old(disk), old(files[fd]))
                      && Astray(v, disk, old(files[fd]).(dirty := false), files[fd]))
    {
      hide SystemOK, NoFree, FileOK, Content, FdOK, AllOK, AllButOK, OthersSame, SavedEntry, WriteEntry, HasFat, Full,
           CanSaveEntry, ParentHasSlot, EntryBlock, AtSector, InChain, DataKept, SeekTo, Room, IsDir, Within,
           Missed, CanStart, HasPlace, Astray, Flushed;
      PosInFile(v, disk, files, chains, fd);
      PlaceToStart(v, disk, chains, files[fd], fd);
      if chains[fd] != [] {
        EndOfSaved(v, disk, files, chains, fd);
      }
      var f := files[fd];
      AtEnd(f);
      var _ := Lseek(fd, 0, SeekEnd);
      arrived := !astray && Arrives(f, files[fd], Target(f, 0, SeekEnd));
      if !astray {
        PlaceKept(v, old(disk), old(chains), f, disk, chains, files[fd], fd);
      }
      if !arrived && !astray && old(chains[fd]) != [] && f.size < 0x1_0000_0000 {
        LandsAstray(v, disk, f.(dirty := false), files[fd], old(chains[fd]));
      }
    }

    /** The loop of `fat_write` on a record that a failed seek left elsewhere, while the bytes fit in the
        buffer.  Where they do not the model stops. */
    method WriteAstray(fd: nat, data: seq<Byte>) returns (r: int)
      requires fd < 4 && |files| == 4 && fd < |chains| && Active(files[fd]) && files[fd].cursor <= 512
      modifies `files
      ensures |files| == 4 && files == old(files)[fd := files[fd]] && SameFlags(old(files[fd]), files[fd])
      ensures old(files[fd].cursor) + |data| <= 512 ==>
                && r == |data|
                && files[fd] == old(files[fd]).(
                     buffer := Patched(old(files[fd].buffer), old(files[fd].cursor), data),
                     cursor := old(files[fd].cursor) + |data|, dirty := old(files[fd].dirty) || data != [],
                     size := TypedSize(old(files[fd]), |data|), fsDirty := old(files[fd].fsDirty) || data != [])
    {
      hide IsDir, Patched;
      var i := 0;
      PatchedNothing(files[fd].buffer, files[fd].cursor);
      while i < |data| && files[fd].cursor < 512
        invariant i <= |data| && |files| == 4 && files == old(files)[fd := files[fd]]
        invariant files[fd].cursor == old(files[fd].cursor) + i <= 512
        invariant files[fd] == old(files[fd]).(
                    buffer := Patched(old(files[fd].buffer), old(files[fd].cursor), data[..i]),
                    cursor := old(files[fd].cursor) + i, dirty := old(files[fd].dirty) || i > 0,
                    size := TypedSize(old(files[fd]), i), fsDirty := files[fd].fsDirty)
        invariant i == 0 ==> files[fd].fsDirty == old(files[fd].fsDirty)
      {
        PatchedNext(old(files[fd].buffer), old(files[fd].cursor), data, i);
        TypeByte(fd, data[i]);
        i := i + 1;
      }
      if i > 0 {
        files := files[fd := files[fd].(fsDirty := true)];
      }
      assert i == |data| ==> data[..i] == data;
      return if i == |data| then i else -1;
    }

    /** `fat_write`: -1 on a file that is not open for writing; else the file has the bytes of `data` at
        the position (at its end when it is opened for appending), growing as needed, and nothing
        else changed.  Once started it fails only when no cluster of the volume is free, after a part
        of the bytes.  The source does not look whether the seek of an append arrived.  For a saved file
        it does not exactly if the end lies behind its clusters and it cannot grow; then, with no
        zero entry in the FAT, up to 512 bytes go to the start of the buffer, the answer is their number,
        and the record names the block that the next flush will write: the file's own last sector with a
        block of the FAT under the bytes, or the block with the wrapped number of cluster 0xFFFFFFFF. */
    method Write(fd: nat, data: seq<Byte>) returns (r: int)
      requires Valid() && !astray && |files| == 4 && |chains| >= 4 && HasFat(v, disk)
      requires fd < 4 && files[fd].open ==> Active(files[fd]) && HasPlace(v, disk, chains, files[fd], fd)
      modifies `disk, `sysbuf, `files, `chains, `astray
      ensures |files| == 4 && |chains| == old(|chains|) && HasFat(v, disk)
      ensures fd >= 4 || !old(files[fd].open && files[fd].write) ==> r == -1 && unchanged(`disk, `files, `chains, `astray)
      ensures fd < 4 && old(files[fd].open && files[fd].write) ==>
                var at := if old(files[fd].append) then Target(old(files[fd]), 0, SeekEnd) else old(Pos(files[fd]));
                && SameFlags(old(files[fd]), files[fd])
                && (astray ==> NoFree(v, disk))
                && at <= old(|Bytes(fd)|)
                && (!astray ==>
                      && OthersSame(v, fd, old(disk), old(files), old(chains), disk, files, chains)
                      && AllButOK(v, disk, files, chains, fd)
                      && (r == |data| || (r == -1 && NoFree(v, disk))))
                && (!astray && r == |data| ==>
                      && Valid() && HasPlace(v, disk, chains, files[fd], fd)
                      && Bytes(fd) == Overwrite(old(Bytes(fd)), at, data)
                      && Pos(files[fd]) == at + |data|
                      && (old(HasHome(files[fd], chains[fd])) ==> HasHome(files[fd], chains[fd]))
                      && (data != [] ==> files[fd].fsDirty)
                      && (data == [] && !old(files[fd].append) ==> unchanged(`disk, `files, `chains)))
                && (old(chains[fd] != [] && !files[fd].append && Room(v, chains[fd], at + |data|)) ==>
                      !astray && r == |data| && unchanged(`chains))
                && (!astray && r == -1 ==>
                      && Recoverable(fd)
                      && exists n: nat | n < |data| :: Kept(fd) == Overwrite(old(Bytes(fd)), at, data[..n]))
      ensures fd < 4 && old(files[fd].open && files[fd].write && files[fd].append && chains[fd] != []
                            && files[fd].size < 0x1_0000_0000 && !Reaches(fd, |chains[fd]|, files[fd].size)) ==>
                && astray
                && (old(Full(v, disk)) && |data| <= 512 ==>
                      && r == |data|
                      && disk == Flushed(old(disk), old(files[fd]))
                      && WroteAstray(v, disk, old(files[fd]).(dirty := false), files[fd], data))
    {
      hide SystemOK, NoFree, FileOK, Content, FdOK, AllOK, AllButOK, OthersSame, SavedEntry, WriteEntry, Settled,
           Full, CanSaveEntry, ParentHasSlot, EntryBlock, AtSector, InChain, DataKept, SeekTo, Room, IsDir, Within,
           Typed, Overwrite, Missed, Reaches, HasPlace, HasHome, HasFat, Flushed, Wrap32, Blk, Patched;
      if fd >= MAX_OPEN_FILES {
        return -1;
      }
      if !(files[fd].open && files[fd].write) {
        return -1;
      }
      SelfSame(v, fd, disk, files, chains);
      PosInFile(v, disk, files, chains, fd);
      OpenGap(v, disk, files, chains, fd);
      FdParts(v, disk, files, chains, fd);
      AtEnd(files[fd]);
      if files[fd].append {
        var arrived := AppendSeek(fd);
        if astray {
          return -1;
        }
        if !arrived {
          astray := true;
          r := -1;
          if files[fd].cursor <= 512 {
            r := WriteAstray(fd, data);
          }
          return;
        }
      }
      ghost var d, fs, cs := disk, files, chains;
      r := WriteBytes(fd, data);
      OthersSameTrans(v, fd, old(disk), old(files), old(chains), d, fs, cs, disk, files, chains);
    }

    /** The second half of `fat_close`: saves the directory entry of a clean file if it is stale. */
    method SaveIfStale(fd: nat)
      requires Valid() && !astray && |files| == 4 && fd < 4 && fd < |chains| && Active(files[fd]) && !files[fd].dirty
      modifies `disk, `sysbuf, `files, `chains, `astray
      ensures |files| == 4 && |chains| == old(|chains|) && chains[fd] == old(chains[fd]) && Valid() && !astray
      ensures OthersSame(v, fd, old(disk), old(files), old(chains), disk, files, chains)
      ensures Bytes(fd) == old(Bytes(fd)) && Active(files[fd]) && !files[fd].dirty
      ensures SameMode(old(files[fd]), files[fd]) && files[fd].fullFirstCluster == old(files[fd].fullFirstCluster)
      ensures chains[fd] != [] ==> chains[fd][0] == files[fd].fullFirstCluster
      ensures old(files[fd].entrySector) != 0 ==>
                files[fd].entrySector == old(files[fd].entrySector) && files[fd].entryNumber == old(files[fd].entryNumber)
      ensures !old(files[fd].fsDirty) ==> unchanged(`disk, `files, `chains)
      ensures old(files[fd].fsDirty) ==> SkipsEntry(v, ShutDown(files[fd])) || EntryOnDisk(disk, ShutDown(files[fd]))
      ensures !files[fd].fsDirty || SkipsEntry(v, files[fd])
    {
      hide EntriesKept, SystemOK, FileOK, Content, FdOK, AllOK, AllButOK, OthersSame, SavedEntry, CanSaveEntry,
           ParentHasSlot, AtSector, DataKept, IsDir, Dirent, PutDirent, DirBlock, EntryOnDisk;
      SelfSame(v, fd, disk, files, chains);
      FdParts(v, disk, files, chains, fd);
      if files[fd].fsDirty {
        SavedCanSave(v, disk, files, chains, fd);
        FlushFileinfo(fd);
        assert files == old(files)[fd := files[fd]];
        EntryClosed(v, old(disk), old(files), old(chains), fd, disk, files[fd]);
      }
    }

    /** `fat_close`: afterwards the disk alone holds the file, and its directory entry, if it was right or
        marked as out of date before, has its name, says where it starts and how long it is: in the slot it
        had, or, for a file that had none, in the first free slot of its parent directory. */
    method Close(fd: nat) returns (r: int)
      requires Valid() && !astray && |files| == 4 && |chains| >= 4
      requires fd < 4 && files[fd].open ==> Active(files[fd]) && HasPlace(v, disk, chains, files[fd], fd)
      modifies `disk, `sysbuf, `files, `chains, `astray
      ensures |files| == 4 && |chains| == old(|chains|) && HasFat(v, disk) && (astray ==> NoFree(v, disk))
      ensures !astray ==> Valid()
      ensures fd >= 4 || !old(files[fd].open) ==> r == -1 && unchanged(`disk, `files, `chains)
      ensures fd < 4 && old(files[fd].open) && !astray ==>
                && OthersSame(v, fd, old(disk), old(files), old(chains), disk, files, chains)
                && (r == 0 || (r == -1 && NoFree(v, disk)))
                && (r == 0 ==>
                      && !files[fd].open && !files[fd].read && !files[fd].write && !files[fd].append
                      && !files[fd].dirty && !files[fd].fsDirty)
                && (r == 0 ==> OnDisk(v, disk, chains[fd], files[fd].size) == old(Bytes(fd)))
                && (r == 0 && old(Recorded(v, disk, files[fd]) && (files[fd].write || files[fd].entrySector != 0))
                    && chains[fd] != [] && chains[fd][0] != v.rootCluster ==>
                      Lists(disk, files[fd].entrySector, files[fd].entryNumber, old(files[fd].name),
                            old(files[fd].attributes), chains[fd][0], |old(Bytes(fd))|))
                && (chains[fd] != [] ==> r == 0 ==> chains[fd][0] == files[fd].fullFirstCluster)
                && (r == 0 && old(files[fd].entrySector) != 0 ==>
                      files[fd].entrySector == old(files[fd].entrySector) && files[fd].entryNumber == old(files[fd].entryNumber))
                && (r == 0 && old(chains[fd] == [] && files[fd].dirty && files[fd].write && files[fd].entrySector == 0) ==>
                      FirstSlotOf(v, old(disk), old(chains), old(files[fd].parentCluster),
                                  files[fd].entrySector, files[fd].entryNumber))
    {
      hide SystemOK, NoFree, NextFree, FileOK, Content, FdOK, AllOK, AllButOK, OthersSame, SavedEntry, WriteEntry,
           MarkedBehind, CanSaveEntry, ParentHasSlot, AtSector, InChain, DataKept, Room, IsDir, Dirent, PutDirent,
           OnDisk, EntryOnDisk, DirBlock, FirstSlotOf, Lists, EntriesKept;
      Sizes(v, disk, files, chains);
      if fd >= MAX_OPEN_FILES {
        return -1;
      }
      if !files[fd].open {
        return -1;
      }
      PosInFile(v, disk, files, chains, fd);
      SelfSame(v, fd, disk, files, chains);
      if files[fd].dirty {
        r := Flush(fd);
        FdParts(v, disk, files, chains, fd);
        Sizes(v, disk, files, chains);
        if astray || r != 0 {
          return -1;
        }
      }
      ghost var d, fs, cs := disk, files, chains;
      SaveIfStale(fd);
      OthersSameTrans(v, fd, old(disk), old(files), old(chains), d, fs, cs, disk, files, chains);
      Sizes(v, disk, files, chains);
      FdParts(v, disk, files, chains, fd);
      CleanOnDisk(v, disk, files, chains, fd);
      ClosedOK(v, disk, files, chains, fd);
      OthersSameTrans(v, fd, old(disk), old(files), old(chains), disk, files, chains,
                      disk, files[fd := ShutDown(files[fd])], chains);
      files := files[fd := ShutDown(files[fd])];
      StillRecorded(v, fd, old(disk), old(files), old(chains), disk, files, chains);
      return 0;
    }
  }
}
