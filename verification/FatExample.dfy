/** Small volumes: the driver's invariant can be met, the failing seek happens, an append on a full volume
    goes into the FAT, and a FAT that is rounded up to whole blocks leads the driver behind its volume. */
module FatExample {
  import opened FatTable
  import opened FatFile
  import opened FatSystem
  import opened FatDriver

  // ---------------------------------------------------------------- a volume and a new file

  /** One-sector clusters, one block of FAT; cluster c is block c. */
  function TinyVolume(): Volume { Volume(Fat32, 1, 0, 1, 1, 2, 0, 2, 128, 128) }

  /** A block of FAT32 entries of which the first n are end marks and the others zero. */
  function MarkedBlock(n: int): Block {
    seq(512, i requires 0 <= i < 512 =>
          if i >= 4 * n then 0 else if i % 4 == 0 then 0xF8 else if i % 4 == 3 then 0x0F else 0xFF)
  }

  /** Entries 0 to n - 1 are end marks, the others are free. */
  function TinyDisk(n: nat): Disk { Zeroes(128)[1 := MarkedBlock(n)] }

  function Zeroes(n: nat): (d: Disk)
    ensures |d| == n && forall i | 0 <= i < n :: d[i] == ZeroBlock()
  {
    if n == 0 then [] else Zeroes(n - 1) + [ZeroBlock()]
  }

  /** A record as opening a new file leaves it. */
  function NewFile(open: bool): FileS {
    FileS(open, true, true, false, false, false, ZeroBlock(), 0, 0, 0, 0, 0, seq(11, i => 32), 0x20, seq(12, i => 0),
          0, 0, 0, 0, 2, 0)
  }

  /** The root directory is the chain of owner 4; the first open file has chain s. */
  function TinyChains(s: seq<nat>): seq<seq<nat>> { [s, [], [], [], [2]] }

  lemma TinyBlocks(n: nat)
    ensures |TinyDisk(n)| == 128 && TinyDisk(n)[1] == MarkedBlock(n)
    ensures forall b | 0 <= b < 128 && b != 1 :: TinyDisk(n)[b] == ZeroBlock()
  {
    hide MarkedBlock, ZeroBlock;
  }

  lemma BlockEntry(v: Volume, n: int, off: nat)
    requires v.kind.Fat32? && off % 4 == 0 && off + 4 <= 512
    ensures LoadEntry(v, MarkedBlock(n), off) == if off < 4 * n then 0xFFF_FFF8 else 0
  {
  }

  lemma TinyEntry(n: nat, c: nat)
    requires c < 128
    ensures HasFat(TinyVolume(), TinyDisk(n)) && Entries(TinyVolume()) == 128
    ensures Entry(TinyVolume(), TinyDisk(n), c) == if c < n then 0xFFF_FFF8 else 0
  {
    hide TinyDisk, MarkedBlock;
    TinyBlocks(n);
    BlockEntry(TinyVolume(), n, c * 4);
    assert EntryBlock(TinyVolume(), c) == 1 && EntryOffset(TinyVolume(), c) == c * 4;
  }

  /** With one file on cluster 3 or none, the volume is in order and has room. */
  lemma TinySystem(full: bool)
    ensures var n, s := if full then 4 else 3, if full then [3] else [];
            SystemOK(TinyVolume(), TinyDisk(n), TinyChains(s)) && !NoFree(TinyVolume(), TinyDisk(n))
  {
    hide Entry, TinyDisk;
    var n, s := if full then 4 else 3, if full then [3] else [];
    TinyEntry(n, 0);
    TinyEntry(n, 1);
    TinyEntry(n, 2);
    TinyEntry(n, 3);
    TinyEntry(n, 4);
    assert IsChain(TinyVolume(), TinyDisk(n), [2]);
    assert full ==> IsChain(TinyVolume(), TinyDisk(n), [3]);
  }

  lemma NewFileOK()
    ensures FdOK(TinyVolume(), TinyDisk(3), TinyChains([]), NewFile(true), 0)
  {
    hide TinyDisk;
  }

  /** All the driver asks for holds here, and there is room to write. */
  lemma NewFileReady()
    ensures var v, disk, chains := TinyVolume(), TinyDisk(3), TinyChains([]);
            var files := [NewFile(true), NewFile(false), NewFile(false), NewFile(false)];
            AllOK(v, disk, files, chains) && Active(files[0]) && HasPlace(v, disk, chains, files[0], 0)
  {
    hide SystemOK, FdOK, TinyDisk, SlotIn;
    TinySystem(false);
    NewFileOK();
    TinySlot();
  }

  lemma TinySlot()
    ensures SlotIn(TinyVolume(), TinyDisk(3), TinyChains([]), 2, 4, 0)
  {
    ZeroSlot();
    hide TinyDisk, MarkedBlock, ZeroBlock, HasSlot;
    TinyBlocks(3);
    assert InChain(TinyVolume(), [2], 0) && SecAt(TinyVolume(), [2], 0) == 2;
  }

  lemma ZeroSlot()
    ensures HasSlot(ZeroBlock())
  {
    assert FreeSlot(ZeroBlock(), 0);
  }

  // ---------------------------------------------------------------- the seek that fails

  /** A file of 512 bytes that fills its one cluster, 3, open for reading only and read to its end. */
  function FullFile(): FileS {
    NewFile(true).(write := false, sector := 3, cluster := 3, cursor := 512, size := 512, fullFirstCluster := 3,
                   entrySector := 2)
  }

  function FullFiles(): seq<FileS> { [FullFile(), NewFile(false), NewFile(false), NewFile(false)] }

  lemma FullFileFields()
    ensures var f := FullFile();
            && f.open && !f.write && !f.dirty && !IsDir(f.attributes) && f.buffer == ZeroBlock() && f.sector == 3
            && f.cluster == 3 && f.cursor == 512 && f.size == 512 && f.fullFirstCluster == 3 && f.entrySector == 2
            && f.entryNumber == 0 && f.fileSector == 0 && f.sectorsLeft == 0
    ensures |FullFiles()| == 4 && FullFiles()[0] == FullFile()
    ensures forall i | 1 <= i < 4 :: !FullFiles()[i].open
    ensures |TinyChains([3])| == 5 && TinyChains([3])[0] == [3] && TinyChains([3])[4] == [2]
    ensures TinyVolume() == Volume(Fat32, 1, 0, 1, 1, 2, 0, 2, 128, 128)
  {
    hide ZeroBlock;
  }

  /** One file, clean and of 512 bytes, on cluster 3 of a volume whose directory is cluster 2: what the driver
      asks for holds. */
  lemma OneFileOK(v: Volume, disk: Disk, files: seq<FileS>, chains: seq<seq<nat>>)
    requires SystemOK(v, disk, chains) && v.spc == 1 && v.cluster0 >= 0
    requires |chains| == 5 && chains[0] == [3] && chains[4] == [2]
    requires |files| == 4 && forall i | 1 <= i < 4 :: !files[i].open
    requires var f := files[0];
             && f.cursor <= 512 && f.size == 512 && f.fileSector == 0 && f.sectorsLeft == 0 && f.entryNumber == 0
             && f.cluster == f.fullFirstCluster == 3 && f.sector == v.cluster0 + 3 && f.entrySector == v.cluster0 + 2
             && f.buffer == Blk(disk, f.sector)
    ensures AllOK(v, disk, files, chains)
  {
    hide SystemOK, Blk;
    assert SecAt(v, [3], 0) == v.cluster0 + 3;
    assert AtSector(v, files[0], [3], 0) && Room(v, [3], 512);
    assert InChain(v, chains[4], 0) && SecAt(v, chains[4], 0) == v.cluster0 + 2;
    assert Holds(v, chains, 4, 0, v.cluster0 + 2);
    hide AtSector, Room, SavedEntry, Holds;
    assert FdOK(v, disk, chains, files[0], 0);
  }

  lemma FullFileBlock()
    ensures Blk(TinyDisk(4), 3) == ZeroBlock()
  {
    hide TinyDisk, MarkedBlock, ZeroBlock;
    TinyBlocks(4);
  }

  /** Seeking it to its end, where it stands, answers 512, but leaves it at 0 with a block of the FAT for
      its contents. */
  method SeekFullFile(g: Gristle) returns (r: int)
    requires g.v == TinyVolume() && g.disk == TinyDisk(4) && g.files == FullFiles() && g.chains == TinyChains([3])
    requires !g.astray
    modifies g
    ensures r == 512 && |g.files| == 4 && Pos(g.files[0]) == 0 && g.files[0].buffer == MarkedBlock(4)
  {
    hide AllOK, AllButOK, OthersSame, TinyDisk, MarkedBlock, NoFree, FullFile, FullFiles, TinyChains, NewFile, Content,
         TinyVolume, SeekTo, FileOK, ZeroBlock, IsDir, Nowhere, ParentHasSlot, SystemOK;
    FullFileFields();
    TinyBlocks(4);
    TinySystem(true);
    FullFileBlock();
    OneFileOK(g.v, g.disk, g.files, g.chains);
    SystemParts(g.v, g.disk, g.chains);
    assert EntryBlock(g.v, 3) == 1;
    r := g.Lseek(0, 0, SeekEnd);
  }

  // ---------------------------------------------------------------- an append on a full volume

  /** As many one-sector clusters as fill 8 blocks of FAT; cluster c is block c + 7. */
  function CrammedVolume(): Volume { Volume(Fat32, 1, 7, 1, 8, 9, 0, 2, 1024, 2000) }

  /** Every entry is an end mark. */
  function CrammedDisk(): Disk { seq(2000, b => CrammedBlock(b)) }

  function CrammedBlock(b: int): Block { if 1 <= b <= 8 then MarkedBlock(128) else ZeroBlock() }

  /** A file of 512 bytes that fills its cluster, 3, opened for appending. */
  function LogFile(): FileS {
    NewFile(true).(append := true, sector := 10, cluster := 3, size := 512, fullFirstCluster := 3, entrySector := 9)
  }

  function LogFiles(): seq<FileS> { [LogFile(), NewFile(false), NewFile(false), NewFile(false)] }

  lemma LogFileFields()
    ensures var f := LogFile();
            && f.open && f.write && f.append && !f.dirty && !IsDir(f.attributes) && f.buffer == ZeroBlock() && f.sector == 10
            && f.cluster == 3 && f.cursor == 0 && f.size == 512 && f.fullFirstCluster == 3 && f.entrySector == 9
            && f.entryNumber == 0 && f.fileSector == 0 && f.sectorsLeft == 0
    ensures |LogFiles()| == 4 && LogFiles()[0] == LogFile() && forall i | 1 <= i < 4 :: !LogFiles()[i].open
    ensures |TinyChains([3])| == 5 && TinyChains([3])[0] == [3] && TinyChains([3])[4] == [2]
    ensures CrammedVolume() == Volume(Fat32, 1, 7, 1, 8, 9, 0, 2, 1024, 2000)
  {
    hide ZeroBlock;
  }

  lemma CrammedEntry(c: nat)
    requires c < 1024
    ensures HasFat(CrammedVolume(), CrammedDisk()) && Entries(CrammedVolume()) == 1024
    ensures Entry(CrammedVolume(), CrammedDisk(), c) == 0xFFF_FFF8
  {
    BlockEntry(CrammedVolume(), 128, c % 128 * 4);
    assert EntryBlock(CrammedVolume(), c) == 1 + c / 128 && EntryOffset(CrammedVolume(), c) == c % 128 * 4;
    assert CrammedDisk()[1 + c / 128] == MarkedBlock(128);
  }

  lemma CrammedSystem()
    ensures SystemOK(CrammedVolume(), CrammedDisk(), TinyChains([3]))
    ensures NoFree(CrammedVolume(), CrammedDisk()) && Full(CrammedVolume(), CrammedDisk())
  {
    hide Entry, CrammedDisk;
    var v, disk := CrammedVolume(), CrammedDisk();
    CrammedEntry(0);
    forall c: nat | c < 1024 ensures Entry(v, disk, c) == 0xFFF_FFF8 {
      CrammedEntry(c);
    }
    assert IsChain(v, disk, [2]) && IsChain(v, disk, [3]);
  }

  lemma CrammedBlocks()
    ensures Blk(CrammedDisk(), 10) == ZeroBlock() && Blk(CrammedDisk(), 6) == MarkedBlock(128) && |CrammedDisk()| == 2000
  {
    hide MarkedBlock, ZeroBlock;
  }

  /** Appending one byte answers 1; the byte lands at the start of block 6, in the FAT, and with the next
      write-back the entry of cluster 640 no longer is the end mark it was. */
  method AppendIntoFat(g: Gristle, b: Byte) returns (r: int)
    requires g.v == CrammedVolume() && g.disk == CrammedDisk() && g.files == LogFiles() && g.chains == TinyChains([3])
    requires !g.astray
    modifies g
    ensures r == 1 && g.astray && |g.files| == 4 && g.files[0].sector == 6 && InFat(g.v, 6)
    ensures HasFat(g.v, g.disk) && Entry(g.v, old(g.disk), 640) == 0xFFF_FFF8 && Entry(g.v, g.disk, 640) == 0xFFF_FF00 + b as int
  {
    hide AllOK, AllButOK, OthersSame, CrammedDisk, MarkedBlock, NoFree, Full, LogFile, LogFiles, TinyChains, NewFile,
         Content, FileOK, ZeroBlock, IsDir, Missed, ParentHasSlot, SystemOK, Entry, Overwrite, Blk, Patched, HasFat;
    LogFileFields();
    CrammedSystem();
    CrammedBlocks();
    OneFileOK(g.v, g.disk, g.files, g.chains);
    CrammedEntry(640);
    r := g.Write(0, [b]);
    ghost var d := g.disk;
    BrokenMark(d, b);
    g.WriteBack(0);
  }

  lemma BrokenMark(d: Disk, b: Byte)
    requires d == CrammedDisk()
    ensures |d| == 2000 && var e := d[6 := Patched(MarkedBlock(128), 0, [b])];
            HasFat(CrammedVolume(), e) && Entry(CrammedVolume(), e, 640) == 0xFFF_FF00 + b as int
  {
    var p := Patched(MarkedBlock(128), 0, [b]);
    assert p[0] == b && p[1] == 0xFF && p[2] == 0xFF && p[3] == 0x0F;
    hide MarkedBlock, CrammedDisk, Patched;
    CrammedBlocks();
    assert EntryBlock(CrammedVolume(), 640) == 6 && EntryOffset(CrammedVolume(), 640) == 0;
  }

  // ---------------------------------------------------------------- a FAT rounded up to whole blocks

  /** A thousand clusters of one sector, whose FAT takes 8 blocks of 128 entries: the last 22 belong to no
      cluster.  The disk goes on behind the volume. */
  function PaddedVolume(): Volume { Volume(Fat32, 1, 7, 1, 8, 9, 0, 2, 1002, 2000) }

  /** All clusters are taken. */
  function PaddedDisk(): Disk {
    seq(2000, b requires 0 <= b < 2000 => if 1 <= b <= 8 then MarkedBlock(1002 - 128 * (b - 1)) else ZeroBlock())
  }

  lemma PaddedEntry(c: nat)
    requires c < 1024
    ensures HasFat(PaddedVolume(), PaddedDisk()) && Entries(PaddedVolume()) == 1024
    ensures Entry(PaddedVolume(), PaddedDisk(), c) == if c < 1002 then 0xFFF_FFF8 else 0
  {
    var b := c / 128;
    BlockEntry(PaddedVolume(), 1002 - 128 * b, c % 128 * 4);
    assert EntryBlock(PaddedVolume(), c) == 1 + b && EntryOffset(PaddedVolume(), c) == c % 128 * 4;
    assert PaddedDisk()[1 + b] == MarkedBlock(1002 - 128 * b);
  }

  lemma PaddedFull()
    ensures HasFat(PaddedVolume(), PaddedDisk()) && FreeOK(PaddedVolume(), PaddedDisk())
    ensures NoFree(PaddedVolume(), PaddedDisk()) && LowestFree(PaddedVolume(), PaddedDisk(), 1002)
  {
    hide Entry, PaddedDisk;
    PaddedEntry(0);
    forall c: nat | c < 1024
      ensures Entry(PaddedVolume(), PaddedDisk(), c) == if c < 1002 then 0xFFF_FFF8 else 0
    {
      PaddedEntry(c);
    }
  }

  /** With no cluster free the driver hands out cluster 1002, which lies right behind the volume. */
  method HandOutPadding(g: Gristle) returns (r: nat)
    requires g.v == PaddedVolume() && g.disk == PaddedDisk()
    modifies g
    ensures r == 1002 && r >= g.v.clusterEnd && SectorOf(g.v, r, 0) == g.v.clusterEnd * g.v.spc + g.v.cluster0
  {
    PaddedFull();
    hide PaddedDisk, Entry;
    r := g.GetFreeCluster();
  }
}
