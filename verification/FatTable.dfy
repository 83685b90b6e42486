/** The on-disk file allocation table: 16- or 32-bit little-endian entries packed into
    512-byte blocks, and the cluster chains they link. */
module FatTable {

  type Byte = b: int | 0 <= b < 256

  type Block = s: seq<Byte> | |s| == 512 witness seq(512, i => 0)

  type Disk = seq<Block>

  datatype FatKind = Fat16 | Fat32

  /** The mounted volume: what `struct fat_info` holds after a successful mount.
      `fatStart`/`fatLen` are the first block and the number of blocks of the active FAT,
      `rootStart`/`rootLen` those of the fixed FAT16 root directory (length 0 on FAT32);
      cluster c occupies blocks c*spc + cluster0 onwards; the volume's clusters are those from 2 to
      below `clusterEnd`, which the driver could tell from `total_sectors` but never computes;
      `blocks` is the size of the disk. */
  datatype Volume = Volume(kind: FatKind, spc: nat, cluster0: int, fatStart: nat, fatLen: nat,
                           rootStart: nat, rootLen: nat, rootCluster: nat, clusterEnd: nat, blocks: nat)

  /** What a mounted volume satisfies: clusters of 1 to 128 sectors, a FAT behind the boot
      sector, the fixed root directory behind the FAT and cluster 2 (the first data cluster)
      behind both; the volume's clusters lie on the disk, and their numbers are no chain-end values.
      Blocks have 32-bit numbers. */
  predicate VolumeOK(v: Volume) {
    && 1 <= v.spc <= 128
    && 1 <= v.fatStart
    && v.fatStart + v.fatLen <= v.rootStart
    && v.rootStart + v.rootLen <= v.blocks <= 0x1_0000_0000
    && v.rootStart + v.rootLen <= 2 * v.spc + v.cluster0
    && v.clusterEnd <= Marker(v) && v.clusterEnd * v.spc + v.cluster0 <= v.blocks
  }

  function EntryLen(v: Volume): nat { if v.kind.Fat16? then 2 else 4 }

  /** Entries that fit in one block. */
  function PerBlock(v: Volume): nat { if v.kind.Fat16? then 256 else 128 }

  function EntryLimit(v: Volume): nat { if v.kind.Fat16? then 0x1_0000 else 0x1_0000_0000 }

  /** `end_cluster_marker`: values from here on end a chain. */
  function Marker(v: Volume): nat { if v.kind.Fat16? then 0xFFF0 else 0xFFF_FFF0 }

  /** The value a freshly allocated cluster gets. */
  function EndOfChain(v: Volume): nat { if v.kind.Fat16? then 0xFFF8 else 0xFFF_FFF8 }

  /** Number of entries in the active FAT. */
  function Entries(v: Volume): nat { if v.kind.Fat16? then v.fatLen * 256 else v.fatLen * 128 }

  function EntryBlock(v: Volume, c: nat): nat {
    v.fatStart + (if v.kind.Fat16? then c * 2 / 512 else c * 4 / 512)
  }

  function EntryOffset(v: Volume, c: nat): nat {
    if v.kind.Fat16? then c * 2 % 512 else c * 4 % 512
  }

  function LoadEntry(v: Volume, b: Block, off: nat): nat
    requires off + EntryLen(v) <= 512
  {
    var b0: int, b1: int := b[off], b[off + 1];
    if v.kind.Fat16? then b0 + 0x100 * b1
    else
      var b2: int, b3: int := b[off + 2], b[off + 3];
      b0 + 0x100 * b1 + 0x1_0000 * b2 + 0x100_0000 * b3
  }

  function StoreEntry(v: Volume, b: Block, off: nat, e: nat): Block
    requires off + EntryLen(v) <= 512
  {
    if v.kind.Fat16? then b[off := e % 0x100][off + 1 := e / 0x100 % 0x100]
    else
      b[off := e % 0x100][off + 1 := e / 0x100 % 0x100]
       [off + 2 := e / 0x1_0000 % 0x100][off + 3 := e / 0x100_0000 % 0x100]
  }

  /** The FAT of this volume lies on the disk. */
  predicate HasFat(v: Volume, disk: Disk) { VolumeOK(v) && |disk| == v.blocks }

  lemma EntryFits(v: Volume, c: nat)
    ensures EntryOffset(v, c) + EntryLen(v) <= 512
  {
  }

  lemma FatOnDisk(v: Volume)
    requires VolumeOK(v)
    ensures v.fatStart + v.fatLen <= v.blocks
  {
  }

  predicate InFat(v: Volume, b: int) { v.fatStart <= b < v.fatStart + v.fatLen }

  lemma EntryBlockInFat(v: Volume, c: nat)
    requires c < Entries(v)
    ensures InFat(v, EntryBlock(v, c))
  {
  }

  lemma EntryPlace(v: Volume, disk: Disk, c: nat)
    requires HasFat(v, disk) && c < Entries(v)
    ensures EntryBlock(v, c) < |disk| && EntryOffset(v, c) + EntryLen(v) <= 512
  {
    hide EntryBlock, EntryOffset, EntryLen, Entries, VolumeOK;
    EntryBlockInFat(v, c);
    EntryFits(v, c);
    FatOnDisk(v);
  }

  function Entry(v: Volume, disk: Disk, c: nat): nat
    requires HasFat(v, disk) && c < Entries(v)
  {
    EntryPlace(v, disk, c);
    LoadEntry(v, disk[EntryBlock(v, c)], EntryOffset(v, c))
  }

  lemma EntryWhere(v: Volume, c: nat)
    ensures EntryBlock(v, c) == v.fatStart + if v.kind.Fat16? then c / 256 else c / 128
    ensures EntryOffset(v, c) == if v.kind.Fat16? then c % 256 * 2 else c % 128 * 4
  {
  }

  /** Entry c in numbers: the two bytes from byte 2 * c of the FAT on, or the four from 4 * c on, the
      lowest first. */
  lemma EntryBytes(v: Volume, disk: Disk, c: nat)
    requires HasFat(v, disk) && c < Entries(v)
    ensures v.kind.Fat16? ==>
              var b, o := v.fatStart + c / 256, c % 256 * 2;
              b < |disk| && Entry(v, disk, c) == disk[b][o] as int + 256 * disk[b][o + 1] as int
    ensures v.kind.Fat32? ==>
              var b, o := v.fatStart + c / 128, c % 128 * 4;
              b < |disk| && Entry(v, disk, c)
                         == disk[b][o] as int + 256 * (disk[b][o + 1] as int
                              + 256 * (disk[b][o + 2] as int + 256 * disk[b][o + 3] as int))
  {
    hide EntryBlock, EntryOffset, Entries, VolumeOK;
    EntryPlace(v, disk, c);
    EntryWhere(v, c);
  }

  function WriteEntry(v: Volume, disk: Disk, c: nat, e: nat): Disk
    requires HasFat(v, disk) && c < Entries(v)
  {
    EntryPlace(v, disk, c);
    disk[EntryBlock(v, c) := StoreEntry(v, disk[EntryBlock(v, c)], EntryOffset(v, c), e)]
  }

  /** Cluster whose entry is number j of FAT block i. */
  function ClusterAt(v: Volume, i: nat, j: nat): nat
    requires v.fatStart <= i
  {
    if v.kind.Fat16? then (i - v.fatStart) * 256 + j else (i - v.fatStart) * 128 + j
  }

  /** Byte offset of entry number j of a FAT block. */
  function SlotOffset(v: Volume, j: nat): nat { if v.kind.Fat16? then j * 2 else j * 4 }

  lemma ClusterAtPlace(v: Volume, i: nat, j: nat)
    requires v.fatStart <= i && j < PerBlock(v)
    ensures EntryBlock(v, ClusterAt(v, i, j)) == i && EntryOffset(v, ClusterAt(v, i, j)) == SlotOffset(v, j)
    ensures InFat(v, i) ==> ClusterAt(v, i, j) < Entries(v)
  {
  }

  // ---------------------------------------------------------------- entry algebra

  /** A number is the sum of its little-endian bytes. */
  lemma LittleEndian(e: nat)
    ensures e / 0x100 / 0x100 == e / 0x1_0000 && e / 0x1_0000 / 0x100 == e / 0x100_0000
    ensures e == e % 0x100 + 0x100 * (e / 0x100 % 0x100) + 0x1_0000 * (e / 0x1_0000 % 0x100)
               + 0x100_0000 * (e / 0x100_0000)
  {
  }

  lemma LoadAfterStore(v: Volume, b: Block, off: nat, e: nat)
    requires off + EntryLen(v) <= 512 && e < EntryLimit(v)
    ensures LoadEntry(v, StoreEntry(v, b, off, e), off) == e
  {
    LittleEndian(e);
    if v.kind.Fat32? {
      var b' := StoreEntry(v, b, off, e);
      assert b'[off] == e % 0x100 && b'[off + 1] == e / 0x100 % 0x100;
      assert b'[off + 2] == e / 0x1_0000 % 0x100;
      assert b'[off + 3] == e / 0x100_0000 % 0x100 == e / 0x100_0000;
    }
  }

  /** Two entries of one block do not overlap. */
  lemma EntriesApart(v: Volume, c: nat, d: nat)
    requires c != d && EntryBlock(v, c) == EntryBlock(v, d)
    ensures EntryOffset(v, c) + EntryLen(v) <= EntryOffset(v, d)
         || EntryOffset(v, d) + EntryLen(v) <= EntryOffset(v, c)
  {
  }

  lemma LoadElsewhere(v: Volume, b: Block, off: nat, e: nat, off': nat)
    requires off + EntryLen(v) <= 512 && off' + EntryLen(v) <= 512
    requires off + EntryLen(v) <= off' || off' + EntryLen(v) <= off
    ensures LoadEntry(v, StoreEntry(v, b, off, e), off') == LoadEntry(v, b, off')
  {
  }

  /** Writing one entry changes that entry and no other, even inside the same block. */
  lemma EntryAfterWrite(v: Volume, disk: Disk, c: nat, e: nat, d: nat)
    requires HasFat(v, disk) && c < Entries(v) && d < Entries(v) && e < EntryLimit(v)
    ensures Entry(v, WriteEntry(v, disk, c, e), d) == if d == c then e else Entry(v, disk, d)
  {
    hide StoreEntry, LoadEntry, EntryBlock, EntryOffset, Entries, VolumeOK;
    EntryBlockInFat(v, c);
    EntryBlockInFat(v, d);
    EntryFits(v, c);
    EntryFits(v, d);
    FatOnDisk(v);
    var b, off := disk[EntryBlock(v, c)], EntryOffset(v, c);
    if d == c {
      LoadAfterStore(v, b, off, e);
    } else if EntryBlock(v, d) == EntryBlock(v, c) {
      EntriesApart(v, c, d);
      LoadElsewhere(v, b, off, e, EntryOffset(v, d));
    }
  }

  /** Two disks with the same FAT blocks hold the same entries. */
  lemma SameFatSameEntries(v: Volume, d0: Disk, d1: Disk)
    requires HasFat(v, d0) && HasFat(v, d1)
    requires forall b | InFat(v, b) :: d0[b] == d1[b]
    ensures forall c: nat | c < Entries(v) :: Entry(v, d0, c) == Entry(v, d1, c)
  {
    forall c: nat | c < Entries(v) ensures Entry(v, d0, c) == Entry(v, d1, c) {
      EntryBlockInFat(v, c);
    }
  }

  // ---------------------------------------------------------------- sectors of clusters

  /** Block number of sector j of cluster c. */
  function SectorOf(v: Volume, c: nat, j: nat): int { c * v.spc + v.cluster0 + j }

  /** A cluster of the volume that has an entry in the FAT. */
  predicate Usable(v: Volume, c: nat) { 2 <= c < Entries(v) && c < v.clusterEnd }

  lemma MulMonotone(a: nat, b: nat, m: nat)
    requires a <= b
    ensures a * m <= b * m
  {
    assert b * m == a * m + (b - a) * m;
  }

  lemma SectorOfRange(v: Volume, c: nat, j: nat)
    requires VolumeOK(v) && Usable(v, c) && j < v.spc
    ensures v.rootStart + v.rootLen <= SectorOf(v, c, j) < v.blocks
    ensures 1 <= SectorOf(v, c, j) && !InFat(v, SectorOf(v, c, j))
  {
    MulMonotone(2, c, v.spc);
    MulMonotone(c + 1, v.clusterEnd, v.spc);
    assert (c + 1) * v.spc == c * v.spc + v.spc;
    hide Entries, Marker;
  }

  /** Different (cluster, sector) pairs are different blocks. */
  lemma SectorOfInjective(v: Volume, c: nat, j: nat, c': nat, j': nat)
    requires j < v.spc && j' < v.spc && SectorOf(v, c, j) == SectorOf(v, c', j')
    ensures c == c' && j == j'
  {
    if c < c' {
      MulMonotone(c + 1, c', v.spc);
    } else if c' < c {
      MulMonotone(c' + 1, c, v.spc);
    }
  }

  // ---------------------------------------------------------------- chains

  /** `s` follows the FAT links from s[0] to a cluster marked as the end of its chain. */
  predicate IsChain(v: Volume, disk: Disk, s: seq<nat>)
    requires HasFat(v, disk)
  {
    && |s| >= 1
    && (forall i | 0 <= i < |s| :: Usable(v, s[i]))
    && (forall i | 0 <= i < |s| - 1 :: Entry(v, disk, s[i]) == s[i + 1])
    && Entry(v, disk, s[|s| - 1]) >= Marker(v)
  }

  predicate Distinct(s: seq<nat>) {
    forall i, j | 0 <= i < j < |s| :: s[i] != s[j]
  }

  lemma {:induction false} ChainShift(v: Volume, disk: Disk, s: seq<nat>, t: seq<nat>, i: nat, j: nat, n: nat)
    requires HasFat(v, disk) && IsChain(v, disk, s) && IsChain(v, disk, t)
    requires i + n < |s| && j + n < |t| && s[i] == t[j]
    ensures s[i + n] == t[j + n]
  {
    if n > 0 {
      ChainShift(v, disk, s, t, i, j, n - 1);
    }
  }

  /** Only the last cluster of a chain carries an end mark, and no entry on a chain is free. */
  lemma LastIffMarked(v: Volume, disk: Disk, s: seq<nat>, i: nat)
    requires HasFat(v, disk) && IsChain(v, disk, s) && i < |s|
    ensures Entry(v, disk, s[i]) >= Marker(v) <==> i == |s| - 1
    ensures i == |s| - 1 <==> Entry(v, disk, s[i]) >= if v.kind.Fat16? then 65520 else 268435440
    ensures Entry(v, disk, s[i]) >= 2
  {
    assert i < |s| - 1 ==> Usable(v, s[i + 1]);
  }

  function Min(a: int, b: int): int { if a < b then a else b }

  /** Two chains that meet end together: from the meeting point on they have the same length. */
  lemma ChainsMeetOnce(v: Volume, disk: Disk, s: seq<nat>, t: seq<nat>, i: nat, j: nat)
    requires HasFat(v, disk) && IsChain(v, disk, s) && IsChain(v, disk, t)
    requires i < |s| && j < |t| && s[i] == t[j]
    ensures |s| - i == |t| - j
  {
    var n := Min(|s| - 1 - i, |t| - 1 - j);
    ChainShift(v, disk, s, t, i, j, n);
    LastIffMarked(v, disk, s, i + n);
    LastIffMarked(v, disk, t, j + n);
  }

  /** An end-marked chain never visits a cluster twice. */
  lemma ChainAcyclic(v: Volume, disk: Disk, s: seq<nat>)
    requires HasFat(v, disk) && IsChain(v, disk, s)
    ensures Distinct(s)
  {
    forall i, j | 0 <= i < j < |s| ensures s[i] != s[j] {
      if s[i] == s[j] {
        ChainsMeetOnce(v, disk, s, s, i, j);
      }
    }
  }

  /** A chain is determined by its first cluster. */
  lemma ChainUnique(v: Volume, disk: Disk, s: seq<nat>, t: seq<nat>)
    requires HasFat(v, disk) && IsChain(v, disk, s) && IsChain(v, disk, t) && s[0] == t[0]
    ensures s == t
  {
    ChainsMeetOnce(v, disk, s, t, 0, 0);
    forall n | 0 <= n < |s| ensures s[n] == t[n] {
      ChainShift(v, disk, s, t, 0, 0, n);
    }
  }

  /** A chain survives any change of the disk that keeps its own entries. */
  lemma ChainKept(v: Volume, d0: Disk, d1: Disk, s: seq<nat>)
    requires HasFat(v, d0) && HasFat(v, d1) && IsChain(v, d0, s)
    requires forall i | 0 <= i < |s| :: Entry(v, d1, s[i]) == Entry(v, d0, s[i])
    ensures IsChain(v, d1, s)
  {
  }

  // ---------------------------------------------------------------- the forest

  predicate Disjoint(s: seq<nat>, t: seq<nat>) {
    forall i, j | 0 <= i < |s| && 0 <= j < |t| :: s[i] != t[j]
  }

  /** All chains of the volume, by owner; an owner without clusters has the empty sequence. */
  predicate Forest(v: Volume, disk: Disk, chains: seq<seq<nat>>)
    requires HasFat(v, disk)
  {
    && (forall k | 0 <= k < |chains| :: chains[k] == [] || IsChain(v, disk, chains[k]))
    && (forall k, l | 0 <= k < l < |chains| :: Disjoint(chains[k], chains[l]))
  }

  /** Entries 0 and 1, which the standard reserves, and the root directory's are in use.  Entries that
      belong to no cluster of the volume, such as those that fill the last block of the FAT, are
      usually zero. */
  predicate FreeOK(v: Volume, disk: Disk)
    requires HasFat(v, disk)
  {
    forall c: nat | c < Entries(v) && (c < 2 || c == v.rootCluster) :: Entry(v, disk, c) != 0
  }

  /** No cluster of the volume is free. */
  predicate NoFree(v: Volume, disk: Disk)
    requires HasFat(v, disk)
  {
    forall c: nat | c < Entries(v) && c < v.clusterEnd :: Entry(v, disk, c) != 0
  }

  /** No entry at all is zero. */
  predicate Full(v: Volume, disk: Disk)
    requires HasFat(v, disk)
  {
    forall c: nat | c < Entries(v) :: Entry(v, disk, c) != 0
  }

  /** The lowest zero entry of the whole FAT, a cluster of the volume or not. */
  predicate LowestFree(v: Volume, disk: Disk, c: nat)
    requires HasFat(v, disk)
  {
    c < Entries(v) && Entry(v, disk, c) == 0 && forall d: nat | d < c :: Entry(v, disk, d) != 0
  }

  /** The lowest free cluster of the volume. */
  predicate NextFree(v: Volume, disk: Disk, c: nat)
    requires HasFat(v, disk)
  {
    LowestFree(v, disk, c) && c < v.clusterEnd
  }

  /** d1 is d0 with an end mark in its lowest zero entry, which belongs to no cluster of the volume. */
  ghost predicate MarkedBehind(v: Volume, d0: Disk, d1: Disk)
    requires HasFat(v, d0)
  {
    exists c: nat :: LowestFree(v, d0, c) && c >= v.clusterEnd && d1 == WriteEntry(v, d0, c, EndOfChain(v))
  }

  lemma MarkedNotFull(v: Volume, d0: Disk, d1: Disk)
    requires HasFat(v, d0) && FreeOK(v, d0) && MarkedBehind(v, d0, d1)
    ensures !Full(v, d0) && NoFree(v, d0)
  {
  }

  /** The lowest zero entry belongs to a cluster of the volume exactly if some cluster of the volume is
      free, and then it is no part of the root directory. */
  lemma LowestInVolume(v: Volume, disk: Disk, c: nat)
    requires HasFat(v, disk) && FreeOK(v, disk) && LowestFree(v, disk, c)
    ensures Usable(v, c) <==> c < v.clusterEnd
    ensures Usable(v, c) <==> !NoFree(v, disk)
    ensures c != 0 && c != v.rootCluster
  {
  }

  lemma FreeOnNoChain(v: Volume, disk: Disk, s: seq<nat>, c: nat)
    requires HasFat(v, disk) && IsChain(v, disk, s) && c < Entries(v) && Entry(v, disk, c) == 0
    ensures c !in s
  {
    if c in s {
      var i :| 0 <= i < |s| && s[i] == c;
      LastIffMarked(v, disk, s, i);
    }
  }

  /** Marking a free cluster as a chain end changes no chain. */
  lemma MarkKeepsChain(v: Volume, disk: Disk, s: seq<nat>, c: nat)
    requires HasFat(v, disk) && IsChain(v, disk, s) && c < Entries(v) && Entry(v, disk, c) == 0
    ensures IsChain(v, WriteEntry(v, disk, c, EndOfChain(v)), s)
  {
    FreeOnNoChain(v, disk, s, c);
    forall i | 0 <= i < |s|
      ensures Entry(v, WriteEntry(v, disk, c, EndOfChain(v)), s[i]) == Entry(v, disk, s[i])
    {
      EntryAfterWrite(v, disk, c, EndOfChain(v), s[i]);
    }
  }

  /** First-cluster allocation: owner k, which had no cluster, gets the one-cluster chain [c];
      every other chain is unchanged and the chains stay disjoint. */
  lemma AllocateKeepsForest(v: Volume, disk: Disk, chains: seq<seq<nat>>, k: nat, c: nat)
    requires HasFat(v, disk) && Forest(v, disk, chains) && FreeOK(v, disk)
    requires k < |chains| && chains[k] == [] && Usable(v, c) && Entry(v, disk, c) == 0
    ensures Forest(v, WriteEntry(v, disk, c, EndOfChain(v)), chains[k := [c]])
    ensures FreeOK(v, WriteEntry(v, disk, c, EndOfChain(v)))
    ensures Entry(v, WriteEntry(v, disk, c, EndOfChain(v)), c) == if v.kind.Fat16? then 65528 else 268435448
  {
    var d := WriteEntry(v, disk, c, EndOfChain(v));
    forall i: nat | i < Entries(v)
      ensures Entry(v, d, i) == if i == c then EndOfChain(v) else Entry(v, disk, i)
    {
      EntryAfterWrite(v, disk, c, EndOfChain(v), i);
    }
    forall l | 0 <= l < |chains| && l != k && chains[l] != []
      ensures IsChain(v, d, chains[l]) && c !in chains[l]
    {
      MarkKeepsChain(v, disk, chains[l], c);
      FreeOnNoChain(v, disk, chains[l], c);
    }
  }

  /** Marking a zero entry, whatever cluster it belongs to, disturbs no chain. */
  lemma MarkKeepsForest(v: Volume, disk: Disk, chains: seq<seq<nat>>, c: nat)
    requires HasFat(v, disk) && Forest(v, disk, chains) && FreeOK(v, disk) && c < Entries(v) && Entry(v, disk, c) == 0
    ensures var d := WriteEntry(v, disk, c, EndOfChain(v)); Forest(v, d, chains) && FreeOK(v, d)
    ensures NoFree(v, disk) ==> NoFree(v, WriteEntry(v, disk, c, EndOfChain(v)))
  {
    var d := WriteEntry(v, disk, c, EndOfChain(v));
    forall i: nat | i < Entries(v)
      ensures Entry(v, d, i) == if i == c then EndOfChain(v) else Entry(v, disk, i)
    {
      EntryAfterWrite(v, disk, c, EndOfChain(v), i);
    }
    forall l | 0 <= l < |chains| && chains[l] != [] ensures IsChain(v, d, chains[l]) {
      MarkKeepsChain(v, disk, chains[l], c);
    }
  }

  /** The two FAT writes of a growing chain: mark the new cluster, then link the old end to it. */
  function Grow(v: Volume, disk: Disk, last: nat, c: nat): (d: Disk)
    requires HasFat(v, disk) && last < Entries(v) && c < Entries(v)
    ensures HasFat(v, d)
  {
    WriteEntry(v, WriteEntry(v, disk, c, EndOfChain(v)), last, c)
  }

  lemma EntryAfterGrow(v: Volume, disk: Disk, last: nat, c: nat, d: nat)
    requires HasFat(v, disk) && last < Entries(v) && c < Entries(v) && c < Marker(v) && d < Entries(v) && last != c
    ensures Entry(v, Grow(v, disk, last, c), d)
         == if d == last then c else if d == c then EndOfChain(v) else Entry(v, disk, d)
  {
    EntryAfterWrite(v, disk, c, EndOfChain(v), d);
    EntryAfterWrite(v, WriteEntry(v, disk, c, EndOfChain(v)), last, c, d);
  }

  lemma GrowKeepsOthers(v: Volume, disk: Disk, s: seq<nat>, last: nat, c: nat)
    requires HasFat(v, disk) && IsChain(v, disk, s) && c < Marker(v)
    requires c < Entries(v) && Entry(v, disk, c) == 0 && last < Entries(v) && last !in s && last != c
    ensures IsChain(v, Grow(v, disk, last, c), s) && c !in s
  {
    FreeOnNoChain(v, disk, s, c);
    forall i | 0 <= i < |s|
      ensures Entry(v, Grow(v, disk, last, c), s[i]) == Entry(v, disk, s[i])
    {
      EntryAfterGrow(v, disk, last, c, s[i]);
    }
  }

  lemma GrowExtends(v: Volume, disk: Disk, s: seq<nat>, c: nat)
    requires HasFat(v, disk) && IsChain(v, disk, s) && Usable(v, c) && Entry(v, disk, c) == 0
    ensures IsChain(v, Grow(v, disk, s[|s| - 1], c), s + [c]) && c !in s
  {
    FreeOnNoChain(v, disk, s, c);
    ChainAcyclic(v, disk, s);
    var last := s[|s| - 1];
    var t := s + [c];
    forall i | 0 <= i < |t|
      ensures Entry(v, Grow(v, disk, last, c), t[i])
           == if i == |s| - 1 then c else if i == |s| then EndOfChain(v) else Entry(v, disk, s[i])
    {
      EntryAfterGrow(v, disk, last, c, t[i]);
    }
  }

  /** Growth appends the free cluster to exactly one chain and keeps the forest. */
  lemma GrowKeepsForest(v: Volume, disk: Disk, chains: seq<seq<nat>>, k: nat, c: nat)
    requires HasFat(v, disk) && Forest(v, disk, chains) && FreeOK(v, disk)
    requires k < |chains| && chains[k] != [] && Usable(v, c) && Entry(v, disk, c) == 0
    ensures var s := chains[k];
            var d := Grow(v, disk, s[|s| - 1], c);
            Forest(v, d, chains[k := s + [c]]) && FreeOK(v, d)
  {
    hide Grow, Entry, Entries, Marker, IsChain;
    var s := chains[k];
    var last := s[|s| - 1];
    ChainEnds(v, disk, s);
    GrowExtends(v, disk, s, c);
    forall l | 0 <= l < |chains| && l != k
      ensures chains[l] == [] || IsChain(v, Grow(v, disk, last, c), chains[l])
      ensures c !in chains[l]
    {
      if chains[l] != [] {
        assert if l < k then Disjoint(chains[l], s) else Disjoint(s, chains[l]);
        GrowKeepsOthers(v, disk, chains[l], last, c);
      }
    }
    ForestExtended(v, disk, Grow(v, disk, last, c), chains, k, c);
    GrowKeepsFree(v, disk, last, c);
  }

  lemma ChainEnds(v: Volume, disk: Disk, s: seq<nat>)
    requires HasFat(v, disk) && IsChain(v, disk, s)
    ensures s != [] && s[|s| - 1] < Entries(v) && Entry(v, disk, s[|s| - 1]) != 0
  {
    LastIffMarked(v, disk, s, |s| - 1);
  }

  lemma ForestExtended(v: Volume, disk: Disk, d: Disk, chains: seq<seq<nat>>, k: nat, c: nat)
    requires HasFat(v, disk) && HasFat(v, d) && Forest(v, disk, chains) && k < |chains|
    requires IsChain(v, d, chains[k] + [c])
    requires forall l | 0 <= l < |chains| && l != k :: chains[l] == [] || IsChain(v, d, chains[l])
    requires forall l | 0 <= l < |chains| && l != k :: c !in chains[l]
    ensures Forest(v, d, chains[k := chains[k] + [c]])
  {
    var chains' := chains[k := chains[k] + [c]];
    forall a, b | 0 <= a < b < |chains'| ensures Disjoint(chains'[a], chains'[b]) {
      assert Disjoint(chains[a], chains[b]);
    }
  }

  lemma GrowKeepsFree(v: Volume, disk: Disk, last: nat, c: nat)
    requires HasFat(v, disk) && FreeOK(v, disk) && last < Entries(v) && last != c
    requires Usable(v, c)
    ensures FreeOK(v, Grow(v, disk, last, c))
  {
    var d := Grow(v, disk, last, c);
    forall i: nat | i < Entries(v) && (i < 2 || i == v.rootCluster) ensures Entry(v, d, i) != 0 {
      EntryAfterGrow(v, disk, last, c, i);
    }
  }

  /** Linking through the copy of the FAT block read before the allocation. */
  function StaleLink(v: Volume, disk: Disk, last: nat, c: nat): Disk
    requires HasFat(v, disk) && last < Entries(v) && c < Entries(v)
  {
    EntryBlockInFat(v, last);
    EntryFits(v, last);
    WriteEntry(v, disk, c, EndOfChain(v))
      [EntryBlock(v, last) := StoreEntry(v, disk[EntryBlock(v, last)], EntryOffset(v, last), c)]
  }

  lemma StaleIsPlainLink(v: Volume, disk: Disk, last: nat, c: nat)
    requires HasFat(v, disk) && last < Entries(v) && c < Entries(v) && EntryBlock(v, last) == EntryBlock(v, c)
    ensures StaleLink(v, disk, last, c) == WriteEntry(v, disk, last, c)
  {
  }

  /** Why `fat_next_cluster` reads the FAT block again after allocating: linking through the earlier
      copy erases the new cluster's end mark exactly when both entries are in one block, and then
      the cluster is on a chain and free at once. */
  lemma StaleLinkLosesMark(v: Volume, disk: Disk, last: nat, c: nat)
    requires HasFat(v, disk) && last < Entries(v) && Usable(v, c) && Entry(v, disk, c) == 0 && last != c
    ensures StaleLink(v, disk, last, c) == Grow(v, disk, last, c) <==> EntryBlock(v, last) != EntryBlock(v, c)
    ensures EntryBlock(v, last) == EntryBlock(v, c) ==>
              Entry(v, StaleLink(v, disk, last, c), last) == c && Entry(v, StaleLink(v, disk, last, c), c) == 0
  {
    if EntryBlock(v, last) == EntryBlock(v, c) {
      StaleIsPlainLink(v, disk, last, c);
      EntryAfterGrow(v, disk, last, c, c);
      EntryAfterWrite(v, disk, last, c, c);
      EntryAfterWrite(v, disk, last, c, last);
    }
  }

  // ---------------------------------------------------------------- freeing

  /** Zeroes the entries of s, one after the other: the simple walk that frees a chain. */
  function ZeroAll(v: Volume, disk: Disk, s: seq<nat>): (d: Disk)
    requires HasFat(v, disk) && forall i | 0 <= i < |s| :: s[i] < Entries(v)
    ensures HasFat(v, d)
    decreases |s|
  {
    if s == [] then disk
    else WriteEntry(v, ZeroAll(v, disk, s[..|s| - 1]), s[|s| - 1], 0)
  }

  lemma {:induction false} EntryAfterZeroAll(v: Volume, disk: Disk, s: seq<nat>, c: nat)
    requires HasFat(v, disk) && (forall i | 0 <= i < |s| :: s[i] < Entries(v)) && c < Entries(v)
    ensures Entry(v, ZeroAll(v, disk, s), c) == if c in s then 0 else Entry(v, disk, c)
    decreases |s|
  {
    if s != [] {
      var t := s[..|s| - 1];
      assert s == t + [s[|s| - 1]];
      EntryAfterZeroAll(v, disk, t, c);
      EntryAfterWrite(v, ZeroAll(v, disk, t), s[|s| - 1], 0, c);
    }
  }

  lemma {:induction false} ZeroAllOutsideFat(v: Volume, disk: Disk, s: seq<nat>, b: nat)
    requires HasFat(v, disk) && (forall i | 0 <= i < |s| :: s[i] < Entries(v)) && b < |disk| && !InFat(v, b)
    ensures ZeroAll(v, disk, s)[b] == disk[b]
    decreases |s|
  {
    if s != [] {
      ZeroAllOutsideFat(v, disk, s[..|s| - 1], b);
      EntryBlockInFat(v, s[|s| - 1]);
    }
  }

  /** Freeing owner k's chain makes exactly its clusters free and keeps the rest of the forest. */
  lemma FreeKeepsForest(v: Volume, disk: Disk, chains: seq<seq<nat>>, k: nat)
    requires HasFat(v, disk) && Forest(v, disk, chains) && FreeOK(v, disk)
    requires k < |chains| && chains[k] != [] && v.rootCluster !in chains[k]
    ensures var d := ZeroAll(v, disk, chains[k]);
            Forest(v, d, chains[k := []]) && FreeOK(v, d)
            && forall c: nat | c < Entries(v) ::
                 Entry(v, d, c) == 0 <==> c in chains[k] || Entry(v, disk, c) == 0
  {
    hide Entry, ZeroAll;
    var s := chains[k];
    var d := ZeroAll(v, disk, s);
    forall c: nat | c < Entries(v)
      ensures Entry(v, d, c) == if c in s then 0 else Entry(v, disk, c)
    {
      EntryAfterZeroAll(v, disk, s, c);
    }
    forall l | 0 <= l < |chains| && l != k && chains[l] != []
      ensures IsChain(v, d, chains[l])
    {
      assert if l < k then Disjoint(chains[l], s) else Disjoint(s, chains[l]);
      ChainKept(v, disk, d, chains[l]);
    }
  }
}
