/** Mounting: from a boot sector to the layout the driver works with. */
module FatMount {
  import opened FatTable
  import opened Wrappers

  /** The fields of the boot sector that mounting looks at. */
  datatype Boot = Boot(sectorSize: nat, clusterSize: nat, reserved: nat, numFats: nat, rootEntries: nat,
                       totalSectors: nat, bigTotalSectors: nat, sectorsPerFat: nat, rootStart: nat)

  function Total(b: Boot): nat { if b.totalSectors == 0 then b.bigTotalSectors else b.totalSectors }

  /** What both kinds ask of a boot sector. */
  predicate Sound(b: Boot, volumeSize: nat) {
    && b.sectorSize == 512 && b.clusterSize in {1, 2, 4, 8, 16, 32, 64, 128}
    && 1 <= b.reserved < volumeSize && 1 <= b.numFats < 15 && Total(b) <= volumeSize
  }

  /** First block behind the FATs. */
  function BehindFats(b: Boot, start: nat): nat { start + b.reserved + b.sectorsPerFat * b.numFats }

  predicate Accepted(b: Boot, kind: FatKind, start: nat, volumeSize: nat) {
    && Sound(b, volumeSize)
    && (if kind.Fat16? then b.rootEntries != 0 && b.rootEntries % 16 == 0 && BehindFats(b, start) <= start + volumeSize
        else b.rootEntries == 0)
  }

  /** Clusters, from 2 on, that end within the volume's sectors and whose numbers are no chain-end
      values: the bound the driver never computes. */
  function ClusterEnd(b: Boot, kind: FatKind, start: nat, data: nat): nat {
    var sectors: int := start + Total(b) - data;
    var end := if sectors < 0 || b.clusterSize == 0 then 2 else 2 + sectors / b.clusterSize;
    var marker := if kind.Fat16? then 0xFFF0 else 0xFFF_FFF0;
    if end < marker then end else marker
  }

  /** What a caller may rely on of a volume mounted from the boot sector, on a disk that ends with its
      partition.  The root directory lies right behind all copies of the FAT and cluster 2 right behind
      it, so no sector of a cluster is in a FAT or the root directory; the clusters below the bound are
      those that end within the volume's sectors; and the volume is in order exactly if the FATs and the
      root directory end on the disk, which mounting does not check. */
  ghost predicate Laid(b: Boot, kind: FatKind, start: nat, volumeSize: nat, v: Volume) {
    && v.kind == kind && v.spc == b.clusterSize && v.blocks == start + volumeSize
    && v.fatStart == start + b.reserved && v.fatLen == b.sectorsPerFat
    && v.rootStart == v.fatStart + v.fatLen * b.numFats
    && v.rootLen * 16 == b.rootEntries && v.rootCluster == (if kind.Fat16? then 1 else b.rootStart)
    && SectorOf(v, 2, 0) == v.rootStart + v.rootLen
    && (forall c: nat, j: nat | c >= 2 && j < v.spc ::
          SectorOf(v, c, j) >= v.rootStart + v.rootLen && !InFat(v, SectorOf(v, c, j)))
    && v.clusterEnd >= 2
    && (forall c: nat | c >= 2 :: c < v.clusterEnd <==> SectorOf(v, c, v.spc) <= start + Total(b) && c < Marker(v))
    && (v.blocks <= 0x1_0000_0000 ==> (VolumeOK(v) <==> SectorOf(v, 2, 0) <= v.blocks))
  }

  /** The checks both mount functions begin with. */
  method CheckCommon(b: Boot, volumeSize: nat) returns (ok: bool)
    ensures ok <==> b.sectorSize == 512 && b.clusterSize in {1, 2, 4, 8, 16, 32, 64, 128}
                    && 1 <= b.reserved < volumeSize && 1 <= b.numFats < 15
  {
    if b.sectorSize != 512 {
      return false;
    }
    var i, power := 0, 1;
    while i < 8
      invariant 0 <= i <= 8
      invariant power == [1, 2, 4, 8, 16, 32, 64, 128, 256][i]
      invariant forall k | 0 <= k < i :: b.clusterSize != [1, 2, 4, 8, 16, 32, 64, 128, 256][k]
    {
      if b.clusterSize == power {
        break;
      }
      i, power := i + 1, power * 2;
    }
    if i == 8 {
      assert b.clusterSize !in {1, 2, 4, 8, 16, 32, 64, 128} by { NoPower(b.clusterSize); }
      return false;
    }
    if b.reserved < 1 || b.reserved >= volumeSize {
      return false;
    }
    return 1 <= b.numFats < 15;
  }

  lemma NoPower(c: nat)
    requires forall k | 0 <= k < 8 :: c != [1, 2, 4, 8, 16, 32, 64, 128, 256][k]
    ensures c !in {1, 2, 4, 8, 16, 32, 64, 128}
  {
    var p := [1, 2, 4, 8, 16, 32, 64, 128, 256];
    assert c != p[0] && c != p[1] && c != p[2] && c != p[3] && c != p[4] && c != p[5] && c != p[6] && c != p[7];
  }

  /** `fat_mount_fat16`. */
  method MountFat16(b: Boot, start: nat, volumeSize: nat) returns (r: Option<Volume>)
    ensures r.Some? <==> Accepted(b, Fat16, start, volumeSize)
    ensures r.Some? ==> Laid(b, Fat16, start, volumeSize, r.value)
  {
    var ok := CheckCommon(b, volumeSize);
    if !ok {
      return None;
    }
    if b.rootEntries == 0 {
      return None;
    }
    if b.rootEntries % 16 != 0 {
      return None;
    }
    if b.totalSectors == 0 {
      if b.bigTotalSectors > volumeSize {
        return None;
      }
    } else if b.totalSectors > volumeSize {
      return None;
    }
    var rootLen := b.rootEntries * 32 / 512;
    var i := start;
    i := i + b.reserved;
    var fatStart := i;
    i := i + b.sectorsPerFat * b.numFats;
    var rootStart := i;
    i := i + b.rootEntries * 32 / 512;
    var cluster0: int := i - b.clusterSize * 2;
    if rootStart > start + volumeSize {
      return None;
    }
    r := Some(Volume(Fat16, b.clusterSize, cluster0, fatStart, b.sectorsPerFat, rootStart, rootLen, 1,
                     ClusterEnd(b, Fat16, start, i), start + volumeSize));
    LaidOut(b, Fat16, start, volumeSize, r.value);
  }

  /** `fat_mount_fat32`; there is no fixed root directory, which the layout has with length 0. */
  method MountFat32(b: Boot, start: nat, volumeSize: nat) returns (r: Option<Volume>)
    ensures r.Some? <==> Accepted(b, Fat32, start, volumeSize)
    ensures r.Some? ==> Laid(b, Fat32, start, volumeSize, r.value)
  {
    var ok := CheckCommon(b, volumeSize);
    if !ok {
      return None;
    }
    if b.rootEntries != 0 {
      return None;
    }
    if b.totalSectors == 0 {
      if b.bigTotalSectors > volumeSize {
        return None;
      }
    } else if b.totalSectors > volumeSize {
      return None;
    }
    var i := start;
    i := i + b.reserved;
    var fatStart := i;
    i := i + b.sectorsPerFat * b.numFats;
    var cluster0: int := i - b.clusterSize * 2;
    r := Some(Volume(Fat32, b.clusterSize, cluster0, fatStart, b.sectorsPerFat, i, 0, b.rootStart,
                     ClusterEnd(b, Fat32, start, i), start + volumeSize));
    LaidOut(b, Fat32, start, volumeSize, r.value);
  }

  /** `fat_mount`: whichever kind is tried first, a boot sector is taken for the kind its number of root
      entries tells, or for none. */
  method Mount(b: Boot, start: nat, volumeSize: nat, hintFat16: bool) returns (r: Option<Volume>)
    ensures var kind := if b.rootEntries == 0 then Fat32 else Fat16;
            && (r.Some? <==> Accepted(b, kind, start, volumeSize))
            && (r.Some? ==> Laid(b, kind, start, volumeSize, r.value))
  {
    if hintFat16 {
      r := MountFat16(b, start, volumeSize);
      if r.None? {
        r := MountFat32(b, start, volumeSize);
      }
    } else {
      r := MountFat32(b, start, volumeSize);
      if r.None? {
        r := MountFat16(b, start, volumeSize);
      }
    }
  }

  // ---------------------------------------------------------------- what was laid out

  lemma FatsApart(n: nat, k: nat)
    requires k >= 1
    ensures n <= n * k
  {
  }

  lemma LaidOut(b: Boot, kind: FatKind, start: nat, volumeSize: nat, v: Volume)
    requires Accepted(b, kind, start, volumeSize)
    requires v.kind == kind && v.spc == b.clusterSize && v.blocks == start + volumeSize
    requires v.fatStart == start + b.reserved && v.fatLen == b.sectorsPerFat && v.rootStart == BehindFats(b, start)
    requires v.rootLen == b.rootEntries * 32 / 512 && v.cluster0 == v.rootStart + v.rootLen - 2 * v.spc
    requires v.rootCluster == (if kind.Fat16? then 1 else b.rootStart)
    requires v.clusterEnd == ClusterEnd(b, kind, start, v.rootStart + v.rootLen)
    ensures Laid(b, kind, start, volumeSize, v)
  {
    FatsApart(b.sectorsPerFat, b.numFats);
    EndFits(b, kind, start, v);
    SectorsBehind(v);
    hide Sound, BehindFats, ClusterEnd, VolumeOK, InFat, SectorOf;
    forall c: nat | c >= 2 ensures c < v.clusterEnd <==> SectorOf(v, c, v.spc) <= start + Total(b) && c < Marker(v) {
      EndIs(b, kind, start, v, c);
    }
    FirstData(v);
  }

  lemma FirstData(v: Volume)
    ensures SectorOf(v, 2, 0) == 2 * v.spc + v.cluster0
  {
  }

  lemma SectorsBehind(v: Volume)
    requires v.cluster0 == v.rootStart + v.rootLen - 2 * v.spc && v.fatStart + v.fatLen <= v.rootStart
    ensures forall c: nat, j: nat | c >= 2 && j < v.spc ::
              SectorOf(v, c, j) >= v.rootStart + v.rootLen && !InFat(v, SectorOf(v, c, j))
  {
    forall c: nat, j: nat | c >= 2 && j < v.spc ensures SectorOf(v, c, j) >= v.rootStart + v.rootLen {
      MulMonotone(2, c, v.spc);
    }
  }

  lemma EndIs(b: Boot, kind: FatKind, start: nat, v: Volume, c: nat)
    requires v.kind == kind && v.spc == b.clusterSize >= 1 && v.cluster0 == v.rootStart + v.rootLen - 2 * v.spc && c >= 2
    requires v.clusterEnd == ClusterEnd(b, kind, start, v.rootStart + v.rootLen)
    ensures c < v.clusterEnd <==> SectorOf(v, c, v.spc) <= start + Total(b) && c < Marker(v)
  {
    ClustersFit(c, v.spc, start + Total(b) - v.rootStart - v.rootLen);
    OneMore(c, v.spc);
  }

  lemma OneMore(c: nat, k: nat)
    requires c >= 2
    ensures c * k - 2 * k + k == (c - 1) * k
  {
  }

  /** Cluster c ends within n data sectors exactly if it is among the first n / k. */
  lemma ClustersFit(c: nat, k: nat, n: int)
    requires c >= 2 && k >= 1
    ensures n >= 0 ==> ((c - 1) * k <= n <==> c < 2 + n / k)
    ensures n < 0 ==> (c - 1) * k > n
  {
    if n >= 0 {
      assert n == n / k * k + n % k;
      if c - 1 <= n / k {
        MulMonotone(c - 1, n / k, k);
      } else {
        MulMonotone(n / k + 1, c - 1, k);
      }
    } else {
      assert (c - 1) * k >= 0;
    }
  }

  /** The clusters end where the volume does, so they lie on the disk if the root directory does. */
  lemma EndFits(b: Boot, kind: FatKind, start: nat, v: Volume)
    requires v.spc == b.clusterSize >= 1 && v.cluster0 == v.rootStart + v.rootLen - 2 * v.spc && start + Total(b) <= v.blocks
    requires v.clusterEnd == ClusterEnd(b, kind, start, v.rootStart + v.rootLen)
    ensures v.rootStart + v.rootLen <= v.blocks ==> v.clusterEnd * v.spc + v.cluster0 <= v.blocks
    ensures v.kind == kind ==> 2 <= v.clusterEnd <= Marker(v)
  {
    var n: int := start + Total(b) - v.rootStart - v.rootLen;
    if v.clusterEnd > 2 {
      ClustersFit(v.clusterEnd - 1, v.spc, n);
      OneMore(v.clusterEnd, v.spc);
      assert (v.clusterEnd - 2) * v.spc == v.clusterEnd * v.spc - 2 * v.spc;
    } else {
      MulMonotone(v.clusterEnd, 2, v.spc);
    }
  }

  /** The layout of an accepted boot sector is the only one that is laid out like this. */
  lemma LaidOnce(b: Boot, kind: FatKind, start: nat, volumeSize: nat, v: Volume, w: Volume)
    requires Laid(b, kind, start, volumeSize, v) && Laid(b, kind, start, volumeSize, w)
    ensures v == w
  {
    assert v.cluster0 == w.cluster0;
    var c, d := v.clusterEnd, w.clusterEnd;
    assert SectorOf(v, c, v.spc) == SectorOf(w, c, w.spc) && SectorOf(v, d, v.spc) == SectorOf(w, d, w.spc);
  }

  /** A boot sector that both checks let through although its root directory ends behind the disk. */
  function Overrun(): Boot { Boot(512, 1, 1, 1, 512, 100, 0, 98, 0) }

  /** Mounted on a partition of 100 blocks, its FAT ends at block 99 and its root directory at block 131. */
  lemma OverrunMounts(v: Volume)
    requires Laid(Overrun(), Fat16, 0, 100, v)
    ensures Accepted(Overrun(), Fat16, 0, 100) && !VolumeOK(v) && v.rootStart + v.rootLen == 131
  {
    FatsApart(98, 1);
  }
}
