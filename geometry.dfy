/** The geometry calculator: derived sizes and byte offsets of a FAT16 volume,
    computed from the boot sector alone (compute_derived, the offset arithmetic
    of load_fat/save_fat/load_root/save_root, and cluster_offset). */
module Geometry {
  import opened Common
  import opened OnDisk

  /** The derived fields of the engine's context. */
  datatype Geometry = Geometry(
    totalSectors: nat,
    fatSizeBytes: nat,
    fatEntries: nat,
    clusterSize: nat,
    rootDirSectors: nat,
    firstDataSector: nat,
    dataSectors: nat,
    clusterCount: nat)

  /** Division rounding up: the least q with q * d >= x. */
  lemma CeilDivision(x: nat, d: nat)
    requires d > 0
    ensures (x + d - 1) / d * d >= x
    ensures (x + d - 1) / d == 0 || ((x + d - 1) / d - 1) * d < x
  {
    var q, r := (x + d - 1) / d, (x + d - 1) % d;
    assert x + d - 1 == q * d + r && 0 <= r < d;
    assert q * d - d == (q - 1) * d;
  }

  /** Division rounding down, as C's unsigned `/`: q * d <= x < (q + 1) * d. */
  lemma FloorDivision(x: nat, d: nat)
    requires d > 0
    ensures x / d * d <= x < x / d * d + d
  {
    var q, r := x / d, x % d;
    assert x == q * d + r && 0 <= r < d;

  }

  /** a <= b scales: a * k <= b * k. */
  lemma MulMonotone(a: nat, b: nat, k: nat)
    requires a <= b
    ensures a * k <= b * k
  {
    assert b * k == a * k + (b - a) * k;
  }

  /** Sectors of the root directory: its bytes rounded up to whole sectors. */
  function RootDirSectors(b: BootSector): (n: nat)
    requires b.bytesPerSector > 0
    ensures n * b.bytesPerSector >= b.rootEntryCount * DIR_ENTRY_SIZE
    ensures n == 0 || (n - 1) * b.bytesPerSector < b.rootEntryCount * DIR_ENTRY_SIZE
  {
    CeilDivision(b.rootEntryCount * DIR_ENTRY_SIZE, b.bytesPerSector);
    (b.rootEntryCount * DIR_ENTRY_SIZE + b.bytesPerSector - 1) / b.bytesPerSector
  }

  /** The first sector of the data region: reserved sectors, every FAT copy
      and the root directory come before it. */
  function FirstDataSector(b: BootSector): nat
    requires b.bytesPerSector > 0
  {
    b.reservedSectors + b.numFats * b.fatSize16 + RootDirSectors(b)
  }

  function TotalSectors(b: BootSector): nat
  {
    if b.totalSectors16 != 0 then b.totalSectors16 as nat else b.totalSectors32 as nat
  }

  /** Sectors of the data region, 0 when the other regions fill the volume. */
  function DataSectors(total: nat, nonData: nat): (n: nat)
    ensures total > nonData ==> n + nonData == total
    ensures total <= nonData ==> n == 0
  {
    if total > nonData then total - nonData else 0
  }

  /** Whole clusters in the data region; 0 when a cluster has no sectors. */
  function ClusterCount(dataSectors: nat, sectorsPerCluster: nat): (n: nat)
    ensures sectorsPerCluster == 0 ==> n == 0
    ensures sectorsPerCluster > 0 ==>
      n * sectorsPerCluster <= dataSectors < n * sectorsPerCluster + sectorsPerCluster
  {
    if sectorsPerCluster != 0 then
      FloorDivision(dataSectors, sectorsPerCluster);
      dataSectors / sectorsPerCluster
    else 0
  }

  /** The derived fields as load_fat, load_root and compute_derived set them;
      the FAT holds floor(bytes / 2) entries of 16 bits. */
  function Derive(b: BootSector): (g: Geometry)
    requires b.bytesPerSector > 0
    ensures g.fatEntries * 2 <= g.fatSizeBytes < g.fatEntries * 2 + 2
  {
    var fatBytes := b.fatSize16 * b.bytesPerSector;
    FloorDivision(fatBytes, 2);
    var dataSectors := DataSectors(TotalSectors(b), FirstDataSector(b));
    Geometry(TotalSectors(b), fatBytes, fatBytes / 2, b.sectorsPerCluster * b.bytesPerSector,
             RootDirSectors(b), FirstDataSector(b), dataSectors, ClusterCount(dataSectors, b.sectorsPerCluster))
  }

  /** Every derived field fits the uint32_t the engine stores it in. */
  lemma DerivedFitsU32(b: BootSector)
    requires b.bytesPerSector > 0
    ensures var g := Derive(b);
      g.totalSectors < 0x1_0000_0000 && g.fatSizeBytes < 0x1_0000_0000 &&
      g.fatEntries < 0x1_0000_0000 && g.clusterSize < 0x1_0000_0000 &&
      g.rootDirSectors < 0x1_0000_0000 && g.firstDataSector < 0x1_0000_0000 &&
      g.dataSectors < 0x1_0000_0000 && g.clusterCount < 0x1_0000_0000
  {
    var g := Derive(b);
    var bps := b.bytesPerSector as nat;
    assert g.fatSizeBytes <= 0xFFFF * 0xFFFF by {
      MulMonotone(b.fatSize16, 0xFFFF, bps);
      MulMonotone(bps, 0xFFFF, 0xFFFF);
    }
    assert g.clusterSize <= 0xFF * 0xFFFF by {
      MulMonotone(b.sectorsPerCluster, 0xFF, bps);
      MulMonotone(bps, 0xFFFF, 0xFF);
    }
    assert g.rootDirSectors <= 0xFFFF * DIR_ENTRY_SIZE by {
      var rds := g.rootDirSectors;
      if rds > 0 {
        MulMonotone(1, bps, rds - 1);
      }
    }
    assert b.numFats * b.fatSize16 <= 0xFF * 0xFFFF by {
      MulMonotone(b.numFats, 0xFF, b.fatSize16);
      MulMonotone(b.fatSize16, 0xFFFF, 0xFF);
    }
    assert g.dataSectors <= g.totalSectors;
    assert g.clusterCount <= g.dataSectors by {
      if b.sectorsPerCluster > 0 {
        MulMonotone(1, b.sectorsPerCluster, g.clusterCount);
      }
    }
  }

  /** Where FAT copy 0 starts (load_fat/save_fat): after the reserved
      sectors. */
  function FatStart(b: BootSector): nat
  {
    b.reservedSectors * b.bytesPerSector
  }

  /** fat_size_bytes: the bytes of one FAT copy. */
  function FatSize(b: BootSector): nat
  {
    b.fatSize16 * b.bytesPerSector
  }

  /** Where FAT copy i starts (save_fat): one FAT size per earlier copy
      after copy 0. */
  function FatOffset(b: BootSector, i: nat): nat
  {
    var copyBytes: nat := i * FatSize(b);
    FatStart(b) + copyBytes
  }

  /** Where the root directory starts (load_root/save_root). */
  function RootOffset(b: BootSector): nat
  {
    (b.reservedSectors + b.numFats * b.fatSize16) * b.bytesPerSector
  }

  /** Where the data region, and so cluster 2, starts. */
  function DataOffset(b: BootSector): nat
    requires b.bytesPerSector > 0
  {
    FirstDataSector(b) * b.bytesPerSector
  }

  /** The byte offset of data cluster c (cluster_offset). */
  function ClusterOffset(b: BootSector, c: nat): nat
    requires b.bytesPerSector > 0
    requires c >= 2
  {
    var sector: nat := (c - 2) * b.sectorsPerCluster + FirstDataSector(b);
    sector * b.bytesPerSector
  }

  /** The root directory starts after the reserved sectors and numFats
      copies of fat_size_16 * bytes_per_sector bytes each. */
  lemma RootAfterCopies(b: BootSector)
    ensures RootOffset(b) == FatStart(b) + b.numFats * FatSize(b)
  {
    var bps := b.bytesPerSector as nat;
    assert (b.reservedSectors + b.numFats * b.fatSize16) * bps
      == b.reservedSectors * bps + (b.numFats * b.fatSize16) * bps;
    assert (b.numFats * b.fatSize16) * bps == b.numFats * (b.fatSize16 * bps);
  }

  /** The root directory starts exactly where the last FAT copy ends, and the
      copies follow one another without gap or overlap. */
  lemma RootFollowsLastFat(b: BootSector)
    ensures RootOffset(b) == FatOffset(b, b.numFats)
    ensures forall i: nat :: FatOffset(b, i + 1) == FatOffset(b, i) + FatSize(b)
  {
    RootAfterCopies(b);
    forall i: nat ensures FatOffset(b, i + 1) == FatOffset(b, i) + FatSize(b) {
      assert (i + 1) * FatSize(b) == i * FatSize(b) + FatSize(b);
    }
  }

  /** The root directory ends at or before the data region, which starts
      right after its whole sectors. */
  lemma RootBeforeData(b: BootSector)
    requires b.bytesPerSector > 0
    ensures DataOffset(b) == RootOffset(b) + Derive(b).rootDirSectors * b.bytesPerSector
    ensures RootOffset(b) + b.rootEntryCount * DIR_ENTRY_SIZE <= DataOffset(b)
  {
    var g := Derive(b);
    var bps := b.bytesPerSector as nat;
    calc {
      DataOffset(b);
      (b.reservedSectors + b.numFats * b.fatSize16 + g.rootDirSectors) * bps;
      (b.reservedSectors + b.numFats * b.fatSize16) * bps + g.rootDirSectors * bps;
    }
  }

  /** The arithmetic behind cluster_offset, over plain numbers: cluster k
      starts at sector (k - 2) * spc + fds. */
  lemma ClusterArithmetic(c: nat, d: nat, spc: nat, fds: nat, bps: nat)
    requires 2 <= c < d
    ensures ((c + 1 - 2) * spc + fds) * bps == ((c - 2) * spc + fds) * bps + spc * bps
    ensures ((c - 2) * spc + fds) * bps + spc * bps <= ((d - 2) * spc + fds) * bps
    ensures fds * bps <= ((c - 2) * spc + fds) * bps
  {
    var x := (c - 2) * spc + fds;
    assert (c + 1 - 2) * spc + fds == x + spc;
    assert (x + spc) * bps == x * bps + spc * bps;
    var y := (d - 2) * spc + fds;
    assert y >= x + spc by {
      MulMonotone(c - 1, d - 2, spc);
    }
    MulMonotone(x + spc, y, bps);
    MulMonotone(fds, x, bps);
  }

  /** Cluster 2 starts the data region, consecutive clusters are exactly one
      cluster size apart, and distinct clusters occupy disjoint byte ranges. */
  lemma ClusterLayout(b: BootSector, c: nat, d: nat)
    requires b.bytesPerSector > 0
    requires 2 <= c < d
    ensures ClusterOffset(b, 2) == DataOffset(b)
    ensures ClusterOffset(b, c + 1) == ClusterOffset(b, c) + Derive(b).clusterSize
    ensures ClusterOffset(b, c) + Derive(b).clusterSize <= ClusterOffset(b, d)
    ensures DataOffset(b) <= ClusterOffset(b, c)
  {
    ClusterArithmetic(c, d, b.sectorsPerCluster, FirstDataSector(b), b.bytesPerSector);
  }
}
