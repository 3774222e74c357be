/** What a mounted FAT volume looks like: the fields of FATFS that mounting fixes. */
module VolumeGeometry {
  import opened Arith
  import opened Bytes

  datatype FatType = FAT12 | FAT16 | FAT32

  const MAX_FAT12: nat := 0xFF5
  const MAX_FAT16: nat := 0xFFF5
  const MAX_FAT32: nat := 0x0FFF_FFF5

  const SZDIRE: nat := 32 // bytes in a directory entry

  function MaxClusters(t: FatType): nat {
    match t
    case FAT12 => MAX_FAT12
    case FAT16 => MAX_FAT16
    case FAT32 => MAX_FAT32
  }

  /** Bytes taken by a table of n entries. */
  function TableBytes(t: FatType, n: nat): nat {
    match t
    case FAT12 => n * 3 / 2 + n % 2
    case FAT16 => n * 2
    case FAT32 => n * 4
  }

  predicate PowerOfTwoByte(n: nat) {
    n == 1 || n == 2 || n == 4 || n == 8 || n == 16 || n == 32 || n == 64 || n == 128
  }

  datatype Geometry = Geometry(
    fsType: FatType,  // FAT sub-type
    nFats: nat,       // number of FAT copies
    csize: nat,       // sectors per cluster
    nRootdir: nat,    // entries of the static root directory (FAT12/16)
    nFatent: u32,     // number of FAT entries: clusters + 2
    fsize: u32,       // sectors per FAT
    volbase: u32,     // first sector of the volume
    fatbase: u32,     // first sector of the first FAT
    dirbase: u32,     // root directory: sector (FAT12/16) or cluster (FAT32)
    database: u32     // first sector of cluster 2
  ) {

    /** Everything the allocation and file layers rely on. */
    predicate Valid() {
      && (nFats == 1 || nFats == 2)
      && PowerOfTwoByte(csize)
      && 3 <= nFatent <= MaxClusters(fsType) + 2
      && TableBytes(fsType, nFatent) <= fsize * SS
      && 1 <= fatbase
      && EndOfFats() <= database
      && EndOfData() < ALL_ONES
    }

    function EndOfFats(): int {
      fatbase + if nFats == 2 then 2 * fsize else fsize
    }

    function EndOfData(): int {
      database + csize * (nFatent - 2)
    }

    predicate InFirstFat(s: int) {
      fatbase <= s < fatbase + fsize
    }

    predicate InSecondFat(s: int) {
      nFats == 2 && fatbase + fsize <= s < fatbase + 2 * fsize
    }

    predicate IsCluster(c: int) {
      2 <= c < nFatent
    }

    /** clst2sect: first sector of a cluster, 0 for an invalid cluster number. */
    function Clst2Sect(c: u32): (s: int) {
      if Sub32(c, 2) >= nFatent - 2 then 0 else database + csize * Sub32(c, 2)
    }

    /** Cluster that a data sector belongs to. */
    function ClusterOf(s: int): int
      requires csize > 0
    {
      2 + (s - database) / csize
    }

    predicate DataSector(s: int) {
      database <= s < EndOfData()
    }
  }

  /** The bytes of entry c lie in the table. */
  lemma EntryInTable(g: Geometry, c: nat)
    requires g.Valid() && c < g.nFatent
    ensures g.fsType == FAT12 ==> c + c / 2 + 1 < g.fsize * SS
    ensures g.fsType == FAT16 ==> 2 * c + 1 < g.fsize * SS
    ensures g.fsType == FAT32 ==> 4 * c + 3 < g.fsize * SS
  {
    if g.fsType == FAT12 {
      var n := g.nFatent;
      assert n == 2 * (n / 2) + n % 2 && c == 2 * (c / 2) + c % 2;
      assert n * 3 == 2 * (n * 3 / 2) + n * 3 % 2;
    }
  }

  /** The facts about a valid geometry that cluster arithmetic needs. */
  lemma ValidFacts(g: Geometry)
    requires g.Valid()
    ensures 1 <= g.csize <= 128 && 3 <= g.nFatent < 0x1000_0000 && 1 <= g.database
    ensures g.EndOfData() < ALL_ONES && g.EndOfFats() <= g.database
  {
  }

  lemma Clst2SectValue(g: Geometry, c: u32)
    requires 3 <= g.nFatent < 0x1000_0000
    ensures g.Clst2Sect(c) == if g.IsCluster(c) then g.database + g.csize * (c - 2) else 0
  {
  }

  /** Cluster areas tile the data area: clst2sect puts distinct clusters in disjoint runs of sectors,
      every sector of a cluster is a data sector, and exactly the cluster numbers get a nonzero result. */
  lemma ClustersTileDataArea(g: Geometry, c: u32, d: u32, i: nat, j: nat)
    requires g.Valid() && i < g.csize && j < g.csize
    ensures g.IsCluster(c) <==> g.Clst2Sect(c) != 0
    ensures g.IsCluster(c) ==> g.DataSector(g.Clst2Sect(c) + i)
    ensures g.IsCluster(c) && g.IsCluster(d) && g.Clst2Sect(c) + i == g.Clst2Sect(d) + j ==> c == d && i == j
  {
    hide Geometry.Valid, Geometry.Clst2Sect;
    ValidFacts(g);
    Clst2SectValue(g, c);
    Clst2SectValue(g, d);
    if g.IsCluster(c) {
      Blocks(g.csize, c - 2, g.nFatent - 2, i);
      if g.IsCluster(d) {
        DistinctBlocks(g.csize, c - 2, d - 2, i, j);
      }
    }
  }

  /** Every sector of a cluster belongs to it. */
  lemma ClusterOfSector(g: Geometry, c: u32, i: nat)
    requires g.Valid() && g.IsCluster(c) && i < g.csize
    ensures g.ClusterOf(g.Clst2Sect(c) + i) == c && g.DataSector(g.Clst2Sect(c) + i)
    ensures 0 < g.Clst2Sect(c) + i < ALL_ONES
  {
    hide Geometry.Valid, Geometry.Clst2Sect;
    ValidFacts(g);
    Clst2SectValue(g, c);
    Blocks(g.csize, c - 2, g.nFatent - 2, i);
    ModUnique(g.csize * (c - 2) + i, g.csize, c - 2, i);
  }
}
