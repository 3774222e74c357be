/** Directory tables: setting the index, moving it on, stretching the table, reserving entries
    (dir_clear, dir_sdi, dir_next, dir_alloc). */
module Directory {
  import opened Alloc
  import opened Arith
  import opened Bytes
  import opened Chains
  import opened DriveModel
  import opened FatTable
  import opened FileIO
  import opened FileModel
  import opened FileSeek
  import opened VolumeGeometry
  import opened Window

  const MAX_DIR: u32 := 0x20_0000 // bytes in a directory, at most

  function ZeroSector(): (z: Sector)
    ensures forall i | 0 <= i < SS :: z[i] == 0
  {
    seq(SS, _ => 0)
  }

  /** What mounting guarantees about the root directory: whole sectors between the FATs and the data area
      on FAT12/16, no static table on FAT32. */
  ghost predicate RootFits(g: Geometry) {
    if g.fsType == FAT32 then g.nRootdir == 0
    else g.nRootdir % (SS / SZDIRE) == 0 && g.EndOfFats() <= g.dirbase && g.dirbase + g.nRootdir / (SS / SZDIRE) <= g.database
  }

  /** A directory object (DIR). */
  class Dir {
    const fs: FatFs
    const sclust: u32     // first cluster of the table, 0 for the root
    var dptr: u32         // current offset
    var clust: u32        // current cluster, 0 in a static table
    var sect: u32         // current sector, 0 when the index is off the table
    var dir: nat          // offset of the entry in the window
    ghost var chain: seq<u32> // the clusters of a chained table

    constructor (fs: FatFs, sclust: u32, ghost chain: seq<u32>)
      ensures this.fs == fs && this.sclust == sclust && this.chain == chain && sect == 0
    {
      this.fs, this.sclust, this.chain := fs, sclust, chain;
      dptr, clust, sect, dir := 0, 0, 0, 0;
    }

    function Here(): Place
      reads this
    {
      Place(dptr, clust, sect, dir)
    }
  }

  datatype Place = Place(dptr: nat, clust: u32, sect: int, dir: int)
  datatype Spotted = At(p: Place) | Off

  /** The cluster k links after c, 0 if the links leave the clusters before that. */
  ghost function Links(fat: FatSeq, c: u32, k: nat): u32 {
    if k == 0 then c
    else
      var d := Links(fat, c, k - 1);
      if IsCl(fat, d) && IsCl(fat, fat[d]) then fat[d] else 0
  }

  lemma {:induction false} LinksEnd(fat: FatSeq, c: u32, k: nat, j: nat)
    requires 0 < k <= j && Links(fat, c, k) == 0
    ensures Links(fat, c, j) == 0
    decreases j
  {
    if k < j {
      LinksEnd(fat, c, k, j - 1);
    }
  }

  lemma {:induction false} LinksChain(fat: FatSeq, chain: seq<u32>, k: nat)
    requires IsChain(fat, chain) && k < |chain|
    ensures Links(fat, chain[0], k) == chain[k]
  {
    if k > 0 {
      LinksChain(fat, chain, k - 1);
      LinkOf(fat, chain, k - 1);
    }
  }

  /** First cluster of a table: number 0 stands for the root, which has a cluster on FAT32 only. */
  function Start(g: Geometry, sclust: u32): u32 {
    if sclust == 0 && g.fsType == FAT32 then g.dirbase else sclust
  }

  /** Where the entry at offset ofs of a table lies. */
  ghost function Spot(g: Geometry, fat: FatSeq, sclust: u32, ofs: nat): (s: Spotted)
    requires g.csize > 0
    ensures s.At? ==> s.p.dptr == ofs
  {
    var c0 := Start(g, sclust);
    if ofs >= MAX_DIR || ofs % SZDIRE != 0 then Off
    else if c0 == 0 then
      if ofs / SZDIRE >= g.nRootdir || g.dirbase == 0 then Off
      else At(Place(ofs, 0, g.dirbase + ofs / SS, ofs % SS))
    else ChainSpot(g, fat, c0, ofs, ofs / SS / g.csize, ofs / SS % g.csize)
  }

  /** In a chained table: sector i of cluster number k. */
  ghost function ChainSpot(g: Geometry, fat: FatSeq, c0: u32, ofs: nat, k: int, i: int): Spotted {
    if k < 0 then Off
    else
      var c := Links(fat, c0, k);
      if g.Clst2Sect(c) == 0 then Off else At(Place(ofs, c, g.Clst2Sect(c) + i, ofs % SS))
  }

  // ---- dir_sdi

  /** Offset ofs is cluster number k and rest bytes. */
  lemma SplitOffset(ofs: nat, rest: nat, k: nat, csize: nat)
    requires csize > 0 && ofs == SS * (csize * k) + rest && rest < csize * SS
    ensures ofs / SS / csize == k && ofs / SS % csize == rest / SS && ofs % SS == rest % SS
  {
    assert rest / SS < csize;
    ModUnique(ofs, SS, csize * k + rest / SS, rest % SS) by {
      DivMod(rest, SS);
    }
    ModUnique(ofs / SS, csize, k, rest / SS);
  }

  lemma SectorBounds(g: Geometry, c: u32, i: nat)
    requires g.Valid() && i < g.csize
    ensures g.Clst2Sect(c) != 0 ==> g.IsCluster(c) && 0 < g.Clst2Sect(c) <= g.Clst2Sect(c) + i < g.EndOfData() < ALL_ONES
    ensures g.Clst2Sect(c) == 0 <==> !g.IsCluster(c)
  {
    ClustersTileDataArea(g, c, c, i, i);
    if g.IsCluster(c) { ClusterOfSector(g, c, i); }
  }

  /** Following the chain of a table to the cluster of an offset; 0 means the chain is too short. */
  method FollowTo(fs: FatFs, c0: u32, ofs0: u32) returns (clst: u32, ofs: u32)
    requires fs.Mounted() && ofs0 < MAX_DIR && fs.geo.csize > 0
    modifies fs`wflag, fs`winsect, fs.drive, fs.win
    ensures fs.Mounted() && Table(fs) == old(Table(fs)) && fs.Map() == old(fs.Map()) && FatOnly(fs.geo, old(Snap(fs)), Snap(fs))
    ensures ofs0 / SS / fs.geo.csize >= 0
    ensures clst == 0 ==> c0 == 0 || Links(Table(fs), c0, ofs0 / SS / fs.geo.csize) == 0
    ensures clst != 0 ==> clst == Links(Table(fs), c0, ofs0 / SS / fs.geo.csize)
    ensures clst != 0 ==> ofs / SS == ofs0 / SS % fs.geo.csize && ofs % SS == ofs0 % SS
  {
    hide FatFs.Mounted, Fat, FatOnly, Snap, FatFs.Map, Table;
    MountedValid(fs);
    ghost var s0, fat, k, kk := Snap(fs), Table(fs), 0, ofs0 / SS / fs.geo.csize;
    SnapRefl(fs);
    var csz := fs.geo.csize * SS;
    clst, ofs := c0, ofs0;
    DivDiv(ofs0, fs.geo.csize);
    while ofs >= csz
      invariant fs.Mounted() && Table(fs) == fat && fs.Map() == old(fs.Map()) && FatOnly(fs.geo, s0, Snap(fs))
      invariant k >= 0 && ofs0 == SS * (fs.geo.csize * k) + ofs && clst == Links(fat, c0, k)
    {
      ghost var s1 := Snap(fs);
      clst := GetFat(fs, clst);
      FatOnlyTrans(fs.geo, s0, s1, Snap(fs));
      MulStep(fs.geo.csize, k);
      if clst < 2 || clst >= fs.geo.nFatent {
        Beyond(ofs0, ofs, k, fs.geo.csize);
        LinksEnd(fat, c0, k + 1, kk);
        clst := 0;
        return;
      }
      ofs := ofs - csz;
      k := k + 1;
    }
    SplitOffset(ofs0, ofs, k, fs.geo.csize);
  }

  lemma Beyond(ofs0: nat, ofs: nat, k: nat, csize: nat)
    requires csize > 0 && ofs0 == SS * (csize * k) + ofs && ofs >= csize * SS
    ensures k + 1 <= ofs0 / SS / csize
  {
    var q := ofs0 / SS / csize;
    DivMod(ofs0, SS);
    DivMod(ofs0 / SS, csize);
    if q <= k { MulLe(csize, q, k); }
  }

  /** dir_sdi: the index goes to where the entry lies, if the table has it. */
  method DirSdi(dp: Dir, ofs0: u32) returns (res: FResult)
    requires dp.fs.Mounted() && RootFits(dp.fs.geo) && dp.fs.geo.csize > 0
    modifies dp`dptr, dp`clust, dp`sect, dp`dir, dp.fs`wflag, dp.fs`winsect, dp.fs.drive, dp.fs.win
    ensures dp.fs.Mounted() && Table(dp.fs) == old(Table(dp.fs)) && dp.fs.Map() == old(dp.fs.Map())
    ensures FatOnly(dp.fs.geo, old(Snap(dp.fs)), Snap(dp.fs))
    ensures var spot := Spot(dp.fs.geo, Table(dp.fs), dp.sclust, ofs0);
            res == (if spot.At? then FR_OK else FR_INT_ERR) && (spot.At? ==> dp.Here() == spot.p)
  {
    hide FatFs.Mounted, Fat, FatOnly, Snap, FatFs.Map, Table, Geometry.Clst2Sect, Links, Geometry.Valid;
    var fs := dp.fs;
    MountedValid(fs);
    SnapRefl(fs);
    if ofs0 >= MAX_DIR || ofs0 % SZDIRE != 0 {
      return FR_INT_ERR;
    }
    dp.dptr := ofs0;
    var ofs := ofs0;
    var clst := dp.sclust;
    if clst == 0 && fs.geo.fsType == FAT32 {
      clst := fs.geo.dirbase;
    }
    var sect: u32 := fs.geo.dirbase;
    if clst == 0 {
      if ofs / SZDIRE >= fs.geo.nRootdir { return FR_INT_ERR; }
      StaticBounds(fs.geo, ofs);
    } else {
      clst, ofs := FollowTo(fs, clst, ofs);
      if clst == 0 {
        SectorBounds(fs.geo, 0, 0);
        return FR_INT_ERR;
      }
      SectorBounds(fs.geo, clst, ofs / SS);
      sect := fs.geo.Clst2Sect(clst);
    }
    dp.clust := clst;
    dp.sect := sect;
    if dp.sect == 0 { return FR_INT_ERR; }
    dp.sect := dp.sect + ofs / SS;
    dp.dir := ofs % SS;
    res := FR_OK;
  }

  /** A static table lies before the data area. */
  lemma StaticBounds(g: Geometry, ofs: nat)
    requires g.Valid() && RootFits(g) && ofs / SZDIRE < g.nRootdir
    ensures g.fsType != FAT32 && g.dirbase > 0 && g.EndOfFats() <= g.dirbase + ofs / SS < g.database < ALL_ONES
  {
    ValidFacts(g);
    MulLe(g.csize, 0, g.nFatent - 2);
  }

  // ---- dir_clear

  /** All sectors of cluster c are zero. */
  ghost predicate Zeroed(g: Geometry, m: seq<Sector>, c: u32) {
    0 <= g.Clst2Sect(c) && g.Clst2Sect(c) + g.csize <= |m|
    && forall s | g.Clst2Sect(c) <= s < g.Clst2Sect(c) + g.csize :: m[s] == ZeroSector()
  }

  /** m2 is m with cluster c cleared. */
  ghost predicate Cleared(g: Geometry, m: seq<Sector>, m2: seq<Sector>, c: u32) {
    && |m2| == |m| && Zeroed(g, m2, c)
    && forall s | 0 <= s < |m| && !(g.Clst2Sect(c) <= s < g.Clst2Sect(c) + g.csize) :: m2[s] == m[s]
  }

  /** d2 is d with sectors from..to zero. */
  ghost predicate ZeroRun(d: seq<Sector>, d2: seq<Sector>, from: nat, to: nat) {
    |d2| == |d| && forall s | 0 <= s < |d| :: d2[s] == if from <= s < to then ZeroSector() else d[s]
  }

  lemma ZeroRunStep(d: seq<Sector>, d2: seq<Sector>, d3: seq<Sector>, from: nat, to: nat)
    requires ZeroRun(d, d2, from, to) && from <= to < |d| && |d3| == |d|
    requires d3[to] == Piece(ZeroSector(), 0) && forall s | 0 <= s < |d| && s != to :: d3[s] == d2[s]
    ensures ZeroRun(d, d3, from, to + 1)
  {
    assert Piece(ZeroSector(), 0) == ZeroSector();
  }

  /** The loop of dir_clear: writes the zero window to count sectors. */
  method ClearSectors(fs: FatFs, sect: u32, count: nat) returns (res: FResult)
    requires fs.win[..] == ZeroSector() && sect + count <= |fs.drive.sectors|
    modifies fs.drive
    ensures res == FR_OK && ZeroRun(old(fs.drive.sectors), fs.drive.sectors, sect, sect + count)
  {
    hide ZeroRun;
    ghost var d := fs.drive.sectors;
    var n := 0;
    var r := RES_OK;
    ZeroRunNone(d, sect);
    while n < count && r == RES_OK
      invariant 0 <= n <= count && r == RES_OK && |fs.drive.sectors| == |d| && fs.win[..] == ZeroSector()
      invariant ZeroRun(d, fs.drive.sectors, sect, sect + n)
    {
      ghost var d2 := fs.drive.sectors;
      r := fs.drive.Write(fs.win[..], sect + n, 1);
      ZeroRunStep(d, d2, fs.drive.sectors, sect, sect + n);
      if r == RES_OK { n := n + 1; }
    }
    res := if n == count then FR_OK else FR_DISK_ERR;
  }

  lemma ZeroRunNone(d: seq<Sector>, sect: nat)
    ensures ZeroRun(d, d, sect, sect)
  {
  }

  /** The disk with a cluster zeroed, seen as a sector map with the clean window on that cluster. */
  lemma ClearedByRun(g: Geometry, m: seq<Sector>, m2: seq<Sector>, c: u32)
    requires Fits(g, m) && g.IsCluster(c) && 0 <= g.Clst2Sect(c) && ZeroRun(m, m2, g.Clst2Sect(c), g.Clst2Sect(c) + g.csize)
    ensures |m2| == |m| && Cleared(g, m, m2, c) && Fits(g, m2) && Fat(g, m2) == Fat(g, m)
    ensures g.Clst2Sect(c) < |m2| && m2[g.Clst2Sect(c)] == ZeroSector()
  {
    hide Fat;
    ClusterInDisk(g, m, c);
    FatOfSameSectors(g, m, m2);
  }

  /** dir_clear: exactly the sectors of the cluster become zero. */
  method DirClear(fs: FatFs, clst: u32) returns (res: FResult)
    requires fs.Mounted() && fs.geo.IsCluster(clst)
    modifies fs`wflag, fs`winsect, fs.drive, fs.win
    ensures res == FR_OK && fs.Mounted() && Table(fs) == old(Table(fs))
    ensures Cleared(fs.geo, old(fs.Map()), fs.Map(), clst)
    ensures old(Mirrored(fs.geo, fs.drive.sectors)) ==> Mirrored(fs.geo, fs.drive.sectors)
  {
    hide Fat, Geometry.Clst2Sect, Geometry.Valid, ZeroRun, Cleared, OutsideFatKept, Geometry.EndOfData, Geometry.EndOfFats, Mirrored, DataKept;
    MountedValid(fs);
    ghost var m := fs.Map();
    ClusterInDisk(fs.geo, m, clst);
    res := SyncWindow(fs);
    if res != FR_OK { return FR_DISK_ERR; }
    var sect := fs.geo.Clst2Sect(clst);
    fs.winsect := sect;
    forall i | 0 <= i < SS {
      fs.win[i] := 0;
    }
    assert fs.win[..] == ZeroSector();
    res := ClearSectors(fs, sect, fs.geo.csize);
    ClearedByRun(fs.geo, m, fs.drive.sectors, clst);
    if Mirrored(fs.geo, m) { MirroredBehind(fs.geo, m, fs.drive.sectors, clst); }
  }

  /** Equal FAT copies stay equal when a cluster of the data area is zeroed. */
  lemma MirroredBehind(g: Geometry, m: seq<Sector>, m2: seq<Sector>, c: u32)
    requires Fits(g, m) && g.IsCluster(c) && 0 <= g.Clst2Sect(c) && ZeroRun(m, m2, g.Clst2Sect(c), g.Clst2Sect(c) + g.csize) && Mirrored(g, m)
    ensures Mirrored(g, m2)
  {
    hide Fits, Geometry.Valid, Geometry.Clst2Sect;
    ClusterInDisk(g, m, c);
  }

  lemma FatOnlyMirrored(g: Geometry, s: Snapshot, t: Snapshot)
    requires FatOnly(g, s, t)
    ensures Mirrored(g, s.disk) ==> Mirrored(g, t.disk)
  {
    hide Mirrored;
  }

  lemma ClusterInDisk(g: Geometry, m: seq<Sector>, c: u32)
    requires Fits(g, m) && g.IsCluster(c)
    ensures g.EndOfFats() <= g.database <= g.Clst2Sect(c) && g.Clst2Sect(c) + g.csize <= |m| && 0 < g.csize
    ensures 0 < g.Clst2Sect(c) < ALL_ONES && g.fatbase > 0
  {
    SectorBounds(g, c, 0);
    SectorBounds(g, c, g.csize - 1);
    ClusterOfSector(g, c, 0);
  }

  // ---- dir_next

  /** The next entry is in the same sector, or is the first one of the next sector. */
  lemma StepOffset(ofs: nat, csize: nat)
    requires csize > 0 && ofs % SZDIRE == 0
    ensures var n, j := ofs + SZDIRE, ofs / SS;
      && n % SZDIRE == 0 && n / SZDIRE == ofs / SZDIRE + 1 && j >= 0 && j / csize >= 0
      && (if n % SS != 0 then n / SS == j && n % SS == ofs % SS + SZDIRE else n / SS == j + 1)
      && (if (j + 1) % csize != 0 then (j + 1) / csize == j / csize && (j + 1) % csize == j % csize + 1
          else (j + 1) / csize == j / csize + 1)
  {
    NextOffset(ofs);
    NextSector(ofs / SS, csize);
  }

  lemma NextOffset(ofs: nat)
    requires ofs % SZDIRE == 0
    ensures var n := ofs + SZDIRE;
      && n % SZDIRE == 0 && n / SZDIRE == ofs / SZDIRE + 1 && ofs / SS >= 0
      && if n % SS != 0 then n / SS == ofs / SS && n % SS == ofs % SS + SZDIRE else n / SS == ofs / SS + 1
  {
  }

  lemma NextSector(j: nat, csize: nat)
    requires csize > 0
    ensures j / csize >= 0
    ensures if (j + 1) % csize != 0 then (j + 1) / csize == j / csize && (j + 1) % csize == j % csize + 1
            else (j + 1) / csize == j / csize + 1
  {
    var q, r := j / csize, j % csize;
    DivMod(j, csize);
    QuotAtLeastZero(j, csize);
    if r + 1 < csize {
      ModUnique(j + 1, csize, q, r + 1);
    } else {
      MulStep(csize, q);
      ModUnique(j + 1, csize, q + 1, 0);
    }
  }

  lemma QuotAtLeastZero(j: nat, k: nat)
    requires k > 0
    ensures j / k >= 0
  {
  }

  /** The place after p, for an entry that is not the first of a cluster. */
  function PlaceAfter(p: Place): Place {
    var n := p.dptr + SZDIRE;
    Place(n, p.clust, if n % SS == 0 then p.sect + 1 else p.sect, n % SS)
  }

  /** The next entry crosses into another cluster of a chained table. */
  ghost predicate Crosses(g: Geometry, p: Place)
    requires g.csize > 0
  {
    p.clust != 0 && (p.dptr + SZDIRE) % SS == 0 && (p.dptr + SZDIRE) / SS % g.csize == 0
  }

  /** A static table ends after p. */
  ghost predicate StaticEnd(g: Geometry, p: Place) {
    p.clust == 0 && (p.dptr + SZDIRE) % SS == 0 && (p.dptr + SZDIRE) / SZDIRE >= g.nRootdir
  }

  /** Where the entry after p lies, in a static table. */
  lemma NextStatic(g: Geometry, fat: FatSeq, sclust: u32, p: Place)
    requires g.Valid() && RootFits(g) && Spot(g, fat, sclust, p.dptr) == At(p) && Start(g, sclust) == 0
    ensures p.dptr < MAX_DIR && 0 < p.sect < ALL_ONES - 1 && p.clust == 0
    ensures p.dptr + SZDIRE >= MAX_DIR || StaticEnd(g, p) ==> Spot(g, fat, sclust, p.dptr + SZDIRE) == Off
    ensures p.dptr + SZDIRE < MAX_DIR && !StaticEnd(g, p) ==> Spot(g, fat, sclust, p.dptr + SZDIRE) == At(PlaceAfter(p))
  {
    hide Geometry.Clst2Sect, ChainSpot, Start, IsCl;
    StepOffset(p.dptr, 1);
    StaticBounds(g, p.dptr);
    hide Geometry.Valid;
    SameSector(g.nRootdir, p.dptr);
  }

  /** Where the entry after p lies, in a chained table. */
  lemma NextChained(g: Geometry, fat: FatSeq, sclust: u32, p: Place)
    requires g.Valid() && |fat| == g.nFatent && Spot(g, fat, sclust, p.dptr) == At(p) && Start(g, sclust) != 0
    ensures g.csize > 0 && p.dptr < MAX_DIR && 0 < p.sect < ALL_ONES - 1
    ensures p.clust != 0 && g.IsCluster(p.clust) && IsCl(fat, p.clust)
    ensures p.dptr + SZDIRE >= MAX_DIR ==> Spot(g, fat, sclust, p.dptr + SZDIRE) == Off
    ensures p.dptr + SZDIRE < MAX_DIR && !Crosses(g, p) ==> Spot(g, fat, sclust, p.dptr + SZDIRE) == At(PlaceAfter(p))
    ensures p.dptr + SZDIRE < MAX_DIR && Crosses(g, p) ==>
      Spot(g, fat, sclust, p.dptr + SZDIRE) ==
      if IsCl(fat, fat[p.clust]) then At(Place(p.dptr + SZDIRE, fat[p.clust], g.Clst2Sect(fat[p.clust]), 0)) else Off
  {
    ValidFacts(g);
    hide Geometry.Clst2Sect, Geometry.Valid, Start;
    var j, n := p.dptr / SS, p.dptr + SZDIRE;
    StepOffset(p.dptr, g.csize);
    BelowDivisor(j, g.csize);
    SectorBounds(g, p.clust, j % g.csize);
    if n % SS == 0 && (j + 1) % g.csize == 0 {
      if IsCl(fat, fat[p.clust]) { SectorBounds(g, fat[p.clust], 0); } else { SectorBounds(g, 0, 0); }
    }
  }

  /** Where the entry after p lies, in a table of this FAT. */
  lemma NextSpot(g: Geometry, fat: FatSeq, sclust: u32, p: Place)
    requires g.Valid() && RootFits(g) && |fat| == g.nFatent && Spot(g, fat, sclust, p.dptr) == At(p)
    ensures g.csize > 0 && p.dptr < MAX_DIR && 0 < p.sect < ALL_ONES - 1
    ensures p.clust == 0 <==> Start(g, sclust) == 0
    ensures p.clust != 0 ==> g.IsCluster(p.clust) && IsCl(fat, p.clust)
    ensures p.dptr + SZDIRE >= MAX_DIR || StaticEnd(g, p) ==> Spot(g, fat, sclust, p.dptr + SZDIRE) == Off
    ensures p.dptr + SZDIRE < MAX_DIR && !Crosses(g, p) && !StaticEnd(g, p) ==>
      Spot(g, fat, sclust, p.dptr + SZDIRE) == At(PlaceAfter(p))
    ensures p.dptr + SZDIRE < MAX_DIR && Crosses(g, p) ==>
      Spot(g, fat, sclust, p.dptr + SZDIRE) ==
      if IsCl(fat, fat[p.clust]) then At(Place(p.dptr + SZDIRE, fat[p.clust], g.Clst2Sect(fat[p.clust]), 0)) else Off
  {
    ValidFacts(g);
    hide Geometry.Clst2Sect, Geometry.Valid, Start, Spot, PlaceAfter, RootFits, IsCl;
    if Start(g, sclust) == 0 { NextStatic(g, fat, sclust, p); } else { NextChained(g, fat, sclust, p); }
  }

  lemma BelowDivisor(j: nat, k: nat)
    requires k > 0
    ensures 0 <= j % k < k && 0 <= j / k
  {
  }

  /** Inside a sector a static table of whole sectors does not end. */
  lemma SameSector(nRootdir: nat, ofs: nat)
    requires nRootdir % (SS / SZDIRE) == 0 && ofs % SZDIRE == 0 && ofs / SZDIRE < nRootdir
    ensures (ofs + SZDIRE) % SS != 0 ==> (ofs + SZDIRE) / SZDIRE < nRootdir
  {
  }

  // ---- stretching

  /** A table with the volume it lies on. */
  datatype Tab = Tab(fat: FatSeq, sects: seq<Sector>, chain: seq<u32>)

  ghost function TabOf(dp: Dir): Tab
    requires dp.fs.Mounted()
    reads dp`chain, dp.fs`winsect, dp.fs`wflag, dp.fs.drive, dp.fs.win
  {
    Tab(Table(dp.fs), dp.fs.Map(), dp.chain)
  }

  /** The clusters of a table, as its chain says: none for a static one. */
  ghost predicate Chained(g: Geometry, fat: FatSeq, chain: seq<u32>, sclust: u32) {
    if Start(g, sclust) == 0 then chain == [] else IsChain(fat, chain) && chain[0] == Start(g, sclust)
  }

  /** What stretching needs: an exact free count, no reserved value in the FAT, a proper chain. */
  ghost predicate Stretchable(dp: Dir)
    requires dp.fs.Mounted()
    reads dp`chain, dp.fs`freeClst, dp.fs`winsect, dp.fs`wflag, dp.fs.drive, dp.fs.win
  {
    FreeExact(dp.fs) && 1 !in Table(dp.fs) && Chained(dp.fs.geo, Table(dp.fs), dp.chain, dp.sclust)
  }

  ghost predicate InNew(g: Geometry, a: Tab, b: Tab, s: int) {
    g.csize > 0 && |a.chain| <= |b.chain| && g.DataSector(s) && exists i :: |a.chain| <= i < |b.chain| && b.chain[i] == g.ClusterOf(s)
  }

  /** From a to b the table may have got longer by clusters that were free and are now zero; nothing else
      changed outside the FAT, and no FAT entry of another chain. */
  ghost predicate Grew(g: Geometry, a: Tab, b: Tab) {
    && a.chain <= b.chain && |b.fat| == |a.fat| && |b.sects| == |a.sects|
    && (forall i | |a.chain| <= i < |b.chain| ::
          IsCl(a.fat, b.chain[i]) && g.IsCluster(b.chain[i]) && a.fat[b.chain[i]] == 0 && Zeroed(g, b.sects, b.chain[i]))
    && (forall s | 0 <= s < |a.sects| && !g.InFirstFat(s) && !g.InSecondFat(s) && !InNew(g, a, b, s) :: b.sects[s] == a.sects[s])
    && (forall c | IsCl(a.fat, c) && a.fat[c] != 0 && c !in a.chain :: b.fat[c] == a.fat[c])
  }

  lemma GrewRefl(g: Geometry, a: Tab)
    ensures Grew(g, a, a)
  {
  }

  /** One more cluster. */
  lemma GrewByOne(g: Geometry, a: Tab, m1: seq<Sector>, b: Tab, r: u32, eoc: u32)
    requires Fits(g, a.sects) && |a.fat| == g.nFatent <= eoc && IsChain(a.fat, a.chain)
    requires IsCl(a.fat, r) && a.fat[r] == 0 && b.fat == Appended(a.fat, a.chain[|a.chain| - 1], r, eoc)
    requires b.chain == a.chain + [r] && OutsideFatKept(g, a.sects, m1) && Cleared(g, m1, b.sects, r)
    ensures Grew(g, a, b) && IsChain(b.fat, b.chain)
  {
    hide Geometry.Valid, Geometry.Clst2Sect, Zeroed, Created;
    GrownChain(a.fat, b.fat, a.chain, r, eoc);
    hide Appended, IsChain;
    ClearedOutside(g, m1, b.sects, r);
    forall s | 0 <= s < |a.sects| && !g.InFirstFat(s) && !g.InSecondFat(s) && !InNew(g, a, b, s) ensures b.sects[s] == a.sects[s] {
      assert g.DataSector(s) && g.csize > 0 ==> b.chain[|a.chain|] != g.ClusterOf(s);
    }
  }

  lemma ClearedOutside(g: Geometry, m: seq<Sector>, m2: seq<Sector>, r: u32)
    requires Fits(g, m) && g.IsCluster(r) && Cleared(g, m, m2, r)
    ensures g.csize > 0 && |m2| == |m| && Zeroed(g, m2, r)
    ensures forall s | 0 <= s < |m| && !(g.DataSector(s) && g.ClusterOf(s) == r) :: m2[s] == m[s]
  {
    hide Geometry.Clst2Sect, Geometry.DataSector, Geometry.ClusterOf;
    forall s | 0 <= s < |m| && !(g.DataSector(s) && g.ClusterOf(s) == r) ensures m2[s] == m[s] {
      if g.Clst2Sect(r) <= s < g.Clst2Sect(r) + g.csize {
        ClusterOfSector(g, r, s - g.Clst2Sect(r));
      }
    }
  }

  lemma GrewTrans(g: Geometry, a: Tab, b: Tab, c: Tab)
    requires g.Valid() && Grew(g, a, b) && Grew(g, b, c)
    requires c.chain == [] || (b.chain != [] && IsChain(b.fat, b.chain) && IsChain(c.fat, c.chain))
    requires |c.sects| >= g.EndOfData() && |a.fat| == g.nFatent
    ensures Grew(g, a, c)
  {
    hide Geometry.Valid, Geometry.Clst2Sect, Zeroed, IsChain;
    if c.chain != [] { ChainDistinct(c.fat, c.chain); }
    forall i | |a.chain| <= i < |c.chain|
      ensures IsCl(a.fat, c.chain[i]) && g.IsCluster(c.chain[i]) && a.fat[c.chain[i]] == 0 && Zeroed(g, c.sects, c.chain[i])
    {
      if i < |b.chain| {
        ZeroedKept(g, b, c, i);
      } else {
        NewIsNew(a.fat, a.chain, b.fat, b.chain, c.chain[i]);
      }
    }
    forall s | 0 <= s < |a.sects| && !g.InFirstFat(s) && !g.InSecondFat(s) && !InNew(g, a, c, s) ensures c.sects[s] == a.sects[s] {
      assert forall i | |a.chain| <= i < |b.chain| :: c.chain[i] == b.chain[i];
      assert !InNew(g, a, b, s) && !InNew(g, b, c, s);
    }
    forall d | IsCl(a.fat, d) && a.fat[d] != 0 && d !in a.chain ensures c.fat[d] == a.fat[d] {
      assert forall i | 0 <= i < |a.chain| :: a.chain[i] == b.chain[i];
    }
  }

  /** A cluster that is free on b was free on a. */
  lemma NewIsNew(fatA: FatSeq, chainA: seq<u32>, fatB: FatSeq, chainB: seq<u32>, r: u32)
    requires |fatA| == |fatB| && chainA <= chainB && IsChain(fatB, chainB) && IsCl(fatB, r) && fatB[r] == 0
    requires forall c | IsCl(fatA, c) && fatA[c] != 0 && c !in chainA :: fatB[c] == fatA[c]
    ensures fatA[r] == 0
  {
    ChainHasNoFree(fatB, chainB, r);
    assert forall i | 0 <= i < |chainA| :: chainA[i] == chainB[i];
  }

  /** A new cluster stays zero when the table grows further. */
  lemma ZeroedKept(g: Geometry, b: Tab, c: Tab, i: nat)
    requires g.Valid() && Grew(g, b, c) && i < |b.chain| && Distinct(c.chain) && g.IsCluster(b.chain[i]) && Zeroed(g, b.sects, b.chain[i])
    ensures Zeroed(g, c.sects, b.chain[i])
  {
    hide Geometry.Valid, Geometry.Clst2Sect;
    var d := b.chain[i];
    ValidFacts(g);
    forall s | g.Clst2Sect(d) <= s < g.Clst2Sect(d) + g.csize ensures c.sects[s] == ZeroSector() {
      ClusterOfSector(g, d, s - g.Clst2Sect(d));
      assert c.chain[i] == d;
      assert !InNew(g, b, c, s);
    }
  }

  /** An entry of the table keeps its place when the table grows. */
  lemma SpotKept(g: Geometry, fat: FatSeq, chain: seq<u32>, fat2: FatSeq, chain2: seq<u32>, sclust: u32, ofs: nat)
    requires g.Valid() && Chained(g, fat, chain, sclust) && Chained(g, fat2, chain2, sclust) && chain <= chain2 && |fat| == |fat2| == g.nFatent
    requires Spot(g, fat, sclust, ofs).At?
    ensures Spot(g, fat2, sclust, ofs) == Spot(g, fat, sclust, ofs)
    ensures Start(g, sclust) != 0 ==> ofs / SS / g.csize < |chain| && Spot(g, fat, sclust, ofs).p.clust == chain[ofs / SS / g.csize]
  {
    hide Geometry.Valid, Geometry.Clst2Sect;
    ValidFacts(g);
    if Start(g, sclust) != 0 {
      var k := ofs / SS / g.csize;
      QuotAtLeastZero(ofs / SS, g.csize);
      if k >= |chain| {
        LinksOut(fat, chain, k);
        SectorBounds(g, 0, 0);
      } else {
        LinksChain(fat, chain, k);
        LinksChain(fat2, chain2, k);
      }
    }
  }

  lemma LinksOut(fat: FatSeq, chain: seq<u32>, k: nat)
    requires IsChain(fat, chain) && k >= |chain|
    ensures Links(fat, chain[0], k) == 0
  {
    LinksChain(fat, chain, |chain| - 1);
    LinkOf(fat, chain, |chain| - 1);
    LinksEnd(fat, chain[0], |chain|, k);
  }

  /** The cluster of an entry whose link ends the chain is the last one. */
  lemma LastCluster(g: Geometry, fat: FatSeq, chain: seq<u32>, sclust: u32, p: Place)
    requires g.Valid() && |fat| == g.nFatent && Chained(g, fat, chain, sclust) && Spot(g, fat, sclust, p.dptr) == At(p) && p.clust != 0
    ensures chain != [] && p.clust in chain && IsCl(fat, p.clust) && fat[p.clust] >= 2
    ensures fat[p.clust] >= |fat| ==> p.clust == chain[|chain| - 1]
  {
    hide Geometry.Valid, Geometry.Clst2Sect;
    ValidFacts(g);
    SpotKept(g, fat, chain, fat, chain, sclust, p.dptr);
    var k := p.dptr / SS / g.csize;
    QuotAtLeastZero(p.dptr / SS, g.csize);
    LinkOf(fat, chain, k);
  }

  /** Adds a zeroed cluster behind the last one of the table. */
  method StretchTable(dp: Dir, last: u32) returns (res: FResult, clst: u32)
    requires dp.fs.Mounted() && Stretchable(dp) && dp.chain != [] && last == dp.chain[|dp.chain| - 1]
    modifies dp`chain, dp.fs, dp.fs.drive, dp.fs.win
    ensures dp.fs.Mounted() && Stretchable(dp) && Grew(dp.fs.geo, old(TabOf(dp)), TabOf(dp))
    ensures res == FR_OK ==> dp.fs.geo.IsCluster(clst) && IsCl(Table(dp.fs), last) && Table(dp.fs)[last] == clst
    ensures res != FR_OK ==> res == FR_DENIED && NoFree(Table(dp.fs)) && Table(dp.fs) == old(Table(dp.fs)) && dp.chain == old(dp.chain)
    ensures old(Mirrored(dp.fs.geo, dp.fs.drive.sectors)) ==> Mirrored(dp.fs.geo, dp.fs.drive.sectors)
  {
    hide Mirrored, FatFs.Mounted, Table, FatFs.Map, CountFree, Grew, IsChain, CreateSpec, NoFree, Cleared, Fat, FatOnly;
    var fs := dp.fs;
    ghost var g, a := fs.geo, TabOf(dp);
    MountedFacts(fs);
    MountedValid(fs);
    LinkOf(a.fat, a.chain, |a.chain| - 1);
    res := FR_OK;
    clst := CreateChain(fs, last);
    FatOnlyMirrored(g, old(Snap(fs)), Snap(fs));
    ghost var m1, fat1 := fs.Map(), Table(fs);
    StretchCases(a.fat, fat1, a.chain, last, |a.chain| - 1, clst, Eoc(g));
    if clst == 0 {
      SameTab(g, a, TabOf(dp), old(Snap(fs)), Snap(fs));
      return FR_DENIED, 0;
    }
    if clst == 1 { res := FR_INT_ERR; return; }
    if clst == ALL_ONES { res := FR_DISK_ERR; return; }
    StepMaps(g, old(Snap(fs)), Snap(fs));
    res := DirClear(fs, clst);
    dp.chain := dp.chain + [clst];
    if res != FR_OK { res := FR_DISK_ERR; return; }
    GrewByOne(g, a, m1, TabOf(dp), clst, Eoc(g));
    GrownLinks(a.fat, fat1, a.chain, clst, Eoc(g));
  }

  lemma StepMaps(g: Geometry, s: Snapshot, t: Snapshot)
    requires FatOnly(g, s, t)
    ensures Fits(g, s.sects) && OutsideFatKept(g, s.sects, t.sects)
  {
  }

  /** A step on the FAT that left the FAT as it was. */
  lemma SameTab(g: Geometry, a: Tab, b: Tab, s: Snapshot, t: Snapshot)
    requires FatOnly(g, s, t) && a.sects == s.sects && b.sects == t.sects && a.fat == b.fat && a.chain == b.chain
    ensures Grew(g, a, b)
  {
    hide Fits;
  }

  lemma GrownLinks(fat: FatSeq, fat2: FatSeq, chain: seq<u32>, r: u32, eoc: u32)
    requires chain != [] && IsChain(fat, chain) && IsCl(fat, r) && fat[r] == 0 && eoc >= |fat|
    requires fat2 == Appended(fat, chain[|chain| - 1], r, eoc)
    ensures IsCl(fat2, chain[|chain| - 1]) && fat2[chain[|chain| - 1]] == r && (chain + [r])[0] == chain[0]
  {
  }

  /** The index stands on an entry of the table, or is disabled. */
  ghost predicate Placed(dp: Dir)
    requires dp.fs.Mounted()
    reads dp, dp.fs`winsect, dp.fs`wflag, dp.fs.drive, dp.fs.win
  {
    dp.sect == 0 || (dp.fs.geo.csize > 0 && Spot(dp.fs.geo, Table(dp.fs), dp.sclust, dp.dptr) == At(dp.Here()))
  }

  /** The cluster after the current one, which the next entry begins; may stretch the table. */
  method CrossCluster(dp: Dir, stretch: bool, ghost p: Place) returns (res: FResult, clst: u32)
    requires dp.fs.Mounted() && RootFits(dp.fs.geo) && dp.fs.geo.csize > 0 && (stretch ==> Stretchable(dp))
    requires p.clust == dp.clust != 0 && Spot(dp.fs.geo, Table(dp.fs), dp.sclust, p.dptr) == At(p)
    modifies dp`sect, dp`chain, dp.fs, dp.fs.drive, dp.fs.win
    ensures dp.fs.Mounted() && IsCl(Table(dp.fs), dp.clust)
    ensures if res == FR_OK then clst == Table(dp.fs)[dp.clust] && IsCl(Table(dp.fs), clst) && dp.sect == old(dp.sect)
            else !IsCl(Table(dp.fs), Table(dp.fs)[dp.clust])
    ensures Spot(dp.fs.geo, Table(dp.fs), dp.sclust, p.dptr) == At(p)
    ensures !stretch ==> TabOf(dp) == old(TabOf(dp)) && dp.fs.freeClst == old(dp.fs.freeClst) && dp.fs.lastClst == old(dp.fs.lastClst)
    ensures res == FR_NO_FILE ==> !stretch && dp.sect == 0
    ensures stretch ==> Stretchable(dp) && Grew(dp.fs.geo, old(TabOf(dp)), TabOf(dp)) && (res == FR_OK || res == FR_DENIED)
    ensures res == FR_DENIED ==> stretch && NoFree(Table(dp.fs))
    ensures old(Mirrored(dp.fs.geo, dp.fs.drive.sectors)) ==> Mirrored(dp.fs.geo, dp.fs.drive.sectors)
  {
    hide Mirrored, FatFs.Mounted, Table, FatFs.Map, CountFree, Grew, IsChain, CreateSpec, NoFree, Fat, FatOnly, Spot, Chained;
    var fs := dp.fs;
    ghost var g, a := fs.geo, TabOf(dp);
    MountedFacts(fs);
    MountedValid(fs);
    GrewRefl(g, a);
    NextSpot(g, a.fat, dp.sclust, p);
    clst := GetFat(fs, dp.clust);
    FatOnlyMirrored(g, old(Snap(fs)), Snap(fs));
    if stretch { LastCluster(g, a.fat, a.chain, dp.sclust, p); }
    res := FR_INT_ERR;
    if clst <= 1 { return; }
    res := FR_DISK_ERR;
    if clst == ALL_ONES { return; }
    res := FR_OK;
    if clst >= fs.geo.nFatent {
      if !stretch {
        dp.sect := 0;
        res := FR_NO_FILE;
        return;
      }
      res, clst := StretchTable(dp, dp.clust);
      GrewParts(g, a, TabOf(dp));
      SpotKept(g, a.fat, a.chain, Table(fs), dp.chain, dp.sclust, p.dptr);
    }
  }

  lemma GrewParts(g: Geometry, a: Tab, b: Tab)
    requires Grew(g, a, b)
    ensures a.chain <= b.chain && |b.fat| == |a.fat| && |b.sects| == |a.sects|
  {
  }

  /** dir_next: on to the next entry. Without stretching it succeeds exactly if the table has one, changes nothing on
      the volume, and goes where dir_sdi would go; with stretching the table may have got one more zeroed cluster.
      An index that has run off the table stays off it. */
  method DirNext(dp: Dir, stretch: bool) returns (res: FResult)
    requires dp.fs.Mounted() && RootFits(dp.fs.geo) && dp.fs.geo.csize > 0 && Placed(dp) && (stretch ==> Stretchable(dp))
    modifies dp, dp.fs, dp.fs.drive, dp.fs.win
    ensures dp.fs.Mounted()
    ensures old(dp.sect) == 0 ==> res == FR_NO_FILE && dp.sect == 0 && TabOf(dp) == old(TabOf(dp))
    ensures old(dp.sect) != 0 ==>
      Spot(dp.fs.geo, Table(dp.fs), dp.sclust, old(dp.dptr) + SZDIRE) == if res == FR_OK then At(dp.Here()) else Off
    ensures res == FR_OK ==> old(dp.sect) != 0 && dp.sect != 0 && dp.dptr == old(dp.dptr) + SZDIRE
    ensures !stretch ==> TabOf(dp) == old(TabOf(dp)) && dp.fs.freeClst == old(dp.fs.freeClst) && dp.fs.lastClst == old(dp.fs.lastClst)
    ensures stretch ==> Stretchable(dp) && Grew(dp.fs.geo, old(TabOf(dp)), TabOf(dp))
    ensures stretch ==> res == FR_OK || res == FR_NO_FILE || (res == FR_DENIED && NoFree(Table(dp.fs)))
    ensures stretch && res == FR_NO_FILE && old(dp.sect) != 0 ==> old(dp.dptr) + SZDIRE >= MAX_DIR || Start(dp.fs.geo, dp.sclust) == 0
    ensures old(Mirrored(dp.fs.geo, dp.fs.drive.sectors)) ==> Mirrored(dp.fs.geo, dp.fs.drive.sectors)
  {
    hide Mirrored, FatFs.Mounted, Table, FatFs.Map, FreeExact, Grew, IsChain, NoFree, Fat, FatOnly, Spot, Chained, Geometry.Clst2Sect, Stretchable;
    var fs := dp.fs;
    ghost var g, a, p := fs.geo, TabOf(dp), dp.Here();
    MountedFacts(fs);
    MountedValid(fs);
    GrewRefl(g, a);
    if dp.sect == 0 { return FR_NO_FILE; }
    NextSpot(g, a.fat, dp.sclust, p);
    var ofs := dp.dptr + SZDIRE;
    if ofs >= MAX_DIR { dp.sect := 0; }
    if dp.sect == 0 { return FR_NO_FILE; }
    if ofs % SS == 0 {
      dp.sect := dp.sect + 1;
      if dp.clust == 0 {
        if ofs / SZDIRE >= fs.geo.nRootdir {
          dp.sect := 0;
          return FR_NO_FILE;
        }
      } else {
        if ofs / SS % fs.geo.csize == 0 {
          var clst;
          res, clst := CrossCluster(dp, stretch, p);
          MountedValid(fs);
          NextSpot(g, Table(fs), dp.sclust, p);
          if res != FR_OK { return; }
          SectorBounds(g, clst, 0);
          dp.clust := clst;
          dp.sect := fs.geo.Clst2Sect(clst);
        }
      }
    }
    dp.dptr := ofs;
    dp.dir := ofs % SS;
    res := FR_OK;
  }

  /** Behind the end of a table there are no more entries. */
  lemma {:induction false} SpotsEnd(g: Geometry, fat: FatSeq, sclust: u32, i: nat, k: nat)
    requires g.Valid() && RootFits(g) && |fat| == g.nFatent && i <= k && Spot(g, fat, sclust, SZDIRE * i) == Off
    ensures Spot(g, fat, sclust, SZDIRE * k) == Off
    decreases k
  {
    ValidFacts(g);
    hide Geometry.Valid, Spot, RootFits;
    if i < k {
      SpotsEnd(g, fat, sclust, i, k - 1);
      OffNext(g, fat, sclust, SZDIRE * (k - 1));
    }
  }

  lemma OffNext(g: Geometry, fat: FatSeq, sclust: u32, ofs: nat)
    requires g.Valid() && RootFits(g) && |fat| == g.nFatent && Spot(g, fat, sclust, ofs) == Off && ofs % SZDIRE == 0
    ensures g.csize > 0 && Spot(g, fat, sclust, ofs + SZDIRE) == Off
  {
    ValidFacts(g);
    hide Geometry.Valid, Geometry.Clst2Sect, RootFits, Start;
    StepOffset(ofs, g.csize);
    SectorBounds(g, Links(fat, Start(g, sclust), ofs / SS / g.csize), 0);
    SectorBounds(g, 0, 0);
  }

  /** Every scan of a directory: dir_sdi to entry 0, then dir_next. k successful steps end where dir_sdi to
      offset 32 k ends, and they are possible exactly when the table has an entry there. */
  method ScanTo(dp: Dir, k: nat) returns (res: FResult)
    requires dp.fs.Mounted() && RootFits(dp.fs.geo) && dp.fs.geo.csize > 0
    modifies dp, dp.fs, dp.fs.drive, dp.fs.win
    ensures dp.fs.Mounted() && TabOf(dp) == old(TabOf(dp))
    ensures Spot(dp.fs.geo, Table(dp.fs), dp.sclust, SZDIRE * k) == if res == FR_OK then At(dp.Here()) else Off
    ensures old(Mirrored(dp.fs.geo, dp.fs.drive.sectors)) ==> Mirrored(dp.fs.geo, dp.fs.drive.sectors)
  {
    hide Mirrored, FatFs.Mounted, Table, FatFs.Map, Fat, FatOnly, Spot, Stretchable;
    MountedValid(dp.fs);
    ghost var g, a := dp.fs.geo, TabOf(dp);
    res := DirSdi(dp, 0);
    FatOnlyMirrored(g, old(Snap(dp.fs)), Snap(dp.fs));
    if res != FR_OK { SpotsEnd(g, a.fat, dp.sclust, 0, k); return; }
    NextSpot(g, a.fat, dp.sclust, dp.Here());
    for i := 0 to k
      invariant dp.fs.Mounted() && TabOf(dp) == a && dp.sect != 0 && res == FR_OK
      invariant old(Mirrored(dp.fs.geo, dp.fs.drive.sectors)) ==> Mirrored(dp.fs.geo, dp.fs.drive.sectors)
      invariant Spot(g, a.fat, dp.sclust, SZDIRE * i) == At(dp.Here()) && dp.dptr == SZDIRE * i
    {
      res := DirNext(dp, false);
      if res != FR_OK { SpotsEnd(g, a.fat, dp.sclust, i + 1, k); return; }
    }
  }

  // ---- dir_alloc

  /** Entry number e of a table is free: deleted or never used. */
  ghost predicate FreeEntry(g: Geometry, t: Tab, sclust: u32, e: nat)
    requires g.csize > 0
  {
    var spot := Spot(g, t.fat, sclust, SZDIRE * e);
    spot.At? && FreeAt(t.sects, spot.p)
  }

  ghost predicate FreeAt(m: seq<Sector>, p: Place) {
    0 <= p.sect < |m| && 0 <= p.dir < SS && (m[p.sect][p.dir] == 0xE5 || m[p.sect][p.dir] == 0)
  }

  /** Entries lie outside the FATs, in the root area or in the cluster of their place. */
  lemma SpotSector(g: Geometry, fat: FatSeq, sclust: u32, ofs: nat)
    requires g.Valid() && RootFits(g) && |fat| == g.nFatent && Spot(g, fat, sclust, ofs).At?
    ensures var p := Spot(g, fat, sclust, ofs).p;
      && g.EndOfFats() <= g.database && g.EndOfFats() <= p.sect < g.EndOfData() < ALL_ONES && 0 < p.sect && 0 <= p.dir < SS && g.csize > 0
      && (if Start(g, sclust) == 0 then p.sect < g.database else g.DataSector(p.sect) && g.ClusterOf(p.sect) == p.clust)
  {
    hide Geometry.Valid, Geometry.Clst2Sect;
    ValidFacts(g);
    if Start(g, sclust) == 0 {
      StaticBounds(g, ofs);
      MulLe(g.csize, 0, g.nFatent - 2);
      Quotients(ofs);
    } else {
      BelowDivisor(ofs / SS, g.csize);
      var c := Spot(g, fat, sclust, ofs).p.clust;
      SectorBounds(g, c, ofs / SS % g.csize);
      ClusterOfSector(g, c, ofs / SS % g.csize);
    }
  }

  lemma Quotients(x: nat)
    ensures 0 <= x / SS && 0 <= x % SS < SS
  {
  }

  /** Growing a table leaves its entries as they were. */
  lemma EntryKept(g: Geometry, a: Tab, b: Tab, sclust: u32, e: nat)
    requires g.Valid() && RootFits(g) && |a.fat| == g.nFatent && g.EndOfData() <= |a.sects| && Grew(g, a, b)
    requires Chained(g, a.fat, a.chain, sclust) && Chained(g, b.fat, b.chain, sclust)
    requires g.csize > 0 && Spot(g, a.fat, sclust, SZDIRE * e).At?
    ensures Spot(g, b.fat, sclust, SZDIRE * e).At? && (FreeEntry(g, b, sclust, e) <==> FreeEntry(g, a, sclust, e))
  {
    hide Geometry.Valid, Geometry.Clst2Sect, Spot, Geometry.ClusterOf, Geometry.DataSector, Zeroed;
    SpotKept(g, a.fat, a.chain, b.fat, b.chain, sclust, SZDIRE * e);
    SpotSector(g, a.fat, sclust, SZDIRE * e);
    var p := Spot(g, a.fat, sclust, SZDIRE * e).p;
    if InNew(g, a, b, p.sect) {
      NotNew(g, a, b, sclust, SZDIRE * e, p);
      assert false;
    }
  }

  lemma NotNew(g: Geometry, a: Tab, b: Tab, sclust: u32, ofs: nat, p: Place)
    requires g.csize > 0 && a.chain <= b.chain && Chained(g, b.fat, b.chain, sclust)
    requires if Start(g, sclust) == 0 then p.sect < g.database else g.ClusterOf(p.sect) == p.clust
    requires Start(g, sclust) != 0 ==> 0 <= ofs / SS / g.csize < |a.chain| && p.clust == a.chain[ofs / SS / g.csize]
    ensures !InNew(g, a, b, p.sect)
  {
    if Start(g, sclust) != 0 {
      ChainDistinct(b.fat, b.chain);
    }
  }

  /** How many of the last flags are set. */
  function Trailing(s: seq<bool>): (n: nat)
    ensures n <= |s|
  {
    if s == [] || !s[|s| - 1] then 0 else Trailing(s[..|s| - 1]) + 1
  }

  /** A run of n at the end means that the last n are set. */
  lemma {:induction false} TrailingRun(s: seq<bool>, n: nat)
    requires n <= |s|
    ensures n <= Trailing(s) <==> forall i | |s| - n <= i < |s| :: s[i]
    decreases |s|
  {
    if n > 0 && s[|s| - 1] {
      TrailingRun(s[..|s| - 1], n - 1);
      assert forall i | |s| - n <= i < |s| - 1 :: s[..|s| - 1][i] == s[i];
    }
  }

  /** seen tells of entries 0, 1, ... of the table whether they are free. */
  ghost predicate Tells(g: Geometry, t: Tab, sclust: u32, seen: seq<bool>)
    requires g.csize > 0
  {
    forall i | 0 <= i < |seen| :: Spot(g, t.fat, sclust, SZDIRE * i).At? && (seen[i] <==> FreeEntry(g, t, sclust, i))
  }

  lemma TellsKept(g: Geometry, a: Tab, b: Tab, sclust: u32, seen: seq<bool>)
    requires g.Valid() && RootFits(g) && |a.fat| == g.nFatent && g.EndOfData() <= |a.sects| && Grew(g, a, b) && g.csize > 0
    requires Chained(g, a.fat, a.chain, sclust) && Chained(g, b.fat, b.chain, sclust) && Tells(g, a, sclust, seen)
    ensures Tells(g, b, sclust, seen)
  {
    hide Geometry.Valid, RootFits, Grew, Chained, Spot, FreeEntry;
    forall i: nat | i < |seen| ensures Spot(g, b.fat, sclust, SZDIRE * i).At? && (seen[i] <==> FreeEntry(g, b, sclust, i)) {
      EntryKept(g, a, b, sclust, i);
    }
  }

  /** No prefix of seen ends with n flags set. */
  ghost predicate NoneBefore(seen: seq<bool>, n: nat) {
    forall k | 0 <= k < |seen| :: Trailing(seen[..k]) < n || n == 0
  }

  lemma OneMoreSeen(seen: seq<bool>, free: bool, n: nat)
    requires NoneBefore(seen, n) && (Trailing(seen) < n || n == 0)
    ensures NoneBefore(seen + [free], n) && Trailing(seen + [free]) == if free then Trailing(seen) + 1 else 0
  {
    var s2 := seen + [free];
    assert s2[..|seen|] == seen;
    forall k | 0 <= k < |s2| ensures Trailing(s2[..k]) < n || n == 0 {
      if k < |seen| { assert s2[..k] == seen[..k]; }
    }
  }

  /** Shows the entry at the index and tells whether it is free. */
  method ShowFree(dp: Dir) returns (res: FResult, free: bool)
    requires dp.fs.Mounted() && RootFits(dp.fs.geo) && dp.fs.geo.csize > 0 && dp.sect != 0 && Placed(dp)
    modifies dp.fs`wflag, dp.fs`winsect, dp.fs.drive, dp.fs.win
    ensures dp.fs.Mounted() && TabOf(dp) == old(TabOf(dp)) && res == FR_OK
    ensures free <==> FreeAt(dp.fs.Map(), dp.Here())
    ensures old(Mirrored(dp.fs.geo, dp.fs.drive.sectors)) ==> Mirrored(dp.fs.geo, dp.fs.drive.sectors)
  {
    hide Mirrored, Fat, Spot, Table;
    var fs := dp.fs;
    SpotSector(fs.geo, Table(fs), dp.sclust, dp.dptr);
    TableOfMap(fs);
    free := false;
    res := MoveWindow(fs, dp.sect);
    TableOfMap(fs);
    if res == FR_OK {
      free := fs.win[dp.dir] == 0xE5 || fs.win[dp.dir] == 0;
    }
  }

  /** dir_alloc: the index ends on the last entry of the first block of nEnt free entries, the table stretched by zeroed
      clusters if need be. It fails only if there is no such block and the table cannot get longer. */
  method DirAlloc(dp: Dir, nEnt: nat) returns (res: FResult, ghost seen: seq<bool>)
    requires dp.fs.Mounted() && RootFits(dp.fs.geo) && dp.fs.geo.csize > 0 && Stretchable(dp)
    modifies dp, dp.fs, dp.fs.drive, dp.fs.win
    ensures dp.fs.Mounted() && Stretchable(dp) && Grew(dp.fs.geo, old(TabOf(dp)), TabOf(dp))
    ensures Tells(dp.fs.geo, TabOf(dp), dp.sclust, seen) && NoneBefore(seen, nEnt)
    ensures res == FR_OK ==> seen != [] && Trailing(seen) == nEnt
    ensures res == FR_OK ==> Spot(dp.fs.geo, Table(dp.fs), dp.sclust, SZDIRE * (|seen| - 1)) == At(dp.Here())
    ensures res != FR_OK ==> (Trailing(seen) < nEnt || nEnt == 0) && Spot(dp.fs.geo, Table(dp.fs), dp.sclust, SZDIRE * |seen|) == Off
    ensures res != FR_OK && seen != [] ==> res == FR_DENIED && Exhausted(dp.fs.geo, Table(dp.fs), dp.sclust, seen)
    ensures old(Mirrored(dp.fs.geo, dp.fs.drive.sectors)) ==> Mirrored(dp.fs.geo, dp.fs.drive.sectors)
  {
    hide Mirrored, FatFs.Mounted, Table, FatFs.Map, CountFree, Grew, IsChain, NoFree, Fat, FatOnly, Spot, Chained, Geometry.Valid, RootFits, FreeAt, Tells, NoneBefore;
    var fs := dp.fs;
    MountedValid(fs);
    ghost var g, a := fs.geo, TabOf(dp);
    GrewRefl(g, a);
    seen := [];
    NothingSeen(g, a, dp.sclust, nEnt);
    res := DirSdi(dp, 0);
    FatOnlyMirrored(g, old(Snap(fs)), Snap(fs));
    if res != FR_OK { return; }
    NextSpot(g, a.fat, dp.sclust, dp.Here());
    var n := 0;
    while res == FR_OK
      invariant fs.Mounted() && Stretchable(dp) && Grew(g, a, TabOf(dp))
      invariant old(Mirrored(fs.geo, fs.drive.sectors)) ==> Mirrored(fs.geo, fs.drive.sectors)
      invariant Tells(g, TabOf(dp), dp.sclust, seen) && NoneBefore(seen, nEnt) && n == Trailing(seen) && (n < nEnt || nEnt == 0)
      invariant if res == FR_OK then dp.sect != 0 && Spot(g, Table(fs), dp.sclust, SZDIRE * |seen|) == At(dp.Here())
                else Failed(g, Table(fs), dp.sclust, seen, res)
      decreases MAX_DIR - SZDIRE * |seen|, res == FR_OK
    {
      MountedValid(fs);
      ghost var b := TabOf(dp);
      NextSpot(g, b.fat, dp.sclust, dp.Here());
      var free;
      res, free := ShowFree(dp);
      if res != FR_OK { break; }
      SeenEntry(g, b, dp.sclust, seen, free, dp.Here(), nEnt);
      seen := seen + [free];
      if free {
        n := n + 1;
        if n == nEnt { break; }
      } else {
        n := 0;
      }
      res := DirNext(dp, true);
      MountedValid(fs);
      Stays(g, a, b, TabOf(dp), dp.sclust, seen);
    }
    if res == FR_NO_FILE { res := FR_DENIED; }
  }

  /** Why a search for free entries may end without result. */
  ghost predicate Failed(g: Geometry, fat: FatSeq, sclust: u32, seen: seq<bool>, res: FResult)
    requires g.csize > 0
  {
    && seen != [] && (res == FR_NO_FILE || res == FR_DENIED) && Spot(g, fat, sclust, SZDIRE * |seen|) == Off
    && Exhausted(g, fat, sclust, seen)
  }

  /** The table cannot get longer: the disk is full, the table has its maximum size, or it is static. */
  ghost predicate Exhausted(g: Geometry, fat: FatSeq, sclust: u32, seen: seq<bool>) {
    NoFree(fat) || SZDIRE * |seen| >= MAX_DIR || Start(g, sclust) == 0
  }

  lemma NothingSeen(g: Geometry, a: Tab, sclust: u32, n: nat)
    requires g.csize > 0
    ensures Tells(g, a, sclust, []) && NoneBefore([], n) && Trailing([]) == 0
  {
  }

  lemma TellsOne(g: Geometry, b: Tab, sclust: u32, seen: seq<bool>, free: bool, p: Place)
    requires g.csize > 0 && Tells(g, b, sclust, seen)
    requires Spot(g, b.fat, sclust, SZDIRE * |seen|) == At(p) && (free <==> FreeAt(b.sects, p))
    ensures Tells(g, b, sclust, seen + [free])
  {
    assert FreeEntry(g, b, sclust, |seen|) <==> free;
    hide Spot, FreeAt, FreeEntry;
    forall i | 0 <= i < |seen + [free]|
      ensures Spot(g, b.fat, sclust, SZDIRE * i).At? && ((seen + [free])[i] <==> FreeEntry(g, b, sclust, i))
    {
      if i < |seen| { assert (seen + [free])[i] == seen[i]; }
    }
  }

  lemma SeenEntry(g: Geometry, b: Tab, sclust: u32, seen: seq<bool>, free: bool, p: Place, n: nat)
    requires g.csize > 0 && Tells(g, b, sclust, seen) && NoneBefore(seen, n) && (Trailing(seen) < n || n == 0)
    requires Spot(g, b.fat, sclust, SZDIRE * |seen|) == At(p) && (free <==> FreeAt(b.sects, p))
    ensures Tells(g, b, sclust, seen + [free]) && NoneBefore(seen + [free], n)
    ensures Trailing(seen + [free]) == if free then Trailing(seen) + 1 else 0
  {
    OneMoreSeen(seen, free, n);
    hide Trailing, NoneBefore, Spot, FreeAt;
    TellsOne(g, b, sclust, seen, free, p);
  }

  /** What was seen stays true after a step that may have stretched the table. */
  lemma Stays(g: Geometry, a: Tab, b: Tab, c: Tab, sclust: u32, seen: seq<bool>)
    requires g.Valid() && RootFits(g) && |b.fat| == g.nFatent == |a.fat| && g.EndOfData() <= |b.sects| && g.csize > 0
    requires Grew(g, a, b) && Grew(g, b, c) && Chained(g, b.fat, b.chain, sclust) && Chained(g, c.fat, c.chain, sclust)
    requires Tells(g, b, sclust, seen)
    ensures Tells(g, c, sclust, seen) && Grew(g, a, c)
  {
    TellsKept(g, b, c, sclust, seen);
    GrewParts(g, b, c);
    GrewTrans(g, a, b, c);
  }
}
