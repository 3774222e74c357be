/** Seeking, and finding the next cluster of a transfer, with the cluster link map of an open file. */
module FastSeek {
  import opened Alloc
  import opened Bytes
  import opened Chains
  import opened FatTable
  import opened FileIO
  import opened FileModel
  import opened FileSeek
  import opened LinkMap
  import opened VolumeGeometry
  import opened Window

  /** The table is the one of the file. */
  ghost predicate Maps(tbl: seq<u32>, frs: seq<Fragment>, chain: seq<u32>) {
    Holds(tbl, frs) && Expand(frs) == chain
  }

  lemma MapFacts(fp: Fil, tbl: seq<u32>, frs: seq<Fragment>)
    requires fp.Busy() && Maps(tbl, frs, fp.chain)
    ensures fp.fs.geo.csize > 0 && forall c | c in Expand(frs) :: 0 <= c < ALL_ONES
  {
    ValidFacts(fp.fs.geo);
    CoreParts(fp.fs.geo, Table(fp.fs), fp.fs.drive.sectors, fp.fs.winsect, fp.St());
    hide Table, IsChain, Expand, Holds;
  }

  /** The cluster and the sector of byte number p of a file. */
  lemma ByteSector(g: Geometry, disk: seq<Sector>, f: FilState, p: nat)
    requires Sized(g, disk, f) && p < f.objsize
    ensures AtCluster(g, f.chain, f.chain[p / SS / g.csize], p) && p / SS < Span(g, f.chain)
    ensures var c := f.chain[p / SS / g.csize];
      0 < g.Clst2Sect(c) && g.Clst2Sect(c) + p / SS % g.csize == FileSector(g, f.chain, p / SS) < ALL_ONES
  {
    SectorInChain(p / SS, g.csize, |f.chain|);
    FileSectorIs(g, f.chain, p / SS);
    FileSectorInDisk(g, disk, f, p / SS);
    SectorBelow(g, f.chain, p / SS);
    ClustersTileDataArea(g, f.chain[p / SS / g.csize], f.chain[p / SS / g.csize], 0, 0);
    ClusterOfSector(g, f.chain[p / SS / g.csize], 0);
  }

  lemma SectorBelow(g: Geometry, chain: seq<u32>, j: nat)
    requires ChainFits(g, chain) && j < Span(g, chain)
    ensures FileSector(g, chain, j) < ALL_ONES
  {
    FileSectorsDiffer(g, chain, j, j);
  }

  /** Finds the cluster and the sector of byte number p. */
  method FindByTable(fp: Fil, tbl: array<u32>, p: nat, ghost frs: seq<Fragment>) returns (res: FResult, clust: u32, dsc: u32)
    requires fp.Busy() && Maps(tbl[..], frs, fp.chain) && p < fp.objsize
    ensures res == FR_OK && AtCluster(fp.fs.geo, fp.chain, clust, p) && ChainFits(fp.fs.geo, fp.chain)
    ensures p / SS < Span(fp.fs.geo, fp.chain) && dsc == FileSector(fp.fs.geo, fp.chain, p / SS)
  {
    hide FatFs.Mounted, Table, FatFs.Map, Core, IsChain, FileSector, ChainFits, Span, AtCluster, Holds, Expand, Geometry.Clst2Sect;
    MapFacts(fp, tbl[..], frs);
    CoreParts(fp.fs.geo, Table(fp.fs), fp.fs.drive.sectors, fp.fs.winsect, fp.St());
    ByteSector(fp.fs.geo, fp.fs.drive.sectors, fp.St(), p);
    clust := ClmtClust(tbl, p, fp.fs.geo.csize, frs);
    ByteCluster(fp.fs.geo, fp.chain, p);
    res, dsc := FR_OK, fp.fs.geo.Clst2Sect(clust);
    if dsc == 0 { return FR_INT_ERR, clust, dsc; }
    dsc := dsc + p / SS % fp.fs.geo.csize;
  }

  lemma ByteCluster(g: Geometry, chain: seq<u32>, p: nat)
    requires g.csize > 0 && p / SS / g.csize < |chain|
    ensures 0 <= p / SS / g.csize < |chain|
  {
  }

  /** The fast branch of f_lseek: the pointer goes to the offset, or to the end of the file; the table takes the place of the walk
      along the FAT, and no cluster is taken. */
  method FastLseek(fp: Fil, tbl: array<u32>, ofs0: u32, ghost frs: seq<Fragment>) returns (res: FResult)
    requires fp.Valid() && Maps(tbl[..], frs, fp.chain)
    modifies fp, fp.buf, fp.fs.drive
    ensures res == FR_OK && fp.Valid() && fp.fptr == Min(ofs0, old(fp.objsize)) && fp.Data() == old(fp.Data())
    ensures fp.chain == old(fp.chain) && fp.objsize == old(fp.objsize) && Table(fp.fs) == old(Table(fp.fs))
    ensures fp.faModified == old(fp.faModified) && Forward(fp.fs.geo, old(fp.W()), fp.W())
  {
    hide FatFs.Mounted, Table, FatFs.Map, Mine, Content, FreeExact, Core, IsChain, Forward, FileSector, ChainFits, Sized, Span, AtCluster, Maps;
    ghost var g, w0, f := fp.fs.geo, fp.W(), fp.St();
    MapFacts(fp, tbl[..], frs);
    CoreParts(g, Table(fp.fs), fp.fs.drive.sectors, fp.fs.winsect, f);
    EmptyFile(g, fp.fs.drive.sectors, f);
    ParkPointer(g, Table(fp.fs), fp.fs.drive.sectors, fp.fs.winsect, f);
    ForwardRefl(g, w0);
    var ofs := if ofs0 > fp.objsize then fp.objsize else ofs0;
    fp.fptr := 0;
    var dsc: u32 := 0;
    if ofs > 0 {
      var clust;
      res, clust, dsc := FindByTable(fp, tbl, ofs - 1, frs);
      if res != FR_OK { return; }
      SetClust(g, Table(fp.fs), fp.fs.drive.sectors, fp.fs.winsect, fp.St(), clust);
      fp.clust := clust;
    }
    ghost var w1 := fp.W();
    res := Settle(fp, ofs, dsc);
    ForwardTrans(g, w0, w1, fp.W());
    assert fp.Data()[..fp.objsize] == fp.Data();
  }

  /** The fast branch of f_read and f_write at a cluster boundary: the table gives what following the FAT from the current cluster
      gives, and 0 behind the end of the chain, where f_write takes it for a full disk. */
  method NextByTable(fp: Fil, tbl: array<u32>, ghost frs: seq<Fragment>) returns (clst: u32)
    requires fp.Valid() && Maps(tbl[..], frs, fp.chain) && 0 < fp.fptr && fp.fs.geo.csize > 0
    requires fp.fptr % SS == 0 && fp.fptr / SS % fp.fs.geo.csize == 0
    ensures fp.clust < |Table(fp.fs)| && clst == if IsCl(Table(fp.fs), Table(fp.fs)[fp.clust]) then Table(fp.fs)[fp.clust] else 0
    ensures fp.fptr < fp.objsize ==> clst != 0
  {
    hide FatFs.Mounted, Table, FatFs.Map, Mine, Content, FreeExact, Core, Holds, Expand, ChainFits, Sized, Span;
    ghost var g, f := fp.fs.geo, fp.St();
    MapFacts(fp, tbl[..], frs);
    CoreParts(g, Table(fp.fs), fp.fs.drive.sectors, fp.fs.winsect, f);
    AtBoundaryOrEnd(g, fp.fs.drive.sectors, f, fp.fptr / SS);
    clst := ClmtClust(tbl, fp.fptr, fp.fs.geo.csize, frs);
    LinkOf(Table(fp.fs), fp.chain, fp.fptr / SS / g.csize - 1);
    if fp.fptr < fp.objsize { ByteSector(g, fp.fs.drive.sectors, f, fp.fptr); }
  }
}
