/** f_lseek and f_truncate. */
module FileSeek {
  import opened Alloc
  import opened Arith
  import opened Bytes
  import opened Chains
  import opened FatTable
  import opened FileIO
  import opened FileModel
  import opened VolumeGeometry
  import opened Window

  /** Dividing by a cluster's bytes is dividing by sectors, then by sectors per cluster. */
  lemma DivDiv(x: nat, k: nat)
    requires k > 0
    ensures k * SS > 0 && x / (k * SS) == x / SS / k
  {
    var q := x / SS / k;
    DivMod(x, SS);
    DivMod(x / SS, k);
    MulLe(SS, x / SS % k, k - 1);
    assert x == k * SS * q + (SS * (x / SS % k) + x % SS);
    ModUnique(x, k * SS, q, SS * (x / SS % k) + x % SS);
  }

  /** Position rem bytes into cluster number idx of a file. */
  lemma InCluster(idx: nat, rem: nat, k: nat)
    requires 0 < rem <= k * SS && k > 0
    ensures 0 <= SS * (k * idx) && (SS * (k * idx) + rem - 1) / SS / k == idx
    ensures rem % SS != 0 ==> rem / SS < k && (SS * (k * idx) + rem) / SS == k * idx + rem / SS
  {
    MulLe(k, 0, idx);
    var r := rem - 1;
    ModUnique(SS * (k * idx) + r, SS, k * idx + r / SS, r % SS);
    assert r / SS < k;
    ModUnique(k * idx + r / SS, k, idx, r / SS);
    if rem % SS != 0 {
      ModUnique(SS * (k * idx) + rem, SS, k * idx + rem / SS, rem % SS);
    }
  }

  /** A bigger size shows more bytes, the old ones unchanged. */
  lemma ExtendStep(g: Geometry, fat: FatSeq, disk: seq<Sector>, w: int, f: FilState, size: u32)
    requires Core(g, fat, disk, w, f) && f.objsize <= size <= SS * Span(g, f.chain)
    ensures var f2 := f.(objsize := size);
            Core(g, fat, disk, w, f2) && Content(g, disk, f2)[..f.objsize] == Content(g, disk, f)
  {
    hide ChainFits, FileSector, Mine;
  }

  /** The next cluster of a walk that has reached byte pos, the start of cluster idx + 1, with rem bytes to go:
      a file open for writing is stretched, and 0 means that the disk is full. */
  method NextForSeek(fp: Fil, clst0: u32, ghost idx: nat, ghost pos: nat, ghost rem: nat) returns (clst: u32)
    requires fp.Busy() && fp.fptr == 0 && 0 < rem && pos == SS * (fp.fs.geo.csize * (idx + 1))
    requires idx < |fp.chain| && clst0 == fp.chain[idx] && clst0 != 0 && (!fp.faWrite ==> pos + rem <= fp.objsize)
    modifies fp`chain, fp`sclust, fp.fs, fp.fs.drive, fp.fs.win
    ensures fp.Busy() && fp.Data() == old(fp.Data()) && Forward(fp.fs.geo, old(fp.W()), fp.W())
    ensures fp.St() == old(fp.St()).(chain := fp.chain, sclust := fp.sclust)
    ensures clst == 0 ==> fp.faWrite && fp.chain == old(fp.chain) && idx + 1 == |fp.chain| && NoFree(Table(fp.fs))
    ensures clst != 0 ==> idx + 1 < |fp.chain| && clst == fp.chain[idx + 1] && fp.fs.geo.IsCluster(clst) && clst != ALL_ONES
    ensures clst != 0 ==> |fp.chain| == Max(|old(fp.chain)|, idx + 2)
    ensures fp.chain[idx] == clst0
    ensures clst == 0 ==> pos + rem > fp.objsize
  {
    hide FatFs.Mounted, Table, FatFs.Map, Mine, Content, FreeExact, Core, IsChain, Forward, NoFree, Sized, Span;
    ghost var g := fp.fs.geo;
    CoreParts(g, Table(fp.fs), fp.fs.drive.sectors, fp.fs.winsect, fp.St());
    if fp.faWrite {
      if idx + 1 == |fp.chain| { SizeInSpan(g, fp.fs.drive.sectors, fp.St(), idx, pos); }
      clst := StretchChain(fp, clst0, idx);
    } else {
      InFileHasNext(g, fp.fs.drive.sectors, fp.St(), idx, pos, rem);
      LinkOf(Table(fp.fs), fp.chain, idx);
      clst := NextCluster(fp, clst0);
    }
  }

  lemma SizeInSpan(g: Geometry, disk: seq<Sector>, f: FilState, idx: nat, pos: nat)
    requires Sized(g, disk, f) && idx + 1 == |f.chain| && pos == SS * (g.csize * (idx + 1))
    ensures f.objsize <= pos
  {
  }

  /** One step of the walk: the next cluster becomes the current one; clst is 0 if there is none and the disk is full. */
  method WalkOn(fp: Fil, clst0: u32, ghost idx: nat, ghost pos: nat, ghost rem: nat) returns (res: FResult, clst: u32)
    requires fp.Busy() && fp.fptr == 0 && 0 < rem && pos == SS * (fp.fs.geo.csize * (idx + 1))
    requires idx < |fp.chain| && clst0 == fp.chain[idx] == fp.clust && (!fp.faWrite ==> pos + rem <= fp.objsize)
    modifies fp`clust, fp`chain, fp`sclust, fp.fs, fp.fs.drive, fp.fs.win
    ensures fp.Busy() && fp.Data() == old(fp.Data()) && Forward(fp.fs.geo, old(fp.W()), fp.W()) && res == FR_OK
    ensures fp.St() == old(fp.St()).(clust := fp.clust, chain := fp.chain, sclust := fp.sclust)
    ensures clst == 0 ==> fp.faWrite && fp.chain == old(fp.chain) && idx + 1 == |fp.chain| && fp.clust == clst0 && NoFree(Table(fp.fs))
    ensures clst == 0 ==> pos + rem > fp.objsize
    ensures clst != 0 ==> idx + 1 < |fp.chain| == Max(|old(fp.chain)|, idx + 2) && fp.clust == clst == fp.chain[idx + 1]
  {
    hide FatFs.Mounted, Table, FatFs.Map, Mine, Content, FreeExact, Core, IsChain, Forward, NoFree, Sized, Span;
    ghost var g := fp.fs.geo;
    CoreParts(g, Table(fp.fs), fp.fs.drive.sectors, fp.fs.winsect, fp.St());
    ClusterNonZero(g, fp.fs.drive.sectors, fp.St(), idx);
    res := FR_OK;
    clst := NextForSeek(fp, clst0, idx, pos, rem);
    if clst == 0 { return; }
    if clst == ALL_ONES { res := FR_DISK_ERR; return; }
    if clst <= 1 || clst >= fp.fs.geo.nFatent { res := FR_INT_ERR; return; }
    SetClust(g, Table(fp.fs), fp.fs.drive.sectors, fp.fs.winsect, fp.St(), clst);
    fp.clust := clst;
  }

  /** The chain walk of f_lseek: from cluster number idx on, rem bytes to go. */
  method WalkTo(fp: Fil, ghost idx0: nat, pos0: u32, rem0: u32, bcs: nat) returns (res: FResult, pos: u32, rem: u32)
    requires fp.Busy() && fp.fptr == 0 && 0 < rem0 && pos0 + rem0 <= ALL_ONES
    requires bcs == fp.fs.geo.csize * SS && fp.fs.geo.csize > 0
    requires idx0 < |fp.chain| && fp.clust == fp.chain[idx0] && pos0 == SS * (fp.fs.geo.csize * idx0)
    requires !fp.faWrite ==> pos0 + rem0 <= fp.objsize
    modifies fp`clust, fp`chain, fp`sclust, fp.fs, fp.fs.drive, fp.fs.win
    ensures res == FR_OK && fp.Busy() && fp.Data() == old(fp.Data()) && Forward(fp.fs.geo, old(fp.W()), fp.W())
    ensures fp.St() == old(fp.St()).(clust := fp.clust, chain := fp.chain, sclust := fp.sclust)
    ensures pos + rem <= pos0 + rem0
    ensures Arrived(fp.fs.geo, fp.chain, fp.clust, pos, rem)
    ensures idx0 < ClustersFor(fp.fs.geo, pos + rem) && |fp.chain| == Max(|old(fp.chain)|, ClustersFor(fp.fs.geo, pos + rem))
    ensures pos + rem == pos0 + rem0 || (rem == 0 && pos == SS * Span(fp.fs.geo, fp.chain) && NoFree(Table(fp.fs)) && pos0 + rem0 > fp.objsize)
  {
    hide FatFs.Mounted, Table, FatFs.Map, Mine, Content, FreeExact, Core, IsChain, Forward, NoFree, Arrived, Sized, Span, ClustersFor;
    ghost var g, w0 := fp.fs.geo, fp.W();
    ForwardRefl(g, w0);
    ghost var idx := idx0;
    var clst := fp.clust;
    pos, rem, res := pos0, rem0, FR_OK;
    while rem > bcs
      invariant fp.Busy() && fp.Data() == old(fp.Data()) && Forward(g, w0, fp.W())
      invariant fp.St() == old(fp.St()).(clust := fp.clust, chain := fp.chain, sclust := fp.sclust)
      invariant pos + rem == pos0 + rem0 && 0 < rem && pos == SS * (g.csize * idx)
      invariant idx0 <= idx < |fp.chain| == Max(|old(fp.chain)|, idx + 1) && fp.clust == clst == fp.chain[idx] && res == FR_OK
    {
      rem := rem - bcs;
      pos := pos + bcs;
      MulStep(g.csize, idx);
      ghost var w1 := fp.W();
      res, clst := WalkOn(fp, clst, idx, pos, rem);
      ForwardTrans(g, w0, w1, fp.W());
      if clst == 0 {
        FullStop(g, fp.St(), idx, pos);
        rem := 0;
        return;
      }
      if res != FR_OK { return; }
      idx := idx + 1;
    }
    ArrivesIn(g, fp.chain, clst, idx, pos, rem);
  }

  lemma ArrivesIn(g: Geometry, chain: seq<u32>, clust: u32, idx: nat, pos: nat, rem: nat)
    requires g.csize > 0 && 0 < rem <= g.csize * SS && idx < |chain| && clust == chain[idx] && pos == SS * (g.csize * idx)
    ensures Arrived(g, chain, clust, pos, rem) && ClustersFor(g, pos + rem) == idx + 1
  {
    InCluster(idx, rem, g.csize);
  }

  /** clust is the cluster of byte number p of the file. */
  ghost predicate AtCluster(g: Geometry, chain: seq<u32>, clust: u32, p: int) {
    g.csize > 0 && p >= 0 && p / SS / g.csize < |chain| && clust == chain[p / SS / g.csize]
  }

  /** The walk has arrived: the current cluster is the one of the byte before pos + rem. */
  ghost predicate Arrived(g: Geometry, chain: seq<u32>, clust: u32, pos: nat, rem: nat) {
    && AtCluster(g, chain, clust, pos + rem - 1) && pos % SS == 0
    && (rem % SS != 0 ==> rem / SS < g.csize)
    && (rem % SS != 0 ==> (pos + rem) / SS == g.csize * ((pos + rem - 1) / SS / g.csize) + rem / SS)
  }

  lemma FullStop(g: Geometry, f: FilState, idx: nat, pos: nat)
    requires idx + 1 == |f.chain| && g.csize > 0 && pos == SS * (g.csize * (idx + 1)) && f.clust == f.chain[idx]
    ensures Arrived(g, f.chain, f.clust, pos, 0) && pos == SS * Span(g, f.chain) && ClustersFor(g, pos) == |f.chain|
  {
    MulStep(g.csize, idx);
    MulLe(g.csize, 1, g.csize);
    InCluster(idx, g.csize * SS, g.csize);
  }

  /** Inside the file there is a next cluster. */
  lemma InFileHasNext(g: Geometry, disk: seq<Sector>, f: FilState, idx: nat, pos: nat, rem: nat)
    requires Sized(g, disk, f) && idx < |f.chain| && pos == SS * (g.csize * (idx + 1)) && 0 < rem && pos + rem <= f.objsize
    ensures idx + 1 < |f.chain|
  {
    if idx + 1 >= |f.chain| {
      MulLe(g.csize, |f.chain|, idx + 1);
    }
  }

  /** While an operation moves the pointer it stands at 0. */
  lemma ParkPointer(g: Geometry, fat: FatSeq, disk: seq<Sector>, w: int, f: FilState)
    requires Core(g, fat, disk, w, f)
    ensures Core(g, fat, disk, w, f.(fptr := 0)) && Content(g, disk, f.(fptr := 0)) == Content(g, disk, f)
  {
    hide ChainFits, FileSector, Mine;
    SameContent(g, disk, f, disk, f.(fptr := 0));
  }

  /** Where f_lseek begins its walk to offset ofs > 0, coming from ifptr: at the current cluster when going
      forward, else at the first one, which is made if the file has none. clst is 0 if that failed. */
  method StartWalk(fp: Fil, ifptr: u32, ofs: u32, bcs: nat) returns (clst: u32, pos: u32, ghost idx: nat)
    requires fp.Busy() && fp.fptr == 0 && 0 < ofs && bcs == fp.fs.geo.csize * SS && fp.fs.geo.csize > 0
    requires ifptr > 0 ==> AtCluster(fp.fs.geo, fp.chain, fp.clust, ifptr - 1)
    modifies fp`clust, fp`chain, fp`sclust, fp.fs, fp.fs.drive, fp.fs.win
    ensures fp.Busy() && fp.Data() == old(fp.Data()) && Forward(fp.fs.geo, old(fp.W()), fp.W())
    ensures fp.St() == old(fp.St()).(clust := fp.clust, chain := fp.chain, sclust := fp.sclust)
    ensures clst == 0 ==> fp.chain == old(fp.chain) == [] && NoFree(Table(fp.fs))
    ensures clst != 0 ==> idx < |fp.chain| && fp.clust == fp.chain[idx] && pos == SS * (fp.fs.geo.csize * idx) && pos < ofs
    ensures clst != 0 ==> |fp.chain| == Max(|old(fp.chain)|, idx + 1)
  {
    hide FatFs.Mounted, Table, FatFs.Map, Mine, Content, FreeExact, Core, IsChain, Forward, NoFree;
    ghost var g := fp.fs.geo;
    CoreParts(g, Table(fp.fs), fp.fs.drive.sectors, fp.fs.winsect, fp.St());
    ForwardRefl(g, fp.W());
    idx := 0;
    if ifptr > 0 { DivDiv(ifptr - 1, g.csize); }
    DivDiv(ofs - 1, g.csize);
    if ifptr > 0 && (ofs - 1) / bcs >= (ifptr - 1) / bcs {
      idx := (ifptr - 1) / bcs;
      BackToCluster(ifptr - 1, ofs - 1, g.csize);
      pos := (ifptr - 1) / bcs * bcs;
      clst := fp.clust;
      ClusterNonZero(g, fp.fs.drive.sectors, fp.St(), idx);
    } else {
      pos := 0;
      clst := fp.sclust;
      if clst == 0 {
        clst := StretchChain(fp, 0, -1);
      }
      SetClust(g, Table(fp.fs), fp.fs.drive.sectors, fp.fs.winsect, fp.St(), clst);
      fp.clust := clst;
    }
  }

  lemma BackToCluster(a: nat, b: nat, k: nat)
    requires k > 0 && b / (k * SS) >= a / (k * SS)
    ensures 0 <= a / (k * SS) && a / (k * SS) * (k * SS) == SS * (k * (a / (k * SS))) <= a && a / (k * SS) * (k * SS) <= b
  {
    var q := a / (k * SS);
    DivMod(a, k * SS);
    DivMod(b, k * SS);
    MulLe(k * SS, q, b / (k * SS));
  }

  /** The sector that holds the byte at the pointer after the walk. */
  lemma SeekSector(g: Geometry, f: FilState, pos: nat, rem: nat)
    requires ChainFits(g, f.chain) && Arrived(g, f.chain, f.clust, pos, rem) && rem % SS != 0
    ensures (pos + rem) / SS < Span(g, f.chain)
    ensures g.Clst2Sect(f.clust) + rem / SS == FileSector(g, f.chain, (pos + rem) / SS)
    ensures 0 < g.Clst2Sect(f.clust) + rem / SS < ALL_ONES && g.Clst2Sect(f.clust) != 0
  {
    var j, idx := (pos + rem) / SS, (pos + rem - 1) / SS / g.csize;
    ModUnique(j, g.csize, idx, rem / SS);
    InSpan(j, g.csize, |f.chain|);
    FileSectorIs(g, f.chain, j);
    ClusterOfSector(g, f.clust, rem / SS);
    ClustersTileDataArea(g, f.clust, f.clust, 0, 0);
  }

  /** The allocated space covers the place the walk arrived at. */
  lemma ArrivedInSpan(g: Geometry, chain: seq<u32>, clust: u32, pos: nat, rem: nat)
    requires Arrived(g, chain, clust, pos, rem)
    ensures pos + rem <= SS * Span(g, chain) && AtCluster(g, chain, clust, pos + rem - 1)
    ensures rem % SS == 0 <==> (pos + rem) % SS == 0
  {
    InSpan((pos + rem - 1) / SS, g.csize, |chain|);
  }

  /** The end of f_lseek: the size follows the pointer, and the buffer is filled if the pointer is inside a sector. */
  method Settle(fp: Fil, pos: u32, nsect: u32) returns (res: FResult)
    requires fp.Busy() && fp.fptr == 0 && pos <= SS * Span(fp.fs.geo, fp.chain)
    requires pos > 0 ==> AtCluster(fp.fs.geo, fp.chain, fp.clust, pos - 1)
    requires pos % SS != 0 ==> pos / SS < Span(fp.fs.geo, fp.chain) && nsect == FileSector(fp.fs.geo, fp.chain, pos / SS)
    requires fp.fs.geo.csize > 0
    modifies fp`fptr, fp`objsize, fp`faModified, fp`faDirty, fp`sect, fp.buf, fp.fs.drive
    ensures res == FR_OK && fp.Valid() && fp.fptr == pos && fp.chain == old(fp.chain) && Table(fp.fs) == old(Table(fp.fs))
    ensures fp.objsize == if pos > old(fp.objsize) then pos else old(fp.objsize)
    ensures fp.Data()[..old(fp.objsize)] == old(fp.Data())
    ensures fp.faModified == (old(fp.faModified) || pos > old(fp.objsize))
    ensures Forward(fp.fs.geo, old(fp.W()), fp.W())
  {
    hide FatFs.Mounted, Table, FatFs.Map, Mine, Content, FreeExact, Core, IsChain, Forward, FileSector, ChainFits;
    ghost var g, w0 := fp.fs.geo, fp.W();
    ghost var d0 := fp.Data();
    ForwardRefl(g, w0);
    assert d0[..fp.objsize] == d0;
    if pos > fp.objsize {
      CoreParts(g, Table(fp.fs), fp.fs.drive.sectors, fp.fs.winsect, fp.St());
      ExtendStep(g, Table(fp.fs), fp.fs.drive.sectors, fp.fs.winsect, fp.St(), pos);
      fp.objsize := pos;
      fp.faModified := true;
    }
    if pos % SS != 0 && nsect != fp.sect {
      res := FlushBuffer(fp);
      if res != FR_OK { return; }
      LoadAt(fp, nsect, pos / SS);
    }
    PlacePointer(g, Table(fp.fs), fp.fs.drive.sectors, fp.fs.winsect, fp.St(), pos);
    fp.fptr := pos;
    res := FR_OK;
  }

  /** Fills the clean buffer from sector j of the file. */
  method LoadAt(fp: Fil, nsect: u32, ghost j: nat)
    requires fp.Busy() && fp.fptr == 0 && !fp.faDirty && j < Span(fp.fs.geo, fp.chain) && nsect == FileSector(fp.fs.geo, fp.chain, j)
    modifies fp`sect, fp.buf
    ensures fp.Busy() && fp.St() == old(fp.St()).(sect := nsect, buf := fp.buf[..])
    ensures fp.Data() == old(fp.Data())
  {
    hide FatFs.Mounted, Table, FatFs.Map, Mine, Content, FreeExact, Core, IsChain, FileSector, ChainFits;
    ghost var g, f, disk := fp.fs.geo, fp.St(), fp.fs.drive.sectors;
    CoreParts(g, Table(fp.fs), disk, fp.fs.winsect, f);
    FileSectorInDisk(g, disk, f, j);
    LoadStep(g, Table(fp.fs), disk, fp.fs.winsect, f, j);
    var r := fp.fs.drive.Read(fp.buf, 0, nsect, 1);
    assert fp.buf[..] == disk[nsect];
    fp.sect := nsect;
  }

  lemma PlacePointer(g: Geometry, fat: FatSeq, disk: seq<Sector>, w: int, f: FilState, pos: u32)
    requires Core(g, fat, disk, w, f) && pos <= f.objsize && g.csize > 0
    requires pos > 0 ==> AtCluster(g, f.chain, f.clust, pos - 1)
    requires pos % SS != 0 ==> pos / SS < Span(g, f.chain) && f.sect == FileSector(g, f.chain, pos / SS)
    ensures Inv(g, fat, disk, w, f.(fptr := pos)) && Content(g, disk, f.(fptr := pos)) == Content(g, disk, f)
  {
    hide ChainFits, FileSector, Mine, Content;
    SameContent(g, disk, f, disk, f.(fptr := pos));
  }

  /** The offset f_lseek aims for: without write access it is clipped to the file size. */
  function SeekTarget(faWrite: bool, objsize: u32, ofs: u32): u32 {
    if ofs > objsize && !faWrite then objsize else ofs
  }

  /** The whole walk of f_lseek to offset ofs > 0: the new pointer, and the sector it is in if it is inside one. */
  method SeekWalk(fp: Fil, ifptr: u32, ofs: u32) returns (res: FResult, pos: u32, nsect: u32)
    requires fp.Busy() && fp.fptr == 0 && 0 < ofs && (!fp.faWrite ==> ofs <= fp.objsize)
    requires ifptr > 0 ==> AtCluster(fp.fs.geo, fp.chain, fp.clust, ifptr - 1)
    modifies fp`clust, fp`chain, fp`sclust, fp.fs, fp.fs.drive, fp.fs.win
    ensures res == FR_OK && fp.Busy() && fp.Data() == old(fp.Data()) && Forward(fp.fs.geo, old(fp.W()), fp.W())
    ensures fp.St() == old(fp.St()).(clust := fp.clust, chain := fp.chain, sclust := fp.sclust)
    ensures pos <= SS * Span(fp.fs.geo, fp.chain) && (pos > 0 ==> AtCluster(fp.fs.geo, fp.chain, fp.clust, pos - 1))
    ensures ChainFits(fp.fs.geo, fp.chain)
    ensures pos % SS != 0 ==> pos / SS < Span(fp.fs.geo, fp.chain) && nsect == FileSector(fp.fs.geo, fp.chain, pos / SS)
    ensures fp.fs.geo.csize > 0 && |fp.chain| == Max(|old(fp.chain)|, ClustersFor(fp.fs.geo, pos))
    ensures pos == ofs || (fp.objsize < ofs && pos == SS * Span(fp.fs.geo, fp.chain) < ofs && NoFree(Table(fp.fs)))
  {
    hide FatFs.Mounted, Table, FatFs.Map, Mine, Content, FreeExact, Core, IsChain, Forward, NoFree, FileSector, ChainFits, Arrived, AtCluster, Geometry.Clst2Sect, Sized, ClustersFor;
    ghost var g, w0 := fp.fs.geo, fp.W();
    BelowCsize(fp.fs, 0);
    NoneFor(g);
    CoreParts(g, Table(fp.fs), fp.fs.drive.sectors, fp.fs.winsect, fp.St());
    EmptyFile(g, fp.fs.drive.sectors, fp.St());
    res, nsect := FR_OK, 0;
    var bcs := fp.fs.geo.csize * SS;
    var clst; ghost var idx;
    clst, pos, idx := StartWalk(fp, ifptr, ofs, bcs);
    if clst == 0 {
      pos := 0;
      return;
    }
    var rem;
    ghost var w2 := fp.W();
    res, pos, rem := WalkTo(fp, idx, pos, ofs - pos, bcs);
    ForwardTrans(g, w0, w2, fp.W());
    CoreParts(g, Table(fp.fs), fp.fs.drive.sectors, fp.fs.winsect, fp.St());
    EmptyFile(g, fp.fs.drive.sectors, fp.St());
    ArrivedInSpan(g, fp.chain, fp.clust, pos, rem);
    if rem % SS != 0 {
      SeekSector(g, fp.St(), pos, rem);
      var top := fp.fs.geo.Clst2Sect(fp.clust);
      nsect := top + rem / SS;
    }
    pos := pos + rem;
  }

  lemma NoneFor(g: Geometry)
    requires g.csize > 0
    ensures ClustersFor(g, 0) == 0
  {
  }

  /** f_lseek: the pointer goes to the target, or as far as there is room; the file grows to the pointer if need be, and no
      byte of it changes. It takes the clusters that are needed up to the pointer, and no others. */
  method FLseek(fp: Fil, ofs0: u32) returns (res: FResult)
    requires fp.Valid()
    modifies fp, fp.buf, fp.fs, fp.fs.drive, fp.fs.win
    ensures res == FR_OK && fp.Valid() && Forward(fp.fs.geo, old(fp.W()), fp.W())
    ensures fp.fptr == Min(SeekTarget(fp.faWrite, old(fp.objsize), ofs0), Capacity(fp.fs.geo, |old(fp.chain)|, old(fp.Free())))
    ensures fp.fs.geo.csize > 0 && |fp.chain| == Max(|old(fp.chain)|, ClustersFor(fp.fs.geo, fp.fptr))
    ensures |fp.chain| + fp.Free() == old(|fp.chain| + fp.Free())
    ensures fp.objsize == if fp.fptr > old(fp.objsize) then fp.fptr else old(fp.objsize)
    ensures fp.Data()[..old(fp.objsize)] == old(fp.Data())
    ensures fp.faModified == (old(fp.faModified) || fp.objsize > old(fp.objsize))
  {
    hide FatFs.Mounted, Table, FatFs.Map, Mine, Content, FreeExact, Core, IsChain, Forward, NoFree, FileSector, ChainFits, Sized, Span, ClustersFor, Capacity, Fil.Free;
    ghost var g, w0 := fp.fs.geo, fp.W();
    ghost var clusters, free := |fp.chain|, fp.Free();
    Account(fp);
    ForwardRefl(g, w0);
    BelowCsize(fp.fs, 0);
    var ofs := ofs0;
    if ofs > fp.objsize && !fp.faWrite { ofs := fp.objsize; }
    var pos;
    res, pos := MovePointer(fp, ofs);
    Balance(fp, w0);
    Account(fp);
    StopsAt(g, clusters, free, fp.chain, fp.Free(), 0, pos, ofs);
  }

  /** The part of f_lseek behind the choice of the offset. */
  method MovePointer(fp: Fil, ofs: u32) returns (res: FResult, pos: u32)
    requires fp.Valid() && (!fp.faWrite ==> ofs <= fp.objsize)
    modifies fp, fp.buf, fp.fs, fp.fs.drive, fp.fs.win
    ensures res == FR_OK && fp.Valid() && Forward(fp.fs.geo, old(fp.W()), fp.W()) && fp.fptr == pos <= ofs
    ensures pos <= SS * Span(fp.fs.geo, fp.chain) && (pos < ofs ==> pos == SS * Span(fp.fs.geo, fp.chain) && NoFree(Table(fp.fs)))
    ensures fp.fs.geo.csize > 0 && |fp.chain| == Max(|old(fp.chain)|, ClustersFor(fp.fs.geo, fp.fptr))
    ensures fp.objsize == if fp.fptr > old(fp.objsize) then fp.fptr else old(fp.objsize)
    ensures fp.Data()[..old(fp.objsize)] == old(fp.Data())
    ensures fp.faModified == (old(fp.faModified) || fp.objsize > old(fp.objsize))
  {
    hide FatFs.Mounted, Table, FatFs.Map, Mine, Content, FreeExact, Core, IsChain, Forward, NoFree, FileSector, ChainFits, Sized, Span, ClustersFor;
    ghost var g, w0 := fp.fs.geo, fp.W();
    ForwardRefl(g, w0);
    BelowCsize(fp.fs, 0);
    NoneFor(g);
    var ifptr, nsect := fp.fptr, 0;
    res, pos := FR_OK, 0;
    CoreParts(g, Table(fp.fs), fp.fs.drive.sectors, fp.fs.winsect, fp.St());
    EmptyFile(g, fp.fs.drive.sectors, fp.St());
    ParkPointer(g, Table(fp.fs), fp.fs.drive.sectors, fp.fs.winsect, fp.St());
    fp.fptr := 0;
    if ofs > 0 {
      ghost var w1 := fp.W();
      res, pos, nsect := SeekWalk(fp, ifptr, ofs);
      ForwardTrans(g, w0, w1, fp.W());
    }
    if res != FR_OK { return; }
    ghost var w3 := fp.W();
    res := Settle(fp, pos, nsect);
    ForwardTrans(g, w0, w3, fp.W());
  }

  lemma EmptyFile(g: Geometry, disk: seq<Sector>, f: FilState)
    requires Sized(g, disk, f)
    ensures ChainFits(g, f.chain) && f.objsize <= SS * Span(g, f.chain) && 0 <= Span(g, f.chain)
    ensures f.chain == [] ==> f.objsize == 0 && Span(g, f.chain) == 0
  {
  }
}
