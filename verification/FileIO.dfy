/** f_read, f_write, f_lseek and f_truncate on one open file. */
module FileIO {
  import opened Alloc
  import opened Arith
  import opened Bytes
  import opened Chains
  import opened DriveModel
  import opened FatTable
  import opened FileModel
  import opened VolumeGeometry
  import opened Window

  /** What an operation on a file may change, and what it must not: the FAT, the file's clusters, the
      logical sectors and the disk. */
  datatype World = World(fat: FatSeq, chain: seq<u32>, sects: seq<Sector>, disk: seq<Sector>, winsect: int)

  /** Clusters of this file and free clusters. */
  ghost predicate Own(w: World, c: int) {
    IsCl(w.fat, c) && (w.fat[c] == 0 || c in w.chain)
  }

  /** From a to b only this file's clusters and free ones are touched: FAT entries of all other clusters, and
      all logical sectors outside the FAT and outside those clusters, are as before; equal FAT copies stay equal, and the window
      does not go to data sectors. */
  ghost predicate Confined(g: Geometry, a: World, b: World) {
    && |b.fat| == |a.fat| && |b.sects| == |a.sects|
    && (forall c :: Own(b, c) <==> Own(a, c))
    && (forall c | IsCl(a.fat, c) && !Own(a, c) :: b.fat[c] == a.fat[c])
    && (forall s | 0 <= s < |a.sects| && !g.InFirstFat(s) && !g.InSecondFat(s) && !MySector(g, a, s) :: b.sects[s] == a.sects[s])
    && (Mirrored(g, a.disk) ==> Mirrored(g, b.disk))
    && (b.winsect == a.winsect || !g.DataSector(b.winsect))
  }

  /** Sector s is one of these clusters'. */
  ghost predicate Within(g: Geometry, chain: seq<u32>, s: int) {
    g.csize > 0 && g.DataSector(s) && g.ClusterOf(s) in chain
  }

  /** Data sectors of clusters that the file has neither before nor afterwards are as before. */
  ghost predicate Spares(g: Geometry, a: World, b: World) {
    |b.sects| == |a.sects| &&
    forall s | 0 <= s < |a.sects| && g.DataSector(s) && !Within(g, a.chain, s) && !Within(g, b.chain, s) :: b.sects[s] == a.sects[s]
  }

  /** A step that takes clusters for the file's end, if any, and writes to its own clusters only. */
  ghost predicate Forward(g: Geometry, a: World, b: World) {
    Confined(g, a, b) && a.chain <= b.chain && Spares(g, a, b)
  }

  ghost predicate MySector(g: Geometry, w: World, s: int) {
    Mine(g, w.fat, w.chain, s)
  }

  lemma ConfinedRefl(g: Geometry, a: World)
    ensures Confined(g, a, a)
  {
  }

  lemma ConfinedTrans(g: Geometry, a: World, b: World, c: World)
    requires Confined(g, a, b) && Confined(g, b, c)
    ensures Confined(g, a, c)
  {
    hide Mirrored;
    SameMySectors(g, a, b);
    forall d | IsCl(a.fat, d) && !Own(a, d) ensures c.fat[d] == a.fat[d] {
      assert !Own(b, d);
    }
  }

  /** A chain has changed together with its FAT, and only free clusters and its own have. */
  ghost predicate OwnFat(fat: FatSeq, chain: seq<u32>, fat2: FatSeq, chain2: seq<u32>) {
    && |fat2| == |fat|
    && (forall c | IsCl(fat, c) :: (fat2[c] == 0 || c in chain2) <==> (fat[c] == 0 || c in chain))
    && forall c | IsCl(fat, c) && fat[c] != 0 && c !in chain :: fat2[c] == fat[c]
  }

  lemma OwnFatGrown(fat: FatSeq, fat2: FatSeq, chain: seq<u32>, r: u32, eoc: u32)
    requires chain != [] ==> IsChain(fat, chain)
    requires IsCl(fat, r) && fat[r] == 0 && eoc >= |fat|
    requires fat2 == if chain == [] then Created(fat, r, eoc) else Appended(fat, chain[|chain| - 1], r, eoc)
    ensures OwnFat(fat, chain, fat2, chain + [r]) && chain <= chain + [r]
  {
    GrownChain(fat, fat2, chain, r, eoc);
  }

  lemma OwnFatSame(fat: FatSeq, chain: seq<u32>)
    ensures OwnFat(fat, chain, fat, chain)
  {
  }

  /** A step on the FAT alone is confined if it keeps to clusters of this file and free ones. */
  lemma ConfinedByFat(g: Geometry, a: World, b: World, s: Snapshot, t: Snapshot)
    requires FatOnly(g, s, t) && a.sects == s.sects && a.disk == s.disk && b.sects == t.sects && b.disk == t.disk
    requires a.winsect == s.winsect && b.winsect == t.winsect
    requires OwnFat(a.fat, a.chain, b.fat, b.chain)
    ensures Confined(g, a, b) && Spares(g, a, b)
  {
    FitsFacts(g, s.sects);
    hide Fits, ReservedKept;
  }

  lemma FitsFacts(g: Geometry, m: seq<Sector>)
    requires Fits(g, m)
    ensures g.EndOfFats() <= g.database
  {
  }

  lemma ForwardRefl(g: Geometry, a: World)
    ensures Forward(g, a, a)
  {
  }

  lemma ForwardTrans(g: Geometry, a: World, b: World, c: World)
    requires Forward(g, a, b) && Forward(g, b, c)
    ensures Forward(g, a, c)
  {
    ConfinedTrans(g, a, b, c);
    hide Confined;
    SparesTrans(g, a, b, c);
  }

  lemma SparesTrans(g: Geometry, a: World, b: World, c: World)
    requires Spares(g, a, b) && Spares(g, b, c) && ((a.chain <= b.chain && b.chain <= c.chain) || (c.chain <= b.chain && b.chain <= a.chain))
    ensures Spares(g, a, c)
  {
    hide Geometry.DataSector, Geometry.ClusterOf;
  }

  lemma ForwardByFat(g: Geometry, a: World, b: World, s: Snapshot, t: Snapshot)
    requires FatOnly(g, s, t) && a.sects == s.sects && a.disk == s.disk && b.sects == t.sects && b.disk == t.disk
    requires a.winsect == s.winsect && b.winsect == t.winsect
    requires OwnFat(a.fat, a.chain, b.fat, b.chain) && a.chain <= b.chain
    ensures Forward(g, a, b)
  {
    hide FatOnly, Confined, Spares;
    ConfinedByFat(g, a, b, s, t);
  }

  lemma ForwardWrite(g: Geometry, a: World, b: World, sect: int, count: nat)
    requires Confined(g, a, b) && b.chain == a.chain
    requires forall s | sect <= s < sect + count :: Within(g, a.chain, s)
    requires forall s | 0 <= s < |a.sects| && !(sect <= s < sect + count) :: b.sects[s] == a.sects[s]
    ensures Forward(g, a, b)
  {
    assert |b.sects| == |a.sects|;
    hide Confined, Geometry.DataSector, Geometry.ClusterOf;
  }

  lemma SameMySectors(g: Geometry, a: World, b: World)
    requires Confined(g, a, b)
    ensures forall s :: MySector(g, a, s) <==> MySector(g, b, s)
  {
    forall s ensures MySector(g, a, s) <==> MySector(g, b, s) {
      if g.csize > 0 {
        assert Own(a, g.ClusterOf(s)) <==> Own(b, g.ClusterOf(s));
      }
    }
  }

  /** Clusters change hands between the file and the free ones only. */
  lemma Kept(g: Geometry, a: World, b: World)
    requires Confined(g, a, b) && (a.chain != [] ==> IsChain(a.fat, a.chain)) && (b.chain != [] ==> IsChain(b.fat, b.chain))
    ensures CountFree(b.fat) + |b.chain| == CountFree(a.fat) + |a.chain|
  {
    hide IsChain, Mirrored;
    forall c | IsCl(a.fat, c) ensures (b.fat[c] == 0 || c in b.chain) <==> (a.fat[c] == 0 || c in a.chain) {
      assert Own(b, c) <==> Own(a, c);
    }
    Conserved(a.fat, a.chain, b.fat, b.chain);
  }

  class Fil {
    const fs: FatFs
    const buf: array<byte>
    const faRead: bool
    const faWrite: bool
    var sclust: u32
    var objsize: u32
    var fptr: u32
    var clust: u32
    var sect: u32
    var faDirty: bool
    var faModified: bool
    ghost var chain: seq<u32>

    /** The file object as f_open leaves it: pointer at 0, nothing in the buffer. */
    constructor (fs: FatFs, faRead: bool, faWrite: bool, sclust: u32, objsize: u32, ghost chain: seq<u32>)
      requires fs.Mounted() && FreeExact(fs) && 1 !in Table(fs)
      requires chain == [] <==> sclust == 0
      requires chain != [] ==> IsChain(Table(fs), chain) && chain[0] == sclust
      requires objsize <= SS * Span(fs.geo, chain) && !Mine(fs.geo, Table(fs), chain, fs.winsect)
      ensures this.fs == fs && this.faRead == faRead && this.faWrite == faWrite && fresh(buf)
      ensures fptr == 0 && !faDirty && this.objsize == objsize && this.chain == chain && Valid()
    {
      this.fs, this.faRead, this.faWrite := fs, faRead, faWrite;
      this.sclust, this.objsize, this.chain := sclust, objsize, chain;
      fptr, clust, sect, faDirty, faModified := 0, 0, 0, false, false;
      buf := new byte[SS](_ => 0);
      new;
      hide FatFs.Mounted, Table, FatFs.Map, Mine, FreeExact;
      if chain != [] {
        ChainDistinct(Table(fs), chain);
      }
    }

    ghost function St(): FilState
      requires buf.Length == SS
      reads this, buf
    {
      FilState(sclust, objsize, fptr, clust, sect, faDirty, buf[..], chain)
    }

    /** The volume and the buffer are usable; no FAT entry has the reserved value 1. */
    ghost predicate Ready()
      reads fs`winsect, fs`wflag, fs`freeClst, fs.drive, fs.win
    {
      buf.Length == SS && buf != fs.win && fs.Mounted() && FreeExact(fs) && 1 !in Table(fs)
    }

    /** The state inside a transfer. */
    ghost predicate Busy()
      reads this, buf, fs`winsect, fs`wflag, fs`freeClst, fs.drive, fs.win
    {
      Ready() && Core(fs.geo, Table(fs), fs.drive.sectors, fs.winsect, St())
    }

    /** The state between operations. */
    ghost predicate Valid()
      reads this, buf, fs`winsect, fs`wflag, fs`freeClst, fs.drive, fs.win
    {
      Busy() && Positioned(fs.geo, St())
    }

    /** The bytes of the file. */
    ghost function Data(): (d: seq<byte>)
      requires Busy()
      reads this, buf, fs`winsect, fs`wflag, fs`freeClst, fs.drive, fs.win
      ensures |d| == objsize
    {
      Content(fs.geo, fs.drive.sectors, St())
    }

    /** The free clusters of the volume. */
    ghost function Free(): nat
      requires Ready()
      reads fs`winsect, fs`wflag, fs`freeClst, fs.drive, fs.win
    {
      CountFree(Table(fs))
    }

    ghost function W(): World
      requires Ready()
      reads this`chain, fs`winsect, fs`wflag, fs`freeClst, fs.drive, fs.win
    {
      World(Table(fs), chain, fs.Map(), fs.drive.sectors, fs.winsect)
    }
  }

  lemma FatOfSameSectors(g: Geometry, m: seq<Sector>, m2: seq<Sector>)
    requires Fits(g, m) && |m2| == |m| && forall s | g.InFirstFat(s) :: m2[s] == m[s]
    ensures Fat(g, m2) == Fat(g, m)
  {
    forall c: nat | c < g.nFatent ensures Fat(g, m2)[c] == Fat(g, m)[c] {
      EntryInTable(g, c);
      forall b | 0 <= b < g.fsize * SS ensures FatByte(g, m2, b) == FatByte(g, m, b) {
        assert 0 <= b / SS < g.fsize;
      }
    }
  }

  /** disk_write to data sectors, behind the window's back. */
  method RawWrite(fs: FatFs, data: seq<byte>, sect: u32, count: nat) returns (res: DResult)
    requires fs.Mounted() && |data| == count * SS && 0 < count
    requires fs.geo.database <= sect && sect + count <= fs.geo.EndOfData()
    requires !(sect <= fs.winsect < sect + count)
    modifies fs.drive
    ensures res == RES_OK && fs.Mounted() && Table(fs) == old(Table(fs))
    ensures Transferred(old(fs.drive.sectors), fs.drive.sectors, sect, count, data)
    ensures |fs.Map()| == |old(fs.Map())|
    ensures forall s | 0 <= s < |fs.Map()| && !(sect <= s < sect + count) :: fs.Map()[s] == old(fs.Map())[s]
    ensures old(Mirrored(fs.geo, fs.drive.sectors)) ==> Mirrored(fs.geo, fs.drive.sectors)
  {
    hide Fat;
    ghost var m := fs.Map();
    res := fs.drive.Write(data, sect, count);
    FatOfSameSectors(fs.geo, m, fs.Map());
  }

  /** disk_write to sectors of the file. */
  method DiskWrite(fp: Fil, data: seq<byte>, sect: u32, count: nat) returns (res: DResult)
    requires fp.Ready() && |data| == count * SS && 0 < count
    requires forall s | sect <= s < sect + count :: Mine(fp.fs.geo, Table(fp.fs), fp.chain, s)
    requires !Mine(fp.fs.geo, Table(fp.fs), fp.chain, fp.fs.winsect)
    modifies fp.fs.drive
    ensures res == RES_OK && fp.Ready() && Table(fp.fs) == old(Table(fp.fs))
    ensures Transferred(old(fp.fs.drive.sectors), fp.fs.drive.sectors, sect, count, data)
    ensures Confined(fp.fs.geo, old(fp.W()), fp.W()) && fp.fs.winsect == old(fp.fs.winsect)
    ensures |fp.fs.Map()| == |old(fp.fs.Map())|
    ensures forall s | 0 <= s < |fp.fs.Map()| && !(sect <= s < sect + count) :: fp.fs.Map()[s] == old(fp.fs.Map())[s]
  {
    hide FatFs.Mounted, Table, FatFs.Map, Mirrored;
    assert Mine(fp.fs.geo, Table(fp.fs), fp.chain, sect) && Mine(fp.fs.geo, Table(fp.fs), fp.chain, sect + count - 1);
    MountedValid(fp.fs);
    res := RawWrite(fp.fs, data, sect, count);
  }

  /** disk_write to sectors of the file's clusters. */
  method WriteOwn(fp: Fil, data: seq<byte>, sect: u32, count: nat) returns (res: DResult)
    requires fp.Ready() && |data| == count * SS && 0 < count
    requires forall s | sect <= s < sect + count :: Mine(fp.fs.geo, Table(fp.fs), fp.chain, s) && Within(fp.fs.geo, fp.chain, s)
    requires !Mine(fp.fs.geo, Table(fp.fs), fp.chain, fp.fs.winsect)
    modifies fp.fs.drive
    ensures res == RES_OK && fp.Ready() && Table(fp.fs) == old(Table(fp.fs))
    ensures Transferred(old(fp.fs.drive.sectors), fp.fs.drive.sectors, sect, count, data)
    ensures Forward(fp.fs.geo, old(fp.W()), fp.W())
  {
    hide FatFs.Mounted, Table, FatFs.Map, Mirrored, Mine, FreeExact, Confined, Forward, Within, Transferred;
    ghost var w0 := fp.W();
    res := DiskWrite(fp, data, sect, count);
    ForwardWrite(fp.fs.geo, w0, fp.W(), sect, count);
  }

  /** A dirty buffer holds a sector of the file. */
  lemma DirtyWithin(g: Geometry, fat: FatSeq, disk: seq<Sector>, w: int, f: FilState)
    requires Core(g, fat, disk, w, f) && f.dirty
    ensures Within(g, f.chain, f.sect) && Mine(g, fat, f.chain, f.sect) && !Mine(g, fat, f.chain, w)
  {
    var j: nat :| j < Span(g, f.chain) && f.sect == FileSector(g, f.chain, j);
    SectorWithin(g, f.chain, j);
    FileSectorMine(g, fat, f.chain, j);
    hide Mine, Within, FileSector;
  }

  lemma SectorWithin(g: Geometry, chain: seq<u32>, j: nat)
    requires ChainFits(g, chain) && j < Span(g, chain)
    ensures Within(g, chain, FileSector(g, chain, j))
  {
    FileSectorIs(g, chain, j);
    hide Geometry.Valid, FileSector, Geometry.Clst2Sect;
    ClusterOfSector(g, chain[j / g.csize], j % g.csize);
  }

  /** Write-back of a dirty buffer. */
  method FlushBuffer(fp: Fil) returns (res: FResult)
    requires fp.Busy()
    modifies fp`faDirty, fp.fs.drive
    ensures res == FR_OK && fp.Busy() && fp.St() == old(fp.St()).(dirty := false)
    ensures fp.Data() == old(fp.Data()) && Table(fp.fs) == old(Table(fp.fs))
    ensures Forward(fp.fs.geo, old(fp.W()), fp.W())
  {
    hide FatFs.Mounted, Table, FatFs.Map, Forward, Mine, Within, Content, FreeExact;
    ForwardRefl(fp.fs.geo, fp.W());
    if fp.faDirty {
      ghost var g, fat, disk, f := fp.fs.geo, Table(fp.fs), fp.fs.drive.sectors, fp.St();
      MineRange(g, fat, f.chain, f.sect, disk);
      DirtyWithin(g, fat, disk, fp.fs.winsect, f);
      var r := WriteOwn(fp, fp.buf[..], fp.sect, 1);
      if r != RES_OK { return FR_DISK_ERR; }
      fp.faDirty := false;
      assert Piece(f.buf, 0) == f.buf;
      assert fp.fs.drive.sectors == disk[f.sect := f.buf];
      FlushStep(g, fat, disk, fp.fs.winsect, f, fp.fs.drive.sectors);
    }
    res := FR_OK;
  }

  /** What a step confined to the FAT means for a file: its sectors and the window stay out of each other's way. */
  lemma OutsideFile(g: Geometry, fat: FatSeq, chain: seq<u32>, s: Snapshot, t: Snapshot)
    requires FatOnly(g, s, t) && !Mine(g, fat, chain, s.winsect)
    ensures SameMine(g, fat, chain, s.disk, t.disk) && !Mine(g, fat, chain, t.winsect)
  {
  }

  /** get_fat for a cluster of the file. */
  method NextCluster(fp: Fil, clst: u32) returns (val: u32)
    requires fp.Busy()
    modifies fp.fs`wflag, fp.fs`winsect, fp.fs.drive, fp.fs.win
    ensures fp.Busy() && fp.St() == old(fp.St()) && fp.Data() == old(fp.Data())
    ensures Table(fp.fs) == old(Table(fp.fs)) && Forward(fp.fs.geo, old(fp.W()), fp.W())
    ensures SameMine(fp.fs.geo, Table(fp.fs), fp.chain, old(fp.fs.drive.sectors), fp.fs.drive.sectors)
    ensures !Mine(fp.fs.geo, Table(fp.fs), fp.chain, fp.fs.winsect)
    ensures val == (if fp.fs.geo.IsCluster(clst) then Table(fp.fs)[clst] else 1) && val < ALL_ONES
  {
    hide FatFs.Mounted, Table, FatFs.Map, Mine, Content, Core;
    ghost var g, fat, s, f := fp.fs.geo, Table(fp.fs), Snap(fp.fs), fp.St();
    CoreParts(g, fat, s.disk, s.winsect, f);
    val := GetFat(fp.fs, clst);
    OutsideFile(g, fat, f.chain, s, Snap(fp.fs));
    VolumeStep(g, fat, s.disk, s.winsect, f, fp.fs.drive.sectors, fp.fs.winsect);
  }

  lemma CoreParts(g: Geometry, fat: FatSeq, disk: seq<Sector>, w: int, f: FilState)
    requires Core(g, fat, disk, w, f)
    ensures Sized(g, disk, f) && |fat| == g.nFatent && !Mine(g, fat, f.chain, w)
    ensures f.chain != [] ==> IsChain(fat, f.chain) && f.chain[0] == f.sclust && IsCl(fat, f.sclust)
    ensures f.chain == [] <==> f.sclust == 0
  {
  }

  /** create_chain on the file: from a cluster inside the chain it only moves on; from the last one (or for an
      empty chain) it adds a free cluster, unless there is none. */
  method StretchChain(fp: Fil, clst: u32, ghost i: int) returns (r: u32)
    requires fp.Busy()
    requires if clst == 0 then fp.chain == [] && i == -1 else 0 <= i < |fp.chain| && fp.chain[i] == clst
    modifies fp`chain, fp`sclust, fp.fs, fp.fs.drive, fp.fs.win
    ensures fp.Busy() && fp.Data() == old(fp.Data()) && Forward(fp.fs.geo, old(fp.W()), fp.W())
    ensures i + 1 < |old(fp.chain)| ==> fp.St() == old(fp.St()) && r == fp.chain[i + 1]
    ensures r == 0 ==> i + 1 == |old(fp.chain)| && fp.St() == old(fp.St()) && NoFree(Table(fp.fs))
    ensures i + 1 == |old(fp.chain)| && r != 0 ==> fp.St() == Grown(old(fp.St()), r)
    ensures r != 1 && r != ALL_ONES && (r != 0 ==> fp.fs.geo.IsCluster(r))
  {
    hide FatFs.Mounted, Table, FatFs.Map, Mine, Content, Core, FreeExact, CreateSpec, IsChain, Sized, Forward, FatOnly, OwnFat, Created, Appended, NoFree, Choice;
    OwnFatSame(Table(fp.fs), fp.chain);
    ghost var g, fat, s, f, w0 := fp.fs.geo, Table(fp.fs), Snap(fp.fs), fp.St(), fp.W();
    MountedFacts(fp.fs);
    CoreParts(g, fat, s.disk, s.winsect, f);
    r := CreateChain(fp.fs, clst);
    StretchCases(fat, Table(fp.fs), f.chain, clst, i, r, Eoc(g));
    OutsideFile(g, fat, f.chain, s, Snap(fp.fs));
    if Table(fp.fs) == fat {
      VolumeStep(g, fat, s.disk, s.winsect, f, fp.fs.drive.sectors, fp.fs.winsect);
    } else {
      OwnFatGrown(fat, Table(fp.fs), f.chain, r, Eoc(g));
      GrowStep(g, fat, s.disk, s.winsect, f, Table(fp.fs), fp.fs.drive.sectors, fp.fs.winsect, r, Eoc(g));
      fp.chain := fp.chain + [r];
    }
    ForwardByFat(g, w0, fp.W(), s, Snap(fp.fs));
    if fp.sclust == 0 && r != 0 { fp.sclust := r; }
  }

  /** create_chain called with cluster i of a chain (or with 0 to start one), by cases. */
  lemma StretchCases(fat: FatSeq, fat2: FatSeq, chain: seq<u32>, clst: u32, i: int, r: u32, eoc: u32)
    requires CreateSpec(fat, fat2, clst, r, eoc) && 1 !in fat && |fat| <= eoc
    requires if clst == 0 then chain == [] && i == -1 else 0 <= i < |chain| && chain[i] == clst && IsChain(fat, chain)
    ensures 1 !in fat2 && r != 1 && (r != 0 ==> IsCl(fat, r))
    ensures i + 1 < |chain| ==> fat2 == fat && r == chain[i + 1]
    ensures r == 0 ==> i + 1 == |chain| && fat2 == fat && NoFree(fat)
    ensures i + 1 == |chain| && r != 0 ==> fat2 != fat && fat[r] == 0
    ensures fat2 != fat ==> r != 0 && fat[r] == 0 && i + 1 == |chain|
    ensures fat2 != fat ==> fat2 == if chain == [] then Created(fat, r, eoc) else Appended(fat, chain[|chain| - 1], r, eoc)
  {
    if clst != 0 {
      LinkOf(fat, chain, i);
    }
    if r > 1 && fat2 != fat {
      assert fat2[r] == eoc != fat[r];
    }
  }

  // ---- f_read

  /** Enters the sector at the pointer, moving to the next cluster if need be, and tells its LBA. */
  method EnterSector(fp: Fil, csect: nat) returns (res: FResult, sect: u32)
    requires fp.Valid() && fp.fptr % SS == 0 && fp.fptr < fp.objsize && csect == fp.fptr / SS % fp.fs.geo.csize
    modifies fp`clust, fp.fs`wflag, fp.fs`winsect, fp.fs.drive, fp.fs.win
    ensures fp.Busy() && fp.Data() == old(fp.Data())
    ensures Table(fp.fs) == old(Table(fp.fs)) && Forward(fp.fs.geo, old(fp.W()), fp.W())
    ensures res == FR_OK && fp.St() == old(fp.St()).(clust := fp.clust) && Entered(fp.fs.geo, fp.St(), sect)
  {
    hide FatFs.Mounted, Table, FatFs.Map, Mine, Content, FreeExact, Core, IsChain, Forward, Sized, Geometry.Clst2Sect;
    ghost var g, f, j := fp.fs.geo, fp.St(), fp.fptr / SS;
    CoreParts(g, Table(fp.fs), fp.fs.drive.sectors, fp.fs.winsect, f);
    AtBoundary(g, fp.fs.drive.sectors, f, j);
    ForwardRefl(fp.fs.geo, fp.W());
    res, sect := FR_INT_ERR, 0;
    if csect == 0 {
      var clst;
      if fp.fptr == 0 {
        clst := fp.sclust;
      } else {
        LinkOf(Table(fp.fs), f.chain, j / g.csize - 1);
        clst := NextCluster(fp, fp.clust);
      }
      if clst < 2 { return; }
      if clst == ALL_ONES { return; }
      SetClust(g, Table(fp.fs), fp.fs.drive.sectors, fp.fs.winsect, fp.St(), clst);
      fp.clust := clst;
    }
    var s := fp.fs.geo.Clst2Sect(fp.clust);
    EnteredSector(g, fp.St(), j);
    if s == 0 { return; }
    res, sect := FR_OK, s + csect;
  }

  /** The unsigned test "a - b < n" for sector numbers. */
  lemma InRun(a: u32, b: u32, n: nat)
    requires b + n <= ALL_ONES
    ensures Sub32(a, b) < n <==> b <= a < b + n
    ensures Sub32(a, b) < n ==> Sub32(a, b) == a - b
  {
  }

  /** Byte i of a direct transfer: from buf if it holds that sector dirty, else from the disk. */
  function DirectReadByte(disk: seq<Sector>, f: FilState, sect: u32, i: nat): byte
    requires sect + i / SS < |disk|
  {
    if f.dirty && f.sect == sect + i / SS then f.buf[i % SS] else disk[sect + i / SS][i % SS]
  }

  lemma DirectReadIsContent(g: Geometry, disk: seq<Sector>, f: FilState, sect: u32, cc: nat, i: nat)
    requires Sized(g, disk, f) && Entered(g, f, sect) && f.fptr % SS == 0 && f.fptr + cc * SS <= f.objsize
    requires 0 < cc && f.fptr / SS % g.csize + cc <= g.csize && i < cc * SS
    ensures sect + i / SS < |disk| && DirectReadByte(disk, f, sect, i) == Content(g, disk, f)[f.fptr + i]
  {
    hide ChainFits, FileSector, Content;
    var j, k := f.fptr / SS, i / SS;
    ModUnique(f.fptr + i, SS, j + k, i % SS);
    RunOfSectors(g, f.chain, j, cc, j + k);
    FileSectorInDisk(g, disk, f, j + k);
    ByteIndex(g, disk, f, f.fptr + i);
  }

  /** Reads cc whole sectors straight into the caller's buffer; a dirty sector among them comes from buf. */
  method ReadDirect(fp: Fil, rbuff: array<byte>, off: nat, sect: u32, cc: nat) returns (res: FResult)
    requires fp.Busy() && Entered(fp.fs.geo, fp.St(), sect) && fp.fptr % SS == 0
    requires 0 < cc && fp.fptr / SS % fp.fs.geo.csize + cc <= fp.fs.geo.csize
    requires off + cc * SS <= rbuff.Length && rbuff != fp.buf && rbuff != fp.fs.win
    requires fp.fptr + cc * SS <= fp.objsize
    modifies rbuff
    ensures res == FR_OK
    ensures forall i | 0 <= i < rbuff.Length ::
      rbuff[i] == if off <= i < off + cc * SS then old(fp.Data())[fp.fptr + (i - off)] else old(rbuff[i])
  {
    hide FatFs.Mounted, Table, FatFs.Map, Mine, FreeExact, IsChain, ChainFits, FileSector, Content, Entered, Core, Sub32;
    ghost var g, f, disk := fp.fs.geo, fp.St(), fp.fs.drive.sectors;
    CoreParts(g, Table(fp.fs), disk, fp.fs.winsect, f);
    DirectReadIsContent(g, disk, f, sect, cc, cc * SS - 1);
    DriveSize(fp.fs);
    InRun(fp.sect, sect, cc);
    var r := fp.fs.drive.Read(rbuff, off, sect, cc);
    if r != RES_OK { return FR_DISK_ERR; }
    ghost var d := Sub32(fp.sect, sect);
    if fp.faDirty && Sub32(fp.sect, sect) < cc {
      var at := off + Sub32(fp.sect, sect) * SS;
      forall i | at <= i < at + SS {
        rbuff[i] := fp.buf[i - at];
      }
    }
    forall i | off <= i < off + cc * SS ensures rbuff[i] == Content(g, disk, f)[f.fptr + (i - off)] {
      DirectReadIsContent(g, disk, f, sect, cc, i - off);
      if (i - off) / SS == d {
        ModUnique(i - off, SS, d, i - off - SS * d);
      }
    }
    res := FR_OK;
  }

  lemma DriveSize(fs: FatFs)
    requires fs.Mounted()
    ensures |fs.drive.sectors| < ALL_ONES
  {
  }

  /** Makes buf hold the sector at the pointer. */
  method LoadBuffer(fp: Fil, sect: u32) returns (res: FResult)
    requires fp.Busy() && Entered(fp.fs.geo, fp.St(), sect) && fp.fptr % SS == 0
    modifies fp`faDirty, fp`sect, fp.buf, fp.fs.drive
    ensures res == FR_OK && fp.Busy() && fp.Data() == old(fp.Data()) && Table(fp.fs) == old(Table(fp.fs))
    ensures fp.St() == old(fp.St()).(sect := sect, dirty := fp.faDirty, buf := fp.buf[..])
    ensures Entered(fp.fs.geo, fp.St(), sect) && Forward(fp.fs.geo, old(fp.W()), fp.W())
  {
    hide FatFs.Mounted, Table, FatFs.Map, Mine, FreeExact, IsChain, ChainFits, FileSector, Content, Forward, Core;
    ForwardRefl(fp.fs.geo, fp.W());
    if fp.sect != sect {
      res := FlushBuffer(fp);
      if res != FR_OK { return; }
      ghost var g, f, disk, j := fp.fs.geo, fp.St(), fp.fs.drive.sectors, fp.fptr / SS;
      CoreParts(g, Table(fp.fs), disk, fp.fs.winsect, f);
      FileSectorInDisk(g, disk, f, j);
      LoadStep(g, Table(fp.fs), disk, fp.fs.winsect, f, j);
      var r := fp.fs.drive.Read(fp.buf, 0, sect, 1);
      if r != RES_OK { return FR_DISK_ERR; }
      assert fp.buf[..] == disk[sect];
    }
    fp.sect := sect;
    res := FR_OK;
  }

  /** A round of f_read that moves whole sectors. */
  method ReadWhole(fp: Fil, rbuff: array<byte>, off: nat, btr: nat, sect: u32, csect: nat) returns (res: FResult, rcnt: nat)
    requires fp.Busy() && SS <= btr && fp.fptr + btr <= fp.objsize && fp.fptr % SS == 0
    requires Entered(fp.fs.geo, fp.St(), sect) && csect == fp.fptr / SS % fp.fs.geo.csize
    requires off + btr <= rbuff.Length && rbuff != fp.buf && rbuff != fp.fs.win
    modifies fp`fptr, rbuff
    ensures res == FR_OK && fp.Valid() && 0 < rcnt <= btr
    ensures fp.St() == old(fp.St()).(fptr := fp.fptr) && fp.fptr == old(fp.fptr) + rcnt && fp.Data() == old(fp.Data())
    ensures forall i | 0 <= i < rbuff.Length ::
      rbuff[i] == if off <= i < off + rcnt then old(fp.Data())[old(fp.fptr) + (i - off)] else old(rbuff[i])
  {
    hide FatFs.Mounted, Table, FatFs.Map, Mine, FreeExact, IsChain, ChainFits, FileSector, Content, Entered, Core, Positioned;
    BelowCsize(fp.fs, fp.fptr / SS);
    var cc := btr / SS;
    if csect + cc > fp.fs.geo.csize {
      cc := fp.fs.geo.csize - csect;
    }
    res := ReadDirect(fp, rbuff, off, sect, cc);
    rcnt := SS * cc;
    Advance(fp.fs.geo, Table(fp.fs), fp.fs.drive.sectors, fp.fs.winsect, fp.St(), sect, rcnt);
    fp.fptr := fp.fptr + rcnt;
  }

  /** A round of f_read inside the buffered sector. */
  method ReadPart(fp: Fil, rbuff: array<byte>, off: nat, btr: nat) returns (res: FResult, rcnt: nat)
    requires fp.Busy() && 0 < btr && fp.fptr + btr <= fp.objsize && Entered(fp.fs.geo, fp.St(), fp.sect)
    requires btr < SS || fp.fptr % SS != 0
    requires off + btr <= rbuff.Length && rbuff != fp.buf && rbuff != fp.fs.win
    modifies fp`fptr, rbuff
    ensures res == FR_OK && fp.Valid() && 0 < rcnt <= btr
    ensures fp.St() == old(fp.St()).(fptr := fp.fptr) && fp.fptr == old(fp.fptr) + rcnt && fp.Data() == old(fp.Data())
    ensures forall i | 0 <= i < rbuff.Length ::
      rbuff[i] == if off <= i < off + rcnt then old(fp.Data())[old(fp.fptr) + (i - off)] else old(rbuff[i])
  {
    hide FatFs.Mounted, Table, FatFs.Map, Mine, FreeExact, IsChain, ChainFits, FileSector, Content, Entered, Core, Positioned;
    rcnt := SS - fp.fptr % SS;
    if rcnt > btr { rcnt := btr; }
    res := CopyOut(fp, rbuff, off, rcnt);
    Advance(fp.fs.geo, Table(fp.fs), fp.fs.drive.sectors, fp.fs.winsect, fp.St(), fp.sect, rcnt);
    fp.fptr := fp.fptr + rcnt;
  }

  /** One round of the loop of f_read. */
  method ReadStep(fp: Fil, rbuff: array<byte>, off: nat, btr: nat) returns (res: FResult, rcnt: nat)
    requires fp.Valid() && 0 < btr && fp.fptr + btr <= fp.objsize
    requires off + btr <= rbuff.Length && rbuff != fp.buf && rbuff != fp.fs.win
    modifies fp`fptr, fp`clust, fp`sect, fp`faDirty, fp.buf, fp.fs`wflag, fp.fs`winsect, fp.fs.drive, fp.fs.win, rbuff
    ensures res == FR_OK && fp.Valid() && 0 < rcnt <= btr && fp.fptr == old(fp.fptr) + rcnt
    ensures fp.Data() == old(fp.Data()) && Table(fp.fs) == old(Table(fp.fs))
    ensures Forward(fp.fs.geo, old(fp.W()), fp.W())
    ensures forall i | 0 <= i < rbuff.Length ::
      rbuff[i] == if off <= i < off + rcnt then old(fp.Data())[old(fp.fptr) + (i - off)] else old(rbuff[i])
  {
    hide FatFs.Mounted, Table, FatFs.Map, Mine, FreeExact, IsChain, ChainFits, FileSector, Content, Entered, Forward, Core, Positioned;
    rcnt := 0;
    ghost var w0 := fp.W();
    ForwardRefl(fp.fs.geo, w0);
    BelowCsize(fp.fs, fp.fptr / SS);
    if fp.fptr % SS == 0 {
      var csect := fp.fptr / SS % fp.fs.geo.csize;
      var sect;
      res, sect := EnterSector(fp, csect);
      if res != FR_OK { return; }
      if btr / SS > 0 {
        res, rcnt := ReadWhole(fp, rbuff, off, btr, sect, csect);
        return;
      }
      ghost var w1 := fp.W();
      res := LoadBuffer(fp, sect);
      if res != FR_OK { return; }
      ForwardTrans(fp.fs.geo, w0, w1, fp.W());
    } else {
      MidSector(fp.fs.geo, Table(fp.fs), fp.fs.drive.sectors, fp.fs.winsect, fp.St());
    }
    res, rcnt := ReadPart(fp, rbuff, off, btr);
  }

  lemma BelowCsize(fs: FatFs, j: nat)
    requires fs.Mounted()
    ensures 0 < fs.geo.csize && 0 <= j % fs.geo.csize < fs.geo.csize
  {
  }

  /** Copies part of the buffered sector out. */
  method CopyOut(fp: Fil, rbuff: array<byte>, off: nat, rcnt: nat) returns (res: FResult)
    requires fp.Busy() && Entered(fp.fs.geo, fp.St(), fp.sect) && fp.fptr % SS + rcnt <= SS && fp.fptr + rcnt <= fp.objsize
    requires off + rcnt <= rbuff.Length && rbuff != fp.buf && rbuff != fp.fs.win
    modifies rbuff
    ensures res == FR_OK
    ensures forall i | 0 <= i < rbuff.Length ::
      rbuff[i] == if off <= i < off + rcnt then old(fp.Data())[fp.fptr + (i - off)] else old(rbuff[i])
  {
    hide FatFs.Mounted, Table, FatFs.Map, Mine, FreeExact, IsChain, ChainFits, FileSector, Content, Entered, Core;
    ghost var g, fat, disk, w, f := fp.fs.geo, Table(fp.fs), fp.fs.drive.sectors, fp.fs.winsect, fp.St();
    CoreParts(g, fat, disk, w, f);
    var at := fp.fptr % SS;
    forall i | off <= i < off + rcnt {
      rbuff[i] := fp.buf[at + (i - off)];
    }
    forall i | off <= i < off + rcnt ensures rbuff[i] == Content(g, disk, f)[f.fptr + (i - off)] {
      ModUnique(f.fptr + (i - off), SS, f.fptr / SS, at + (i - off));
      BufferShows(g, fat, disk, w, f, f.fptr + (i - off));
    }
    res := FR_OK;
  }

  /** f_read: the bytes from the pointer on, as many as were asked for or as the file has; nothing else changes. */
  method FRead(fp: Fil, rbuff: array<byte>, btr: u32) returns (res: FResult, br: nat)
    requires fp.Valid() && btr <= rbuff.Length && rbuff != fp.buf && rbuff != fp.fs.win
    modifies fp`fptr, fp`clust, fp`sect, fp`faDirty, fp.buf, fp.fs`wflag, fp.fs`winsect, fp.fs.drive, fp.fs.win, rbuff
    ensures fp.Valid() && fp.Data() == old(fp.Data()) && Table(fp.fs) == old(Table(fp.fs))
    ensures Forward(fp.fs.geo, old(fp.W()), fp.W())
    ensures res == if fp.faRead then FR_OK else FR_DENIED
    ensures br == if !fp.faRead then 0 else if btr < fp.objsize - old(fp.fptr) then btr else fp.objsize - old(fp.fptr)
    ensures fp.fptr == old(fp.fptr) + br
    ensures forall i | 0 <= i < rbuff.Length ::
      rbuff[i] == if i < br then old(fp.Data())[old(fp.fptr) + i] else old(rbuff[i])
  {
    hide FatFs.Mounted, Table, FatFs.Map, Mine, FreeExact, IsChain, ChainFits, FileSector, Content, Entered, Forward, Core, Positioned;
    ghost var g, w0, data, p, r0 := fp.fs.geo, fp.W(), fp.Data(), fp.fptr, rbuff[..];
    br := 0;
    ForwardRefl(g, w0);
    PointerInFile(fp);
    if !fp.faRead {
      return FR_DENIED, 0;
    }
    var left: nat := btr;
    if left > fp.objsize - fp.fptr { left := fp.objsize - fp.fptr; }
    ghost var total := left;
    while left > 0
      invariant 0 <= left && br + left == total && p + total <= fp.objsize
      invariant fp.Valid() && fp.fptr == p + br && fp.Data() == data && Table(fp.fs) == old(Table(fp.fs))
      invariant Forward(g, w0, fp.W())
      invariant forall i | 0 <= i < rbuff.Length :: rbuff[i] == if i < br then data[p + i] else r0[i]
    {
      ghost var w1 := fp.W();
      var rcnt;
      res, rcnt := ReadStep(fp, rbuff, br, left);
      ForwardTrans(g, w0, w1, fp.W());
      if res != FR_OK { return; }
      left, br := left - rcnt, br + rcnt;
    }
    res := FR_OK;
  }

  lemma PointerInFile(fp: Fil)
    requires fp.Busy()
    ensures fp.fptr <= fp.objsize
  {
  }

  // ---- f_write

  /** At a cluster boundary: the cluster to write to, 0 if the disk is full. */
  method ClusterForWrite(fp: Fil, ghost j: nat, ghost q: nat) returns (clst: u32)
    requires fp.Valid() && fp.fptr == SS * j && fp.fs.geo.csize > 0 && j % fp.fs.geo.csize == 0 && q == j / fp.fs.geo.csize
    modifies fp`chain, fp`sclust, fp.fs, fp.fs.drive, fp.fs.win
    ensures fp.Busy() && fp.Data() == old(fp.Data()) && Forward(fp.fs.geo, old(fp.W()), fp.W())
    ensures fp.St() == old(fp.St()).(chain := fp.chain, sclust := fp.sclust)
    ensures clst == 0 ==> fp.St() == old(fp.St()) && NoFree(Table(fp.fs)) && |fp.chain| == q
    ensures clst != 0 ==> q < |fp.chain| == Max(|old(fp.chain)|, q + 1) && clst == fp.chain[q]
  {
    hide FatFs.Mounted, Table, FatFs.Map, Mine, Content, FreeExact, Core, IsChain, Forward, NoFree;
    ghost var g, f := fp.fs.geo, fp.St();
    CoreParts(g, Table(fp.fs), fp.fs.drive.sectors, fp.fs.winsect, f);
    AtBoundaryOrEnd(g, fp.fs.drive.sectors, f, j);
    ForwardRefl(g, fp.W());
    if fp.fptr == 0 {
      clst := fp.sclust;
      if clst == 0 {
        clst := StretchChain(fp, 0, -1);
      }
    } else {
      ClusterNonZero(g, fp.fs.drive.sectors, f, j / g.csize - 1);
      clst := StretchChain(fp, fp.clust, j / g.csize - 1);
    }
  }

  /** Enters the sector at the pointer for writing, stretching the chain at its end; tells whether the disk was full. */
  method EnterForWrite(fp: Fil, csect: nat) returns (full: bool)
    requires fp.Valid() && fp.fptr % SS == 0 && fp.fs.geo.csize > 0 && csect == fp.fptr / SS % fp.fs.geo.csize
    modifies fp`clust, fp`chain, fp`sclust, fp.fs, fp.fs.drive, fp.fs.win
    ensures fp.Busy() && fp.Data() == old(fp.Data()) && Forward(fp.fs.geo, old(fp.W()), fp.W())
    ensures fp.St() == old(fp.St()).(clust := fp.clust, chain := fp.chain, sclust := fp.sclust)
    ensures full ==> fp.Valid() && fp.St() == old(fp.St()) && NoFree(Table(fp.fs)) && |fp.chain| == fp.fptr / SS / fp.fs.geo.csize && csect == 0
    ensures !full ==> |fp.chain| == Max(|old(fp.chain)|, fp.fptr / SS / fp.fs.geo.csize + 1)
    ensures !full ==> Entered(fp.fs.geo, fp.St(), fp.fs.geo.Clst2Sect(fp.clust) + csect)
    ensures !full ==> fp.fs.geo.Clst2Sect(fp.clust) != 0 && 0 <= fp.fs.geo.Clst2Sect(fp.clust) + csect < ALL_ONES
  {
    hide FatFs.Mounted, Table, FatFs.Map, Mine, Content, FreeExact, Core, IsChain, Forward, Geometry.Clst2Sect, NoFree;
    ghost var g, j := fp.fs.geo, fp.fptr / SS;
    CoreParts(g, Table(fp.fs), fp.fs.drive.sectors, fp.fs.winsect, fp.St());
    AtBoundaryOrEnd(g, fp.fs.drive.sectors, fp.St(), j);
    ForwardRefl(g, fp.W());
    if csect == 0 {
      var clst := ClusterForWrite(fp, j, j / g.csize);
      if clst == 0 { return true; }
      SetClust(g, Table(fp.fs), fp.fs.drive.sectors, fp.fs.winsect, fp.St(), clst);
      fp.clust := clst;
    }
    CoreParts(g, Table(fp.fs), fp.fs.drive.sectors, fp.fs.winsect, fp.St());
    InSpan(j, g.csize, |fp.chain|);
    EnteredSector(g, fp.St(), j);
    full := false;
  }

  lemma ClusterNonZero(g: Geometry, disk: seq<Sector>, f: FilState, i: nat)
    requires Sized(g, disk, f) && i < |f.chain|
    ensures f.chain[i] >= 2
  {
    assert f.chain[i] in f.chain;
  }

  lemma RunMine(g: Geometry, fat: FatSeq, f: FilState, sect: int, cc: nat, s: int)
    requires Entered(g, f, sect) && |fat| == g.nFatent && 0 < cc && f.fptr / SS % g.csize + cc <= g.csize
    requires sect <= s < sect + cc
    ensures Mine(g, fat, f.chain, s) && Within(g, f.chain, s)
  {
    hide Mine, Within, ChainFits, FileSector;
    var j := f.fptr / SS + (s - sect);
    RunOfSectors(g, f.chain, f.fptr / SS, cc, f.fptr / SS);
    RunOfSectors(g, f.chain, f.fptr / SS, cc, j);
    FileSectorMine(g, fat, f.chain, j);
    SectorWithin(g, f.chain, j);
  }

  /** disk_write of cc sectors at the pointer, inside one cluster. */
  method WriteRun(fp: Fil, data: seq<byte>, sect: u32, cc: nat) returns (res: DResult)
    requires fp.Busy() && Entered(fp.fs.geo, fp.St(), sect) && |data| == cc * SS
    requires 0 < cc && fp.fptr / SS % fp.fs.geo.csize + cc <= fp.fs.geo.csize
    modifies fp.fs.drive
    ensures res == RES_OK && fp.Ready() && Table(fp.fs) == old(Table(fp.fs))
    ensures Transferred(old(fp.fs.drive.sectors), fp.fs.drive.sectors, sect, cc, data)
    ensures Forward(fp.fs.geo, old(fp.W()), fp.W()) && sect + cc <= ALL_ONES
  {
    hide FatFs.Mounted, Table, FatFs.Map, Mine, Within, FreeExact, Content, Core, Forward, Entered, Transferred;
    ghost var g, fat, f, disk := fp.fs.geo, Table(fp.fs), fp.St(), fp.fs.drive.sectors;
    CoreParts(g, fat, disk, fp.fs.winsect, f);
    forall s | sect <= s < sect + cc ensures Mine(g, fat, f.chain, s) && Within(g, f.chain, s) {
      RunMine(g, fat, f, sect, cc, s);
    }
    MineRange(g, fat, f.chain, sect + cc - 1, disk);
    DriveSize(fp.fs);
    res := WriteOwn(fp, data, sect, cc);
  }

  /** A round of f_write that moves whole sectors. */
  method WriteWhole(fp: Fil, data: seq<byte>, sect: u32, csect: nat) returns (res: FResult, wcnt: nat)
    requires fp.Busy() && !fp.faDirty && SS <= |data| && fp.fptr + |data| <= ALL_ONES && fp.fptr % SS == 0
    requires Entered(fp.fs.geo, fp.St(), sect) && csect == fp.fptr / SS % fp.fs.geo.csize
    modifies fp`fptr, fp`objsize, fp`faDirty, fp.buf, fp.fs.drive
    ensures res == FR_OK && fp.Valid() && 0 < wcnt <= |data| && fp.fptr == old(fp.fptr) + wcnt
    ensures wcnt % SS == 0 && csect + wcnt / SS <= fp.fs.geo.csize && fp.chain == old(fp.chain)
    ensures old(fp.fptr) <= |old(fp.Data())| && fp.Data() == Overwrite(old(fp.Data()), old(fp.fptr), data[..wcnt])
    ensures Table(fp.fs) == old(Table(fp.fs)) && Forward(fp.fs.geo, old(fp.W()), fp.W())
  {
    hide FatFs.Mounted, Table, FatFs.Map, Mine, FreeExact, IsChain, ChainFits, FileSector, Content, Core, Positioned, Forward, Entered, Overwrite, Sub32;
    ghost var g, fat, f, disk, w := fp.fs.geo, Table(fp.fs), fp.St(), fp.fs.drive.sectors, fp.fs.winsect;
    BelowCsize(fp.fs, fp.fptr / SS);
    var cc := |data| / SS;
    if csect + cc > fp.fs.geo.csize {
      cc := fp.fs.geo.csize - csect;
    }
    wcnt := SS * cc;
    WholeSectors(cc);
    var whole := data[..wcnt];
    var r := WriteRun(fp, whole, sect, cc);
    InRun(fp.sect, sect, cc);
    res := FR_OK;
    if Sub32(fp.sect, sect) < cc {
      var piece := Piece(whole, Sub32(fp.sect, sect));
      forall i | 0 <= i < SS {
        fp.buf[i] := piece[i];
      }
      assert fp.buf[..] == piece;
      fp.faDirty := false;
    }
    WholeDone(g, fat, disk, w, f, fp.fs.drive.sectors, sect, cc, fp.buf[..], whole);
    fp.fptr := fp.fptr + wcnt;
    fp.objsize := if fp.fptr > fp.objsize then fp.fptr else fp.objsize;
  }

  lemma WholeSectors(cc: nat)
    ensures SS * cc % SS == 0 && SS * cc / SS == cc
  {
    ModUnique(SS * cc, SS, cc, 0);
  }

  lemma WholeDone(g: Geometry, fat: FatSeq, disk: seq<Sector>, w: int, f: FilState, disk2: seq<Sector>,
                  sect: u32, cc: nat, nb: Sector, data: seq<byte>)
    requires Core(g, fat, disk, w, f) && !f.dirty && Entered(g, f, sect) && f.fptr % SS == 0
    requires 0 < cc && f.fptr / SS % g.csize + cc <= g.csize && f.fptr + SS * cc <= ALL_ONES
    requires Transferred(disk, disk2, sect, cc, data)
    requires nb == if sect <= f.sect < sect + cc then Piece(data, f.sect - sect) else f.buf
    ensures |data| == SS * cc && f.fptr <= f.objsize && Max(f.objsize, f.fptr + |data|) <= ALL_ONES
    ensures var f2 := f.(buf := nb, fptr := f.fptr + |data|, objsize := Max(f.objsize, f.fptr + |data|));
            Inv(g, fat, disk2, w, f2) && Content(g, disk2, f2) == Overwrite(Content(g, disk, f), f.fptr, data)
  {
    hide ChainFits, FileSector, Mine, Content;
    ModUnique(|data|, SS, cc, 0);
    assert f.fptr == SS * (f.fptr / SS);
    DirectStep(g, fat, disk, w, f, disk2, f.fptr / SS, cc, nb, data);
    StaysPositioned(g, f, sect, |data|, f.(buf := nb, fptr := f.fptr + |data|, objsize := Max(f.objsize, f.fptr + |data|)));
  }

  /** The part of a round of f_write that puts data into the buffer, at the start of a sector: the buffer is
      first filled from the disk, except beyond the end of the file. */
  method WriteFirst(fp: Fil, data: seq<byte>, sect: u32) returns (res: FResult)
    requires fp.Busy() && !fp.faDirty && fp.fptr % SS == 0 && Entered(fp.fs.geo, fp.St(), sect)
    requires 0 < |data| < SS && fp.fptr + |data| <= ALL_ONES
    modifies fp`fptr, fp`objsize, fp`faDirty, fp`sect, fp.buf
    ensures res == FR_OK && fp.Valid() && fp.fptr == old(fp.fptr) + |data|
    ensures old(fp.fptr) <= |old(fp.Data())| && fp.Data() == Overwrite(old(fp.Data()), old(fp.fptr), data)
    ensures fp.chain == old(fp.chain)
  {
    hide FatFs.Mounted, Table, FatFs.Map, Mine, FreeExact, IsChain, ChainFits, Content, Core, Positioned, Entered;
    ghost var g, fat, f, disk, w := fp.fs.geo, Table(fp.fs), fp.St(), fp.fs.drive.sectors, fp.fs.winsect;
    DriveRange(g, fat, disk, w, f, sect);
    if fp.sect != sect && fp.fptr < fp.objsize {
      var r := fp.fs.drive.Read(fp.buf, 0, sect, 1);
      if r != RES_OK { return FR_DISK_ERR; }
      assert fp.buf[..] == disk[sect];
    }
    fp.sect := sect;
    forall i | 0 <= i < |data| {
      fp.buf[i] := data[i];
    }
    fp.faDirty := true;
    FirstDone(g, fat, disk, w, f, sect, fp.buf[..], data);
    fp.fptr := fp.fptr + |data|;
    fp.objsize := if fp.fptr > fp.objsize then fp.fptr else fp.objsize;
    res := FR_OK;
  }

  lemma DriveRange(g: Geometry, fat: FatSeq, disk: seq<Sector>, w: int, f: FilState, sect: int)
    requires Core(g, fat, disk, w, f) && Entered(g, f, sect)
    ensures Sized(g, disk, f) && 0 <= sect < |disk| && f.fptr <= f.objsize
  {
    FileSectorInDisk(g, disk, f, f.fptr / SS);
  }

  lemma FirstDone(g: Geometry, fat: FatSeq, disk: seq<Sector>, w: int, f: FilState, sect: u32, nb: Sector, data: seq<byte>)
    requires Core(g, fat, disk, w, f) && !f.dirty && Entered(g, f, sect) && f.fptr % SS == 0 && sect < |disk|
    requires 0 < |data| < SS && f.fptr + |data| <= ALL_ONES
    requires forall k | 0 <= k < SS ::
      nb[k] == if k < |data| then data[k] else if f.sect != sect && f.fptr < f.objsize then disk[sect][k] else f.buf[k]
    ensures f.fptr <= f.objsize && Max(f.objsize, f.fptr + |data|) <= ALL_ONES
    ensures var f2 := f.(sect := sect, buf := nb, dirty := true, fptr := f.fptr + |data|, objsize := Max(f.objsize, f.fptr + |data|));
            Inv(g, fat, disk, w, f2) && Content(g, disk, f2) == Overwrite(Content(g, disk, f), f.fptr, data)
  {
    FileSectorMine(g, fat, f.chain, f.fptr / SS);
    hide ChainFits, FileSector, Mine, Content;
    PokeStep(g, fat, disk, w, f, f.fptr / SS, nb, data);
    StaysPositioned(g, f, sect, |data|,
      f.(sect := sect, buf := nb, dirty := true, fptr := f.fptr + |data|, objsize := Max(f.objsize, f.fptr + |data|)));
  }

  /** The part of a round of f_write that puts data into the buffer, inside a sector. */
  method WriteMid(fp: Fil, data: seq<byte>) returns (res: FResult)
    requires fp.Valid() && fp.fptr % SS != 0
    requires 0 < |data| && fp.fptr % SS + |data| <= SS && fp.fptr + |data| <= ALL_ONES
    modifies fp`fptr, fp`objsize, fp`faDirty, fp.buf
    ensures res == FR_OK && fp.Valid() && fp.fptr == old(fp.fptr) + |data|
    ensures old(fp.fptr) <= |old(fp.Data())| && fp.Data() == Overwrite(old(fp.Data()), old(fp.fptr), data)
    ensures fp.chain == old(fp.chain)
  {
    hide FatFs.Mounted, Table, FatFs.Map, Mine, FreeExact, IsChain, ChainFits, Content, Core, Positioned, Entered;
    ghost var g, fat, f, disk, w := fp.fs.geo, Table(fp.fs), fp.St(), fp.fs.drive.sectors, fp.fs.winsect;
    MidSector(g, fat, disk, w, f);
    DriveRange(g, fat, disk, w, f, f.sect);
    var at := fp.fptr % SS;
    forall i | at <= i < at + |data| {
      fp.buf[i] := data[i - at];
    }
    fp.faDirty := true;
    MidDone(g, fat, disk, w, f, fp.buf[..], data);
    fp.fptr := fp.fptr + |data|;
    fp.objsize := if fp.fptr > fp.objsize then fp.fptr else fp.objsize;
    res := FR_OK;
  }

  lemma MidDone(g: Geometry, fat: FatSeq, disk: seq<Sector>, w: int, f: FilState, nb: Sector, data: seq<byte>)
    requires Core(g, fat, disk, w, f) && Entered(g, f, f.sect)
    requires 0 < |data| && f.fptr % SS != 0 && f.fptr % SS + |data| <= SS && f.fptr + |data| <= ALL_ONES
    requires forall k | 0 <= k < SS ::
      nb[k] == if f.fptr % SS <= k < f.fptr % SS + |data| then data[k - f.fptr % SS] else f.buf[k]
    ensures f.fptr <= f.objsize && Max(f.objsize, f.fptr + |data|) <= ALL_ONES
    ensures var f2 := f.(buf := nb, dirty := true, fptr := f.fptr + |data|, objsize := Max(f.objsize, f.fptr + |data|));
            Inv(g, fat, disk, w, f2) && Content(g, disk, f2) == Overwrite(Content(g, disk, f), f.fptr, data)
  {
    FileSectorMine(g, fat, f.chain, f.fptr / SS);
    hide ChainFits, FileSector, Mine, Content;
    PokeStep(g, fat, disk, w, f, f.fptr / SS, nb, data);
    StaysPositioned(g, f, f.sect, |data|,
      f.(buf := nb, dirty := true, fptr := f.fptr + |data|, objsize := Max(f.objsize, f.fptr + |data|)));
  }

  /** One round of the loop of f_write; wcnt is 0 when the disk is full. */
  method WriteStep(fp: Fil, data: seq<byte>) returns (res: FResult, wcnt: nat)
    requires fp.Valid() && 0 < |data| && fp.fptr + |data| <= ALL_ONES
    modifies fp, fp.buf, fp.fs, fp.fs.drive, fp.fs.win
    ensures res == FR_OK && fp.Valid() && wcnt <= |data| && fp.fptr == old(fp.fptr) + wcnt
    ensures old(fp.fptr) <= |old(fp.Data())| && fp.Data() == Overwrite(old(fp.Data()), old(fp.fptr), data[..wcnt])
    ensures fp.fs.geo.csize > 0 && |fp.chain| == Max(|old(fp.chain)|, ClustersFor(fp.fs.geo, fp.fptr))
    ensures wcnt == 0 ==> NoFree(Table(fp.fs)) && fp.fptr == SS * Span(fp.fs.geo, fp.chain)
    ensures Forward(fp.fs.geo, old(fp.W()), fp.W()) && fp.faModified == old(fp.faModified)
  {
    hide FatFs.Mounted, Table, FatFs.Map, Mine, FreeExact, IsChain, ChainFits, Content, Core, Positioned, Entered, Forward, NoFree, Overwrite, Geometry.Clst2Sect, ClustersFor, Span;
    ghost var g, w0, d0 := fp.fs.geo, fp.W(), fp.Data();
    ForwardRefl(g, w0);
    PointerInFile(fp);
    BelowCsize(fp.fs, fp.fptr / SS);
    HasClusters(fp);
    ghost var p := fp.fptr;
    if fp.fptr % SS != 0 {
      wcnt := SS - fp.fptr % SS;
      if wcnt > |data| { wcnt := |data|; }
      res := WriteMid(fp, data[..wcnt]);
      HasClusters(fp);
      ForwardSame(g, w0, fp.W());
      return;
    }
    var csect := fp.fptr / SS % fp.fs.geo.csize;
    var full := EnterForWrite(fp, csect);
    if full {
      OverwriteNothing(d0, fp.fptr, data);
      AtCapacity(g, fp.fptr, fp.chain);
      return FR_OK, 0;
    }
    ghost var w1, f1 := fp.W(), fp.St();
    res := FlushBuffer(fp);
    ForwardTrans(g, w0, w1, fp.W());
    ghost var w2 := fp.W();
    var sect := fp.fs.geo.Clst2Sect(fp.clust) + csect;
    EnteredSame(g, f1, fp.St(), sect);
    if |data| / SS > 0 {
      res, wcnt := WriteWhole(fp, data, sect, csect);
      ForwardTrans(g, w0, w2, fp.W());
    } else {
      wcnt := |data|;
      res := WriteFirst(fp, data, sect);
      ForwardSame(g, w2, fp.W());
      ForwardTrans(g, w0, w2, fp.W());
      assert data[..wcnt] == data;
    }
  NeededFor(g, p, wcnt);
  }

  lemma HasClusters(fp: Fil)
    requires fp.Valid()
    ensures fp.fs.geo.csize > 0 && ClustersFor(fp.fs.geo, fp.fptr) <= |fp.chain| && fp.fptr <= SS * Span(fp.fs.geo, fp.chain)
  {
    HasNeeded(fp.fs.geo, fp.fs.drive.sectors, fp.St());
  }

  /** A pointer behind as many full clusters as there are. */
  lemma AtCapacity(g: Geometry, p: nat, chain: seq<u32>)
    requires g.csize > 0 && p % SS == 0 && p / SS % g.csize == 0 && |chain| == p / SS / g.csize
    ensures p == SS * Span(g, chain)
  {
    DivMod(p, SS);
    DivMod(p / SS, g.csize);
  }

  lemma EnteredSame(g: Geometry, f: FilState, f2: FilState, sect: int)
    requires Entered(g, f, sect) && f2.chain == f.chain && f2.fptr == f.fptr && f2.clust == f.clust
    ensures Entered(g, f2, sect)
  {
    hide ChainFits, FileSector;
  }

  lemma ForwardSame(g: Geometry, a: World, b: World)
    requires b == a
    ensures Forward(g, a, b)
  {
    ForwardRefl(g, a);
  }

  lemma OverwriteNothing(c: seq<byte>, pos: nat, data: seq<byte>)
    requires pos <= |c|
    ensures Overwrite(c, pos, data[..0]) == c
  {
  }

  /** The number of bytes f_write sets out to write: a write may not carry the pointer past 2^32 - 1. */
  function Clipped(fptr: u32, btw: u32): (n: u32)
    ensures n <= btw && fptr + n <= ALL_ONES
    ensures fptr + btw <= ALL_ONES ==> n == btw
  {
    if Add32(fptr, btw) < fptr then ALL_ONES - fptr else btw
  }

  /** Where a transfer ends that stops only at its end or where there is no room left. */
  lemma StopsAt(g: Geometry, clusters0: nat, free0: nat, chain: seq<u32>, free: nat, p: nat, n: nat, total: nat)
    requires |chain| + free == clusters0 + free0 && n <= total && p + n <= SS * Span(g, chain)
    requires n < total ==> free == 0 && p + n == SS * Span(g, chain)
    ensures n == Min(total, Capacity(g, clusters0, free0) - p)
  {
    MulLe(g.csize, |chain|, |chain| + free);
  }

  /** What the chain of a file is, and how many clusters are free. */
  lemma Account(fp: Fil)
    requires fp.Busy()
    ensures fp.W().chain == fp.chain && (fp.chain != [] ==> IsChain(fp.W().fat, fp.chain)) && CountFree(fp.W().fat) == fp.Free()
    ensures NoFree(Table(fp.fs)) <==> fp.Free() == 0
  {
    CountFreeZero(Table(fp.fs));
    hide FatFs.Mounted, Table, FatFs.Map, NoFree, CountFree, IsChain;
    CoreParts(fp.fs.geo, Table(fp.fs), fp.fs.drive.sectors, fp.fs.winsect, fp.St());
  }

  lemma Balance(fp: Fil, w0: World)
    requires fp.Busy() && Forward(fp.fs.geo, w0, fp.W()) && (w0.chain != [] ==> IsChain(w0.fat, w0.chain))
    ensures |fp.chain| + fp.Free() == |w0.chain| + CountFree(w0.fat)
  {
    hide FatFs.Mounted, Table, FatFs.Map, CountFree, IsChain, Confined, Core;
    Account(fp);
    Kept(fp.fs.geo, w0, fp.W());
  }

  /** The loop of f_write: total bytes, or fewer if there is no room left. */
  method WriteAll(fp: Fil, wbuff: seq<byte>, total: nat) returns (bw: nat)
    requires fp.Valid() && total <= |wbuff| && fp.fptr + total <= ALL_ONES
    modifies fp, fp.buf, fp.fs, fp.fs.drive, fp.fs.win
    ensures fp.Valid() && Forward(fp.fs.geo, old(fp.W()), fp.W()) && fp.faModified == old(fp.faModified)
    ensures bw <= total && fp.fptr == old(fp.fptr) + bw && old(fp.fptr) <= |old(fp.Data())|
    ensures fp.Data() == Overwrite(old(fp.Data()), old(fp.fptr), wbuff[..bw])
    ensures fp.fs.geo.csize > 0 && |fp.chain| == Max(|old(fp.chain)|, ClustersFor(fp.fs.geo, fp.fptr))
    ensures bw < total ==> NoFree(Table(fp.fs)) && fp.fptr == SS * Span(fp.fs.geo, fp.chain)
  {
    hide FatFs.Mounted, Table, FatFs.Map, Mine, FreeExact, IsChain, ChainFits, Content, Core, Positioned, Forward, NoFree, Overwrite, ClustersFor, Span;
    ghost var g, w0, d0, p, clusters := fp.fs.geo, fp.W(), fp.Data(), fp.fptr, |fp.chain|;
    bw := 0;
    ForwardRefl(g, w0);
    PointerInFile(fp);
    HasClusters(fp);
    OverwriteNothing(d0, p, wbuff);
    while bw < total
      invariant bw <= total && fp.Valid() && fp.fptr == p + bw && fp.faModified == old(fp.faModified)
      invariant fp.Data() == Overwrite(d0, p, wbuff[..bw])
      invariant Forward(g, w0, fp.W()) && |fp.chain| == Max(clusters, ClustersFor(g, fp.fptr))
    {
      ghost var w1 := fp.W();
      var res, wcnt := WriteStep(fp, wbuff[bw..total]);
      ForwardTrans(g, w0, w1, fp.W());
      OverwriteTwice(d0, p, wbuff[..bw], wbuff[bw..total][..wcnt]);
      assert wbuff[..bw] + wbuff[bw..total][..wcnt] == wbuff[..bw + wcnt];
      NeededMore(g, p + bw, p + bw + wcnt);
      bw := bw + wcnt;
      if wcnt == 0 { break; }
    }
  }

  /** f_write: overwrites and extends the file from the pointer on, by all the bytes it set out to write or,
      if fewer, by as many as there is room for. It takes the clusters that these bytes need, and no others. */
  method FWrite(fp: Fil, wbuff: seq<byte>, btw: u32) returns (res: FResult, bw: nat)
    requires fp.Valid() && btw <= |wbuff|
    modifies fp, fp.buf, fp.fs, fp.fs.drive, fp.fs.win
    ensures fp.Valid() && Forward(fp.fs.geo, old(fp.W()), fp.W())
    ensures res == if fp.faWrite then FR_OK else FR_DENIED
    ensures bw == if fp.faWrite then Min(Clipped(old(fp.fptr), btw), Capacity(fp.fs.geo, |old(fp.chain)|, old(fp.Free())) - old(fp.fptr)) else 0
    ensures fp.fs.geo.csize > 0 && |fp.chain| == Max(|old(fp.chain)|, ClustersFor(fp.fs.geo, fp.fptr))
    ensures |fp.chain| + fp.Free() == old(|fp.chain| + fp.Free())
    ensures fp.fptr == old(fp.fptr) + bw && old(fp.fptr) <= |old(fp.Data())|
    ensures fp.Data() == Overwrite(old(fp.Data()), old(fp.fptr), wbuff[..bw])
    ensures fp.faModified == (old(fp.faModified) || fp.faWrite)
  {
    hide FatFs.Mounted, Table, FatFs.Map, Mine, FreeExact, IsChain, ChainFits, Content, Core, Positioned, Forward, NoFree, Overwrite, Clipped, ClustersFor, Span, Capacity, Fil.Free;
    ghost var g, w0, p := fp.fs.geo, fp.W(), fp.fptr;
    ghost var clusters, free := |fp.chain|, fp.Free();
    ForwardRefl(g, w0);
    PointerInFile(fp);
    HasClusters(fp);
    OverwriteNothing(fp.Data(), p, wbuff);
    if !fp.faWrite {
      return FR_DENIED, 0;
    }
    Account(fp);
    var total := Clipped(fp.fptr, btw);
    bw := WriteAll(fp, wbuff, total);
    Balance(fp, w0);
    Account(fp);
    HasClusters(fp);
    StopsAt(g, clusters, free, fp.chain, fp.Free(), p, bw, total);
    fp.faModified := true;
    res := FR_OK;
  }
}
