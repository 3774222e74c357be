/** f_sync on a FAT volume, and opening the file again: what is on the disk alone is the file. */
module FileSync {
  import opened Bytes
  import opened Chains
  import opened DriveModel
  import opened FatTable
  import opened FileIO
  import opened FileModel
  import opened FsInfo
  import opened VolumeGeometry
  import opened Window

  // Fields of a directory entry
  const DIR_ATTR: nat := 11
  const DIR_LST_ACC_DATE: nat := 18
  const DIR_FST_CLUS_HI: nat := 20
  const DIR_MOD_TIME: nat := 22
  const DIR_FST_CLUS_LO: nat := 26
  const DIR_FILE_SIZE: nat := 28
  const AM_ARC: nat := 0x20

  /** ld_clust: the start cluster in the entry at offset o. */
  function LdClust(t: FatType, s: seq<byte>, o: nat): u32
    requires o + SZDIRE <= |s|
  {
    var lo, hi := o + DIR_FST_CLUS_LO, o + DIR_FST_CLUS_HI;
    if t == FAT32 then DWord(s[lo], s[lo + 1], s[hi], s[hi + 1]) else Word(s[lo], s[lo + 1])
  }

  /** The file size in the entry. */
  function LdSize(s: seq<byte>, o: nat): u32
    requires o + SZDIRE <= |s|
  {
    var p := o + DIR_FILE_SIZE;
    DWord(s[p], s[p + 1], s[p + 2], s[p + 3])
  }

  function WithArc(b: byte): byte {
    if b / AM_ARC % 2 == 1 then b else b + AM_ARC
  }

  lemma HighWord(v: u32)
    ensures ByteOf(v / 0x1_0000, 0) == ByteOf(v, 2) && ByteOf(v / 0x1_0000, 1) == ByteOf(v, 3)
  {
    assert v / 0x1_0000 / 0x100 == v / 0x100_0000;
  }

  /** st_clust: the start cluster goes to the entry. */
  method StClust(win: array<byte>, o: nat, t: FatType, cl: u32)
    requires o + SZDIRE <= win.Length && (t != FAT32 ==> cl < 0x1_0000)
    modifies win
    ensures LdClust(t, win[..], o) == cl
    ensures forall i | 0 <= i < win.Length && !(o + DIR_FST_CLUS_HI <= i < o + DIR_MOD_TIME) && !(o + DIR_FST_CLUS_LO <= i < o + DIR_FILE_SIZE) :: win[i] == old(win[i])
  {
    hide ByteOf;
    StWord(win, o + DIR_FST_CLUS_LO, cl);
    if t == FAT32 {
      StWord(win, o + DIR_FST_CLUS_HI, cl / 0x1_0000);
      HighWord(cl);
      StoreLoadDWord(cl);
    } else {
      StoreLoadWord(cl);
    }
  }

  lemma SameClust(t: FatType, a: seq<byte>, b: seq<byte>, o: nat)
    requires o + SZDIRE <= |a| == |b|
    requires forall i | o + DIR_FST_CLUS_HI <= i < o + DIR_MOD_TIME || o + DIR_FST_CLUS_LO <= i < o + DIR_FILE_SIZE :: b[i] == a[i]
    ensures LdClust(t, b, o) == LdClust(t, a, o)
  {
  }

  /** The directory entry takes the start cluster and the size of the file; its name and creation time stay. */
  method FillEntry(win: array<byte>, o: nat, t: FatType, sclust: u32, objsize: u32, tm: u32)
    requires o + SZDIRE <= win.Length && (t != FAT32 ==> sclust < 0x1_0000)
    modifies win
    ensures LdClust(t, win[..], o) == sclust && LdSize(win[..], o) == objsize && win[o + DIR_ATTR] == WithArc(old(win[o + DIR_ATTR]))
    ensures forall i | 0 <= i < win.Length && !(o + DIR_LST_ACC_DATE <= i < o + SZDIRE) && i != o + DIR_ATTR :: win[i] == old(win[i])
  {
    hide ByteOf, WithArc, LdClust;
    win[o + DIR_ATTR] := WithArc(win[o + DIR_ATTR]);
    StClust(win, o, t, sclust);
    ghost var was := win[..];
    StDWord(win, o + DIR_FILE_SIZE, objsize);
    StoreLoadDWord(objsize);
    StDWord(win, o + DIR_MOD_TIME, tm);
    StWord(win, o + DIR_LST_ACC_DATE, 0);
    SameClust(t, was, win[..], o);
  }

  /** A sector that holds directory entries: on the disk, in no FAT, and not among the sectors of this file. */
  ghost predicate DirSector(g: Geometry, fat: FatSeq, chain: seq<u32>, n: nat, s: int) {
    0 <= s < n && !g.InFirstFat(s) && !g.InSecondFat(s) && !Mine(g, fat, chain, s)
  }

  /** A file as f_open finds it. */
  ghost function Unopened(sclust: u32, objsize: u32, chain: seq<u32>): FilState {
    FilState(sclust, objsize, 0, 0, 0, false, seq(SS, _ => 0), chain)
  }

  /** The disk alone, without any buffer: the entry leads to a chain that holds exactly these bytes. */
  ghost predicate OnDisk(g: Geometry, disk: seq<Sector>, s: nat, o: nat, chain: seq<u32>, data: seq<byte>) {
    && Fits(g, disk) && |disk| < ALL_ONES && o + SZDIRE <= SS && DirSector(g, Fat(g, disk), chain, |disk|, s)
    && var sclust, size := LdClust(g.fsType, disk[s], o), LdSize(disk[s], o);
       && (chain == [] <==> sclust == 0) && (chain != [] ==> IsChain(Fat(g, disk), chain) && chain[0] == sclust)
       && Sized(g, disk, Unopened(sclust, size, chain)) && Content(g, disk, Unopened(sclust, size, chain)) == data
  }

  /** Shows the sector of the directory entry. */
  method ShowEntry(fp: Fil, s: u32) returns (res: FResult)
    requires fp.Busy() && DirSector(fp.fs.geo, Table(fp.fs), fp.chain, |fp.fs.drive.sectors|, s)
    modifies fp.fs`wflag, fp.fs`winsect, fp.fs.drive, fp.fs.win
    ensures res == FR_OK && fp.Busy() && fp.Data() == old(fp.Data()) && fp.fs.Map() == old(fp.fs.Map())
    ensures fp.fs.winsect == s && |fp.fs.drive.sectors| == |old(fp.fs.drive.sectors)| && Table(fp.fs) == old(Table(fp.fs))
    ensures old(Mirrored(fp.fs.geo, fp.fs.drive.sectors)) ==> Mirrored(fp.fs.geo, fp.fs.drive.sectors)
  {
    hide Mine, Content, ChainFits, FileSector, Fat, Overlay;
    ghost var g, fat, disk, w, f := fp.fs.geo, Table(fp.fs), fp.fs.drive.sectors, fp.fs.winsect, fp.St();
    res := MoveWindow(fp.fs, s);
    MineAbove(g, fat, f.chain);
    VolumeStep(g, fat, disk, w, f, fp.fs.drive.sectors, s);
  }

  lemma MineAbove(g: Geometry, fat: FatSeq, chain: seq<u32>)
    ensures forall s | Mine(g, fat, chain, s) :: s >= g.database
  {
  }

  /** All logical sectors but s are the same. */
  ghost predicate ButSector(was: seq<Sector>, now: seq<Sector>, s: nat) {
    |now| == |was| && forall i | 0 <= i < |was| && i != s :: now[i] == was[i]
  }

  lemma SameFat(g: Geometry, m: seq<Sector>, m2: seq<Sector>, s: nat)
    requires Fits(g, m) && ButSector(m, m2, s) && !g.InFirstFat(s)
    ensures Fits(g, m2) && Fat(g, m2) == Fat(g, m)
  {
    FatOfSameSectors(g, m, m2);
  }

  /** Fills the entry in the window that shows its sector. */
  method StoreEntry(fp: Fil, s: u32, o: nat, tm: u32)
    requires fp.Busy() && DirSector(fp.fs.geo, Table(fp.fs), fp.chain, |fp.fs.drive.sectors|, s) && fp.fs.winsect == s && o + SZDIRE <= SS
    modifies fp.fs`wflag, fp.fs.win
    ensures fp.Busy() && fp.Data() == old(fp.Data()) && Table(fp.fs) == old(Table(fp.fs)) && fp.fs.winsect == s
    ensures ButSector(old(fp.fs.Map()), fp.fs.Map(), s) && |fp.fs.Map()| == |fp.fs.drive.sectors|
    ensures LdClust(fp.fs.geo.fsType, fp.fs.Map()[s], o) == fp.sclust && LdSize(fp.fs.Map()[s], o) == fp.objsize
    ensures forall i | 0 <= i < SS && !(o + DIR_LST_ACC_DATE <= i < o + SZDIRE) && i != o + DIR_ATTR :: fp.fs.Map()[s][i] == old(fp.fs.Map()[s][i])
  {
    hide Mine, Content, ChainFits, FileSector, Fat, LdClust, LdSize, Positioned, IsChain;
    ghost var g, fat, m := fp.fs.geo, Table(fp.fs), fp.fs.Map();
    SmallCluster(fp);
    FillEntry(fp.fs.win, o, fp.fs.geo.fsType, fp.sclust, fp.objsize, tm);
    fp.fs.wflag := true;
    SameFat(g, m, fp.fs.Map(), s);
  }

  /** On FAT12/16 a start cluster fits the low word of the entry. */
  lemma SmallCluster(fp: Fil)
    requires fp.Busy()
    ensures fp.fs.geo.fsType != FAT32 ==> fp.sclust < 0x1_0000
  {
    hide Mine, Content, FileSector, Fat;
    if fp.chain != [] { assert IsCl(Table(fp.fs), fp.chain[0]); }
  }

  /** The window goes to the disk, as sync_fs begins. */
  method SyncEntry(fp: Fil, s: u32) returns (res: FResult)
    requires fp.Busy() && fp.fs.winsect == s && DirSector(fp.fs.geo, Table(fp.fs), fp.chain, |fp.fs.drive.sectors|, s)
    modifies fp.fs`wflag, fp.fs.drive
    ensures res == FR_OK && fp.Busy() && fp.Data() == old(fp.Data()) && fp.fs.Map() == old(fp.fs.Map())
    ensures !fp.fs.wflag && fp.fs.drive.sectors == fp.fs.Map() && |fp.fs.drive.sectors| == |old(fp.fs.drive.sectors)| && Table(fp.fs) == old(Table(fp.fs))
    ensures old(Mirrored(fp.fs.geo, fp.fs.drive.sectors)) ==> Mirrored(fp.fs.geo, fp.fs.drive.sectors)
  {
    hide Mine, Content, ChainFits, FileSector, Fat, Overlay;
    ghost var g, fat, disk, f := fp.fs.geo, Table(fp.fs), fp.fs.drive.sectors, fp.St();
    res := SyncWindow(fp.fs);
    MineAbove(g, fat, f.chain);
    VolumeStep(g, fat, disk, s, f, fp.fs.drive.sectors, s);
  }

  /** The FSInfo sector next to the boot sector lies before the FATs, apart from the sector s of a directory entry. */
  predicate InfoApart(g: Geometry, s: nat) {
    g.fsType == FAT32 ==> g.volbase + 1 < g.fatbase && s != g.volbase + 1
  }

  /** The rest of sync_fs on a FAT32 volume whose allocation has changed: the FSInfo sector takes the free count and the hint,
      and stays in the window. */
  method StoreInfo(fp: Fil) returns (res: DResult)
    requires fp.Busy() && !fp.fs.wflag && fp.fs.geo.volbase + 1 < fp.fs.geo.fatbase
    modifies fp.fs`winsect, fp.fs.drive, fp.fs.win
    ensures res == RES_OK && fp.Busy() && fp.Data() == old(fp.Data()) && Table(fp.fs) == old(Table(fp.fs)) && !fp.fs.wflag
    ensures fp.fs.Map() == fp.fs.drive.sectors && ButSector(old(fp.fs.drive.sectors), fp.fs.drive.sectors, fp.fs.geo.volbase + 1)
    ensures fp.fs.geo.volbase + 1 < |fp.fs.drive.sectors|
    ensures Loaded(fp.fs.drive.sectors[fp.fs.geo.volbase + 1]) == (fp.fs.freeClst, fp.fs.lastClst)
    ensures old(Mirrored(fp.fs.geo, fp.fs.drive.sectors)) ==> Mirrored(fp.fs.geo, fp.fs.drive.sectors)
  {
    hide Mine, Content, ChainFits, FileSector, Fat, Loaded;
    ghost var g, fat, disk, w, f := fp.fs.geo, Table(fp.fs), fp.fs.drive.sectors, fp.fs.winsect, fp.St();
    BeforeFats(g);
    FillInfo(fp.fs.win, fp.fs.freeClst, fp.fs.lastClst);
    fp.fs.winsect := fp.fs.geo.volbase + 1;
    res := fp.fs.drive.Write(fp.fs.win[..], fp.fs.winsect, 1);
    assert Piece(fp.fs.win[..], 0) == fp.fs.win[..];
    MineAbove(g, fat, f.chain);
    VolumeStep(g, fat, disk, w, f, fp.fs.drive.sectors, fp.fs.winsect);
    SameFat(g, disk, fp.fs.drive.sectors, fp.fs.winsect);
  }

  lemma BeforeFats(g: Geometry)
    requires g.Valid() && g.volbase + 1 < g.fatbase
    ensures g.volbase + 1 < g.EndOfFats() <= g.database && !g.InFirstFat(g.volbase + 1) && !g.InSecondFat(g.volbase + 1)
  {
  }

  /** With nothing buffered the disk holds the file. */
  lemma NowOnDisk(fp: Fil, s: nat, o: nat)
    requires fp.Busy() && !fp.faDirty && !fp.fs.wflag && o + SZDIRE <= SS
    requires DirSector(fp.fs.geo, Table(fp.fs), fp.chain, |fp.fs.drive.sectors|, s)
    requires LdClust(fp.fs.geo.fsType, fp.fs.drive.sectors[s], o) == fp.sclust && LdSize(fp.fs.drive.sectors[s], o) == fp.objsize
    ensures OnDisk(fp.fs.geo, fp.fs.drive.sectors, s, o, fp.chain, fp.Data())
  {
    hide Mine, FileSector, Fat, LdClust, LdSize, ChainFits, Positioned, Content;
    var g, disk := fp.fs.geo, fp.fs.drive.sectors;
    var f := Unopened(fp.sclust, fp.objsize, fp.chain);
    assert fp.fs.Map() == disk;
    SameContent(g, disk, fp.St(), disk, f);
  }

  /** The dirty buffer goes to the disk. */
  method FlushData(fp: Fil) returns (res: FResult)
    requires fp.Busy()
    modifies fp`faDirty, fp.fs.drive
    ensures res == FR_OK && fp.Busy() && fp.St() == old(fp.St()).(dirty := false)
    ensures fp.Data() == old(fp.Data()) && Table(fp.fs) == old(Table(fp.fs)) && |fp.fs.drive.sectors| == |old(fp.fs.drive.sectors)|
    ensures old(Mirrored(fp.fs.geo, fp.fs.drive.sectors)) ==> Mirrored(fp.fs.geo, fp.fs.drive.sectors)
    ensures NotOurs(fp.fs.geo, Table(fp.fs), fp.chain, old(fp.fs.Map()), fp.fs.Map(), {})
  {
    hide Content, Mine, Core, Table, Overlay;
    res := FlushBuffer(fp);
    assert |fp.W().sects| == |old(fp.W().sects)|;
  }

  /** Outside the FATs no sectors but these and those of the file and of free clusters change. */
  ghost predicate NotOurs(g: Geometry, fat: FatSeq, chain: seq<u32>, was: seq<Sector>, now: seq<Sector>, but: set<nat>) {
    |now| == |was| && forall i | 0 <= i < |was| && i !in but && !g.InFirstFat(i) && !g.InSecondFat(i) && !Mine(g, fat, chain, i) :: now[i] == was[i]
  }

  lemma NotOursThen(g: Geometry, fat: FatSeq, chain: seq<u32>, a: seq<Sector>, b: seq<Sector>, c: seq<Sector>, but: set<nat>, s: nat)
    requires NotOurs(g, fat, chain, a, b, but) && ButSector(b, c, s)
    ensures NotOurs(g, fat, chain, a, c, but + {s})
  {
    hide Mine;
  }

  lemma NotOursAt(g: Geometry, fat: FatSeq, chain: seq<u32>, a: seq<Sector>, b: seq<Sector>, s: nat)
    requires NotOurs(g, fat, chain, a, b, {}) && DirSector(g, fat, chain, |a|, s)
    ensures b[s] == a[s]
  {
    hide Mine;
  }

  /** sync_fs on a FAT volume; info tells whether the allocation has changed since the last time. */
  method SyncFs(fp: Fil, s: u32, info: bool) returns (res: FResult)
    requires fp.Busy() && fp.fs.winsect == s && DirSector(fp.fs.geo, Table(fp.fs), fp.chain, |fp.fs.drive.sectors|, s)
    requires info ==> InfoApart(fp.fs.geo, s)
    modifies fp.fs`wflag, fp.fs`winsect, fp.fs.drive, fp.fs.win
    ensures res == FR_OK && fp.Busy() && fp.Data() == old(fp.Data()) && Table(fp.fs) == old(Table(fp.fs))
    ensures !fp.fs.wflag && fp.fs.drive.sectors == fp.fs.Map() && |fp.fs.drive.sectors| == |old(fp.fs.drive.sectors)| == |old(fp.fs.Map())|
    ensures ButSector(old(fp.fs.Map()), fp.fs.Map(), fp.fs.geo.volbase + 1)
    ensures if info && fp.fs.geo.fsType == FAT32 then fp.fs.geo.volbase + 1 < |fp.fs.drive.sectors|
                 && Loaded(fp.fs.drive.sectors[fp.fs.geo.volbase + 1]) == (fp.fs.freeClst, fp.fs.lastClst)
            else fp.fs.Map() == old(fp.fs.Map())
    ensures old(Mirrored(fp.fs.geo, fp.fs.drive.sectors)) ==> Mirrored(fp.fs.geo, fp.fs.drive.sectors)
  {
    hide Fil.Busy, Fil.Data, Table, Overlay, DirSector, Mine, Loaded;
    res := SyncEntry(fp, s);
    if res == FR_OK && info {
      if fp.fs.geo.fsType == FAT32 {
        var r := StoreInfo(fp);
      }
    }
  }

  /** f_sync on a FAT volume: if the file was changed, the disk alone then holds it, and its directory entry leads to it. On
      FAT32 the FSInfo sector holds the free count and the hint, if the allocation has changed (info). */
  method FSync(fp: Fil, s: u32, o: nat, tm: u32, info: bool) returns (res: FResult)
    requires fp.Valid() && o + SZDIRE <= SS && DirSector(fp.fs.geo, Table(fp.fs), fp.chain, |fp.fs.drive.sectors|, s)
    requires info ==> InfoApart(fp.fs.geo, s)
    modifies fp`faDirty, fp`faModified, fp.fs`wflag, fp.fs`winsect, fp.fs.drive, fp.fs.win
    ensures res == FR_OK && fp.Valid() && fp.Data() == old(fp.Data()) && Table(fp.fs) == old(Table(fp.fs)) && !fp.faModified
    ensures old(fp.faModified) ==> OnDisk(fp.fs.geo, fp.fs.drive.sectors, s, o, fp.chain, fp.Data())
    ensures old(fp.faModified) ==> !fp.fs.wflag && fp.fs.drive.sectors == fp.fs.Map()
    ensures NotOurs(fp.fs.geo, Table(fp.fs), fp.chain, old(fp.fs.Map()), fp.fs.Map(), if info && fp.fs.geo.fsType == FAT32 then {s, fp.fs.geo.volbase + 1} else {s})
    ensures old(fp.faModified) && info && fp.fs.geo.fsType == FAT32 ==>
      fp.fs.geo.volbase + 1 < |fp.fs.drive.sectors| && Loaded(fp.fs.drive.sectors[fp.fs.geo.volbase + 1]) == (fp.fs.freeClst, fp.fs.lastClst)
    ensures forall i | 0 <= i < SS && !(o + DIR_LST_ACC_DATE <= i < o + SZDIRE) && i != o + DIR_ATTR :: fp.fs.Map()[s][i] == old(fp.fs.Map()[s][i])
    ensures old(Mirrored(fp.fs.geo, fp.fs.drive.sectors)) ==> Mirrored(fp.fs.geo, fp.fs.drive.sectors)
  {
    hide Fil.Busy, Fil.Data, Table, DirSector, OnDisk, LdClust, LdSize, Overlay, ButSector, Content, Mine, NotOurs, Loaded;
    res := FR_OK;
    NotOursRefl(fp, s);
    if fp.faModified {
      BufferApart(fp);
      ghost var f, m, fat, g, chain := fp.St(), fp.fs.Map(), Table(fp.fs), fp.fs.geo, fp.chain;
      res := FlushData(fp);
      if res != FR_OK { return; }
      res := ShowEntry(fp, s);
      if res == FR_OK {
        ghost var m1 := fp.fs.Map();
        NotOursAt(g, fat, chain, m, m1, s);
        StoreEntry(fp, s, o, tm);
        ghost var m2 := fp.fs.Map();
        NotOursThen(g, fat, chain, m, m1, m2, {}, s);
        res := SyncFs(fp, s, info);
        SyncedMap(g, fat, chain, m, m2, fp.fs.Map(), s, info);
        NowOnDisk(fp, s, o);
        ClearModified(fp);
        assert fp.St() == f.(dirty := false);
      }
    }
  }

  /** What sync_fs leaves of the map before it. */
  lemma SyncedMap(g: Geometry, fat: FatSeq, chain: seq<u32>, m: seq<Sector>, m2: seq<Sector>, m3: seq<Sector>, s: nat, info: bool)
    requires NotOurs(g, fat, chain, m, m2, {} + {s}) && s < |m2| && (info ==> InfoApart(g, s)) && ButSector(m2, m3, g.volbase + 1)
    requires !(info && g.fsType == FAT32) ==> m3 == m2
    ensures NotOurs(g, fat, chain, m, m3, if info && g.fsType == FAT32 then {s, g.volbase + 1} else {s}) && |m3| == |m2| && m3[s] == m2[s]
  {
    hide Mine, NotOurs;
    assert {} + {s} == {s};
    if info && g.fsType == FAT32 {
      NotOursThen(g, fat, chain, m, m2, m3, {s}, g.volbase + 1);
      assert {s} + {g.volbase + 1} == {s, g.volbase + 1};
    }
  }

  lemma NotOursRefl(fp: Fil, s: nat)
    requires fp.Busy() && DirSector(fp.fs.geo, Table(fp.fs), fp.chain, |fp.fs.drive.sectors|, s)
    ensures forall but :: NotOurs(fp.fs.geo, Table(fp.fs), fp.chain, fp.fs.Map(), fp.fs.Map(), but)
    ensures s < |fp.fs.Map()| == |fp.fs.drive.sectors|
  {
  }

  lemma BufferApart(fp: Fil)
    requires fp.Busy()
    ensures fp.buf != fp.fs.win && fp.fs.win.Length == SS && fp.fs.Mounted() && ChainFits(fp.fs.geo, fp.chain) && |fp.fs.Map()| < ALL_ONES
  {
    hide Content, Mine, FileSector, ChainFits;
  }

  method ClearModified(fp: Fil)
    requires fp.Busy()
    modifies fp`faModified
    ensures fp.Busy() && fp.Data() == old(fp.Data()) && !fp.faModified
  {
    hide Content, Mine, FileSector, ChainFits;
    fp.faModified := false;
  }

  // ---- opening

  /** The sector of the entry in the clean window of a volume just mounted. */
  method FindEntry(fs: FatFs, s: u32, ghost chain: seq<u32>) returns (res: FResult)
    requires fs.Mounted() && !fs.wflag && DirSector(fs.geo, Table(fs), chain, |fs.drive.sectors|, s)
    modifies fs`wflag, fs`winsect, fs.drive, fs.win
    ensures res == FR_OK && fs.Mounted() && Table(fs) == old(Table(fs)) && fs.winsect == s && s < |fs.drive.sectors|
    ensures fs.drive.sectors == old(fs.drive.sectors) && fs.win[..] == fs.drive.sectors[s]
  {
    hide Mine, Fat;
    res := MoveWindow(fs, s);
  }

  /** The free count that mounting would take from the FSInfo sector is true, if it is one at all. */
  ghost predicate InfoTrue(g: Geometry, disk: seq<Sector>) {
    Fits(g, disk) && (g.fsType == FAT32 ==>
      && g.volbase + 1 < g.EndOfFats() && g.volbase + 1 < |disk|
      && var n := Loaded(disk[g.volbase + 1]).0; n <= g.nFatent - 2 ==> n == CountFree(Fat(g, disk)))
  }

  /** f_open for a file that is there, on a volume mounted afresh (with FSInfo, if info): the start cluster and the size come
      from the entry. */
  method FOpen(geo: Geometry, drive: Drive, s: u32, o: nat, info: bool, faRead: bool, faWrite: bool, ghost chain: seq<u32>, ghost data: seq<byte>)
    returns (fp: Fil)
    requires OnDisk(geo, drive.sectors, s, o, chain, data) && 1 !in Fat(geo, drive.sectors) && (info ==> InfoTrue(geo, drive.sectors))
    modifies drive
    ensures drive.sectors == old(drive.sectors)
    ensures fresh(fp) && fp.fs.drive == drive && fp.fs.geo == geo && fp.Valid() && fp.chain == chain
    ensures fp.Data() == data && fp.fptr == 0 && fp.faRead == faRead && fp.faWrite == faWrite
    ensures info && geo.fsType == FAT32 ==> (fp.fs.freeClst, fp.fs.lastClst) == Loaded(drive.sectors[geo.volbase + 1])
  {
    hide Mine, Fat, Content, LdClust, LdSize, ChainFits, FileSector, Overlay, Loaded;
    var fs := NewFs(geo, drive, info);
    var res := FindEntry(fs, s, chain);
    var sclust, objsize := LdClust(geo.fsType, fs.win[..], o), LdSize(fs.win[..], o);
    fp := new Fil(fs, faRead, faWrite, sclust, objsize, chain);
    SameContent(geo, drive.sectors, Unopened(sclust, objsize, chain), drive.sectors, fp.St());
  }

  /** What was written is there to stay: after f_sync all caches can be lost, and the file opened again has the same bytes; on
      FAT32 the free count and the hint are there again too, if they were written. */
  method SyncAndReopen(fp: Fil, s: u32, o: nat, tm: u32, info: bool, faRead: bool, faWrite: bool) returns (fp2: Fil)
    requires fp.Valid() && fp.faModified && o + SZDIRE <= SS && DirSector(fp.fs.geo, Table(fp.fs), fp.chain, |fp.fs.drive.sectors|, s)
    requires info ==> InfoApart(fp.fs.geo, s)
    modifies fp`faDirty, fp`faModified, fp.fs`wflag, fp.fs`winsect, fp.fs.drive, fp.fs.win
    ensures fresh(fp2) && fp2.Valid() && fp2.fs.drive == fp.fs.drive && fp2.Data() == old(fp.Data())
    ensures info && fp.fs.geo.fsType == FAT32 ==> fp2.fs.freeClst == fp.fs.freeClst && fp2.fs.lastClst == fp.fs.lastClst
  {
    hide Core, Content, OnDisk, DirSector, NotOurs, Mine, Positioned, Loaded, Fat;
    var res := FSync(fp, s, o, tm, info);
    if info { InfoIsTrue(fp); }
    fp2 := FOpen(fp.fs.geo, fp.fs.drive, s, o, info, faRead, faWrite, fp.chain, fp.Data());
  }

  /** The free count of an open file's volume is true, and so is that which was written. */
  lemma InfoIsTrue(fp: Fil)
    requires fp.Valid() && !fp.fs.wflag && fp.fs.drive.sectors == fp.fs.Map()
    requires fp.fs.geo.fsType == FAT32 ==> fp.fs.geo.volbase + 1 < fp.fs.geo.fatbase && fp.fs.geo.volbase + 1 < |fp.fs.drive.sectors|
    requires fp.fs.geo.fsType == FAT32 ==> Loaded(fp.fs.drive.sectors[fp.fs.geo.volbase + 1]) == (fp.fs.freeClst, fp.fs.lastClst)
    ensures InfoTrue(fp.fs.geo, fp.fs.drive.sectors)
  {
    hide Core, Content, Mine, Positioned, Loaded, Fat, CountFree;
  }
}
