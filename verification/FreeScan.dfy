/** f_getfree: the cached free count, or a full scan of the FAT. */
module FreeScan {
  import opened Alloc
  import opened Arith
  import opened Bytes
  import opened Chains
  import opened FatTable
  import opened VolumeGeometry
  import opened Window

  /** Number of zero entries below k, the two reserved ones included. */
  function ZerosBelow(fat: FatSeq, k: nat): nat
    requires k <= |fat|
  {
    if k == 0 then 0 else ZerosBelow(fat, k - 1) + if fat[k - 1] == 0 then 1 else 0
  }

  lemma {:induction false} ZerosAndFree(fat: FatSeq, k: nat)
    requires 2 <= k <= |fat|
    ensures ZerosBelow(fat, k) == FreeBelow(fat, k) + (if fat[0] == 0 then 1 else 0) + (if fat[1] == 0 then 1 else 0)
  {
    if k == 2 {
      assert ZerosBelow(fat, 1) == ZerosBelow(fat, 0) + if fat[0] == 0 then 1 else 0;
    } else {
      ZerosAndFree(fat, k - 1);
    }
  }

  /** The scan of a FAT12 volume, entry by entry. */
  method ScanPacked(fs: FatFs) returns (res: FResult, nfree: u32)
    requires fs.Mounted()
    modifies fs`wflag, fs`winsect, fs.drive, fs.win
    ensures fs.Mounted() && fs.Map() == old(fs.Map()) && Table(fs) == old(Table(fs))
    ensures FatOnly(fs.geo, old(Snap(fs)), Snap(fs))
    ensures res == FR_INT_ERR ==> 1 in Table(fs)
    ensures res == FR_OK || res == FR_INT_ERR
    ensures res == FR_OK ==> nfree == CountFree(Table(fs))
  {
    hide FatFs.Mounted, Fat, FatOnly, Snap, FatFs.Map, Table, Geometry.Valid;
    MountedFacts(fs);
    MountedValid(fs);
    SnapRefl(fs);
    ghost var s0, fat, m := Snap(fs), Table(fs), fs.Map();
    res, nfree := FR_OK, 0;
    var clst: u32 := 2;
    while clst < fs.geo.nFatent
      invariant 2 <= clst <= fs.geo.nFatent
      invariant fs.Mounted() && fs.Map() == m && Table(fs) == fat && FatOnly(fs.geo, s0, Snap(fs))
      invariant nfree == FreeBelow(fat, clst)
    {
      ghost var s1 := Snap(fs);
      var stat := GetFat(fs, clst);
      FatOnlyTrans(fs.geo, s0, s1, Snap(fs));
      if stat == 1 {
        assert fat[clst] == 1;
        return FR_INT_ERR, nfree;
      }
      if stat == 0 { nfree := nfree + 1; }
      clst := clst + 1;
    }
  }

  /** One entry of the raw scan: entry k lies at byte i of the window. */
  lemma ScannedEntry(g: Geometry, m: seq<Sector>, k: nat, w: nat, q: nat, i: nat, sec: Sector)
    requires Fits(g, m) && k < g.nFatent && ((g.fsType == FAT16 && w == 2) || (g.fsType == FAT32 && w == 4))
    requires w * k == SS * q + i && i < SS && i % w == 0
    requires g.fatbase + q < |m| && sec == m[g.fatbase + q]
    ensures i + w <= SS
    ensures g.fsType == FAT16 ==> Fat(g, m)[k] == Word(sec[i], sec[i + 1])
    ensures g.fsType == FAT32 ==> Fat(g, m)[k] == DWord(sec[i], sec[i + 1], sec[i + 2], sec[i + 3]) % 0x1000_0000
  {
    EntryInTable(g, k);
    ModUnique(w * k, SS, q, i);
    if g.fsType == FAT16 {
      Entry16InSector(g, m, k, sec, i);
    } else {
      Entry32InSector(g, m, k, sec, i);
    }
  }

  lemma ScannedSector(g: Geometry, k: nat, w: nat, q: nat, i: nat)
    requires g.Valid() && k < g.nFatent && w * k == SS * q + i
    requires (g.fsType == FAT16 && w == 2) || (g.fsType == FAT32 && w == 4)
    ensures g.InFirstFat(g.fatbase + q) && g.fatbase + q < g.EndOfData() < ALL_ONES
  {
    EntryInTable(g, k);
    MulLe(g.csize, 0, g.nFatent - 2);
  }

  /** The scan's position moves by one entry. */
  lemma NextOffset(w: nat, k: nat, q: nat, i: nat)
    requires w == 2 || w == 4
    requires w * k == SS * q + i && i < SS && i % w == 0
    ensures var i2 := (i + w) % SS; i2 % w == 0 && w * (k + 1) == SS * (if i2 == 0 then q + 1 else q) + i2
    ensures (i + w) % SS != 0 ==> (i + w) % SS == i + w
  {
    MulStep(w, k);
  }

  /** Loads the next FAT sector of the raw scan. */
  method NextSector(fs: FatFs, sect: u32) returns (res: FResult)
    requires fs.Mounted() && fs.geo.InFirstFat(sect)
    modifies fs`wflag, fs`winsect, fs.drive, fs.win
    ensures fs.Mounted() && fs.Map() == old(fs.Map()) && Table(fs) == old(Table(fs))
    ensures FatOnly(fs.geo, old(Snap(fs)), Snap(fs))
    ensures res == FR_OK && fs.winsect == sect && sect < |fs.Map()| && fs.win[..] == fs.Map()[sect]
  {
    res := MoveWindow(fs, sect);
  }

  /** The scan of a FAT16/32 volume: every entry from number 0 on, straight from the window. */
  method ScanRaw(fs: FatFs) returns (res: FResult, nfree: u32)
    requires fs.Mounted() && fs.geo.fsType != FAT12
    modifies fs`wflag, fs`winsect, fs.drive, fs.win
    ensures fs.Mounted() && fs.Map() == old(fs.Map()) && Table(fs) == old(Table(fs))
    ensures FatOnly(fs.geo, old(Snap(fs)), Snap(fs))
    ensures res == FR_OK && nfree == ZerosBelow(Table(fs), fs.geo.nFatent)
  {
    hide FatFs.Mounted, Fat, FatOnly, Snap, FatFs.Map, Table, Geometry.Valid, Word, DWord;
    MountedFacts(fs);
    MountedValid(fs);
    SnapRefl(fs);
    ghost var s0, fat, m := Snap(fs), Table(fs), fs.Map();
    ghost var k, q := 0, 0;
    var w := if fs.geo.fsType == FAT16 then 2 else 4;
    res, nfree := FR_OK, 0;
    var clst, sect: int, i := fs.geo.nFatent, fs.geo.fatbase, 0;
    while clst > 0
      invariant 0 <= clst && clst == fs.geo.nFatent - k && k >= 0 && q >= 0
      invariant fs.Mounted() && fs.Map() == m && Table(fs) == fat && FatOnly(fs.geo, s0, Snap(fs)) && res == FR_OK
      invariant nfree == ZerosBelow(fat, k) <= k
      invariant w * k == SS * q + i && 0 <= i < SS && i % w == 0
      invariant sect == fs.geo.fatbase + q + if i == 0 then 0 else 1
      invariant i != 0 ==> fs.geo.fatbase + q < |m| && fs.win.Length == SS && fs.win[..] == m[fs.geo.fatbase + q]
    {
      MountedValid(fs);
      ScannedSector(fs.geo, k, w, q, i);
      if i == 0 {
        ghost var s1 := Snap(fs);
        res := NextSector(fs, sect);
        FatOnlyTrans(fs.geo, s0, s1, Snap(fs));
        sect := sect + 1;
        if res != FR_OK { break; }
      }
      TableOfMap(fs);
      ScannedEntry(fs.geo, m, k, w, q, i, fs.win[..]);
      var entry := if fs.geo.fsType == FAT16 then Word(fs.win[i], fs.win[i + 1])
                   else DWord(fs.win[i], fs.win[i + 1], fs.win[i + 2], fs.win[i + 3]) % 0x1000_0000;
      assert entry == fat[k];
      if entry == 0 { nfree := nfree + 1; }
      NextOffset(w, k, q, i);
      i := (i + w) % SS;
      k, q := k + 1, if i == 0 then q + 1 else q;
      clst := clst - 1;
    }
  }

  /** What a full scan counts. */
  function Scanned(t: FatType, fat: FatSeq): nat {
    if t == FAT12 then CountFree(fat) else ZerosBelow(fat, |fat|)
  }

  /** f_getfree. A known count is returned as it is. Otherwise the FAT is scanned and the count cached; the
      scan of a FAT16/32 volume also counts the two reserved entries. */
  method GetFree(fs: FatFs) returns (res: FResult, nclst: u32)
    requires fs.Mounted()
    modifies fs`wflag, fs`winsect, fs`freeClst, fs.drive, fs.win
    ensures fs.Mounted() && fs.Map() == old(fs.Map()) && Table(fs) == old(Table(fs))
    ensures FatOnly(fs.geo, old(Snap(fs)), Snap(fs))
    ensures res == FR_OK || (res == FR_INT_ERR && 1 in Table(fs))
    ensures res == FR_OK ==> nclst == fs.freeClst
    ensures res == FR_OK ==> nclst == if old(fs.freeClst) <= fs.geo.nFatent - 2 then old(fs.freeClst)
                                      else Scanned(fs.geo.fsType, Table(fs))
    ensures res != FR_OK ==> fs.freeClst == old(fs.freeClst)
  {
    hide FatFs.Mounted, Fat, FatOnly, Snap, FatFs.Map, Table;
    MountedFacts(fs);
    SnapRefl(fs);
    if fs.freeClst <= fs.geo.nFatent - 2 {
      return FR_OK, fs.freeClst;
    }
    var nfree: u32;
    if fs.geo.fsType == FAT12 {
      res, nfree := ScanPacked(fs);
    } else {
      res, nfree := ScanRaw(fs);
    }
    nclst := nfree;
    if res == FR_OK {
      fs.freeClst := nfree;
    }
  }

  /** The scanned count is the number of free clusters exactly when the scan is the FAT12 one or neither
      reserved entry is zero, as the format demands of them. */
  lemma ScanIsExact(t: FatType, fat: FatSeq)
    requires |fat| >= 2
    ensures Scanned(t, fat) == CountFree(fat) <==> t == FAT12 || (fat[0] != 0 && fat[1] != 0)
  {
    ZerosAndFree(fat, |fat|);
  }

  /** A FAT16 volume of two clusters whose first reserved entry is zero: the scan counts two free clusters, there is one. */
  lemma ScanFooled()
    ensures var fat: FatSeq := [0, 0xFFFF, 5, 0]; Scanned(FAT16, fat) == 2 && CountFree(fat) == 1
  {
    var fat: FatSeq := [0, 0xFFFF, 5, 0];
    assert ZerosBelow(fat, 2) == 1 && FreeBelow(fat, 2) == 0;
    assert ZerosBelow(fat, 3) == 1 && FreeBelow(fat, 3) == 0;
  }
}
