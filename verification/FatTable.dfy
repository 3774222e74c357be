/** The packed FAT12/16/32 entry array, read and written through the window (get_fat, put_fat).
    Bit masks of the C code are written as remainders and quotients by powers of two. */
module FatTable {
  import opened Arith
  import opened Bytes
  import opened VolumeGeometry
  import opened Window

  /** A sector map big enough for the volume. */
  ghost predicate Fits(g: Geometry, m: seq<Sector>) {
    g.Valid() && g.EndOfData() <= |m|
  }

  /** Byte b of the first FAT. */
  function FatByte(g: Geometry, m: seq<Sector>, b: nat): byte
    requires Fits(g, m) && b < g.fsize * SS
  {
    m[g.fatbase + b / SS][b % SS]
  }

  /** Value of entry c, by the format's definition (FAT specification 1.03, "FAT Data Structure"). */
  function Entry(g: Geometry, m: seq<Sector>, c: nat): (v: u32)
    requires Fits(g, m) && c < g.nFatent
    ensures v <= EocMark(g.fsType)
  {
    EntryInTable(g, c);
    match g.fsType
    case FAT12 =>
      var wc := Word(FatByte(g, m, c + c / 2), FatByte(g, m, c + c / 2 + 1));
      if c % 2 == 1 then wc / 0x10 else wc % 0x1000
    case FAT16 => Word(FatByte(g, m, 2 * c), FatByte(g, m, 2 * c + 1))
    case FAT32 => RawEntry32(g, m, c) % 0x1000_0000
  }

  /** A FAT32 entry with its four reserved bits. */
  function RawEntry32(g: Geometry, m: seq<Sector>, c: nat): u32
    requires Fits(g, m) && g.fsType == FAT32 && c < g.nFatent
  {
    EntryInTable(g, c);
    DWord(FatByte(g, m, 4 * c), FatByte(g, m, 4 * c + 1), FatByte(g, m, 4 * c + 2), FatByte(g, m, 4 * c + 3))
  }

  /** The FAT as an integer array. */
  function Fat(g: Geometry, m: seq<Sector>): (fat: seq<u32>)
    requires Fits(g, m)
    ensures |fat| == g.nFatent
  {
    seq(g.nFatent, c requires 0 <= c < g.nFatent => Entry(g, m, c))
  }

  /** The FAT of a mounted volume. */
  ghost function Table(fs: FatFs): (fat: seq<u32>)
    requires fs.Mounted()
    reads fs`winsect, fs`wflag, fs.drive, fs.win
    ensures |fat| == fs.geo.nFatent
  {
    Fat(fs.geo, fs.Map())
  }

  lemma MountedValid(fs: FatFs)
    requires fs.Mounted()
    ensures fs.geo.Valid() && fs.win.Length == SS && Fits(fs.geo, fs.Map())
  {
  }

  lemma TableOfMap(fs: FatFs)
    requires fs.Mounted()
    ensures Fits(fs.geo, fs.Map()) && Table(fs) == Fat(fs.geo, fs.Map())
  {
  }

  /** What a step on a volume may be seen to do: its sector map, its disk, where the window is. */
  datatype Snapshot = Snapshot(sects: seq<Sector>, disk: seq<Sector>, winsect: u32)

  ghost function Snap(fs: FatFs): Snapshot
    requires fs.Mounted()
    reads fs`winsect, fs`wflag, fs.drive, fs.win
  {
    Snapshot(fs.Map(), fs.drive.sectors, fs.winsect)
  }

  /** A step that touches nothing but the FAT: logical sectors outside it stay, equal FAT copies on the disk
      stay equal, disk sectors of the data area stay (but for a flush of the window), the window moves into
      the FAT or not at all, and FAT32 reserved bits stay. */
  ghost predicate FatOnly(g: Geometry, s: Snapshot, t: Snapshot) {
    && Fits(g, s.sects) && OutsideFatKept(g, s.sects, t.sects)
    && (Mirrored(g, s.disk) ==> Mirrored(g, t.disk))
    && DataKept(g, s.disk, t.disk, s.winsect)
    && (t.winsect == s.winsect || g.InFirstFat(t.winsect))
    && ReservedKept(g, s.sects, t.sects)
  }

  ghost predicate ReservedKept(g: Geometry, m: seq<Sector>, m2: seq<Sector>)
    requires Fits(g, m) && |m2| == |m|
  {
    g.fsType == FAT32 ==> forall d | 0 <= d < g.nFatent ::
      RawEntry32(g, m2, d) / 0x1000_0000 == RawEntry32(g, m, d) / 0x1000_0000
  }

  lemma FatOnlyRefl(g: Geometry, s: Snapshot)
    requires Fits(g, s.sects)
    ensures FatOnly(g, s, s)
  {
  }

  lemma FatOnlyTrans(g: Geometry, s: Snapshot, t: Snapshot, u: Snapshot)
    requires FatOnly(g, s, t) && FatOnly(g, t, u)
    ensures FatOnly(g, s, u)
  {
    hide RawEntry32;
  }

  /** All bits of an entry set: 0xFFFFFFFF as put_fat stores it. */
  function EocMark(t: FatType): u32 {
    match t
    case FAT12 => 0xFFF
    case FAT16 => 0xFFFF
    case FAT32 => 0x0FFF_FFFF
  }

  /** A value cut to the width of an entry. */
  function Masked(t: FatType, val: u32): (v: u32)
    ensures v <= EocMark(t)
    ensures val == ALL_ONES ==> v == EocMark(t)
    ensures val <= EocMark(t) ==> v == val
  {
    match t
    case FAT12 => val % 0x1000
    case FAT16 => val % 0x1_0000
    case FAT32 => val % 0x1000_0000
  }

  /** m2 differs from m in FAT bytes lo..hi and in FAT sectors only. */
  ghost predicate FatStep(g: Geometry, m: seq<Sector>, m2: seq<Sector>, lo: nat, hi: nat) {
    && Fits(g, m) && |m2| == |m|
    && (forall b | 0 <= b < g.fsize * SS && !(lo <= b < hi) :: FatByte(g, m2, b) == FatByte(g, m, b))
    && OutsideFatKept(g, m, m2)
  }

  ghost predicate OutsideFatKept(g: Geometry, m: seq<Sector>, m2: seq<Sector>) {
    |m2| == |m| && forall s | 0 <= s < |m| && !g.InFirstFat(s) && !g.InSecondFat(s) :: m2[s] == m[s]
  }

  /** Storing bytes lo..hi of the FAT in a window that shows their sector. */
  lemma StoreInWindow(g: Geometry, sectors: seq<Sector>, dirty: bool, sec: u32, win: Sector, win2: Sector, lo: nat, hi: nat)
    requires Fits(g, sectors)
    requires sec == g.fatbase + lo / SS && lo < hi <= g.fsize * SS && (hi - 1) / SS == lo / SS
    requires dirty || win == sectors[sec]
    requires forall i | 0 <= i < SS && !(lo % SS <= i < lo % SS + hi - lo) :: win2[i] == win[i]
    ensures var m, m2 := Overlay(g, sectors, dirty, sec, win), Overlay(g, sectors, true, sec, win2);
            FatStep(g, m, m2, lo, hi) && forall b | lo <= b < hi :: FatByte(g, m2, b) == win2[b % SS]
  {
    var m, m2 := Overlay(g, sectors, dirty, sec, win), Overlay(g, sectors, true, sec, win2);
    assert m2[sec] == win2 && m[sec] == win;
    assert forall s | 0 <= s < |m| && s != sec && !g.InSecondFat(s) :: m2[s] == m[s];
    hide Overlay, FatByte;
    forall b | 0 <= b < g.fsize * SS
      ensures if lo <= b < hi then FatByte(g, m2, b) == win2[b % SS] else FatByte(g, m2, b) == FatByte(g, m, b)
    {
      StoredByte(g, m, m2, sec, win, win2, lo, hi, b);
    }
  }

  /** Byte b after the store. */
  lemma StoredByte(g: Geometry, m: seq<Sector>, m2: seq<Sector>, sec: u32, win: Sector, win2: Sector, lo: nat, hi: nat, b: nat)
    requires Fits(g, m) && |m2| == |m| && sec < |m| && b < g.fsize * SS
    requires sec == g.fatbase + lo / SS && lo < hi <= g.fsize * SS && (hi - 1) / SS == lo / SS
    requires m2[sec] == win2 && m[sec] == win && forall s | 0 <= s < |m| && s != sec && !g.InSecondFat(s) :: m2[s] == m[s]
    requires forall i | 0 <= i < SS && !(lo % SS <= i < lo % SS + hi - lo) :: win2[i] == win[i]
    ensures if lo <= b < hi then FatByte(g, m2, b) == win2[b % SS] else FatByte(g, m2, b) == FatByte(g, m, b)
  {
    assert 0 <= b / SS < g.fsize;
    if b / SS == lo / SS {
      DivMod(b, SS);
      DivMod(lo, SS);
    }
  }

  /** A window move seen from outside. */
  twostate predicate Moved(fs: FatFs)
    requires old(fs.Mounted())
    reads fs`winsect, fs`wflag, fs.drive, fs.win
  {
    fs.Mounted() && fs.Map() == old(fs.Map()) && FatOnly(fs.geo, old(Snap(fs)), Snap(fs))
  }

  /** Bytes near b, in the same sector. */
  lemma FatByteNear(g: Geometry, m: seq<Sector>, b: nat, k: nat)
    requires Fits(g, m) && b + k < g.fsize * SS && b % SS + k < SS
    ensures FatByte(g, m, b + k) == m[g.fatbase + b / SS][b % SS + k]
  {
    ModUnique(b + k, SS, b / SS, b % SS + k);
  }

  /** Moves the window to the sector of FAT byte b. */
  method ShowFatByte(fs: FatFs, b: u32) returns (res: FResult)
    requires fs.Mounted() && b < fs.geo.fsize * SS
    modifies fs`wflag, fs`winsect, fs.drive, fs.win
    ensures Moved(fs)
    ensures res == FR_OK && fs.winsect == fs.geo.fatbase + b / SS && fs.geo.InFirstFat(fs.winsect)
    ensures fs.win[..] == fs.Map()[fs.winsect]
  {
    assert 0 <= b / SS < fs.geo.fsize;
    hide FatFs.Mounted, FatFs.Map;
    res := ShowFatSector(fs, b / SS);
  }

  /** A FAT12 entry as read from the one or two sectors that hold its bytes. */
  lemma Entry12InSectors(g: Geometry, m: seq<Sector>, c: nat, b0: byte, b1: byte)
    requires Fits(g, m) && g.fsType == FAT12 && c < g.nFatent && c + c / 2 + 1 < g.fsize * SS
    requires b0 == m[g.fatbase + (c + c / 2) / SS][(c + c / 2) % SS]
    requires b1 == m[g.fatbase + (c + c / 2 + 1) / SS][(c + c / 2 + 1) % SS]
    ensures Entry(g, m, c) == if c % 2 == 1 then Word(b0, b1) / 0x10 else Word(b0, b1) % 0x1000
  {
    assert b0 == FatByte(g, m, c + c / 2) && b1 == FatByte(g, m, c + c / 2 + 1);
  }

  lemma MountedFits(fs: FatFs)
    requires fs.Mounted()
    ensures Fits(fs.geo, fs.Map()) && fs.win.Length == SS
  {
  }

  method GetFat12(fs: FatFs, clst: u32) returns (val: u32)
    requires fs.Mounted() && fs.geo.IsCluster(clst) && fs.geo.fsType == FAT12
    modifies fs`wflag, fs`winsect, fs.drive, fs.win
    ensures Moved(fs)
    ensures val == Entry(fs.geo, fs.Map(), clst)
  {
    hide FatOnly, Entry, Word, FatFs.Map;
    EntryInTable(fs.geo, clst);
    MountedFits(fs);
    hide FatFs.Mounted, Fits;
    ghost var s0 := Snap(fs);
    var bc := clst + clst / 2;
    var res := ShowFatByte(fs, bc);
    if res != FR_OK { return ALL_ONES; }
    var b0 := fs.win[bc % SS];
    bc := bc + 1;
    ghost var s1 := Snap(fs);
    res := ShowFatByte(fs, bc);
    FatOnlyTrans(fs.geo, s0, s1, Snap(fs));
    if res != FR_OK { return ALL_ONES; }
    var b1 := fs.win[bc % SS];
    val := if clst % 2 == 1 then Word(b0, b1) / 0x10 else Word(b0, b1) % 0x1000;
    Entry12InSectors(fs.geo, fs.Map(), clst, b0, b1);
  }

  /** Moves the window to entry clst of an array of w-byte entries that does not straddle sectors;
      the entry starts at byte p of the window. */
  method ShowEntry(fs: FatFs, clst: u32, w: nat) returns (res: FResult, p: nat)
    requires fs.Mounted() && (w == 2 || w == 4) && w * clst + w <= fs.geo.fsize * SS
    modifies fs`wflag, fs`winsect, fs.drive, fs.win
    ensures Moved(fs)
    ensures res == FR_OK && fs.geo.InFirstFat(fs.winsect) && fs.winsect == fs.geo.fatbase + w * clst / SS
    ensures p == w * clst % SS && p + w <= SS
    ensures fs.win[..] == fs.Map()[fs.winsect]
  {
    EntryPlace(clst, w, fs.geo.fsize);
    p := w * clst % SS;
    res := ShowFatSector(fs, clst / (SS / w));
  }

  /** Where entry c of width w begins. */
  lemma EntryPlace(c: nat, w: nat, fsize: nat)
    requires (w == 2 || w == 4) && w * c + w <= fsize * SS
    ensures 0 <= c / (SS / w) == w * c / SS < fsize && 0 <= w * c % SS <= SS - w
  {
    Scaled(c, w, SS / w);
  }

  /** Moves the window to sector k of the first FAT. */
  method ShowFatSector(fs: FatFs, k: nat) returns (res: FResult)
    requires fs.Mounted() && k < fs.geo.fsize
    modifies fs`wflag, fs`winsect, fs.drive, fs.win
    ensures Moved(fs)
    ensures res == FR_OK && fs.winsect == fs.geo.fatbase + k && fs.geo.InFirstFat(fs.winsect)
    ensures fs.win[..] == fs.Map()[fs.winsect]
  {
    hide Overlay;
    res := MoveWindow(fs, fs.geo.fatbase + k);
  }

  /** Entry c as read from the sector that holds it. */
  lemma Entry16InSector(g: Geometry, m: seq<Sector>, c: nat, sec: Sector, p: nat)
    requires Fits(g, m) && g.fsType == FAT16 && c < g.nFatent && 2 * c + 2 <= g.fsize * SS
    requires p == 2 * c % SS && p + 2 <= SS && sec == m[g.fatbase + 2 * c / SS]
    ensures Entry(g, m, c) == Word(sec[p], sec[p + 1])
  {
    FatByteNear(g, m, 2 * c, 0);
    FatByteNear(g, m, 2 * c, 1);
  }

  lemma Entry32InSector(g: Geometry, m: seq<Sector>, c: nat, sec: Sector, p: nat)
    requires Fits(g, m) && g.fsType == FAT32 && c < g.nFatent && 4 * c + 4 <= g.fsize * SS
    requires p == 4 * c % SS && p + 4 <= SS && sec == m[g.fatbase + 4 * c / SS]
    ensures RawEntry32(g, m, c) == DWord(sec[p], sec[p + 1], sec[p + 2], sec[p + 3])
  {
    FatByteNear(g, m, 4 * c, 0);
    FatByteNear(g, m, 4 * c, 1);
    FatByteNear(g, m, 4 * c, 2);
    FatByteNear(g, m, 4 * c, 3);
  }

  method GetFat16(fs: FatFs, clst: u32) returns (val: u32)
    requires fs.Mounted() && fs.geo.IsCluster(clst) && fs.geo.fsType == FAT16
    modifies fs`wflag, fs`winsect, fs.drive, fs.win
    ensures Moved(fs)
    ensures val == Entry(fs.geo, fs.Map(), clst)
  {
    EntryInTable(fs.geo, clst);
    var res, p := ShowEntry(fs, clst, 2);
    if res != FR_OK { return ALL_ONES; }
    val := Word(fs.win[p], fs.win[p + 1]);
    Entry16InSector(fs.geo, fs.Map(), clst, fs.win[..], p);
  }

  method GetFat32(fs: FatFs, clst: u32) returns (val: u32)
    requires fs.Mounted() && fs.geo.IsCluster(clst) && fs.geo.fsType == FAT32
    modifies fs`wflag, fs`winsect, fs.drive, fs.win
    ensures Moved(fs)
    ensures val == Entry(fs.geo, fs.Map(), clst)
  {
    EntryInTable(fs.geo, clst);
    var res, p := ShowEntry(fs, clst, 4);
    if res != FR_OK { return ALL_ONES; }
    val := DWord(fs.win[p], fs.win[p + 1], fs.win[p + 2], fs.win[p + 3]) % 0x1000_0000;
    Entry32InSector(fs.geo, fs.Map(), clst, fs.win[..], p);
  }

  /** get_fat: the entry, or 1 for a number that is not a cluster. */
  method GetFat(fs: FatFs, clst: u32) returns (val: u32)
    requires fs.Mounted()
    modifies fs`wflag, fs`winsect, fs.drive, fs.win
    ensures fs.Mounted() && fs.Map() == old(fs.Map()) && Table(fs) == old(Table(fs))
    ensures FatOnly(fs.geo, old(Snap(fs)), Snap(fs))
    ensures val == (if fs.geo.IsCluster(clst) then Table(fs)[clst] else 1) && val < ALL_ONES
  {
    if clst < 2 || clst >= fs.geo.nFatent {
      FatOnlyRefl(fs.geo, Snap(fs));
      return 1;
    }
    match fs.geo.fsType
    case FAT12 => val := GetFat12(fs, clst);
    case FAT16 => val := GetFat16(fs, clst);
    case FAT32 => val := GetFat32(fs, clst);
  }

  /** What a successful put_fat does to the sector map: one entry of the FAT changes, to the value cut to the
      entry's width; FAT32 reserved bits and all sectors outside the FAT copies stay. */
  ghost predicate PutSpec(g: Geometry, m: seq<Sector>, m2: seq<Sector>, c: nat, val: u32)
    requires Fits(g, m) && c < g.nFatent
  {
    && OutsideFatKept(g, m, m2)
    && Fat(g, m2) == Fat(g, m)[c := Masked(g.fsType, val)]
    && ReservedKept(g, m, m2)
  }

  /** An entry none of whose bytes changed. */
  lemma EntryFrame(g: Geometry, m: seq<Sector>, m2: seq<Sector>, lo: nat, hi: nat, d: nat)
    requires d < g.nFatent && FatStep(g, m, m2, lo, hi)
    requires g.fsType == FAT12 ==> !(lo <= d + d / 2 < hi) && !(lo <= d + d / 2 + 1 < hi)
    requires g.fsType == FAT16 ==> 2 * d + 2 <= lo || hi <= 2 * d
    requires g.fsType == FAT32 ==> 4 * d + 4 <= lo || hi <= 4 * d
    ensures Entry(g, m2, d) == Entry(g, m, d)
    ensures g.fsType == FAT32 ==> RawEntry32(g, m2, d) == RawEntry32(g, m, d)
  {
    EntryInTable(g, d);
  }

  lemma Put16FromStep(g: Geometry, m: seq<Sector>, m2: seq<Sector>, c: nat, val: u32)
    requires Fits(g, m) && g.fsType == FAT16 && c < g.nFatent && FatStep(g, m, m2, 2 * c, 2 * c + 2)
    requires Entry(g, m2, c) == Masked(g.fsType, val)
    ensures PutSpec(g, m, m2, c, val)
  {
    forall d: nat | d < g.nFatent && d != c ensures Fat(g, m2)[d] == Fat(g, m)[d] {
      EntryFrame(g, m, m2, 2 * c, 2 * c + 2, d);
    }
  }

  lemma Put32FromStep(g: Geometry, m: seq<Sector>, m2: seq<Sector>, c: nat, val: u32)
    requires Fits(g, m) && g.fsType == FAT32 && c < g.nFatent && FatStep(g, m, m2, 4 * c, 4 * c + 4)
    requires RawEntry32(g, m2, c) == KeepTop(RawEntry32(g, m, c), val)
    ensures PutSpec(g, m, m2, c, val)
  {
    forall d: nat | d < g.nFatent && d != c
      ensures Fat(g, m2)[d] == Fat(g, m)[d] && RawEntry32(g, m2, d) == RawEntry32(g, m, d)
    {
      EntryFrame(g, m, m2, 4 * c, 4 * c + 4, d);
    }
  }

  /** The window's new image after storing w bytes of the FAT from byte lo. */
  lemma StoreEntry(g: Geometry, sectors: seq<Sector>, dirty: bool, sec: u32, win: Sector, win2: Sector, lo: nat, w: nat, p: nat)
    requires Fits(g, sectors) && lo + w <= g.fsize * SS && 0 < w
    requires sec == g.fatbase + lo / SS && p == lo % SS && p + w <= SS
    requires dirty || win == sectors[sec]
    requires forall i | 0 <= i < SS && !(p <= i < p + w) :: win2[i] == win[i]
    ensures var m, m2 := Overlay(g, sectors, dirty, sec, win), Overlay(g, sectors, true, sec, win2);
            FatStep(g, m, m2, lo, lo + w) && m2[sec] == win2 && m[sec] == win
  {
    ModUnique(lo + w - 1, SS, lo / SS, p + w - 1);
    StoreInWindow(g, sectors, dirty, sec, win, win2, lo, lo + w);
  }

  /** put_fat's effect seen from outside. */
  twostate predicate Put(fs: FatFs, clst: u32, val: u32)
    requires old(fs.Mounted()) && clst < fs.geo.nFatent
    reads fs`winsect, fs`wflag, fs.drive, fs.win
  {
    && fs.Mounted() && PutSpec(fs.geo, old(fs.Map()), fs.Map(), clst, val)
    && FatOnly(fs.geo, old(Snap(fs)), Snap(fs))
  }

  method PutFat16(fs: FatFs, clst: u32, val: u32) returns (res: FResult)
    requires fs.Mounted() && fs.geo.IsCluster(clst) && fs.geo.fsType == FAT16
    modifies fs`wflag, fs`winsect, fs.drive, fs.win
    ensures res == FR_OK && Put(fs, clst, val)
  {
    EntryInTable(fs.geo, clst);
    var p;
    res, p := ShowEntry(fs, clst, 2);
    if res != FR_OK { return; }
    ghost var m, win, dirty := fs.Map(), fs.win[..], fs.wflag;
    fs.win[p], fs.win[p + 1] := ByteOf(val, 0), ByteOf(val, 1);
    fs.wflag := true;
    StoreEntry(fs.geo, fs.drive.sectors, dirty, fs.winsect, win, fs.win[..], 2 * clst, 2, p);
    StoreLoadWord(val);
    Entry16InSector(fs.geo, fs.Map(), clst, fs.win[..], p);
    Put16FromStep(fs.geo, m, fs.Map(), clst, val);
  }

  method PutFat32(fs: FatFs, clst: u32, val: u32) returns (res: FResult)
    requires fs.Mounted() && fs.geo.IsCluster(clst) && fs.geo.fsType == FAT32
    modifies fs`wflag, fs`winsect, fs.drive, fs.win
    ensures res == FR_OK && Put(fs, clst, val)
  {
    hide PutSpec, FatStep, ByteOf, DWord, KeepTop, Overlay, Masked;
    EntryInTable(fs.geo, clst);
    var p;
    res, p := ShowEntry(fs, clst, 4);
    if res != FR_OK { return; }
    ghost var m, win := fs.Map(), fs.win[..];
    var v := KeepTop(DWord(fs.win[p], fs.win[p + 1], fs.win[p + 2], fs.win[p + 3]), val);
    PokeFatDWord(fs, 4 * clst, p, v);
    Put32FromStore(fs.geo, m, fs.Map(), clst, val, v, win, fs.win[..], p);
  }

  /** Stores v at byte b of the FAT in the window that shows it. */
  method PokeFatDWord(fs: FatFs, ghost b: nat, p: nat, v: u32)
    requires fs.Mounted() && b + 4 <= fs.geo.fsize * SS && fs.winsect == fs.geo.fatbase + b / SS && p == b % SS && p + 4 <= SS
    modifies fs`wflag, fs.win
    ensures fs.Mounted() && FatStep(fs.geo, old(fs.Map()), fs.Map(), b, b + 4) && fs.Map()[fs.winsect] == fs.win[..]
    ensures fs.win[p] == ByteOf(v, 0) && fs.win[p + 1] == ByteOf(v, 1) && fs.win[p + 2] == ByteOf(v, 2) && fs.win[p + 3] == ByteOf(v, 3)
  {
    hide ByteOf, FatStep;
    ghost var win, dirty := fs.win[..], fs.wflag;
    fs.win[p], fs.win[p + 1], fs.win[p + 2], fs.win[p + 3] := ByteOf(v, 0), ByteOf(v, 1), ByteOf(v, 2), ByteOf(v, 3);
    fs.wflag := true;
    assert 0 <= b / SS < fs.geo.fsize;
    StoreEntry(fs.geo, fs.drive.sectors, dirty, fs.winsect, win, fs.win[..], b, 4, p);
  }

  lemma Put32FromStore(g: Geometry, m: seq<Sector>, m2: seq<Sector>, c: nat, val: u32, v: u32, win: Sector, win2: Sector, p: nat)
    requires Fits(g, m) && g.fsType == FAT32 && c < g.nFatent && 4 * c + 4 <= g.fsize * SS
    requires FatStep(g, m, m2, 4 * c, 4 * c + 4)
    requires p == 4 * c % SS && p + 4 <= SS && win == m[g.fatbase + 4 * c / SS] && win2 == m2[g.fatbase + 4 * c / SS]
    requires v == KeepTop(DWord(win[p], win[p + 1], win[p + 2], win[p + 3]), val)
    requires win2[p] == ByteOf(v, 0) && win2[p + 1] == ByteOf(v, 1) && win2[p + 2] == ByteOf(v, 2) && win2[p + 3] == ByteOf(v, 3)
    ensures PutSpec(g, m, m2, c, val)
  {
    Entry32InSector(g, m, c, win, p);
    Entry32InSector(g, m2, c, win2, p);
    StoreLoadDWord(v);
    Put32FromStep(g, m, m2, c, val);
  }

  /** (val & 0x0FFFFFFF) | (raw & 0xF0000000) */
  function KeepTop(raw: u32, val: u32): (v: u32)
    ensures v % 0x1000_0000 == val % 0x1000_0000 && v / 0x1000_0000 == raw / 0x1000_0000
  {
    val % 0x1000_0000 + raw / 0x1000_0000 * 0x1000_0000
  }

  /** First byte of a FAT12 entry with value val over the old byte x. */
  function Low12(odd: bool, x: byte, val: u32): byte {
    if odd then x % 0x10 + val % 0x10 * 0x10 else val % 0x100
  }

  /** Second byte of a FAT12 entry with value val over the old byte y. */
  function High12(odd: bool, y: byte, val: u32): byte {
    if odd then val / 0x10 % 0x100 else y / 0x10 * 0x10 + val / 0x100 % 0x10
  }

  /** The two stored bytes hold the entry, and the half byte of the neighbour stays. */
  lemma Pack12(odd: bool, x: byte, y: byte, val: u32)
    ensures var w := Word(Low12(odd, x, val), High12(odd, y, val));
            (if odd then w / 0x10 else w % 0x1000) == val % 0x1000
    ensures odd ==> Low12(odd, x, val) % 0x10 == x % 0x10
    ensures !odd ==> High12(odd, y, val) / 0x10 == y / 0x10
  {
    if odd {
      var h := val / 0x10;
      assert val == 0x10 * h + val % 0x10 && h == 0x100 * (h / 0x100) + h % 0x100;
      ModUnique(val, 0x1000, h / 0x100, val % 0x10 + 0x10 * (h % 0x100));
      ModUnique(Word(Low12(odd, x, val), h % 0x100), 0x10, val % 0x1000, x % 0x10);
      ModUnique(Low12(odd, x, val), 0x10, val % 0x10, x % 0x10);
    } else {
      var h := val / 0x100;
      assert val == 0x100 * h + val % 0x100 && h == 0x10 * (h / 0x10) + h % 0x10;
      ModUnique(val, 0x1000, h / 0x10, val % 0x100 + 0x100 * (h % 0x10));
      ModUnique(Word(val % 0x100, High12(odd, y, val)), 0x1000, y / 0x10, val % 0x1000);
      ModUnique(High12(odd, y, val), 0x10, y / 0x10, h % 0x10);
    }
  }

  /** Half of a word does not depend on the other half byte. */
  lemma Halves12(b0: byte, b1: byte)
    ensures Word(b0, b1) / 0x10 == b0 / 0x10 + 0x10 * b1
    ensures Word(b0, b1) % 0x1000 == b0 + 0x100 * (b1 % 0x10)
  {
    ModUnique(Word(b0, b1), 0x10, b0 / 0x10 + 0x10 * b1, b0 % 0x10);
    ModUnique(Word(b0, b1), 0x1000, b1 / 0x10, b0 + 0x100 * (b1 % 0x10));
  }

  /** Two byte stores make the new entry and keep every other one. */
  lemma Put12FromSteps(g: Geometry, m: seq<Sector>, m1: seq<Sector>, m2: seq<Sector>, c: nat, bc: nat, val: u32)
    requires Fits(g, m) && g.fsType == FAT12 && c < g.nFatent && bc == c + c / 2 && bc + 1 < g.fsize * SS
    requires FatStep(g, m, m1, bc, bc + 1) && FatByte(g, m1, bc) == Low12(c % 2 == 1, FatByte(g, m, bc), val)
    requires FatStep(g, m1, m2, bc + 1, bc + 2) && FatByte(g, m2, bc + 1) == High12(c % 2 == 1, FatByte(g, m1, bc + 1), val)
    ensures PutSpec(g, m, m2, c, val)
  {
    Pack12(c % 2 == 1, FatByte(g, m, bc), FatByte(g, m, bc + 1), val);
    assert Entry(g, m2, c) == val % 0x1000;
    forall d: nat | d < g.nFatent && d != c ensures Fat(g, m2)[d] == Fat(g, m)[d] {
      Keep12(g, m, m1, m2, c, bc, val, d);
    }
  }

  lemma Keep12(g: Geometry, m: seq<Sector>, m1: seq<Sector>, m2: seq<Sector>, c: nat, bc: nat, val: u32, d: nat)
    requires Fits(g, m) && g.fsType == FAT12 && c < g.nFatent && bc == c + c / 2 && bc + 1 < g.fsize * SS
    requires FatStep(g, m, m1, bc, bc + 1) && FatByte(g, m1, bc) == Low12(c % 2 == 1, FatByte(g, m, bc), val)
    requires FatStep(g, m1, m2, bc + 1, bc + 2) && FatByte(g, m2, bc + 1) == High12(c % 2 == 1, FatByte(g, m1, bc + 1), val)
    requires d < g.nFatent && d != c
    ensures Entry(g, m2, d) == Entry(g, m, d)
  {
    EntryInTable(g, d);
    Pack12(c % 2 == 1, FatByte(g, m, bc), FatByte(g, m, bc + 1), val);
    var db := d + d / 2;
    if c % 2 == 1 && d == c - 1 {
      assert db + 1 == bc;
      Halves12(FatByte(g, m, db), FatByte(g, m, bc));
      Halves12(FatByte(g, m2, db), FatByte(g, m2, bc));
    } else if c % 2 == 0 && d == c + 1 {
      assert db == bc + 1;
      Halves12(FatByte(g, m, db), FatByte(g, m, db + 1));
      Halves12(FatByte(g, m2, db), FatByte(g, m2, db + 1));
    } else {
      EntryFrame(g, m, m1, bc, bc + 1, d);
      EntryFrame(g, m1, m2, bc + 1, bc + 2, d);
    }
  }

  /** Stores v as byte b of the FAT in the window that shows it. */
  method PokeFatByte(fs: FatFs, b: u32, v: byte)
    requires fs.Mounted() && b < fs.geo.fsize * SS && fs.winsect == fs.geo.fatbase + b / SS
    modifies fs`wflag, fs.win
    ensures fs.Mounted() && FatStep(fs.geo, old(fs.Map()), fs.Map(), b, b + 1) && FatByte(fs.geo, fs.Map(), b) == v
  {
    ghost var m, win, dirty := fs.Map(), fs.win[..], fs.wflag;
    assert 0 <= b / SS < fs.geo.fsize;
    fs.win[b % SS] := v;
    fs.wflag := true;
    StoreEntry(fs.geo, fs.drive.sectors, dirty, fs.winsect, win, fs.win[..], b, 1, b % SS);
  }

  /** Read-modify-write of one of the two bytes of a FAT12 entry. */
  method PutByte12(fs: FatFs, b: u32, odd: bool, high: bool, val: u32) returns (res: FResult)
    requires fs.Mounted() && b < fs.geo.fsize * SS
    modifies fs`wflag, fs`winsect, fs.drive, fs.win
    ensures res == FR_OK && fs.Mounted() && FatStep(fs.geo, old(fs.Map()), fs.Map(), b, b + 1)
    ensures FatByte(fs.geo, fs.Map(), b) ==
            var x := FatByte(fs.geo, old(fs.Map()), b); if high then High12(odd, x, val) else Low12(odd, x, val)
    ensures fs.geo.InFirstFat(fs.winsect)
    ensures old(Mirrored(fs.geo, fs.drive.sectors)) ==> Mirrored(fs.geo, fs.drive.sectors)
    ensures DataKept(fs.geo, old(fs.drive.sectors), fs.drive.sectors, old(fs.winsect))
  {
    res := ShowFatByte(fs, b);
    if res != FR_OK { return; }
    var x := fs.win[b % SS];
    assert x == FatByte(fs.geo, fs.Map(), b);
    PokeFatByte(fs, b, if high then High12(odd, x, val) else Low12(odd, x, val));
  }

  method PutFat12(fs: FatFs, clst: u32, val: u32) returns (res: FResult)
    requires fs.Mounted() && fs.geo.IsCluster(clst) && fs.geo.fsType == FAT12
    modifies fs`wflag, fs`winsect, fs.drive, fs.win
    ensures res == FR_OK && Put(fs, clst, val)
  {
    hide FatStep, PutSpec, FatOnly, FatByte, Low12, High12, Overlay, Mirrored, DataKept;
    EntryInTable(fs.geo, clst);
    MountedFits(fs);
    ghost var s0 := Snap(fs);
    var bc := clst + clst / 2;
    res := PutByte12(fs, bc, clst % 2 == 1, false, val);
    if res != FR_OK { return; }
    ghost var s1 := Snap(fs);
    res := PutByte12(fs, bc + 1, clst % 2 == 1, true, val);
    Put12FromSteps(fs.geo, s0.sects, s1.sects, fs.Map(), clst, bc, val);
    PutIsFatOnly(fs.geo, s0, s1, Snap(fs), clst, val);
  }

  /** Two steps on the FAT that make a put are a step on the FAT. */
  lemma PutIsFatOnly(g: Geometry, s0: Snapshot, s1: Snapshot, s2: Snapshot, c: nat, val: u32)
    requires Fits(g, s0.sects) && c < g.nFatent && PutSpec(g, s0.sects, s2.sects, c, val)
    requires (Mirrored(g, s0.disk) ==> Mirrored(g, s1.disk)) && (Mirrored(g, s1.disk) ==> Mirrored(g, s2.disk))
    requires DataKept(g, s0.disk, s1.disk, s0.winsect) && DataKept(g, s1.disk, s2.disk, s1.winsect)
    requires g.InFirstFat(s1.winsect) && g.InFirstFat(s2.winsect)
    ensures FatOnly(g, s0, s2)
  {
    hide Mirrored, Masked, Fat, RawEntry32;
  }

  /** put_fat: the entry takes the value cut to its width, every other entry keeps its own;
      a number that is not a cluster is refused. */
  method PutFat(fs: FatFs, clst: u32, val: u32) returns (res: FResult)
    requires fs.Mounted()
    modifies fs`wflag, fs`winsect, fs.drive, fs.win
    ensures fs.Mounted() && FatOnly(fs.geo, old(Snap(fs)), Snap(fs))
    ensures res == if fs.geo.IsCluster(clst) then FR_OK else FR_INT_ERR
    ensures Table(fs) ==
            if fs.geo.IsCluster(clst) then old(Table(fs))[clst := Masked(fs.geo.fsType, val)] else old(Table(fs))
  {
    if clst >= 2 && clst < fs.geo.nFatent {
      match fs.geo.fsType
      case FAT12 => res := PutFat12(fs, clst, val);
      case FAT16 => res := PutFat16(fs, clst, val);
      case FAT32 => res := PutFat32(fs, clst, val);
    } else {
      FatOnlyRefl(fs.geo, Snap(fs));
      res := FR_INT_ERR;
    }
  }
}
