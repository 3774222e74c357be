/** The rest of f_mkfs for FAT volumes: the FATs and the root directory of a new volume, and what mounting it finds. */
module NewVolume {
  import opened Alloc
  import opened Bytes
  import opened BootSector
  import opened Chains
  import opened Directory
  import opened DriveModel
  import opened FatTable
  import opened Format
  import opened FsInfo
  import opened VolumeGeometry
  import opened Window

  /** Byte i of a new FAT: marks in the first entries, then zeros. */
  function FirstByte(t: FatType, i: nat): byte {
    if i == 0 then 0xF8
    else if i < 3 then 0xFF
    else if t == FAT16 && i == 3 then 0xFF
    else if t == FAT32 && i < 11 then 0xFF
    else if t == FAT32 && i == 11 then 0x0F
    else 0
  }

  function FirstSector(t: FatType): (s: Sector)
    ensures forall i | 0 <= i < SS :: s[i] == FirstByte(t, i)
  {
    seq(SS, i requires 0 <= i < SS => FirstByte(t, i))
  }

  ghost predicate AllZero(b: seq<byte>) {
    forall i | 0 <= i < |b| :: b[i] == 0
  }

  lemma MarkBytes()
    ensures ByteOf(0xFFFF_FFF8, 0) == 0xF8 && ByteOf(0xFFFF_FFF8, 1) == ByteOf(0xFFFF_FFF8, 2) == ByteOf(0xFFFF_FFF8, 3) == 0xFF
    ensures ByteOf(0xFFFF_FFFF, 0) == ByteOf(0xFFFF_FFFF, 1) == ByteOf(0xFFFF_FFFF, 2) == ByteOf(0xFFFF_FFFF, 3) == 0xFF
    ensures ByteOf(0x0FFF_FFFF, 0) == ByteOf(0x0FFF_FFFF, 1) == ByteOf(0x0FFF_FFFF, 2) == 0xFF && ByteOf(0x0FFF_FFFF, 3) == 0x0F
    ensures ByteOf(0xFF_FFF8, 0) == 0xF8 && ByteOf(0xFF_FFF8, 1) == ByteOf(0xFF_FFF8, 2) == 0xFF && ByteOf(0xFF_FFF8, 3) == 0
  {
  }

  /** The marks, in a buffer of zeros. */
  method PutMarks(buf: array<byte>, t: FatType)
    requires buf.Length >= SS && AllZero(buf[..])
    modifies buf
    ensures forall i | 0 <= i < buf.Length :: buf[i] == FirstByte(t, i)
  {
    MarkBytes();
    hide ByteOf;
    if t == FAT32 {
      Bytes.StDWord(buf, 0, 0xFFFF_FFF8);
      Bytes.StDWord(buf, 4, 0xFFFF_FFFF);
      Bytes.StDWord(buf, 8, 0x0FFF_FFFF);
    } else {
      Bytes.StDWord(buf, 0, if t == FAT12 then 0xFF_FFF8 else 0xFFFF_FFF8);
    }
  }

  /** Sectors base, base + 1, ... have been written, done of them: first, then zeros. */
  ghost predicate Filled(was: seq<Sector>, now: seq<Sector>, base: nat, done: nat, first: Sector) {
    && |now| == |was| && base + done <= |was|
    && forall s | 0 <= s < |was| :: now[s] == if base <= s < base + done then (if s == base then first else ZeroSector()) else was[s]
  }

  /** A buffer whose first sector is first and whose rest is zero. */
  ghost predicate Buffer(b: seq<byte>, first: Sector) {
    |b| >= SS && b[..SS] == first && AllZero(b[SS..])
  }

  lemma FilledMore(was: seq<Sector>, mid: seq<Sector>, now: seq<Sector>, base: nat, done: nat, n: nat, first: Sector, b: seq<byte>)
    requires Filled(was, mid, base, done, first) && n >= 1 && base + done + n <= |was| && n * SS <= |b|
    requires Buffer(b, if done == 0 then first else ZeroSector()) && |now| == |mid|
    requires forall s | base + done <= s < base + done + n :: now[s] == Piece(b[..n * SS], s - (base + done))
    requires forall s | 0 <= s < |mid| && !(base + done <= s < base + done + n) :: now[s] == mid[s]
    ensures Filled(was, now, base, done + n, first)
  {
    forall s | base + done <= s < base + done + n ensures now[s] == if s == base then first else ZeroSector() {
      PieceOf(b, n, s - (base + done), if done == 0 then first else ZeroSector());
    }
  }

  lemma PieceOf(b: seq<byte>, n: nat, k: nat, first: Sector)
    requires Buffer(b, first) && k < n && n * SS <= |b|
    ensures Piece(b[..n * SS], k) == if k == 0 then first else ZeroSector()
  {
    var p := Piece(b[..n * SS], k);
    forall i | 0 <= i < SS ensures p[i] == (if k == 0 then first else ZeroSector())[i] {
      assert p[i] == b[k * SS + i];
      if k == 0 { assert b[..SS][i] == b[i]; } else { assert b[SS..][k * SS + i - SS] == b[k * SS + i]; }
    }
  }

  /** The loop that writes count sectors from a buffer whose first sector is cleared after its first use. */
  method FillSectors(drive: Drive, buf: array<byte>, szBuf: nat, base: u32, count: nat, ghost first: Sector) returns (res: DResult)
    requires szBuf >= 1 && buf.Length == szBuf * SS && Buffer(buf[..], first) && count >= 1 && base + count <= |drive.sectors|
    modifies drive, buf
    ensures |drive.sectors| == |old(drive.sectors)|
    ensures res == RES_OK && Filled(old(drive.sectors), drive.sectors, base, count, first) && AllZero(buf[..])
  {
    ghost var was := drive.sectors;
    var sect, nsect := base, count;
    res := RES_OK;
    while nsect > 0
      invariant 0 <= nsect <= count && sect == base + (count - nsect) && res == RES_OK
      invariant Filled(was, drive.sectors, base, count - nsect, first)
      invariant Buffer(buf[..], if nsect == count then first else ZeroSector())
    {
      hide Filled, Buffer;
      var n := if nsect > szBuf then szBuf else nsect;
      ghost var mid := drive.sectors;
      res := drive.Write(buf[..n * SS], sect, n);
      FilledMore(was, mid, drive.sectors, base, count - nsect, n, first, buf[..]);
      ClearFirst(buf, if nsect == count then first else ZeroSector());
      sect := sect + n;
      nsect := nsect - n;
    }
    BufferZero(buf[..]);
  }

  lemma BufferZero(b: seq<byte>)
    requires Buffer(b, ZeroSector())
    ensures AllZero(b)
  {
    forall i | 0 <= i < |b| ensures b[i] == 0 {
      if i < SS { assert b[..SS][i] == b[i]; } else { assert b[SS..][i - SS] == b[i]; }
    }
  }

  method ClearFirst(buf: array<byte>, ghost first: Sector)
    requires Buffer(buf[..], first)
    modifies buf
    ensures Buffer(buf[..], ZeroSector())
  {
    forall i | 0 <= i < SS {
      buf[i] := 0;
    }
    assert buf[SS..] == old(buf[SS..]);
  }

  // ---- a new volume

  /** The disk with new FATs and a new root directory. */
  ghost predicate Fresh(p: Params, l: Layout, was: seq<Sector>, now: seq<Sector>) {
    var first, root := FirstSector(l.fsty), l.bFat + if p.nFat == 2 then 2 * l.szFat else l.szFat;
    var len := if l.fsty == FAT32 then l.pau else l.szDir;
    && |now| == |was| && root + len <= |was|
    && (forall s | l.bFat <= s < l.bFat + l.szFat :: now[s] == if s == l.bFat then first else ZeroSector())
    && (p.nFat == 2 ==> forall s | l.bFat <= s < l.bFat + l.szFat :: now[s + l.szFat] == now[s])
    && (forall s | root <= s < root + len :: now[s] == ZeroSector())
    && (forall s | 0 <= s < |was| && !(l.bFat <= s < root + len) :: now[s] == was[s])
  }

  /** Where the areas of a good layout lie on a disk that holds the volume. */
  lemma AreasFit(p: Params, l: Layout, n: nat)
    requires p.Valid() && Good(p, l) && p.bVol + p.szVol <= n
    ensures p.nFat == 1 || p.nFat == 2
    ensures l.szFat * p.nFat == (if p.nFat == 2 then 2 * l.szFat else l.szFat) && l.bFat == p.bVol + l.szRsv
    ensures l.bFat >= p.bVol + 1 && l.szFat >= 1 && l.bFat + l.szFat * p.nFat + l.szDir == p.bVol + Total(p, l) <= n
    ensures if l.fsty == FAT32 then l.pau >= 1 && l.szDir == 0 && l.bFat + l.szFat * p.nFat + l.pau <= n else l.szDir >= 1
  {
    hide BlockSize;
    if l.fsty == FAT32 {
      PowerPositive(l.pau);
      MoreThanOne(l.pau, l.nClst);
    } else {
      RootSectors(p.nRoot);
    }
  }

  lemma PowerPositive(n: nat)
    requires PowerOfTwoByte(n)
    ensures n >= 1
  {
  }

  lemma MoreThanOne(k: nat, n: nat)
    requires n >= 1
    ensures k <= k * n
  {
  }

  lemma RootSectors(nRoot: nat)
    requires 16 <= nRoot
    ensures nRoot * SZDIRE / SS >= 1
  {
  }

  /** One FAT after the other, then the root directory. */
  method InitAreas(p: Params, l: Layout, drive: Drive, buf: array<byte>, szBuf: nat) returns (res: DResult)
    requires p.Valid() && Good(p, l) && p.bVol + p.szVol <= |drive.sectors| < ALL_ONES
    requires szBuf >= 1 && buf.Length == szBuf * SS && AllZero(buf[..])
    modifies drive, buf
    ensures res == RES_OK && Fresh(p, l, old(drive.sectors), drive.sectors)
  {
    hide Good, FirstByte, Filled, Fresh;
    AreasFit(p, l, |drive.sectors|);
    ghost var d0 := drive.sectors;
    var sect := l.bFat;
    MarkedBuffer(buf, l.fsty);
    res := FillSectors(drive, buf, szBuf, sect, l.szFat, FirstSector(l.fsty));
    sect := sect + l.szFat;
    ghost var d1 := drive.sectors;
    if p.nFat == 2 {
      MarkedBuffer(buf, l.fsty);
      res := FillSectors(drive, buf, szBuf, sect, l.szFat, FirstSector(l.fsty));
      sect := sect + l.szFat;
    }
    ghost var d2 := drive.sectors;
    ZeroBuffer(buf[..]);
    res := FillSectors(drive, buf, szBuf, sect, if l.fsty == FAT32 then l.pau else l.szDir, ZeroSector());
    FreshBy(p, l, d0, d1, d2, drive.sectors);
  }

  lemma FreshBy(p: Params, l: Layout, d0: seq<Sector>, d1: seq<Sector>, d2: seq<Sector>, d3: seq<Sector>)
    requires Filled(d0, d1, l.bFat, l.szFat, FirstSector(l.fsty))
    requires if p.nFat == 2 then Filled(d1, d2, l.bFat + l.szFat, l.szFat, FirstSector(l.fsty)) else d2 == d1
    requires Filled(d2, d3, l.bFat + if p.nFat == 2 then 2 * l.szFat else l.szFat, if l.fsty == FAT32 then l.pau else l.szDir, ZeroSector())
    ensures Fresh(p, l, d0, d3)
  {
    hide FirstByte;
  }

  method MarkedBuffer(buf: array<byte>, t: FatType)
    requires buf.Length >= SS && AllZero(buf[..])
    modifies buf
    ensures Buffer(buf[..], FirstSector(t))
  {
    PutMarks(buf, t);
    assert buf[..SS] == FirstSector(t);
  }

  lemma ZeroBuffer(b: seq<byte>)
    requires AllZero(b) && |b| >= SS
    ensures Buffer(b, ZeroSector())
  {
    assert b[..SS] == ZeroSector();
  }

  // ---- what mounting finds

  /** The first FAT of a disk is new. */
  ghost predicate NewFirstFat(g: Geometry, disk: seq<Sector>) {
    Fits(g, disk) && forall s | g.fatbase <= s < g.fatbase + g.fsize :: disk[s] == if s == g.fatbase then FirstSector(g.fsType) else ZeroSector()
  }

  lemma NewByte(g: Geometry, disk: seq<Sector>, b: nat)
    requires NewFirstFat(g, disk) && b < g.fsize * SS
    ensures FatByte(g, disk, b) == FirstByte(g.fsType, b)
  {
    var s := g.fatbase + b / SS;
    assert g.fatbase <= s < g.fatbase + g.fsize;
  }

  /** Entry c of a new FAT: end marks in the reserved entries, an end mark for the root directory of FAT32, else free. */
  function NewEntry(t: FatType, c: nat): u32 {
    if c == 0 then EocMark(t) - 7 else if c == 1 || (c == 2 && t == FAT32) then EocMark(t) else 0
  }

  lemma NewEntry12(c: nat)
    ensures var w := Word(FirstByte(FAT12, c + c / 2), FirstByte(FAT12, c + c / 2 + 1));
      (if c % 2 == 1 then w / 0x10 else w % 0x1000) == NewEntry(FAT12, c)
  {
    if c >= 2 {
      assert c + c / 2 >= 3;
    }
  }

  lemma NewEntry16(c: nat)
    ensures Word(FirstByte(FAT16, 2 * c), FirstByte(FAT16, 2 * c + 1)) == NewEntry(FAT16, c)
  {
  }

  lemma NewEntry32(c: nat)
    ensures DWord(FirstByte(FAT32, 4 * c), FirstByte(FAT32, 4 * c + 1), FirstByte(FAT32, 4 * c + 2), FirstByte(FAT32, 4 * c + 3)) % 0x1000_0000 == NewEntry(FAT32, c)
  {
    if c >= 3 {
      assert 4 * c >= 12;
    }
  }

  lemma NewEntryAt(g: Geometry, disk: seq<Sector>, c: nat)
    requires NewFirstFat(g, disk) && c < g.nFatent
    ensures Entry(g, disk, c) == NewEntry(g.fsType, c)
  {
    hide FirstByte, FatByte, NewEntry, NewFirstFat, Word, DWord, Geometry.Valid;
    FitsNew(g, disk);
    EntryInTable(g, c);
    match g.fsType
    case FAT12 =>
      NewByte(g, disk, c + c / 2);
      NewByte(g, disk, c + c / 2 + 1);
      NewEntry12(c);
    case FAT16 =>
      NewByte(g, disk, 2 * c);
      NewByte(g, disk, 2 * c + 1);
      NewEntry16(c);
    case FAT32 =>
      NewByte(g, disk, 4 * c);
      NewByte(g, disk, 4 * c + 1);
      NewByte(g, disk, 4 * c + 2);
      NewByte(g, disk, 4 * c + 3);
      NewEntry32(c);
  }

  lemma FitsNew(g: Geometry, disk: seq<Sector>)
    requires NewFirstFat(g, disk)
    ensures Fits(g, disk)
  {
  }

  /** The chains of a new volume: none, or the root directory of FAT32. */
  ghost function Roots(t: FatType): set<seq<u32>> {
    if t == FAT32 then {[2]} else {}
  }

  lemma {:induction false} FreeInNew(fat: FatSeq, t: FatType, k: nat)
    requires k <= |fat| && forall c | 0 <= c < |fat| :: fat[c] == NewEntry(t, c)
    ensures FreeBelow(fat, k) == if k <= 2 then 0 else if t == FAT32 then k - 3 else k - 2
  {
    if k > 2 { FreeInNew(fat, t, k - 1); }
  }

  /** A new FAT: no entry of value 1, every cluster free but that of the FAT32 root, and a proper heap of chains. */
  lemma NewIsEmpty(g: Geometry, disk: seq<Sector>)
    requires NewFirstFat(g, disk)
    ensures var fat := Fat(g, disk);
      1 !in fat && CountFree(fat) == (if g.fsType == FAT32 then g.nFatent - 3 else g.nFatent - 2) && Heap(fat, Roots(g.fsType))
    ensures forall c | 2 <= c < g.nFatent && !(c == 2 && g.fsType == FAT32) :: Fat(g, disk)[c] == 0
  {
    hide NewFirstFat, Entry, FreeBelow;
    FitsNew(g, disk);
    var fat := Fat(g, disk);
    forall c | 0 <= c < |fat| ensures fat[c] == NewEntry(g.fsType, c) {
      NewEntryAt(g, disk, c);
    }
    FreeInNew(fat, g.fsType, |fat|);
    ValidFacts(g);
    if g.fsType == FAT32 {
      assert IsChain(fat, [2]);
    }
  }

  /** The geometry of a layout over a fresh disk. */
  lemma FreshFat(p: Params, l: Layout, was: seq<Sector>, now: seq<Sector>)
    requires p.Valid() && Good(p, l) && l.nClst >= 1 && p.bVol + p.szVol <= |was| < ALL_ONES && Fresh(p, l, was, now)
    ensures l.nClst < 0x1000_0000 && p.bVol + Total(p, l) < 0x1_0000_0000
    ensures var g := GeoOf(p, l); NewFirstFat(g, now) && RootFits(g) && Mirrored(g, now)
  {
    hide Good, GeoOf, FirstSector, BlockSize;
    FormattedIsValid(p, l);
    AreasFit(p, l, |was|);
    GeoFields(p, l);
  }

  lemma GeoFields(p: Params, l: Layout)
    requires p.Valid() && l.nClst < 0x1000_0000 && p.bVol + Total(p, l) < 0x1_0000_0000 && l.bFat == p.bVol + l.szRsv
    ensures var g := GeoOf(p, l); g.fatbase == l.bFat && g.fsize == l.szFat && g.fsType == l.fsty && g.nFats == p.nFat && g.nFatent == l.nClst + 2
    ensures var g := GeoOf(p, l); g.csize == l.pau && g.database == p.bVol + Total(p, l)
  {
  }

  /** The FSInfo sector that formatting writes. Mounting does not take its numbers: its trailing signature is not looked for at
      the end of the sector. */
  ghost predicate NewInfo(s: Sector, free: u32) {
    LdDWord(s, FSI_FREE_COUNT) == free && LdDWord(s, FSI_NXT_FREE) == 2 && Loaded(s) == (ALL_ONES, ALL_ONES)
  }

  /** On FAT32: the FSInfo sector behind the boot sector, and copies of both six sectors on. */
  ghost predicate Backed(p: Params, l: Layout, disk: seq<Sector>) {
    l.fsty == FAT32 && l.nClst > 0 ==>
      p.bVol + 7 < |disk| && NewInfo(disk[p.bVol + 1], l.nClst - 1) && disk[p.bVol + 6] == disk[p.bVol] && disk[p.bVol + 7] == disk[p.bVol + 1]
  }

  /** The disk after formatting: the boot sector, the FSInfo sector, new FATs, an empty root directory. */
  ghost predicate Formatted(p: Params, l: Layout, disk: seq<Sector>) {
    p.bVol < |disk| && Written(disk[p.bVol], p, l) && Backed(p, l, disk) && Fresh(p, l, disk, disk)
  }

  lemma FreshIsFormatted(p: Params, l: Layout, d1: seq<Sector>, d2: seq<Sector>)
    requires p.bVol < |d1| && Written(d1[p.bVol], p, l) && Backed(p, l, d1) && l.bFat > p.bVol && (l.fsty == FAT32 ==> l.bFat > p.bVol + 7)
    requires Fresh(p, l, d1, d2)
    ensures Formatted(p, l, d2) && d2[p.bVol] == d1[p.bVol]
  {
    hide Written, FirstSector, NewInfo;
  }

  /** Only sectors of the reserved area have changed. */
  ghost predicate ReservedOnly(p: Params, l: Layout, was: seq<Sector>, now: seq<Sector>) {
    |now| == |was| && forall s | 0 <= s < |was| && !(p.bVol <= s < p.bVol + l.szRsv) :: now[s] == was[s]
  }

  /** The reserved area: the boot sector, and on FAT32 its copy and the FSInfo sector with its copy. */
  method InitReserved(p: Params, l: Layout, vsn: u32, drive: Drive) returns (res: DResult)
    requires p.Valid() && Good(p, l) && p.bVol + p.szVol <= |drive.sectors| < ALL_ONES
    modifies drive
    ensures res == RES_OK && ReservedOnly(p, l, old(drive.sectors), drive.sectors) && Backed(p, l, drive.sectors) && p.bVol < |drive.sectors|
    ensures var s := drive.sectors[p.bVol]; Written(s, p, l) && OnDrive(s, p) && Stamped(s, l.fsty, vsn)
  {
    hide Good, Written, OnDrive, Stamped, NewInfo;
    ReservedRoom(p, l, |drive.sectors|);
    var s := WriteVbr(p, l, vsn);
    assert Piece(s, 0) == s;
    res := drive.Write(s, p.bVol, 1);
    if res != RES_OK { return; }
    if l.fsty == FAT32 {
      var r := drive.Write(s, p.bVol + 6, 1);
      var buf := NewInfoSector(l.nClst - 1);
      assert Piece(buf[..], 0) == buf[..];
      r := drive.Write(buf[..], p.bVol + 7, 1);
      r := drive.Write(buf[..], p.bVol + 1, 1);
    }
  }

  method NewInfoSector(free: u32) returns (buf: array<byte>)
    ensures fresh(buf) && buf.Length == SS && NewInfo(buf[..], free)
  {
    hide Loaded;
    buf := new byte[SS](_ => 0);
    FillNewInfo(buf, free);
  }

  lemma ReservedRoom(p: Params, l: Layout, n: nat)
    requires p.Valid() && Good(p, l) && p.bVol + p.szVol <= n
    ensures 1 <= l.szRsv && p.bVol + l.szRsv <= n && l.bFat == p.bVol + l.szRsv
    ensures l.fsty == FAT32 ==> l.szRsv >= 32 && l.nClst >= 1
  {
    hide BlockSize;
    AreasFit(p, l, n);
  }

  /** f_mkfs for a FAT volume: nothing outside the volume changes. */
  method MkFs(p: Params, vsn: u32, drive: Drive, szBuf: nat) returns (made: bool)
    requires p.Valid() && p.bVol + p.szVol <= |drive.sectors| < ALL_ONES && szBuf >= 1
    modifies drive
    ensures |drive.sectors| == |old(drive.sectors)| && (made <==> Search(p).Accept?)
    ensures made ==> Good(p, Search(p).l) && Formatted(p, Search(p).l, drive.sectors)
    ensures made ==> OnDrive(drive.sectors[p.bVol], p) && Stamped(drive.sectors[p.bVol], Search(p).l.fsty, vsn)
    ensures forall s | 0 <= s < |drive.sectors| && !(made && p.bVol <= s < p.bVol + p.szVol) :: drive.sectors[s] == old(drive.sectors)[s]
  {
    hide Search, Good, Written, OnDrive, Stamped, Fresh, BlockSize, Backed;
    var v := FindLayout(p);
    made := v.Accept?;
    if made {
      SearchResult(p);
      ReservedRoom(p, v.l, p.bVol + p.szVol);
      ghost var d0 := drive.sectors;
      var r := InitReserved(p, v.l, vsn, drive);
      ghost var d1 := drive.sectors;
      var buf := new byte[szBuf * SS](_ => 0);
      r := InitAreas(p, v.l, drive, buf, szBuf);
      FreshOutside(p, v.l, d0, d1, drive.sectors);
      FreshIsFormatted(p, v.l, d1, drive.sectors);
      hide Formatted;
    }
  }

  lemma FreshOutside(p: Params, l: Layout, d0: seq<Sector>, d1: seq<Sector>, d2: seq<Sector>)
    requires p.Valid() && Good(p, l) && p.bVol + p.szVol <= |d0| && ReservedOnly(p, l, d0, d1) && Fresh(p, l, d1, d2)
    ensures |d2| == |d0| && forall s | 0 <= s < |d0| && !(p.bVol <= s < p.bVol + p.szVol) :: d2[s] == d0[s]
  {
    hide Good, BlockSize, FirstSector;
    AreasFit(p, l, p.bVol + p.szVol);
    ReservedRoom(p, l, p.bVol + p.szVol);
  }

  /** Mounting what was formatted: it succeeds exactly if the layout has a cluster, and finds an empty volume that all the
      other operations can work on. */
  method MountNew(p: Params, ghost l: Layout, drive: Drive) returns (res: FResult, fs: FatFs?)
    requires p.Valid() && Good(p, l) && p.bVol + p.szVol <= |drive.sectors| < ALL_ONES && Formatted(p, l, drive.sectors)
    modifies drive
    ensures drive.sectors == old(drive.sectors)
    ensures (res == FR_OK <==> l.nClst >= 1) && (res == FR_OK <==> fs != null)
    ensures fs != null ==> fresh(fs) && fs.drive == drive && fs.geo.nFatent == l.nClst + 2 && fs.geo.fsType == l.fsty && RootFits(fs.geo)
    ensures fs != null ==> fs.Mounted() && FreeExact(fs) && Mirrored(fs.geo, drive.sectors) && 1 !in Table(fs)
    ensures fs != null ==> fs.freeClst == ALL_ONES && fs.lastClst == ALL_ONES
    ensures fs != null ==> Heap(Table(fs), Roots(l.fsty)) && CountFree(Table(fs)) == if l.fsty == FAT32 then l.nClst - 1 else l.nClst
    ensures fs != null ==> RootEmpty(fs.geo, drive.sectors)
  {
    hide Good, Written, Fresh, BlockSize, MountOf, BpbOf, GeoOf, Fat, FirstSector, RootEmpty, NewFirstFat, Mirrored, Heap, FreeBelow, Loaded, Fits, LdWord;
    var buf := new byte[SS](_ => 0);
    fs := null;
    var r := drive.Read(buf, 0, p.bVol, 1);
    ghost var disk := drive.sectors;
    assert buf[..] == disk[p.bVol];
    FormatMountAgree(disk[p.bVol], p, l);
    var geo;
    res, geo := MountVolume(buf[..], p.bVol);
    if res == FR_OK {
      FreshFat(p, l, disk, disk);
      NewIsEmpty(geo, disk);
      FitsNew(geo, disk);
      GoodPlace(p, l);
      RootIsEmpty(p, l, disk);
      GeoFields(p, l);
      if l.fsty == FAT32 { InfoPlace(p, l, geo, disk); }
      fs := NewFs(geo, drive, LdWord(buf[..], BPB_FS_INFO32) == 1);
    }
  }

  /** Where mounting looks for the numbers of a new FAT32 volume, it finds none that it takes. */
  lemma InfoPlace(p: Params, l: Layout, g: Geometry, disk: seq<Sector>)
    requires p.Valid() && Good(p, l) && l.fsty == FAT32 && l.nClst >= 1 && p.bVol + Total(p, l) < 0x1_0000_0000 && l.nClst < 0x1000_0000
    requires g == GeoOf(p, l) && Formatted(p, l, disk)
    ensures g.volbase == p.bVol && g.volbase + 1 < g.EndOfFats() && p.bVol + 1 < |disk| && Loaded(disk[p.bVol + 1]) == (ALL_ONES, ALL_ONES)
  {
    hide Written, Fresh, Loaded, BlockSize;
  }

  /** Every sector of the root directory is zero, so it holds no entry. */
  ghost predicate RootEmpty(g: Geometry, disk: seq<Sector>) {
    if g.fsType == FAT32 then Zeroed(g, disk, 2)
    else forall s | g.dirbase <= s < g.dirbase + g.nRootdir / (SS / SZDIRE) :: 0 <= s < |disk| && disk[s] == ZeroSector()
  }

  lemma RootIsEmpty(p: Params, l: Layout, disk: seq<Sector>)
    requires p.Valid() && Good(p, l) && l.nClst >= 1 && p.bVol + p.szVol <= |disk| < ALL_ONES && Fresh(p, l, disk, disk)
    requires l.nClst < 0x1000_0000 && p.bVol + Total(p, l) < 0x1_0000_0000
    ensures RootEmpty(GeoOf(p, l), disk)
  {
    hide Good, BlockSize, FirstSector;
    AreasFit(p, l, |disk|);
    GoodFits(p, l);
    FormattedIsValid(p, l);
    ValidFacts(GeoOf(p, l));
    if l.fsty == FAT32 { Clst2SectValue(GeoOf(p, l), 2); }
  }

  lemma GoodPlace(p: Params, l: Layout)
    requires Good(p, l)
    ensures l.bFat == p.bVol + l.szRsv
  {
  }
}
