/** The FSInfo sector of a FAT32 volume: what sync_fs and f_mkfs write into it, and what mounting reads from it. */
module FsInfo {
  import opened Bytes
  import opened DriveModel
  import opened FatTable
  import opened VolumeGeometry
  import opened Window

  const FSI_LEAD_SIG := 0
  const FSI_STRUC_SIG := 484
  const FSI_FREE_COUNT := 488
  const FSI_NXT_FREE := 492
  const FSI_TRAIL_SIG := 498
  const BS_55AA := 510
  const LEAD: u32 := 0x4161_5252
  const STRUC: u32 := 0x6141_7272
  const TRAIL: u32 := 0xAA55_0000

  /** The free count and the hint that mounting takes from the sector: both unknown, unless all three signatures are there. */
  function Loaded(s: Sector): (u32, u32) {
    if LdDWord(s, FSI_LEAD_SIG) == LEAD && LdDWord(s, FSI_STRUC_SIG) == STRUC && LdDWord(s, FSI_TRAIL_SIG) == TRAIL
    then (LdDWord(s, FSI_FREE_COUNT), LdDWord(s, FSI_NXT_FREE))
    else (ALL_ONES, ALL_ONES)
  }

  /** Zero but for the fields at these offsets. */
  ghost predicate ZeroBut(s: Sector, from1: nat, to1: nat, from2: nat, to2: nat) {
    forall i | FSI_LEAD_SIG + 4 <= i < SS && !(from1 <= i < to1) && !(from2 <= i < to2) :: s[i] == 0
  }

  lemma LoadsStored(s: Sector, o: nat, v: u32)
    requires o + 3 < SS && s[o] == ByteOf(v, 0) && s[o + 1] == ByteOf(v, 1) && s[o + 2] == ByteOf(v, 2) && s[o + 3] == ByteOf(v, 3)
    ensures LdDWord(s, o) == v
  {
    StoreLoadDWord(v);
  }

  /** st_dword, seen as a field of the sector. */
  method Put(win: array<byte>, o: nat, v: u32)
    requires win.Length == SS && o + 4 <= SS
    modifies win
    ensures LdDWord(win[..], o) == v && forall i | 0 <= i < SS && !(o <= i < o + 4) :: win[i] == old(win[i])
  {
    hide ByteOf;
    StDWord(win, o, v);
    LoadsStored(win[..], o, v);
  }

  /** Both writers begin with a sector of zeros, two signatures and the two numbers. */
  method FillHead(win: array<byte>, free: u32, last: u32)
    requires win.Length == SS
    modifies win
    ensures LdDWord(win[..], FSI_LEAD_SIG) == LEAD && LdDWord(win[..], FSI_STRUC_SIG) == STRUC
    ensures LdDWord(win[..], FSI_FREE_COUNT) == free && LdDWord(win[..], FSI_NXT_FREE) == last
    ensures ZeroBut(win[..], FSI_STRUC_SIG, FSI_NXT_FREE + 4, 0, 0)
  {
    hide DWord;
    forall i | 0 <= i < SS {
      win[i] := 0;
    }
    Put(win, FSI_LEAD_SIG, LEAD);
    Put(win, FSI_STRUC_SIG, STRUC);
    Put(win, FSI_FREE_COUNT, free);
    Put(win, FSI_NXT_FREE, last);
  }

  /** sync_fs: a sector from which mounting takes the numbers back. */
  method FillInfo(win: array<byte>, free: u32, last: u32)
    requires win.Length == SS
    modifies win
    ensures Loaded(win[..]) == (free, last) && ZeroBut(win[..], FSI_STRUC_SIG, FSI_NXT_FREE + 4, FSI_TRAIL_SIG, FSI_TRAIL_SIG + 4)
  {
    hide DWord;
    FillHead(win, free, last);
    Put(win, FSI_TRAIL_SIG, TRAIL);
  }

  /** f_mkfs: the trailing signature goes to the end of the sector, where mounting does not look for it, so that the numbers
      written are not taken from there. */
  method FillNewInfo(win: array<byte>, free: u32)
    requires win.Length == SS
    modifies win
    ensures LdDWord(win[..], FSI_FREE_COUNT) == free && LdDWord(win[..], FSI_NXT_FREE) == 2 && LdWord(win[..], BS_55AA) == 0xAA55
    ensures ZeroBut(win[..], FSI_STRUC_SIG, FSI_NXT_FREE + 4, BS_55AA, SS) && Loaded(win[..]) == (ALL_ONES, ALL_ONES)
  {
    hide DWord, Word;
    FillHead(win, free, 2);
    StWord(win, BS_55AA, 0xAA55);
    StoreLoadWord(0xAA55);
    NoTrail(win[..]);
  }

  /** The part of mount_volume that looks for the free count and the hint in the sector behind the boot sector. */
  method LoadInfo(fs: FatFs)
    requires fs.Mounted() && fs.winsect == ALL_ONES && !fs.wflag && fs.freeClst == fs.lastClst == ALL_ONES
    requires fs.geo.volbase + 1 < fs.geo.EndOfFats()
    modifies fs, fs.drive, fs.win
    ensures fs.Mounted() && !fs.wflag && fs.drive.sectors == old(fs.drive.sectors) && Table(fs) == old(Table(fs)) && fs.winsect == fs.geo.volbase + 1
    ensures fs.geo.volbase + 1 < |fs.drive.sectors| && (fs.freeClst, fs.lastClst) == Loaded(fs.drive.sectors[fs.geo.volbase + 1])
  {
    hide Fat, LdDWord;
    var res := MoveWindow(fs, fs.geo.volbase + 1);
    if res == FR_OK {
      if LdDWord(fs.win[..], FSI_LEAD_SIG) == LEAD && LdDWord(fs.win[..], FSI_STRUC_SIG) == STRUC && LdDWord(fs.win[..], FSI_TRAIL_SIG) == TRAIL {
        fs.freeClst := LdDWord(fs.win[..], FSI_FREE_COUNT);
        fs.lastClst := LdDWord(fs.win[..], FSI_NXT_FREE);
      }
    }
  }

  /** A volume object over a disk, with the numbers of the FSInfo sector, if the volume has one (info). */
  method NewFs(geo: Geometry, drive: Drive, info: bool) returns (fs: FatFs)
    requires Fits(geo, drive.sectors) && |drive.sectors| < ALL_ONES
    requires info && geo.fsType == FAT32 ==> geo.volbase + 1 < geo.EndOfFats()
    modifies drive
    ensures fresh(fs) && fresh(fs.win) && fs.geo == geo && fs.drive == drive && fs.Mounted() && !fs.wflag && fs.Map() == drive.sectors == old(drive.sectors)
    ensures Table(fs) == Fat(geo, drive.sectors) && fs.winsect == if info && geo.fsType == FAT32 then geo.volbase + 1 else ALL_ONES
    ensures (fs.freeClst, fs.lastClst) ==
      if info && geo.fsType == FAT32 && geo.volbase + 1 < |drive.sectors| then Loaded(drive.sectors[geo.volbase + 1]) else (ALL_ONES, ALL_ONES)
  {
    hide Fat, Loaded;
    fs := new FatFs(geo, drive);
    assert fs.Map() == drive.sectors;
    if geo.fsType == FAT32 && info {
      LoadInfo(fs);
    }
  }

  lemma NoTrail(s: Sector)
    requires s[FSI_TRAIL_SIG] == s[FSI_TRAIL_SIG + 1] == s[FSI_TRAIL_SIG + 2] == s[FSI_TRAIL_SIG + 3] == 0
    ensures LdDWord(s, FSI_TRAIL_SIG) == 0
  {
  }
}
