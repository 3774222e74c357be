/** The one-sector write-back window over the disk (sync_window, move_window). */
module Window {
  import opened Bytes
  import opened DriveModel
  import opened VolumeGeometry

  datatype FResult = FR_OK | FR_DISK_ERR | FR_INT_ERR | FR_NO_FILE | FR_DENIED | FR_NOT_ENOUGH_CORE | FR_NO_FILESYSTEM

  /** The disk as the file system sees it: a dirty window overlays its sector and,
      when that lies in the first FAT of two, also the mirror of that sector. */
  function Overlay(g: Geometry, sectors: seq<Sector>, dirty: bool, winsect: nat, win: Sector): (l: seq<Sector>)
    ensures |l| == |sectors|
    ensures forall s | 0 <= s < |sectors| ::
      l[s] == if dirty && (s == winsect || (g.nFats == 2 && g.InFirstFat(winsect) && s == winsect + g.fsize)) then win
              else sectors[s]
  {
    if !dirty || winsect >= |sectors| then sectors
    else
      var l1 := sectors[winsect := win];
      if g.nFats == 2 && g.InFirstFat(winsect) && winsect + g.fsize < |sectors| then l1[winsect + g.fsize := win] else l1
  }

  /** Two FAT copies agree sector by sector. */
  ghost predicate Mirrored(g: Geometry, sectors: seq<Sector>) {
    g.nFats == 2 ==> forall s | 0 <= s < |sectors| && g.InFirstFat(s) && s + g.fsize < |sectors| ::
      sectors[s] == sectors[s + g.fsize]
  }

  /** The mounted volume (FATFS): fixed geometry, the window, and the allocator's two hints. */
  class FatFs {
    const geo: Geometry
    const drive: Drive
    const win: array<byte>
    var winsect: u32     // sector in the window, ALL_ONES for none
    var wflag: bool      // window is dirty
    var lastClst: u32    // last allocated cluster, unknown if >= nFatent
    var freeClst: u32    // free clusters, unknown if > nFatent - 2

    constructor (geo: Geometry, drive: Drive)
      ensures this.geo == geo && this.drive == drive && fresh(win) && win.Length == SS
      ensures winsect == ALL_ONES && !wflag && lastClst == ALL_ONES && freeClst == ALL_ONES
    {
      this.geo, this.drive, win := geo, drive, new byte[SS](_ => 0);
      winsect, wflag, lastClst, freeClst := ALL_ONES, false, ALL_ONES, ALL_ONES;
    }

    /** The window is coherent: a dirty window lies on a sector of the disk that is not in the
        second FAT, and a clean window on a sector of the disk shows that sector. */
    ghost predicate Coherent()
      reads this`winsect, this`wflag, drive, win
    {
      && win.Length == SS
      && geo.EndOfFats() <= geo.database <= |drive.sectors| < ALL_ONES
      && (wflag ==> winsect < |drive.sectors| && !geo.InSecondFat(winsect))
      && (!wflag && winsect < |drive.sectors| ==> win[..] == drive.sectors[winsect])
    }

    /** A coherent window over a disk that holds the whole volume. */
    ghost predicate Mounted()
      reads this`winsect, this`wflag, drive, win
    {
      geo.Valid() && geo.EndOfData() <= |drive.sectors| && Coherent()
    }

    /** The logical sector map. */
    ghost function Map(): (m: seq<Sector>)
      requires win.Length == SS
      reads this`winsect, this`wflag, drive, win
      ensures |m| == |drive.sectors|
    {
      Overlay(geo, drive.sectors, wflag, winsect, win[..])
    }
  }

  /** Sectors of the data area other than w are the same on both disks. */
  ghost predicate DataKept(g: Geometry, was: seq<Sector>, now: seq<Sector>, w: nat) {
    |was| == |now| && forall s | g.database <= s < |was| && s != w :: now[s] == was[s]
  }

  /** Flushing changes no logical sector, keeps the FAT copies equal, and leaves the disk equal to the map. */
  method SyncWindow(fs: FatFs) returns (res: FResult)
    requires fs.Coherent()
    modifies fs`wflag, fs.drive
    ensures fs.Coherent() && fs.Map() == old(fs.Map())
    ensures res == FR_OK && !fs.wflag && fs.drive.sectors == fs.Map()
    ensures old(Mirrored(fs.geo, fs.drive.sectors)) ==> Mirrored(fs.geo, fs.drive.sectors)
    ensures DataKept(fs.geo, old(fs.drive.sectors), fs.drive.sectors, fs.winsect)
  {
    res := FR_OK;
    if fs.wflag {
      var r := fs.drive.Write(fs.win[..], fs.winsect, 1);
      if r == RES_OK {
        fs.wflag := false;
        if Sub32(fs.winsect, fs.geo.fatbase) < fs.geo.fsize {
          if fs.geo.nFats == 2 {
            var _ := fs.drive.Write(fs.win[..], fs.winsect + fs.geo.fsize, 1);
          }
        }
      } else {
        res := FR_DISK_ERR;
      }
    }
  }

  /** Moving the window changes no logical sector and shows the wanted one; outside the disk it fails
      and leaves no valid window. */
  method MoveWindow(fs: FatFs, sect: u32) returns (res: FResult)
    requires fs.Coherent()
    modifies fs`wflag, fs`winsect, fs.drive, fs.win
    ensures fs.Coherent() && fs.Map() == old(fs.Map())
    ensures res == if sect < |fs.drive.sectors| || sect == old(fs.winsect) then FR_OK else FR_DISK_ERR
    ensures res == FR_OK ==> fs.winsect == sect
    ensures res == FR_OK && sect < |fs.drive.sectors| ==> fs.win[..] == fs.Map()[sect]
    ensures res != FR_OK ==> fs.winsect == ALL_ONES && !fs.wflag
    ensures !old(fs.wflag) ==> !fs.wflag && fs.drive.sectors == old(fs.drive.sectors)
    ensures old(Mirrored(fs.geo, fs.drive.sectors)) ==> Mirrored(fs.geo, fs.drive.sectors)
    ensures DataKept(fs.geo, old(fs.drive.sectors), fs.drive.sectors, old(fs.winsect))
  {
    res := FR_OK;
    if sect != fs.winsect {
      res := SyncWindow(fs);
      if res == FR_OK {
        var s := sect;
        var r := fs.drive.Read(fs.win, 0, sect, 1);
        if r != RES_OK {
          s := ALL_ONES;
          res := FR_DISK_ERR;
        }
        fs.winsect := s;
      }
    }
  }
}
