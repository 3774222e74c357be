/** The boot sector of a FAT volume: what f_mkfs writes into it and what mounting makes of it (check_fs, mount_volume). */
module BootSector {
  import opened Arith
  import opened Bytes
  import opened Directory
  import opened Format
  import opened VolumeGeometry
  import opened Window

  // Offsets of the fields (FAT specification 1.03, "Boot Sector and BPB")
  const BS_JMP_BOOT := 0
  const BPB_BYTS_PER_SEC := 11
  const BPB_SEC_PER_CLUS := 13
  const BPB_RSVD_SEC_CNT := 14
  const BPB_NUM_FATS := 16
  const BPB_ROOT_ENT_CNT := 17
  const BPB_TOT_SEC16 := 19
  const BPB_MEDIA := 21
  const BPB_FAT_SZ16 := 22
  const BPB_SEC_PER_TRK := 24
  const BPB_NUM_HEADS := 26
  const BPB_HIDD_SEC := 28
  const BPB_TOT_SEC32 := 32
  const BS_DRV_NUM := 36
  const BS_BOOT_SIG := 38
  const BS_VOL_ID := 39
  const BS_VOL_LAB := 43
  const BPB_FAT_SZ32 := 36
  const BPB_FS_VER32 := 42
  const BPB_ROOT_CLUS32 := 44
  const BPB_FS_INFO32 := 48
  const BPB_BK_BOOT_SEC32 := 50
  const BS_DRV_NUM32 := 64
  const BS_BOOT_SIG32 := 66
  const BS_VOL_ID32 := 67
  const BS_VOL_LAB32 := 71
  const BS_FIL_SYS_TYPE32 := 82
  const BS_55AA := 510

  /** "FAT32   ", "FAT     " and "NO NAME    ", as bytes. */
  const FAT32_NAME: seq<byte> := [0x46, 0x41, 0x54, 0x33, 0x32, 0x20, 0x20, 0x20]
  const FAT_NAME: seq<byte> := [0x46, 0x41, 0x54, 0x20, 0x20, 0x20, 0x20, 0x20]
  const NO_NAME: seq<byte> := [0x4E, 0x4F, 0x20, 0x4E, 0x41, 0x4D, 0x45, 0x20, 0x20, 0x20, 0x20]

  // ---- mounting

  datatype MountResult = Mounts(geo: Geometry) | NoFileSystem

  /** check_fs, for a sector that has been read: 0 FAT volume, 2 other boot sector, 3 none. */
  function CheckFs(s: Sector): nat {
    var sign := LdWord(s, BS_55AA);
    if (s[BS_JMP_BOOT] == 0xEB || s[BS_JMP_BOOT] == 0xE9 || s[BS_JMP_BOOT] == 0xE8)
      && ((sign == 0xAA55 && s[BS_FIL_SYS_TYPE32..BS_FIL_SYS_TYPE32 + 8] == FAT32_NAME)
          || (LdWord(s, BPB_BYTS_PER_SEC) == SS && PowerOfTwoByte(s[BPB_SEC_PER_CLUS]) && LdWord(s, BPB_RSVD_SEC_CNT) != 0
              && (s[BPB_NUM_FATS] == 1 || s[BPB_NUM_FATS] == 2) && LdWord(s, BPB_ROOT_ENT_CNT) != 0
              && (LdWord(s, BPB_TOT_SEC16) >= 128 || LdDWord(s, BPB_TOT_SEC32) >= 0x10000) && LdWord(s, BPB_FAT_SZ16) != 0))
    then 0
    else if sign == 0xAA55 then 2 else 3
  }

  /** The fields mounting looks at. */
  datatype Bpb = Bpb(bps: u32, spc: nat, rsv: u32, nFats: u32, nRoot: u32, tsect: u32, fsize: u32, ver: u32, root: u32)

  function BpbOf(s: Sector): Bpb {
    Bpb(LdWord(s, BPB_BYTS_PER_SEC), s[BPB_SEC_PER_CLUS], LdWord(s, BPB_RSVD_SEC_CNT), s[BPB_NUM_FATS], LdWord(s, BPB_ROOT_ENT_CNT),
        if LdWord(s, BPB_TOT_SEC16) == 0 then LdDWord(s, BPB_TOT_SEC32) else LdWord(s, BPB_TOT_SEC16),
        if LdWord(s, BPB_FAT_SZ16) == 0 then LdDWord(s, BPB_FAT_SZ32) else LdWord(s, BPB_FAT_SZ16),
        LdWord(s, BPB_FS_VER32), LdDWord(s, BPB_ROOT_CLUS32))
  }

  /** The sub-type by number of clusters (FAT specification 1.03, "FAT Type Determination", with this program's limits). */
  function SubType(nclst: nat): FatType {
    if nclst <= MAX_FAT12 then FAT12 else if nclst <= MAX_FAT16 then FAT16 else FAT32
  }

  /** What mounting a volume at sector bsect makes of its fields. */
  function MountOf(b: Bpb, bsect: u32): MountResult {
    if b.bps != SS || (b.nFats != 1 && b.nFats != 2) || !PowerOfTwoByte(b.spc) || b.nRoot % (SS / SZDIRE) != 0 || b.rsv == 0 then NoFileSystem
    else
      var fasize := Mul32(b.fsize, b.nFats);
      var sysect := Add32(Add32(b.rsv, fasize), b.nRoot / (SS / SZDIRE));
      if b.tsect < sysect then NoFileSystem
      else
        var nclst := Clusters(b.tsect - sysect, b.spc);
        if nclst == 0 || nclst > MAX_FAT32 then NoFileSystem
        else
          var fmt := SubType(nclst);
          if (fmt == FAT32 && (b.ver != 0 || b.nRoot != 0)) || (fmt != FAT32 && b.nRoot == 0) then NoFileSystem
          else if b.fsize < (TableBytes(fmt, nclst + 2) + (SS - 1)) / SS then NoFileSystem
          else
            var fatbase := Add32(bsect, b.rsv);
            Mounts(Geometry(fmt, b.nFats, b.spc, b.nRoot, nclst + 2, b.fsize, bsect, fatbase,
                            if fmt == FAT32 then b.root else Add32(fatbase, fasize), Add32(bsect, sysect)))
  }

  function Clusters(n: u32, k: nat): (q: u32)
    requires PowerOfTwoByte(k)
  {
    QuotBounds(n, k);
    n / k
  }

  /** The BPB part of mount_volume. */
  method MountVolume(s: Sector, bsect: u32) returns (res: FResult, geo: Geometry)
    ensures MountOf(BpbOf(s), bsect) == if res == FR_OK then Mounts(geo) else NoFileSystem
    ensures res == FR_OK || res == FR_NO_FILESYSTEM
  {
    hide Add32, Mul32, LdWord, LdDWord, TableBytes, PowerOfTwoByte;
    res, geo := FR_NO_FILESYSTEM, Geometry(FAT12, 0, 0, 0, 0, 0, 0, 0, 0, 0);
    if LdWord(s, BPB_BYTS_PER_SEC) != SS { return; }
    var fasize := LdWord(s, BPB_FAT_SZ16);
    if fasize == 0 { fasize := LdDWord(s, BPB_FAT_SZ32); }
    geo := geo.(fsize := fasize, nFats := s[BPB_NUM_FATS]);
    if geo.nFats != 1 && geo.nFats != 2 { return; }
    fasize := Mul32(fasize, geo.nFats);
    geo := geo.(csize := s[BPB_SEC_PER_CLUS]);
    if !PowerOfTwoByte(geo.csize) { return; }
    geo := geo.(nRootdir := LdWord(s, BPB_ROOT_ENT_CNT));
    if geo.nRootdir % (SS / SZDIRE) != 0 { return; }
    var tsect := LdWord(s, BPB_TOT_SEC16);
    if tsect == 0 { tsect := LdDWord(s, BPB_TOT_SEC32); }
    var nrsv := LdWord(s, BPB_RSVD_SEC_CNT);
    if nrsv == 0 { return; }
    var sysect := Add32(Add32(nrsv, fasize), geo.nRootdir / (SS / SZDIRE));
    if tsect < sysect { return; }
    var nclst := Clusters(tsect - sysect, geo.csize);
    if nclst == 0 { return; }
    if nclst > MAX_FAT32 { return; }
    var fmt := FAT32;
    if nclst <= MAX_FAT16 { fmt := FAT16; }
    if nclst <= MAX_FAT12 { fmt := FAT12; }
    geo := geo.(fsType := fmt, nFatent := nclst + 2, volbase := bsect, fatbase := Add32(bsect, nrsv), database := Add32(bsect, sysect));
    if fmt == FAT32 {
      if LdWord(s, BPB_FS_VER32) != 0 { return; }
      if geo.nRootdir != 0 { return; }
      geo := geo.(dirbase := LdDWord(s, BPB_ROOT_CLUS32));
    } else {
      if geo.nRootdir == 0 { return; }
      geo := geo.(dirbase := Add32(geo.fatbase, fasize));
    }
    if geo.fsize < (TableBytes(fmt, geo.nFatent) + (SS - 1)) / SS { return; }
    res := FR_OK;
  }

  // ---- formatting

  /** t is s but for n bytes from o on: every field outside reads the same. */
  ghost predicate Elsewhere(s: Sector, t: Sector, o: nat, n: nat) {
    && (forall q | 0 <= q < SS && (q < o || o + n <= q) :: t[q] == s[q])
    && (forall q: nat | q + 1 < SS && (q + 2 <= o || o + n <= q) :: LdWord(t, q) == LdWord(s, q))
    && (forall q: nat | q + 3 < SS && (q + 4 <= o || o + n <= q) :: LdDWord(t, q) == LdDWord(s, q))
  }

  /** st_word. */
  method PutWord(s: Sector, o: nat, v: u32) returns (t: Sector)
    requires o + 1 < SS
    ensures LdWord(t, o) == v % 0x1_0000 && Elsewhere(s, t, o, 2)
  {
    StoreLoadWord(v);
    t := s[o := ByteOf(v, 0)][o + 1 := ByteOf(v, 1)];
  }

  /** st_dword. */
  method PutDWord(s: Sector, o: nat, v: u32) returns (t: Sector)
    requires o + 3 < SS
    ensures LdDWord(t, o) == v && Elsewhere(s, t, o, 4)
  {
    StoreLoadDWord(v);
    t := s[o := ByteOf(v, 0)][o + 1 := ByteOf(v, 1)][o + 2 := ByteOf(v, 2)][o + 3 := ByteOf(v, 3)];
  }

  method PutByte(s: Sector, o: nat, v: nat) returns (t: Sector)
    requires o < SS
    ensures t[o] == v % 0x100 && Elsewhere(s, t, o, 1)
  {
    t := s[o := v % 0x100];
  }

  method PutBytes(s: Sector, o: nat, d: seq<byte>) returns (t: Sector)
    requires o + |d| <= SS
    ensures t[o..o + |d|] == d && Elsewhere(s, t, o, |d|)
  {
    t := s[..o] + d + s[o + |d|..];
  }

  /** The fields both sub-types share, as written for a layout. */
  ghost predicate Common(s: Sector, p: Params, l: Layout) {
    && s[BS_JMP_BOOT] == 0xEB && LdWord(s, BPB_BYTS_PER_SEC) == SS && s[BPB_SEC_PER_CLUS] == l.pau % 0x100
    && LdWord(s, BPB_RSVD_SEC_CNT) == l.szRsv % 0x1_0000 && s[BPB_NUM_FATS] == p.nFat % 0x100
    && LdWord(s, BPB_ROOT_ENT_CNT) == (if l.fsty == FAT32 then 0 else p.nRoot % 0x1_0000)
    && (if p.szVol < 0x1_0000 then LdWord(s, BPB_TOT_SEC16) == p.szVol
        else LdWord(s, BPB_TOT_SEC16) == 0 && LdDWord(s, BPB_TOT_SEC32) == p.szVol)
  }

  /** What the boot sector of a layout holds. */
  ghost predicate Written(s: Sector, p: Params, l: Layout) {
    && Common(s, p, l) && LdWord(s, BS_55AA) == 0xAA55
    && (if l.fsty == FAT32 then
          LdWord(s, BPB_FAT_SZ16) == 0 && LdDWord(s, BPB_FAT_SZ32) == l.szFat && LdWord(s, BPB_FS_VER32) == 0
          && LdDWord(s, BPB_ROOT_CLUS32) == 2 && LdWord(s, BPB_FS_INFO32) == 1 && LdWord(s, BPB_BK_BOOT_SEC32) == 6 && s[BS_FIL_SYS_TYPE32..BS_FIL_SYS_TYPE32 + 8] == FAT32_NAME
        else LdWord(s, BPB_FAT_SZ16) == l.szFat % 0x1_0000)
  }

  /** The fields that tell of the drive. */
  ghost predicate OnDrive(s: Sector, p: Params) {
    s[BPB_MEDIA] == 0xF8 && LdWord(s, BPB_SEC_PER_TRK) == 63 && LdWord(s, BPB_NUM_HEADS) == 255 && LdDWord(s, BPB_HIDD_SEC) == p.bVol
  }

  /** The serial number and the names. */
  ghost predicate Stamped(s: Sector, t: FatType, vsn: u32) {
    if t == FAT32 then
      && LdDWord(s, BS_VOL_ID32) == vsn && s[BS_DRV_NUM32] == 0x80 && s[BS_BOOT_SIG32] == 0x29
      && s[BS_VOL_LAB32..BS_VOL_LAB32 + 19] == NO_NAME + FAT32_NAME
    else
      && LdDWord(s, BS_VOL_ID) == vsn && s[BS_DRV_NUM] == 0x80 && s[BS_BOOT_SIG] == 0x29
      && s[BS_VOL_LAB..BS_VOL_LAB + 19] == NO_NAME + FAT_NAME
  }

  /** The first part of the boot sector, up to the fields that depend on the sub-type. */
  method WriteCommon(s0: Sector, p: Params, l: Layout) returns (s: Sector)
    requires LdWord(s0, BPB_ROOT_ENT_CNT) == LdWord(s0, BPB_TOT_SEC16) == LdWord(s0, BPB_FAT_SZ16) == LdWord(s0, BPB_FS_VER32) == 0
    ensures Common(s, p, l) && OnDrive(s, p) && LdWord(s, BPB_FAT_SZ16) == LdWord(s, BPB_FS_VER32) == 0
  {
    hide LdWord, LdDWord;
    s := PutBytes(s0, BS_JMP_BOOT, [0xEB, 0xFE, 0x90, 0x4D, 0x53, 0x44, 0x4F, 0x53, 0x35, 0x2E, 0x30]);
    assert s[BS_JMP_BOOT] == s[0..11][0] == 0xEB;
    s := PutWord(s, BPB_BYTS_PER_SEC, SS);
    s := PutByte(s, BPB_SEC_PER_CLUS, l.pau);
    s := PutWord(s, BPB_RSVD_SEC_CNT, l.szRsv);
    s := PutByte(s, BPB_NUM_FATS, p.nFat);
    s := PutWord(s, BPB_ROOT_ENT_CNT, if l.fsty == FAT32 then 0 else p.nRoot);
    if p.szVol < 0x10000 {
      s := PutWord(s, BPB_TOT_SEC16, p.szVol);
    } else {
      s := PutDWord(s, BPB_TOT_SEC32, p.szVol);
    }
    s := PutByte(s, BPB_MEDIA, 0xF8);
    s := PutWord(s, BPB_SEC_PER_TRK, 63);
    s := PutWord(s, BPB_NUM_HEADS, 255);
    s := PutDWord(s, BPB_HIDD_SEC, p.bVol);
  }

  lemma ZeroFields(s: Sector)
    requires forall i | 0 <= i < SS :: s[i] == 0
    ensures LdWord(s, BPB_ROOT_ENT_CNT) == LdWord(s, BPB_TOT_SEC16) == LdWord(s, BPB_FAT_SZ16) == LdWord(s, BPB_FS_VER32) == 0
  {
  }

  /** The boot sector f_mkfs writes for a layout. */
  method WriteVbr(p: Params, l: Layout, vsn: u32) returns (s: Sector)
    ensures Written(s, p, l) && OnDrive(s, p) && Stamped(s, l.fsty, vsn)
  {
    hide LdWord, LdDWord, Common, OnDrive;
    s := ZeroSector();
    ZeroFields(s);
    s := WriteCommon(s, p, l);
    ghost var s1 := s;
    if l.fsty == FAT32 {
      s := PutDWord(s, BS_VOL_ID32, vsn);
      s := PutDWord(s, BPB_FAT_SZ32, l.szFat);
      s := PutDWord(s, BPB_ROOT_CLUS32, 2);
      s := PutWord(s, BPB_FS_INFO32, 1);
      s := PutWord(s, BPB_BK_BOOT_SEC32, 6);
      s := PutByte(s, BS_DRV_NUM32, 0x80);
      s := PutByte(s, BS_BOOT_SIG32, 0x29);
      s := PutBytes(s, BS_VOL_LAB32, NO_NAME + FAT32_NAME);
      SameName(s);
    } else {
      s := PutDWord(s, BS_VOL_ID, vsn);
      s := PutWord(s, BPB_FAT_SZ16, l.szFat);
      s := PutByte(s, BS_DRV_NUM, 0x80);
      s := PutByte(s, BS_BOOT_SIG, 0x29);
      s := PutBytes(s, BS_VOL_LAB, NO_NAME + FAT_NAME);
    }
    ghost var s2 := s;
    s := PutWord(s, BS_55AA, 0xAA55);
    assert s[BS_FIL_SYS_TYPE32..BS_FIL_SYS_TYPE32 + 8] == s2[BS_FIL_SYS_TYPE32..BS_FIL_SYS_TYPE32 + 8];
    assert s[BS_VOL_LAB32..BS_VOL_LAB32 + 19] == s2[BS_VOL_LAB32..BS_VOL_LAB32 + 19];
    assert s[BS_VOL_LAB..BS_VOL_LAB + 19] == s2[BS_VOL_LAB..BS_VOL_LAB + 19];
    CommonKept(s1, s, p, l);
  }

  lemma SameName(s: Sector)
    requires s[BS_VOL_LAB32..BS_VOL_LAB32 + 19] == NO_NAME + FAT32_NAME
    ensures s[BS_FIL_SYS_TYPE32..BS_FIL_SYS_TYPE32 + 8] == FAT32_NAME
  {
    assert s[BS_FIL_SYS_TYPE32..BS_FIL_SYS_TYPE32 + 8] == s[BS_VOL_LAB32..BS_VOL_LAB32 + 19][11..];
  }

  lemma CommonKept(s: Sector, s2: Sector, p: Params, l: Layout)
    requires Common(s, p, l) && OnDrive(s, p) && forall i | 0 <= i < BS_DRV_NUM && i != BPB_FAT_SZ16 && i != BPB_FAT_SZ16 + 1 :: s2[i] == s[i]
    ensures Common(s2, p, l) && OnDrive(s2, p)
  {
    hide Word, DWord;
  }

  // ---- format and mount agree

  /** The volume a layout stands for. */
  function GeoOf(p: Params, l: Layout): (g: Geometry)
    requires p.Valid() && l.nClst < 0x1000_0000 && p.bVol + Total(p, l) < 0x1_0000_0000
  {
    Geometry(l.fsty, p.nFat, l.pau, if l.fsty == FAT32 then 0 else p.nRoot, l.nClst + 2, l.szFat, p.bVol, p.bVol + l.szRsv,
             if l.fsty == FAT32 then 2 else p.bVol + l.szRsv + l.szFat * p.nFat, p.bVol + Total(p, l))
  }

  lemma GoodFits(p: Params, l: Layout)
    requires p.Valid() && Good(p, l)
    ensures l.nClst < 0x1000_0000 && Total(p, l) <= p.szVol && p.bVol + p.szVol <= ALL_ONES && l.szFat * p.nFat <= Total(p, l)
    ensures l.szDir == if l.fsty == FAT32 then 0 else p.nRoot / (SS / SZDIRE)
    ensures 1 <= l.szRsv < 0x1_0000 && 1 <= l.szFat && (l.fsty != FAT32 ==> l.szFat < 0x1_0000) && PowerOfTwoByte(l.pau)
  {
    MulLe(l.pau, 0, l.nClst);
  }

  /** The fields of the boot sector as mounting reads them back. */
  lemma ReadBackBpb(s: Sector, p: Params, l: Layout)
    requires p.Valid() && Good(p, l) && Written(s, p, l)
    ensures var b := BpbOf(s);
      && b == Bpb(SS, l.pau, l.szRsv, p.nFat, if l.fsty == FAT32 then 0 else p.nRoot, p.szVol, l.szFat, b.ver, b.root)
      && (l.fsty == FAT32 ==> b.ver == 0 && b.root == 2)
  {
    hide Word, DWord, Good, BlockSize;
    GoodFits(p, l);
  }

  lemma SubTypeOf(p: Params, l: Layout)
    requires Good(p, l)
    ensures SubType(l.nClst) == l.fsty && l.nClst <= MAX_FAT32
  {
  }

  lemma CountBack(p: Params, l: Layout)
    requires Good(p, l)
    ensures Total(p, l) <= p.szVol && l.pau > 0 && (p.szVol - Total(p, l)) / l.pau == l.nClst
  {
    var x := p.szVol - Total(p, l);
    MulLe(l.pau, 0, l.nClst);
    MulStep(l.pau, l.nClst);
    ModUnique(x, l.pau, l.nClst, x - l.pau * l.nClst);
  }

  /** Format and mount agree: the boot sector of an accepted layout is taken for a FAT volume, and mounting it succeeds
      exactly if the layout has a cluster; then the volume mounted is the one laid out, with the same sub-type, cluster
      count, FAT base and data base. */
  lemma FormatMountAgree(s: Sector, p: Params, l: Layout)
    requires p.Valid() && Good(p, l) && Written(s, p, l)
    ensures l.nClst < 0x1000_0000 && p.bVol + Total(p, l) < 0x1_0000_0000
    ensures MountOf(BpbOf(s), p.bVol) == if l.nClst >= 1 then Mounts(GeoOf(p, l)) else NoFileSystem
  {
    hide Good, BpbOf, Written, Add32, Mul32, TableBytes, PowerOfTwoByte, BlockSize;
    GoodFits(p, l);
    ReadBackBpb(s, p, l);
    SubTypeOf(p, l);
    CountBack(p, l);
    EnoughFat(p, l);
    Sums(p, l);
  }

  lemma EnoughFat(p: Params, l: Layout)
    requires Good(p, l)
    ensures (TableBytes(l.fsty, l.nClst + 2) + (SS - 1)) / SS <= l.szFat
  {
  }

  /** The sums of mount_volume do not wrap. */
  lemma Sums(p: Params, l: Layout)
    requires p.Valid() && Good(p, l) && Total(p, l) <= p.szVol
    ensures Mul32(l.szFat, p.nFat) == l.szFat * p.nFat < 0x1_0000_0000
    ensures Add32(Add32(l.szRsv, l.szFat * p.nFat), l.szDir) == Total(p, l)
    ensures Add32(p.bVol, l.szRsv) == p.bVol + l.szRsv && Add32(p.bVol, Total(p, l)) == p.bVol + Total(p, l)
    ensures Add32(p.bVol + l.szRsv, l.szFat * p.nFat) == p.bVol + l.szRsv + l.szFat * p.nFat
  {
    var f := l.szFat * p.nFat;
    assert 0 <= f <= Total(p, l);
    assert Mul32(l.szFat, p.nFat) == f;
    hide Good, Mul32, Add32;
    Wraps(l.szRsv, f);
    Wraps(l.szRsv + f, l.szDir);
    Wraps(p.bVol, l.szRsv);
    Wraps(p.bVol, l.szRsv + f + l.szDir);
    Wraps(p.bVol + l.szRsv, f);
  }

  /** The boot sector is recognised as that of a FAT volume. */
  lemma Recognised(s: Sector, p: Params, l: Layout)
    requires p.Valid() && Good(p, l) && Written(s, p, l)
    ensures CheckFs(s) == 0
  {
    hide Word, DWord, Good, BlockSize;
    GoodFits(p, l);
  }

  /** A freshly formatted volume with a cluster is one that the allocation, file and directory layers can work on. */
  lemma FormattedIsValid(p: Params, l: Layout)
    requires p.Valid() && p.bVol + p.szVol < ALL_ONES && Good(p, l) && l.nClst >= 1
    ensures l.nClst < 0x1000_0000 && p.bVol + Total(p, l) < 0x1_0000_0000
    ensures var g := GeoOf(p, l); g.Valid() && RootFits(g) && g.EndOfData() <= p.bVol + p.szVol
  {
    hide BlockSize, TableBytes, PowerOfTwoByte, Good;
    GoodFits(p, l);
    GoodGeometry(p, l);
    assert l.szFat * p.nFat == if p.nFat == 2 then 2 * l.szFat else l.szFat;
  }

  lemma GoodGeometry(p: Params, l: Layout)
    requires p.Valid() && Good(p, l) && l.nClst >= 1
    ensures 3 <= l.nClst + 2 <= MaxClusters(l.fsty) + 2 && TableBytes(l.fsty, l.nClst + 2) <= l.szFat * SS
    ensures Total(p, l) + l.pau * l.nClst <= p.szVol && PowerOfTwoByte(l.pau) && l.szRsv >= 1
  {
  }

  /** Formatting a volume and mounting it: if the search finds a layout, the boot sector is recognised, and mounting succeeds
      exactly if the layout has a cluster, with the volume that was laid out. */
  method FormatThenMount(p: Params, vsn: u32) returns (made: bool, s: Sector, res: FResult, geo: Geometry)
    requires p.Valid()
    ensures made <==> Search(p).Accept?
    ensures made ==> Good(p, Search(p).l) && CheckFs(s) == 0 && (res == FR_OK <==> Search(p).l.nClst >= 1)
    ensures made && res == FR_OK ==>
      Search(p).l.nClst < 0x1000_0000 && p.bVol + Total(p, Search(p).l) < 0x1_0000_0000 && geo == GeoOf(p, Search(p).l)
    ensures made && p.szBlk == 1 ==> res == FR_OK
  {
    hide Search, Good, Written, MountOf, BpbOf, CheckFs, GeoOf;
    var v := FindLayout(p);
    made, s, res, geo := v.Accept?, ZeroSector(), FR_NO_FILESYSTEM, Geometry(FAT12, 0, 0, 0, 0, 0, 0, 0, 0, 0);
    if made {
      SearchResult(p);
      s := WriteVbr(p, v.l, vsn);
      Recognised(s, p, v.l);
      FormatMountAgree(s, p, v.l);
      res, geo := MountVolume(s, p.bVol);
    }
  }
}
