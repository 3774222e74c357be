/** The layout search of f_mkfs for FAT12/16/32 volumes. All quantities are 32-bit and wrap. */
module Format {
  import opened Arith
  import opened Bytes
  import opened VolumeGeometry

  /** What f_mkfs is asked to do: the volume, the alignment of its data area, and the options. */
  datatype Params = Params(
    szVol: u32,   // sectors of the volume
    bVol: u32,    // first sector of the volume
    szBlk: u32,   // erase block size, in sectors
    nFat: u32,    // number of FATs
    nRoot: u32,   // entries of a static root directory
    szAu: u32,    // sectors per cluster, 0 for automatic choice
    fmFat: bool,  // FAT12/16 allowed
    fmFat32: bool // FAT32 allowed
  ) {
    /** What f_mkfs makes of its arguments before the search. */
    predicate Valid() {
      && 128 <= szVol && bVol + szVol <= ALL_ONES
      && BlockSize(szBlk) && (nFat == 1 || nFat == 2)
      && 16 <= nRoot <= 32768 && nRoot % (SS / SZDIRE) == 0
      && UnitOk(szAu)
    }
  }

  /** Powers of two up to 0x8000. */
  predicate BlockSize(n: nat) {
    PowerOfTwoByte(n) || n == 0x100 || n == 0x200 || n == 0x400 || n == 0x800 || n == 0x1000 || n == 0x2000 || n == 0x4000 || n == 0x8000
  }

  predicate UnitOk(au: nat) {
    au == 0 || PowerOfTwoByte(au)
  }

  /** A layout the search accepts. */
  datatype Layout = Layout(fsty: FatType, pau: u32, nClst: u32, szRsv: u32, szFat: u32, szDir: u32, bFat: u32)

  /** First sector after the reserved area, the FATs and the root directory, counted from the start of the volume. */
  function Total(p: Params, l: Layout): nat {
    l.szRsv + l.szFat * p.nFat + l.szDir
  }

  /** What is right about an accepted layout: its areas fit the volume and leave room for exactly nClst clusters, the
      number of clusters makes the FAT sub-type it was made for, the FATs have room for all entries, the sizes fit
      their fields in the boot sector, and the data area is aligned. No subtraction has wrapped. */
  ghost predicate Good(p: Params, l: Layout) {
    && PowerOfTwoByte(l.pau)
    && Total(p, l) + l.pau * l.nClst <= p.szVol && p.szVol - Total(p, l) < l.pau * (l.nClst + 1)
    && l.bFat == p.bVol + l.szRsv
    && (match l.fsty
        case FAT12 => l.nClst <= MAX_FAT12
        case FAT16 => MAX_FAT12 < l.nClst <= MAX_FAT16
        case FAT32 => MAX_FAT16 < l.nClst <= MAX_FAT32)
    && TableBytes(l.fsty, l.nClst + 2) <= l.szFat * SS
    && 1 <= l.szRsv < 0x1_0000 && 1 <= l.szFat && (l.fsty != FAT32 ==> l.szFat < 0x1_0000) && (l.fsty == FAT32 ==> l.szRsv >= 32)
    && l.szDir == (if l.fsty == FAT32 then 0 else p.nRoot * SZDIRE / SS)
    && p.szBlk > 0 && (p.bVol + Total(p, l)) % p.szBlk == 0
  }

  /** Unsigned 32-bit multiplication. */
  function Mul32(a: u32, b: u32): u32 {
    a * b % 0x1_0000_0000
  }

  // ---- cluster size and FAT size

  const CST: seq<u32> := [1, 4, 16, 64, 256, 512, 0]  // limits in units of 4K sectors
  const CST32: seq<u32> := [1, 2, 4, 8, 16, 32, 0]    // limits in units of 128K sectors

  const UNITS: seq<u32> := [1, 2, 4, 8, 16, 32, 64]

  /** The cluster size a table gives to a volume of n units: twice as much for every limit reached. */
  function UnitFor(table: seq<u32>, n: u32, i: nat): (pau: u32)
    requires |table| == 7 && table[6] == 0 && i <= 6
    ensures PowerOfTwoByte(pau) && pau <= 64
    decreases 6 - i
  {
    if table[i] != 0 && table[i] <= n then UnitFor(table, n, i + 1) else UNITS[i]
  }

  method AutoUnit(table: seq<u32>, n: u32) returns (pau: u32)
    requires |table| == 7 && table[6] == 0
    ensures pau == UnitFor(table, n, 0)
  {
    var i := 0;
    pau := 1;
    while table[i] != 0 && table[i] <= n
      invariant 0 <= i <= 6 && pau == UNITS[i]
      invariant UnitFor(table, n, 0) == UnitFor(table, n, i)
      decreases 6 - i
    {
      i := i + 1;
      pau := pau * 2;
    }
  }

  /** Sectors per cluster in a round: the given size, or the one from the table of the type. */
  function UnitOf(szVol: u32, fsty: FatType, szAu: u32): (pau: u32)
    requires UnitOk(szAu)
    ensures PowerOfTwoByte(pau) && (szAu == 0 ==> pau <= 64)
  {
    if szAu != 0 then szAu
    else if fsty == FAT32 then UnitFor(CST32, szVol / 0x20000, 0)
    else UnitFor(CST, szVol / 0x1000, 0)
  }

  lemma QuotBounds(x: nat, k: nat)
    requires k > 0
    ensures 0 <= x / k <= x && k * (x / k) <= x < k * (x / k + 1)
  {
    DivMod(x, k);
    MulLe(x / k, 1, k);
    MulStep(k, x / k);
  }

  /** Bytes of a FAT for est clusters, as the search computes them. */
  function FatBytes(est: u32): u32 {
    if est > MAX_FAT12 then (est * 2 + 4) % 0x1_0000_0000 else (est * 3 + 1) / 2 + 3
  }

  method EstimateFat32(szVol: u32, szAu: u32) returns (ok: bool, pau: u32, szFat: u32)
    requires UnitOk(szAu)
    ensures pau == UnitOf(szVol, FAT32, szAu) && (ok <==> MAX_FAT16 < szVol / pau <= MAX_FAT32)
    ensures ok ==> szFat == (4 * (szVol / pau) + 519) / SS
  {
    pau := szAu;
    if pau == 0 {
      pau := AutoUnit(CST32, szVol / 0x20000);
    }
    QuotBounds(szVol, pau);
    var nClst: u32 := szVol / pau;
    szFat := Add32(Add32(Mul32(nClst, 4), 8), SS - 1) / SS;
    if nClst <= MAX_FAT32 { SameFat32(nClst); }
    hide Add32, Mul32;
    ok := !(nClst <= MAX_FAT16 || nClst > MAX_FAT32);
  }

  lemma SameFat32(est: u32)
    requires est <= MAX_FAT32
    ensures Add32(Add32(Mul32(est, 4), 8), SS - 1) == 4 * est + 519
  {
  }

  method EstimateFat(szVol: u32, szAu: u32) returns (fsty: FatType, pau: u32, szFat: u32)
    requires UnitOk(szAu)
    ensures pau == UnitOf(szVol, FAT16, szAu)
    ensures fsty == if szVol / pau > MAX_FAT12 then FAT16 else FAT12
    ensures 0 <= szVol / pau <= szVol && szFat == Add32(FatBytes(szVol / pau), 511) / SS
  {
    pau := szAu;
    if pau == 0 {
      pau := AutoUnit(CST, szVol / 0x1000);
    }
    QuotBounds(szVol, pau);
    var nClst: u32 := szVol / pau;
    var n: u32;
    fsty := FAT16;
    if nClst > MAX_FAT12 {
      n := Add32(Mul32(nClst, 2), 4);
    } else {
      fsty := FAT12;
      n := (nClst * 3 + 1) / 2 + 3;
    }
    SameBytes(nClst, n);
    szFat := Add32(n, SS - 1) / SS;
  }

  lemma SameBytes(est: u32, n: u32)
    requires n == if est > MAX_FAT12 then Add32(Mul32(est, 2), 4) else (est * 3 + 1) / 2 + 3
    ensures n == FatBytes(est)
  {
  }

  // ---- alignment

  /** Sectors to the next block boundary: ((b + k - 1) & ~(k - 1)) - b for a power of two k. */
  function Gap(b: u32, k: u32): u32
    requires k > 0
  {
    var x := Add32(b, k - 1);
    MaskBelow(x, k);
    Sub32(x - x % k, b)
  }

  lemma MaskBelow(x: nat, k: nat)
    requires k > 0
    ensures 0 <= x - x % k <= x
  {
    DivMod(x, k);
    MulLe(k, 0, x / k);
  }

  lemma BlockDivides(k: nat)
    requires BlockSize(k)
    ensures 1 <= k <= 0x8000 && k * (0x1_0000_0000 / k) == 0x1_0000_0000
  {
  }

  lemma Wraps(a: u32, b: u32)
    ensures Add32(a, b) == if a + b < 0x1_0000_0000 then a + b else a + b - 0x1_0000_0000
    ensures Sub32(a, b) == if a >= b then a - b else a - b + 0x1_0000_0000
  {
  }

  lemma GapIs(b: u32, k: u32)
    requires BlockSize(k)
    ensures k > 0 && Gap(b, k) == if b % k == 0 then 0 else k - b % k
  {
    hide BlockSize, Add32, Sub32;
    BlockDivides(k);
    var x := Add32(b, k - 1);
    MaskBelow(x, k);
    RoundUp(b, k, 0x1_0000_0000 / k, x);
    Wraps(x - x % k, b);
    Wraps(b, k - 1);
    DivMod(b, k);
  }

  /** Rounding b up to a block, where the whole range is a number of blocks. */
  lemma RoundUp(b: u32, k: u32, top: nat, x: u32)
    requires k > 0 && k * top == 0x1_0000_0000 && x == Add32(b, k - 1)
    ensures x - x % k == if b % k == 0 then b else if b - b % k + k == 0x1_0000_0000 then 0 else b - b % k + k
    ensures b - b % k + k <= 0x1_0000_0000
  {
    hide Add32;
    Wraps(b, k - 1);
    DivMod(b, k);
    var q, r := b / k, b % k;
    assert q < top by {
      if q >= top { MulLe(k, top, q); }
    }
    MulLe(k, q + 1, top);
    MulStep(k, q);
    if r == 0 {
      ModUnique(x, k, q, k - 1);
    } else if q + 1 == top {
      ModUnique(x, k, 0, r - 1);
    } else {
      MulLe(k, q + 2, top);
      MulStep(k, q + 1);
      ModUnique(x, k, q + 1, r - 1);
    }
  }

  lemma Aligned(b: nat, k: nat, n: nat)
    requires k > 0 && n == if b % k == 0 then 0 else k - b % k
    ensures n < k && (b + n) % k == 0
  {
    DivMod(b, k);
    if b % k == 0 {
    } else {
      MulStep(k, b / k);
      ModUnique(b + n, k, b / k + 1, 0);
    }
  }

  // ---- placing the areas

  /** Where the areas go: the reserved area (FAT32) or the FATs (FAT12/16) grow by the n sectors that align the data area. */
  method PlaceAreas(p: Params, fsty: FatType, szRsv0: u32, szFat0: u32, szDir: u32)
    returns (szRsv: u32, szFat: u32, bFat: u32, bData: u32, ghost gap: nat)
    requires p.Valid() && szRsv0 == (if fsty == FAT32 then 32 else 1) && szFat0 <= 0x80_0001 && szDir <= 2048
    ensures var t0 := szRsv0 + szFat0 * p.nFat + szDir;
      && t0 < 0x200_0000 && bData == Add32(p.bVol, t0) && szRsv + szFat * p.nFat + szDir == t0 + gap
    ensures gap < p.szBlk <= 0x8000 && (bData + gap) % p.szBlk == 0
    ensures bFat == Add32(p.bVol, szRsv)
    ensures gap == Gap(bData, p.szBlk)
    ensures if fsty == FAT32 then szFat == szFat0 && szRsv == 32 + gap else szRsv == 1 + gap % p.nFat && szFat == szFat0 + gap / p.nFat
  {
    hide BlockSize, Gap, Add32, Sub32, Mul32;
    BlockDivides(p.szBlk);
    Chain3(p.bVol, szRsv0, szFat0, p.nFat, szDir);
    szRsv, szFat := szRsv0, szFat0;
    bFat := Add32(p.bVol, szRsv);
    bData := Add32(Add32(bFat, Mul32(szFat, p.nFat)), szDir);
    GapIs(bData, p.szBlk);
    var n := Gap(bData, p.szBlk);
    gap := n;
    Aligned(bData, p.szBlk, gap);
    Halves(gap, p.nFat, szFat0);
    if fsty == FAT32 {
      Shift(p.bVol, szRsv, n);
      szRsv := Add32(szRsv, n);
      bFat := Add32(bFat, n);
    } else {
      if n % p.nFat != 0 {
        Shift(p.bVol, szRsv, 1);
        n := n - 1;
        szRsv := szRsv + 1;
        bFat := Add32(bFat, 1);
      }
      szFat := szFat + n / p.nFat;
    }
  }

  /** Moving the FAT base along with the reserved area. */
  lemma Shift(b: u32, a: u32, n: u32)
    requires a + n < 0x1_0000_0000
    ensures Add32(Add32(b, a), n) == Add32(b, a + n) && Add32(a, n) == a + n
  {
    hide Add32;
    Wraps(b, a);
    Wraps(Add32(b, a), n);
    Wraps(b, a + n);
    Wraps(a, n);
  }

  lemma Chain3(b: u32, rsv: u32, fat: u32, nFat: u32, dir: u32)
    requires rsv <= 32 && fat <= 0x80_0001 && dir <= 2048 && (nFat == 1 || nFat == 2)
    ensures var t := rsv + fat * nFat + dir;
      t < 0x200_0000 && Add32(Add32(Add32(b, rsv), Mul32(fat, nFat)), dir) == Add32(b, t)
  {
    var f := fat * nFat;
    assert f <= 0x100_0002 && Mul32(fat, nFat) == f;
    hide Add32, Mul32;
    Shift(b, rsv, f);
    Shift(b, rsv + f, dir);
  }

  lemma Halves(gap: nat, nFat: nat, szFat: nat)
    requires nFat == 1 || nFat == 2
    ensures var n := if gap % nFat != 0 then gap - 1 else gap;
      && n >= 0 && 0 <= gap % nFat <= 1 && n == gap - gap % nFat && n / nFat == gap / nFat <= gap && 0 <= n / nFat
      && (szFat + n / nFat) * nFat == szFat * nFat + n
  {
  }

  // ---- the verdict of a round

  datatype Verdict = Abort | Retry(fsty: FatType, szAu: u32) | Accept(l: Layout)

  /** A retry fixes the cluster size, or switches the type to FAT32. */
  ghost predicate Progress(fsty0: FatType, szAu0: u32, fsty: FatType, szAu: u32) {
    && UnitOk(szAu)
    && ((fsty == fsty0 && szAu0 == 0 && szAu != 0) || (fsty0 == FAT16 && fsty == FAT32 && szAu == szAu0))
  }

  /** What becomes of a layout at the end of a round that began with fsty0 and szAu0. */
  function JudgeOf(p: Params, fsty0: FatType, szAu0: u32, l: Layout): (v: Verdict)
    requires (fsty0 == FAT32 <==> l.fsty == FAT32) && PowerOfTwoByte(l.pau) && fsty0 != FAT12
    requires UnitOk(szAu0) && (szAu0 == 0 ==> l.pau <= 64)
    ensures v.Retry? ==> Progress(fsty0, szAu0, v.fsty, v.szAu)
    ensures v.Accept? ==> v.l == l && match l.fsty
        case FAT12 => l.nClst <= MAX_FAT12
        case FAT16 => MAX_FAT12 < l.nClst <= MAX_FAT16
        case FAT32 => MAX_FAT16 < l.nClst
  {
    match l.fsty
    case FAT12 => if l.nClst > MAX_FAT12 then Abort else Accept(l)
    case FAT16 =>
      if l.nClst > MAX_FAT16 then
        if szAu0 == 0 && l.pau <= 32 then Retry(FAT16, l.pau * 2)
        else if p.fmFat32 then Retry(FAT32, szAu0)
        else if szAu0 == 0 then Retry(FAT16, l.pau * 2)
        else Abort
      else if l.nClst > MAX_FAT12 then Accept(l)
      else if szAu0 == 0 then Retry(FAT16, l.pau * 2)
      else Abort
    case FAT32 =>
      if l.nClst > MAX_FAT16 then Accept(l)
      else if szAu0 == 0 && l.pau > 1 then Retry(FAT32, l.pau / 2)
      else Abort
  }

  /** The checks at the end of a round. */
  method Judge(p: Params, fsty0: FatType, szAu0: u32, l: Layout) returns (v: Verdict)
    requires (fsty0 == FAT32 <==> l.fsty == FAT32) && PowerOfTwoByte(l.pau) && fsty0 != FAT12
    requires UnitOk(szAu0) && (szAu0 == 0 ==> l.pau <= 64)
    ensures v == JudgeOf(p, fsty0, szAu0, l)
  {
    if l.fsty == FAT32 {
      if l.nClst <= MAX_FAT16 {
        if szAu0 == 0 && l.pau / 2 != 0 { return Retry(FAT32, l.pau / 2); }
        return Abort;
      }
    }
    if l.fsty == FAT16 {
      if l.nClst > MAX_FAT16 {
        if szAu0 == 0 && l.pau * 2 <= 64 { return Retry(FAT16, l.pau * 2); }
        if p.fmFat32 { return Retry(FAT32, szAu0); }
        if szAu0 == 0 && l.pau * 2 <= 128 { return Retry(FAT16, l.pau * 2); }
        return Abort;
      }
      if l.nClst <= MAX_FAT12 {
        if szAu0 == 0 && l.pau * 2 <= 128 { return Retry(FAT16, l.pau * 2); }
        return Abort;
      }
    }
    if l.fsty == FAT12 && l.nClst > MAX_FAT12 { return Abort; }
    v := Accept(l);
  }

  // ---- what acceptance means

  lemma QuotAbove(x: nat, k: nat, m: nat)
    requires 0 < k <= 128 && x >= 128 * (m + 1)
    ensures x / k > m
  {
    QuotBounds(x, k);
    if x / k <= m {
      MulLe(k, x / k + 1, m + 1);
      MulLe(m + 1, k, 128);
    }
  }

  lemma QuotMono(x: nat, t: nat, k: nat)
    requires 0 < k && t <= x
    ensures (x - t) / k <= x / k <= (x - t) / k + t + 1
  {
    QuotBounds(x, k);
    QuotBounds(x - t, k);
    var a, b := x / k, (x - t) / k;
    if b > a { MulLe(k, a + 1, b); }
    if a > b + t + 1 {
      MulLe(k, b + t + 2, a);
      assert k * (b + t + 2) == k * (b + 1) + k * (t + 1);
      MulLe(t + 1, 1, k);
    }
  }

  /** The count of an accepted layout did not wrap. */
  lemma NoWrap(szVol: u32, t: nat, pau: u32, nClst: u32)
    requires t < 0x400_0000 && PowerOfTwoByte(pau) && nClst == Sub32(szVol, t) / pau && nClst <= MAX_FAT16
    ensures t <= szVol
  {
    if szVol < t {
      QuotAbove(Sub32(szVol, t), pau, MAX_FAT16);
    }
  }

  /** The two sides of the count. */
  lemma CountExact(szVol: u32, t: nat, pau: u32, nClst: u32)
    requires t <= szVol && pau > 0 && nClst == Sub32(szVol, t) / pau
    ensures t + pau * nClst <= szVol && szVol - t < pau * (nClst + 1)
    ensures nClst <= szVol / pau <= nClst + t + 1
  {
    QuotBounds(szVol - t, pau);
    QuotMono(szVol, t, pau);
  }

  /** Sizes of an accepted FAT12/16 layout. */
  lemma FatFits(est: nat, nClst: nat, szFat0: nat, szFat: nat, fsty: FatType, t: nat, szDir: nat, gap: nat, nFat: nat)
    requires fsty != FAT32 && fsty == (if est > MAX_FAT12 then FAT16 else FAT12) && est < 0x1_0000_0000
    requires szFat0 == Add32(FatBytes(est), 511) / SS
    requires nFat == 1 || nFat == 2
    requires nClst <= est <= nClst + t + 1 && nClst <= MAX_FAT16 && t < 0x400_0000
    requires t == 1 + szFat0 * nFat + szDir + gap && szDir <= 2048 && gap < 0x8000 && szFat0 <= szFat <= szFat0 + gap
    ensures TableBytes(fsty, nClst + 2) <= szFat * SS && 1 <= szFat < 0x1_0000
  {
    FatBytesSmall(est);
    assert szFat0 * nFat <= 2 * szFat0;
    if fsty == FAT16 {
      assert 512 * szFat0 <= 2 * est + 515;
    } else {
      Fat12Bytes(est, nClst);
    }
  }

  lemma FatBytesSmall(est: nat)
    requires est < 0x800_0000
    ensures Add32(FatBytes(est), 511) == (if est > MAX_FAT12 then 2 * est + 4 else (3 * est + 1) / 2 + 3) + 511
  {
  }

  lemma Fat12Bytes(est: nat, n: nat)
    requires n <= est
    ensures TableBytes(FAT12, n + 2) <= (3 * est + 1) / 2 + 3
  {
    assert n + 2 == 2 * ((n + 2) / 2) + (n + 2) % 2;
  }

  /** The bytes needed for the clusters counted in the end are there. */
  lemma Fat32Fits(est: nat, nClst: nat, szFat: nat)
    requires nClst <= est && szFat == (4 * est + 519) / SS
    ensures TableBytes(FAT32, nClst + 2) <= szFat * SS && 1 <= szFat
  {
  }

  lemma AcceptFat32(p: Params, l: Layout, est: nat, t0: nat, gap: nat)
    requires p.Valid() && l.fsty == FAT32 && PowerOfTwoByte(l.pau) && est == p.szVol / l.pau && MAX_FAT16 < est <= MAX_FAT32
    requires t0 == 32 + l.szFat * p.nFat && l.szFat == (4 * est + 519) / SS && l.szRsv == 32 + gap && l.szDir == 0 && gap < 0x8000
    requires Total(p, l) == t0 + gap && l.nClst == Sub32(p.szVol, t0 + gap) / l.pau && MAX_FAT16 < l.nClst
    requires l.bFat == Add32(p.bVol, l.szRsv)
    requires p.szBlk > 0 && (Add32(p.bVol, t0) + gap) % p.szBlk == 0
    ensures Good(p, l)
  {
    QuotBounds(p.szVol, l.pau);
    assert l.szFat * p.nFat <= 2 * l.szFat;
    assert t0 + gap <= p.szVol;
    CountExact(p.szVol, t0 + gap, l.pau, l.nClst);
    Fat32Fits(est, l.nClst, l.szFat);
    hide Add32, Sub32, TableBytes, BlockSize;
    Wraps(p.bVol, l.szRsv);
    Wraps(p.bVol, t0);
  }

  lemma AcceptFat(p: Params, l: Layout, est: nat, szFat0: nat, t0: nat, gap: nat)
    requires p.Valid() && l.fsty == (if est > MAX_FAT12 then FAT16 else FAT12) && PowerOfTwoByte(l.pau) && est == p.szVol / l.pau
    requires szFat0 == Add32(FatBytes(est), 511) / SS && t0 == 1 + szFat0 * p.nFat + l.szDir && t0 < 0x200_0000
    requires 1 <= l.szRsv <= 2 && szFat0 <= l.szFat <= szFat0 + gap && l.szDir == p.nRoot * SZDIRE / SS && gap < 0x8000
    requires Total(p, l) == t0 + gap && l.nClst == Sub32(p.szVol, t0 + gap) / l.pau
    requires if l.fsty == FAT12 then l.nClst <= MAX_FAT12 else MAX_FAT12 < l.nClst <= MAX_FAT16
    requires l.bFat == Add32(p.bVol, l.szRsv)
    requires p.szBlk > 0 && (Add32(p.bVol, t0) + gap) % p.szBlk == 0
    ensures Good(p, l)
  {
    hide Add32, Sub32, BlockSize, FatBytes, TableBytes;
    NoWrap(p.szVol, t0 + gap, l.pau, l.nClst);
    CountExact(p.szVol, t0 + gap, l.pau, l.nClst);
    FatFits(est, l.nClst, szFat0, l.szFat, l.fsty, t0 + gap, l.szDir, gap, p.nFat);
    Wraps(p.bVol, l.szRsv);
    Wraps(p.bVol, t0);
  }

  lemma SubChain(v: u32, a: u32, f: u32, n: u32, d: u32)
    requires a <= 0x1_0000 && f <= 0x81_0000 && (n == 1 || n == 2) && d <= 2048
    ensures a + f * n + d < 0x400_0000 && Sub32(Sub32(Sub32(v, a), Mul32(f, n)), d) == Sub32(v, a + f * n + d)
  {
    var m := f * n;
    assert m <= 0x102_0000 && Mul32(f, n) == m;
    hide Sub32, Mul32;
    var t := a + m + d;
    Wraps(v, a);
    Wraps(Sub32(v, a), m);
    Wraps(Sub32(Sub32(v, a), m), d);
    Wraps(v, t);
  }

  lemma Needed16(b: u32, t0: u32, pau: u32)
    requires t0 < 0x200_0000 && pau <= 128
    ensures Sub32(Add32(Add32(b, t0), pau * 16), b) == t0 + pau * 16
  {
    hide Add32, Sub32;
    Shift(b, t0, pau * 16);
    Wraps(b, t0 + pau * 16);
    Wraps(Add32(b, t0 + pau * 16), b);
  }

  // ---- the search

  /** The FAT sub-type a round works for, and the FAT size it first reckons with. */
  function TypeOf(fsty0: FatType, est: u32): FatType {
    if fsty0 == FAT32 then FAT32 else if est > MAX_FAT12 then FAT16 else FAT12
  }

  function FatSize(fsty: FatType, est: u32): (n: u32)
    ensures fsty != FAT32 || est <= MAX_FAT32 ==> n <= 0x80_0001
  {
    if fsty == FAT32 then (if est <= MAX_FAT32 then (4 * est + 519) / SS else 0) else Add32(FatBytes(est), 511) / SS
  }

  /** What a round reckons with before the data area is aligned. */
  datatype Plan = Plan(fsty: FatType, pau: u32, est: u32, szFat: u32, rsv: u32, dir: u32) {
    predicate Ok() {
      PowerOfTwoByte(pau) && rsv == (if fsty == FAT32 then 32 else 1) && szFat <= 0x80_0001 && dir <= 2048
    }
  }

  function PlanOf(p: Params, fsty0: FatType, szAu0: u32): (q: Plan)
    requires p.Valid() && fsty0 != FAT12 && UnitOk(szAu0)
    ensures q.Ok() && (szAu0 == 0 ==> q.pau <= 64) && (fsty0 == FAT32 <==> q.fsty == FAT32)
    ensures q.est == p.szVol / q.pau && q.fsty == TypeOf(fsty0, q.est) && q.szFat == FatSize(q.fsty, q.est)
    ensures q.dir == if q.fsty == FAT32 then 0 else p.nRoot * SZDIRE / SS
  {
    var pau := UnitOf(p.szVol, fsty0, szAu0);
    QuotBounds(p.szVol, pau);
    var est := p.szVol / pau;
    var fsty := TypeOf(fsty0, est);
    Plan(fsty, pau, est, FatSize(fsty, est), if fsty == FAT32 then 32 else 1, if fsty == FAT32 then 0 else p.nRoot * SZDIRE / SS)
  }

  /** Sectors before the data area, unaligned. */
  function Base(p: Params, q: Plan): (t0: nat)
    requires p.Valid() && q.Ok()
    ensures t0 < 0x200_0000
  {
    Chain3(p.bVol, q.rsv, q.szFat, p.nFat, q.dir);
    q.rsv + q.szFat * p.nFat + q.dir
  }

  lemma PadFacts(b: u32, k: u32)
    requires BlockSize(k)
    ensures k > 0 && Gap(b, k) < k <= 0x8000 && (b + Gap(b, k)) % k == 0
  {
    hide BlockSize, Gap;
    GapIs(b, k);
    Aligned(b, k, Gap(b, k));
    BlockDivides(k);
  }

  /** Sectors that align it. */
  function Pad(p: Params, q: Plan): (gap: nat)
    requires p.Valid() && q.Ok()
    ensures gap < p.szBlk <= 0x8000 && (Add32(p.bVol, Base(p, q)) + gap) % p.szBlk == 0
  {
    hide BlockSize, Gap, Add32, Base;
    PadFacts(Add32(p.bVol, Base(p, q)), p.szBlk);
    Gap(Add32(p.bVol, Base(p, q)), p.szBlk)
  }

  /** The final sizes: the reserved area and the FAT size with the padding in them. */
  function RsvOf(p: Params, q: Plan): (n: u32)
    requires p.Valid() && q.Ok()
    ensures q.fsty == FAT32 ==> n == 32 + Pad(p, q)
    ensures q.fsty != FAT32 ==> 1 <= n <= 2
  {
    hide Pad;
    Halves(Pad(p, q), p.nFat, q.szFat);
    if q.fsty == FAT32 then q.rsv + Pad(p, q) else q.rsv + Pad(p, q) % p.nFat
  }

  function FatOf(p: Params, q: Plan): (n: u32)
    requires p.Valid() && q.Ok()
    ensures q.fsty == FAT32 ==> n == q.szFat
    ensures q.fsty != FAT32 ==> q.szFat <= n <= q.szFat + Pad(p, q)
    ensures RsvOf(p, q) + n * p.nFat + q.dir == Base(p, q) + Pad(p, q)
  {
    hide Pad;
    Halves(Pad(p, q), p.nFat, q.szFat);
    if q.fsty == FAT32 then q.szFat else q.szFat + Pad(p, q) / p.nFat
  }

  function CountOf(p: Params, q: Plan): u32
    requires p.Valid() && q.Ok()
  {
    hide Pad, Base, Sub32;
    var left := Sub32(p.szVol, Base(p, q) + Pad(p, q));
    QuotBounds(left, q.pau);
    left / q.pau
  }

  /** The layout of a round. */
  function LayoutFrom(p: Params, q: Plan): (l: Layout)
    requires p.Valid() && q.Ok()
    ensures l.pau == q.pau && l.fsty == q.fsty && Total(p, l) == Base(p, q) + Pad(p, q)
  {
    Layout(q.fsty, q.pau, CountOf(p, q), RsvOf(p, q), FatOf(p, q), q.dir, Add32(p.bVol, RsvOf(p, q)))
  }

  /** One round of the search, in plain numbers. */
  function RoundOf(p: Params, fsty0: FatType, szAu0: u32): (v: Verdict)
    requires p.Valid() && fsty0 != FAT12 && UnitOk(szAu0)
    ensures v.Retry? ==> Progress(fsty0, szAu0, v.fsty, v.szAu)
  {
    var q := PlanOf(p, fsty0, szAu0);
    if fsty0 == FAT32 && !(MAX_FAT16 < q.est <= MAX_FAT32) then Abort
    else if p.szVol < Base(p, q) + q.pau * 16 then Abort
    else JudgeOf(p, fsty0, szAu0, LayoutFrom(p, q))
  }

  /** An accepted layout had room for 16 clusters before the data area was aligned. */
  ghost predicate Roomy(p: Params, l: Layout) {
    Total(p, l) + 16 * l.pau < p.szVol + p.szBlk
  }

  /** A FAT32 plan whose layout is accepted. */
  lemma PlanGood32(p: Params, q: Plan)
    requires p.Valid() && q.Ok() && q.fsty == FAT32 && q.est == p.szVol / q.pau && MAX_FAT16 < q.est <= MAX_FAT32
    requires q.szFat == FatSize(FAT32, q.est) && q.dir == 0 && CountOf(p, q) > MAX_FAT16
    ensures Good(p, LayoutFrom(p, q))
  {
    hide Good, Pad, RsvOf, FatOf, Total, Add32, Sub32, Params.Valid, PowerOfTwoByte;
    AcceptFat32(p, LayoutFrom(p, q), q.est, Base(p, q), Pad(p, q));
  }

  /** The same for FAT12 and FAT16. */
  lemma PlanGood(p: Params, q: Plan)
    requires p.Valid() && q.Ok() && q.fsty == TypeOf(FAT16, q.est) && q.est == p.szVol / q.pau
    requires q.szFat == FatSize(q.fsty, q.est) && q.dir == p.nRoot * SZDIRE / SS
    requires if q.fsty == FAT12 then CountOf(p, q) <= MAX_FAT12 else MAX_FAT12 < CountOf(p, q) <= MAX_FAT16
    ensures Good(p, LayoutFrom(p, q))
  {
    hide Good, Pad, RsvOf, FatOf, Total, Add32, Sub32, Params.Valid, PowerOfTwoByte, FatBytes;
    AcceptFat(p, LayoutFrom(p, q), q.est, q.szFat, Base(p, q), Pad(p, q));
  }

  /** What a round accepts is right. */
  lemma RoundIsGood(p: Params, fsty0: FatType, szAu0: u32)
    requires p.Valid() && fsty0 != FAT12 && UnitOk(szAu0) && RoundOf(p, fsty0, szAu0).Accept?
    ensures Good(p, RoundOf(p, fsty0, szAu0).l) && Roomy(p, RoundOf(p, fsty0, szAu0).l)
  {
    hide BlockSize, Good, PlanOf, Pad, RsvOf, FatOf, CountOf, Params.Valid, PowerOfTwoByte, Total, FatSize, Base;
    var q := PlanOf(p, fsty0, szAu0);
    if fsty0 == FAT32 {
      PlanGood32(p, q);
    } else {
      PlanGood(p, q);
    }
  }

  /** The same round as the code does it, in 32-bit steps. */
  method Round(p: Params, fsty0: FatType, szAu0: u32) returns (v: Verdict)
    requires p.Valid() && fsty0 != FAT12 && UnitOk(szAu0)
    ensures v == RoundOf(p, fsty0, szAu0)
  {
    hide BlockSize, Add32, Sub32, Mul32, FatBytes, Gap, UnitOf, JudgeOf;
    ghost var q := PlanOf(p, fsty0, szAu0);
    var fsty, pau, szFat, szRsv, szDir := fsty0, 0, 0, 32, 0;
    if fsty0 == FAT32 {
      var ok;
      ok, pau, szFat := EstimateFat32(p.szVol, szAu0);
      if !ok { return Abort; }
    } else {
      fsty, pau, szFat := EstimateFat(p.szVol, szAu0);
      szRsv := 1;
      szDir := p.nRoot * SZDIRE / SS;
    }
    assert q.pau == pau && q.fsty == fsty && q.szFat == szFat && q.rsv == szRsv && q.dir == szDir;
    ghost var t0 := Base(p, q);
    var bFat, bData;
    ghost var gap;
    szRsv, szFat, bFat, bData, gap := PlaceAreas(p, fsty, szRsv, szFat, szDir);
    Needed16(p.bVol, t0, pau);
    if p.szVol < Sub32(Add32(bData, pau * 16), p.bVol) { return Abort; }
    SubChain(p.szVol, szRsv, szFat, p.nFat, szDir);
    QuotBounds(Sub32(p.szVol, t0 + gap), pau);
    var nClst := Sub32(Sub32(Sub32(p.szVol, szRsv), Mul32(szFat, p.nFat)), szDir) / pau;
    v := Judge(p, fsty0, szAu0, Layout(fsty, pau, nClst, szRsv, szFat, szDir, bFat));
  }

  /** The rounds until one does not ask for another. There is an end: a retry fixes the cluster size or switches the
      type to FAT32. */
  function SearchFrom(p: Params, fsty: FatType, szAu: u32): (v: Verdict)
    requires p.Valid() && fsty != FAT12 && UnitOk(szAu)
    ensures !v.Retry?
    decreases fsty == FAT16, szAu == 0
  {
    var v := RoundOf(p, fsty, szAu);
    if v.Retry? then SearchFrom(p, v.fsty, v.szAu) else v
  }

  function FirstType(p: Params): (t: FatType)
    ensures t != FAT12
  {
    if p.fmFat32 && !p.fmFat then FAT32 else FAT16
  }

  function Search(p: Params): (v: Verdict)
    requires p.Valid()
    ensures !v.Retry?
  {
    if !p.fmFat && !p.fmFat32 then Abort else SearchFrom(p, FirstType(p), p.szAu)
  }

  lemma {:induction false} SearchIsGood(p: Params, fsty: FatType, szAu: u32)
    requires p.Valid() && fsty != FAT12 && UnitOk(szAu) && SearchFrom(p, fsty, szAu).Accept?
    ensures Good(p, SearchFrom(p, fsty, szAu).l) && Roomy(p, SearchFrom(p, fsty, szAu).l)
    decreases fsty == FAT16, szAu == 0
  {
    hide RoundOf, Good, Roomy;
    var v := RoundOf(p, fsty, szAu);
    if v.Retry? {
      SearchIsGood(p, v.fsty, v.szAu);
    } else {
      RoundIsGood(p, fsty, szAu);
    }
  }

  /** The layout search of f_mkfs. */
  method FindLayout(p: Params) returns (v: Verdict)
    requires p.Valid()
    ensures v == Search(p)
  {
    hide RoundOf;
    if !p.fmFat && !p.fmFat32 { return Abort; }
    var fsty := if p.fmFat32 && !p.fmFat then FAT32 else FAT16;
    var szAu := p.szAu;
    while true
      invariant fsty != FAT12 && UnitOk(szAu) && Search(p) == SearchFrom(p, fsty, szAu)
      decreases fsty == FAT16, szAu == 0
    {
      v := Round(p, fsty, szAu);
      if !v.Retry? { return; }
      fsty, szAu := v.fsty, v.szAu;
    }
  }

  /** Every layout the search accepts is right. It has at least 16 clusters when the data area needs no alignment; in
      general it has at least one exactly when the aligned areas leave room for one. */
  lemma SearchResult(p: Params)
    requires p.Valid() && Search(p).Accept?
    ensures var l := Search(p).l;
      && Good(p, l) && (p.szBlk == 1 ==> l.nClst >= 16)
      && (l.nClst >= 1 <==> Total(p, l) + l.pau <= p.szVol) && (l.nClst == 0 ==> l.fsty == FAT12)
  {
    hide SearchFrom, FirstType;
    SearchIsGood(p, FirstType(p), p.szAu);
    ClustersLeft(p, Search(p).l);
  }

  /** The search leaves at least 16 clusters when the data area needs no alignment; in general it leaves at least one
      exactly when the aligned areas leave room for one. */
  lemma ClustersLeft(p: Params, l: Layout)
    requires p.Valid() && Good(p, l) && Roomy(p, l)
    ensures p.szBlk == 1 ==> l.nClst >= 16
    ensures l.nClst >= 1 <==> Total(p, l) + l.pau <= p.szVol
    ensures l.nClst == 0 ==> l.fsty == FAT12
  {
    if p.szBlk == 1 && l.nClst < 16 {
      MulLe(l.pau, l.nClst + 1, 16);
    }
    if l.nClst >= 1 { MulLe(l.pau, 1, l.nClst); }
  }

  /** A volume the search accepts although the aligned data area has no room for a cluster. */
  lemma NoClusterLeft()
    ensures var p := Params(4096, 0, 4096, 1, 512, 0, true, true);
            p.Valid() && Search(p) == Accept(Layout(FAT12, 2, 0, 1, 4063, 32, 1))
  {
    var p := Params(4096, 0, 4096, 1, 512, 0, true, true);
    assert UnitFor(CST, 1, 1) == 2;
    assert UnitOf(4096, FAT16, 0) == 2;
    var q := PlanOf(p, FAT16, 0);
    assert q == Plan(FAT12, 2, 2048, 7, 1, 32);
    assert Base(p, q) == 40 && Pad(p, q) == 4056;
    assert RoundOf(p, FAT16, 0) == Accept(Layout(FAT12, 2, 0, 1, 4063, 32, 1));
  }
}
