/** The allocation bitmap of an exFAT volume as it lies on the disk: bits of bytes of sectors, behind the sector window. */
module ExBitmap {
  import opened Arith
  import opened Bytes
  import opened ExFat
  import opened Window

  // ---- bits of bytes

  /** 1 << k in a BYTE. */
  function Mask(k: nat): (m: nat)
    requires k < 8
    ensures 0 < m < 0x100
  {
    [1, 2, 4, 8, 0x10, 0x20, 0x40, 0x80][k]
  }

  /** bm <<= 1 in a BYTE. */
  function Shift(bm: nat): nat {
    bm * 2 % 0x100
  }

  /** b & bm, for a mask of one bit. */
  predicate Under(b: byte, bm: nat)
    requires bm > 0
  {
    b / bm % 2 == 1
  }

  /** Bit k of a byte is set. */
  predicate BitOf(b: byte, k: nat)
    requires k < 8
  {
    Under(b, Mask(k))
  }

  /** b ^= 1 << k */
  function Flip(b: byte, k: nat): byte
    requires k < 8
  {
    FlipFits(b, k);
    if BitOf(b, k) then b - Mask(k) else b + Mask(k)
  }

  lemma FlipFits(b: byte, k: nat)
    requires k < 8
    ensures 0 <= (if BitOf(b, k) then b - Mask(k) else b + Mask(k)) < 0x100
  {
  }

  lemma MaskProduct(j: nat, k: nat)
    requires j < k < 8
    ensures Mask(k) == Mask(j) * (2 * Mask(k - 1 - j))
  {
    if j == 0 {
    } else if j == 1 {
    } else if j == 2 {
    } else if j == 3 {
    } else if j == 4 {
    } else if j == 5 {
    } else {
    }
  }

  lemma AddDiv(b: nat, m: nat, q: int)
    requires m > 0 && b + m * q >= 0
    ensures (b + m * q) / m == b / m + q
  {
    DivMod(b, m);
    assert b + m * q == m * (b / m + q) + b % m;
    ModUnique(b + m * q, m, b / m + q, b % m);
  }

  lemma DivTwice(b: nat, m: nat, e: nat)
    requires m > 0 && e > 0
    ensures m * e > 0 && b / (m * e) == b / m / e
  {
    var x := b / m;
    DivMod(b, m);
    DivMod(x, e);
    MulLe(m, 1, e);
    MulLe(m, x % e, e - 1);
    assert b == m * e * (x / e) + (m * (x % e) + b % m) by { assert m * x == m * (e * (x / e)) + m * (x % e); }
    ModUnique(b, m * e, x / e, m * (x % e) + b % m);
  }

  /** Adding or taking away an even number of units. */
  lemma EvenStep(b: nat, m: nat, e: nat, c: nat)
    requires m > 0 && (c == b + m * (2 * e) || c == b - m * (2 * e))
    ensures c / m % 2 == b / m % 2
  {
    if c == b + m * (2 * e) {
      AddDiv(b, m, 2 * e);
    } else {
      assert c == b + m * (-(2 * e));
      AddDiv(b, m, -(2 * e));
    }
  }

  /** Adding a unit to an even number of units, or taking one from an odd number, changes nothing above. */
  lemma UnitStep(b: nat, m: nat, c: nat)
    requires m > 0 && c == if b / m % 2 == 1 then b - m else b + m
    ensures c / m % 2 != b / m % 2 && c / m / 2 == b / m / 2
  {
    AddDiv(b, m, if b / m % 2 == 1 then -1 else 1);
  }

  lemma AboveUnit(b: nat, m: nat, e: nat)
    requires m > 0 && e > 0
    ensures b / (m * (2 * e)) == b / m / 2 / e
  {
    DivTwice(b, m, 2 * e);
    DivTwice(b / m, 2, e);
  }

  /** Flipping changes that bit and no other. */
  lemma FlipOne(b: byte, k: nat, j: nat)
    requires k < 8 && j < 8
    ensures BitOf(Flip(b, k), j) <==> (BitOf(b, j) != (j == k))
  {
    hide Mask;
    if j < k {
      MaskProduct(j, k);
      EvenStep(b, Mask(j), Mask(k - 1 - j), Flip(b, k));
    } else {
      UnitStep(b, Mask(k), Flip(b, k));
      if k < j {
        MaskProduct(k, j);
        AboveUnit(b, Mask(k), Mask(j - 1 - k));
        AboveUnit(Flip(b, k), Mask(k), Mask(j - 1 - k));
      }
    }
  }

  // ---- the bitmap on the disk

  /** n bits from sector base on lie on a disk of this size. */
  ghost predicate RoomFor(size: nat, base: nat, n: nat) {
    base <= size && n <= 0x1000 * (size - base)
  }

  /** Bit number j of a bitmap that begins at a sector. */
  ghost predicate BitAt(m: seq<Sector>, base: nat, j: nat)
    requires RoomFor(|m|, base, j + 1)
  {
    BitOf(m[base + j / 8 / SS][j / 8 % SS], j % 8)
  }

  /** The first n bits of the bitmap. */
  ghost function Bits(m: seq<Sector>, base: nat, n: nat): (bits: seq<bool>)
    requires RoomFor(|m|, base, n)
    ensures |bits| == n
  {
    seq(n, j requires 0 <= j < n => BitAt(m, base, j))
  }

  /** The bitmap of n clusters lies on the disk behind the FATs. */
  ghost predicate Sound(fs: FatFs, base: nat, n: nat)
    reads fs`winsect, fs`wflag, fs.drive, fs.win
  {
    fs.Coherent() && fs.geo.EndOfFats() <= base && 0 < n < EOC && RoomFor(|fs.drive.sectors|, base, n)
  }

  /** Only sectors of the bitmap differ. */
  ghost predicate BitmapOnly(m: seq<Sector>, m2: seq<Sector>, base: nat, n: nat) {
    |m2| == |m| && forall s | 0 <= s < |m| && !(base <= s && 0x1000 * (s - base) < n) :: m2[s] == m[s]
  }

  /** The place of bit val: its sector is in the window, i is its byte, and bm its mask. */
  ghost predicate Here(fs: FatFs, base: nat, val: nat, i: nat, bm: nat)
    reads fs`winsect, fs`wflag, fs.drive, fs.win
  {
    && fs.Coherent() && fs.winsect == base + SectorOf(val) < |fs.drive.sectors| && fs.win[..] == fs.Map()[fs.winsect]
    && Place(val, i, bm)
  }

  /** The sector of bit val, counted from the first one of the bitmap. */
  function SectorOf(val: nat): nat {
    val / 8 / SS
  }

  /** Byte and mask of bit val. */
  predicate Place(val: nat, i: nat, bm: nat) {
    i == val / 8 % SS && bm == Mask(val % 8)
  }

  lemma NextMask(k: nat)
    requires k < 8
    ensures Shift(Mask(k)) == if k == 7 then 0 else Mask(k + 1)
  {
  }

  /** The next bit is in the same byte, in the next byte of the sector, or in the next sector. */
  lemma NextPlace(val: nat)
    ensures val % 8 < 8 && val / 8 % SS < SS
    ensures val % 8 != 7 ==> (val + 1) / 8 == val / 8 && (val + 1) % 8 == val % 8 + 1
    ensures val % 8 == 7 ==> (val + 1) / 8 == val / 8 + 1 && (val + 1) % 8 == 0
    ensures val % 8 == 7 && val / 8 % SS + 1 < SS ==> (val + 1) / 8 % SS == val / 8 % SS + 1 && (val + 1) / 8 / SS == val / 8 / SS
    ensures val % 8 == 7 && val / 8 % SS + 1 == SS ==> (val + 1) / 8 % SS == 0 && (val + 1) / 8 / SS == val / 8 / SS + 1
  {
    NextUnit(val, 8);
    NextUnit(val / 8, SS);
  }

  lemma NextUnit(x: nat, d: nat)
    requires d == 8 || d == SS
    ensures 0 <= x % d < d && if x % d + 1 < d then (x + 1) / d == x / d && (x + 1) % d == x % d + 1 else (x + 1) / d == x / d + 1 && (x + 1) % d == 0
  {
  }

  /** Where the next bit is, told by the shifted mask. */
  lemma NextIn(val: nat, i: nat, bm: nat)
    requires Place(val, i, bm)
    ensures 0 < bm && i < SS
    ensures Shift(bm) != 0 ==> Place(val + 1, i, Shift(bm)) && SectorOf(val + 1) == SectorOf(val)
    ensures Shift(bm) == 0 && i + 1 < SS ==> Place(val + 1, i + 1, 1) && SectorOf(val + 1) == SectorOf(val)
    ensures Shift(bm) == 0 && i + 1 == SS ==> Place(val + 1, 0, 1) && SectorOf(val + 1) == SectorOf(val) + 1
  {
    NextPlace(val);
    NextMask(val % 8);
    assert Mask(0) == 1;
    hide Mask;
  }

  /** The bit under the mask. */
  lemma BitHere(fs: FatFs, base: nat, n: nat, val: nat, i: nat, bm: nat)
    requires Sound(fs, base, n) && val < n && Here(fs, base, val, i, bm)
    ensures 0 < bm && i < SS && (Under(fs.win[i], bm) <==> Bits(fs.Map(), base, n)[val])
  {
    assert fs.win[..][i] == fs.win[i];
  }

  /** Where the bit after val is. */
  ghost predicate OnTo(fs: FatFs, base: nat, val: nat, i: nat, bm: nat)
    reads fs`winsect, fs`wflag, fs.drive, fs.win
  {
    if Shift(bm) != 0 then Here(fs, base, val + 1, i, Shift(bm)) && SectorOf(val + 1) == SectorOf(val)
    else if i + 1 < SS then Here(fs, base, val + 1, i + 1, 1) && SectorOf(val + 1) == SectorOf(val)
    else Place(val + 1, 0, 1) && SectorOf(val + 1) == SectorOf(val) + 1
  }

  /** The bit under the mask, and where the next one is. */
  lemma UnderMask(fs: FatFs, base: nat, n: nat, val: nat, i: nat, bm: nat)
    requires Sound(fs, base, n) && val < n && Here(fs, base, val, i, bm)
    ensures 0 < bm && i < SS && (Under(fs.win[i], bm) <==> Bits(fs.Map(), base, n)[val])
    ensures OnTo(fs, base, val, i, bm)
  {
    hide FatFs.Coherent, FatFs.Map, Sound, Bits, Place, SectorOf, Under;
    BitHere(fs, base, n, val, i, bm);
    NextIn(val, i, bm);
  }

  // ---- the search

  /** Where a search that starts at bit start and goes round is after s bits. */
  function Round(n: nat, start: nat, s: nat): int {
    if start + s < n then start + s else start + s - n
  }

  /** The k bits of the search from position s on are clear. */
  ghost predicate FreeRun(bits: seq<bool>, start: nat, s: int, k: int)
    requires start < |bits|
  {
    0 <= s && s + k <= |bits| && forall t | s <= t < s + k :: !bits[Round(|bits|, start, t)]
  }

  /** After s bits: the last ctr of them are clear and no more, and no run of ncl ended yet. */
  ghost predicate Searched(bits: seq<bool>, start: nat, ncl: nat, s: nat, ctr: nat) {
    && start < |bits| && ctr <= s <= |bits| && ctr < ncl
    && FreeRun(bits, start, s - ctr, ctr) && (ctr < s ==> bits[Round(|bits|, start, s - ctr - 1)])
    && forall q | 0 <= q && q + ncl <= s :: !FreeRun(bits, start, q, ncl)
  }

  lemma SearchedFree(bits: seq<bool>, start: nat, ncl: nat, s: nat, ctr: nat)
    requires Searched(bits, start, ncl, s, ctr) && s < |bits| && !bits[Round(|bits|, start, s)]
    ensures ctr + 1 < ncl ==> Searched(bits, start, ncl, s + 1, ctr + 1)
    ensures ctr + 1 == ncl ==> FreeRun(bits, start, s + 1 - ncl, ncl) && forall q | 0 <= q < s + 1 - ncl :: !FreeRun(bits, start, q, ncl)
  {
    assert FreeRun(bits, start, s - ctr, ctr + 1);
    if ctr + 1 < ncl && ncl <= s + 1 {
      assert s + 1 - ncl <= s - ctr - 1 < s + 1;
      assert !FreeRun(bits, start, s + 1 - ncl, ncl);
    }
  }

  lemma SearchedUsed(bits: seq<bool>, start: nat, ncl: nat, s: nat, ctr: nat)
    requires Searched(bits, start, ncl, s, ctr) && s < |bits| && bits[Round(|bits|, start, s)]
    ensures Searched(bits, start, ncl, s + 1, 0)
  {
    if ncl <= s + 1 { assert !FreeRun(bits, start, s + 1 - ncl, ncl); }
  }

  /** The answer of the search: the first run there is, or 0. */
  ghost predicate Found(bits: seq<bool>, start: nat, ncl: nat, r: nat, s: int)
    requires start < |bits|
  {
    if r == 0 then forall q :: !FreeRun(bits, start, q, ncl)
    else FreeRun(bits, start, s, ncl) && r == Round(|bits|, start, s) + 2 && forall q | 0 <= q < s :: !FreeRun(bits, start, q, ncl)
  }

  /** The variables of the search after s bits. */
  ghost predicate Stands(bits: seq<bool>, start: nat, ncl: nat, s: nat, ctr: nat, val: nat, scl: nat) {
    && Searched(bits, start, ncl, s, ctr) && s < |bits|
    && val == Round(|bits|, start, s) && scl == Round(|bits|, start, s - ctr)
  }

  function After(n: nat, val: nat): nat {
    if val + 1 >= n then 0 else val + 1
  }

  lemma StandsFirst(bits: seq<bool>, start: nat, ncl: nat)
    requires start < |bits| && 0 < ncl
    ensures Stands(bits, start, ncl, 0, 0, start, start)
  {
  }

  /** One more bit: the run is found, or the search is over, or it goes on. */
  lemma StepBit(bits: seq<bool>, start: nat, ncl: nat, s: nat, ctr: nat, val: nat, scl: nat)
    requires Stands(bits, start, ncl, s, ctr, val, scl)
    ensures start < |bits| && val < |bits| && scl < |bits|
    ensures var v, k := After(|bits|, val), if bits[val] then 0 else ctr + 1;
      if k == ncl then ncl <= s + 1 && Found(bits, start, ncl, scl + 2, s + 1 - ncl)
      else if v == start then Found(bits, start, ncl, 0, 0)
      else s + 1 < |bits| && Stands(bits, start, ncl, s + 1, k, v, if bits[val] then v else scl)
  {
    if bits[val] { SearchedUsed(bits, start, ncl, s, ctr); } else { SearchedFree(bits, start, ncl, s, ctr); }
    hide FreeRun;
  }

  /** The variables of find_bitmap that outlive a sector. */
  datatype Scan = Scan(val: u32, scl: u32, ctr: nat)

  /** The search stands at bit k.val after s bits. */
  ghost predicate Goes(bits: seq<bool>, clst: nat, ncl: nat, k: Scan, s: nat) {
    k.val < |bits| && s < |bits| && Stands(bits, clst, ncl, s, k.ctr, k.val, k.scl)
  }

  /** One bit: the answer, or the search goes on, at the next bit of the byte if there is a mask left. */
  method ScanBit(fs: FatFs, ghost base: nat, ghost bits: seq<bool>, n: u32, clst: u32, ncl: nat, i0: nat, bm0: nat, k0: Scan, ghost s: nat)
    returns (done: bool, r: u32, i: nat, bm: nat, k: Scan)
    requires Sound(fs, base, n) && bits == Bits(fs.Map(), base, n) && Goes(bits, clst, ncl, k0, s) && Here(fs, base, k0.val, i0, bm0)
    ensures clst < n && (done ==> Found(bits, clst, ncl, r, if r == 0 then 0 else s + 1 - ncl) && (r != 0 ==> ncl <= s + 1))
    ensures !done ==> Goes(bits, clst, ncl, k, s + 1)
    ensures !done ==> if bm != 0 then Here(fs, base, k.val, i, bm) else i + 1 < SS ==> Here(fs, base, k.val, i + 1, 1)
  {
    BelowEoc(fs, base, n);
    UnderMask(fs, base, n, k0.val, i0, bm0);
    StepBit(bits, clst, ncl, s, k0.ctr, k0.val, k0.scl);
    hide FatFs.Coherent, FatFs.Map, RoomFor, Sound, Bits, Under, Shift, Place, SectorOf, Here, Stands, Found;
    done, r, i, bm := false, 0, i0, Shift(bm0);
    var val, scl, ctr := k0.val + 1, k0.scl, k0.ctr;
    if val >= n {
      val, bm, i := 0, 0, SS;
    }
    if !Under(fs.win[i0], bm0) {
      ctr := ctr + 1;
      if ctr == ncl { done, r := true, scl + 2; }
    } else {
      scl, ctr := val, 0;
    }
    if val == clst { done := true; }
    k := Scan(val, scl, ctr);
  }

  /** The loop over the bits of byte i of the window, from mask bm0 on. */
  method ScanByte(fs: FatFs, ghost base: nat, ghost bits: seq<bool>, n: u32, clst: u32, ncl: nat, i0: nat, bm0: nat, k0: Scan, ghost s0: nat)
    returns (done: bool, r: u32, i: nat, k: Scan, ghost s: nat)
    requires Sound(fs, base, n) && bits == Bits(fs.Map(), base, n) && Goes(bits, clst, ncl, k0, s0) && Here(fs, base, k0.val, i0, bm0)
    ensures clst < n && (done ==> Found(bits, clst, ncl, r, s))
    ensures !done ==> s0 < s && Goes(bits, clst, ncl, k, s) && (i + 1 < SS ==> Here(fs, base, k.val, i + 1, 1))
  {
    hide FatFs.Coherent, FatFs.Map, RoomFor, Sound, Bits, Here, Stands, Found;
    k, s := k0, s0;
    var bm: nat;
    done, r, i, bm, k := ScanBit(fs, base, bits, n, clst, ncl, i0, bm0, k, s);
    while !done && bm != 0
      invariant clst < n && s0 <= s
      invariant done ==> Found(bits, clst, ncl, r, if r == 0 then 0 else s + 1 - ncl) && (r != 0 ==> ncl <= s + 1)
      invariant !done ==> Goes(bits, clst, ncl, k, s + 1)
      invariant !done ==> if bm != 0 then Here(fs, base, k.val, i, bm) else i + 1 < SS ==> Here(fs, base, k.val, i + 1, 1)
      decreases !done, n - s
    {
      s := s + 1;
      done, r, i, bm, k := ScanBit(fs, base, bits, n, clst, ncl, i, bm, k, s);
    }
    s := if !done then s + 1 else if r == 0 then 0 else s + 1 - ncl;
  }

  /** The loop over the bytes of the sector in the window: the answer, or how the search stands behind them. */
  method ScanSector(fs: FatFs, ghost base: nat, ghost bits: seq<bool>, n: u32, clst: u32, ncl: nat, k0: Scan, ghost s0: nat)
    returns (done: bool, r: u32, k: Scan, ghost s: nat)
    requires Sound(fs, base, n) && bits == Bits(fs.Map(), base, n) && Goes(bits, clst, ncl, k0, s0)
    requires Here(fs, base, k0.val, k0.val / 8 % SS, Mask(k0.val % 8))
    ensures clst < n && if done then Found(bits, clst, ncl, r, s) else s0 < s && Goes(bits, clst, ncl, k, s)
  {
    hide FatFs.Coherent, FatFs.Map, RoomFor, Sound, Bits, Mask, Here, Stands, Found;
    var i: nat, bm: nat := k0.val / 8 % SS, Mask(k0.val % 8);
    done, r, i, k, s := ScanByte(fs, base, bits, n, clst, ncl, i, bm, k0, s0);
    while !done && i + 1 < SS
      invariant clst < n && if done then Found(bits, clst, ncl, r, s) else s0 < s && Goes(bits, clst, ncl, k, s)
      invariant !done && i + 1 < SS ==> Here(fs, base, k.val, i + 1, 1)
      decreases !done, n - s
    {
      done, r, i, k, s := ScanByte(fs, base, bits, n, clst, ncl, i + 1, 1, k, s);
    }
  }

  lemma SectorOnDisk(fs: FatFs, base: nat, n: nat, val: nat)
    requires Sound(fs, base, n) && val < n
    ensures 0 <= base + val / 8 / SS < |fs.drive.sectors| < ALL_ONES
  {
  }

  lemma BelowEoc(fs: FatFs, base: nat, n: nat)
    requires Sound(fs, base, n)
    ensures 0 < n < EOC && fs.win.Length == SS && RoomFor(|fs.drive.sectors|, base, n)
  {
  }

  /** find_bitmap: circular search from clst on for ncl clear bits in a row, where the last bit and the first one count as
      neighbours. It finds the first such run, which begins s bits after its start, and fails exactly if there is none. */
  method FindBitmap(fs: FatFs, base: u32, n: u32, clst0: u32, ncl: nat) returns (r: u32, ghost s: nat)
    requires Sound(fs, base, n) && 0 < ncl
    modifies fs`wflag, fs`winsect, fs.drive, fs.win
    ensures Sound(fs, base, n) && fs.Map() == old(fs.Map()) && StartBit(n, clst0) < n
    ensures old(Mirrored(fs.geo, fs.drive.sectors)) ==> Mirrored(fs.geo, fs.drive.sectors)
    ensures Found(Bits(fs.Map(), base, n), StartBit(n, clst0), ncl, r, s)
  {
    hide Bits, Mask, Stands, Searched, Found, FatFs.Map, Mirrored;
    var clst := Sub32(clst0, 2);
    if clst >= n { clst := 0; }
    ghost var m, bits, mirrored := fs.Map(), Bits(fs.Map(), base, n), Mirrored(fs.geo, fs.drive.sectors);
    var k := Scan(clst, clst, 0);
    s := 0;
    StandsFirst(bits, clst, ncl);
    while true
      invariant Sound(fs, base, n) && fs.Map() == m && (mirrored ==> Mirrored(fs.geo, fs.drive.sectors))
      invariant Goes(bits, clst, ncl, k, s)
      decreases n - s
    {
      SectorOnDisk(fs, base, n, k.val);
      var res := MoveWindow(fs, base + k.val / 8 / SS);
      var done;
      done, r, k, s := ScanSector(fs, base, bits, n, clst, ncl, k, s);
      if done { return; }
    }
  }

  /** Clusters c, c + 1, ..., ncl of them, are clusters of the volume and free. */
  ghost predicate FreeBlock(bits: seq<bool>, c: nat, ncl: nat) {
    c + ncl <= |bits| + 2 && forall j | c - 2 <= j < c - 2 + ncl :: 0 <= j && !bits[j]
  }

  /** The answer is the first cluster of a free block exactly if the run that was found does not go on from the last cluster
      to the first one. */
  lemma BlockIffNoWrap(bits: seq<bool>, start: nat, ncl: nat, r: nat, s: nat)
    requires start < |bits| && 0 < ncl && Found(bits, start, ncl, r, s) && r != 0
    ensures FreeBlock(bits, r, ncl) <==> r - 2 + ncl <= |bits|
  {
    if r - 2 + ncl <= |bits| {
      forall j | r - 2 <= j < r - 2 + ncl ensures 0 <= j && !bits[j] {
        assert Round(|bits|, start, s + (j - (r - 2))) == j;
      }
    }
  }

  /** For one cluster the run is its one bit: the first clear bit on the way round, which is also what the search over plain bits
      gives; 0 exactly if no bit is clear. */
  lemma OneCluster(bits: seq<bool>, start: nat, r: nat, s: nat)
    requires start < |bits| && Found(bits, start, 1, r, s)
    ensures r == 0 <==> forall j | 0 <= j < |bits| :: bits[j]
    ensures r != 0 ==> 2 <= r && FirstClear(bits, start, r - 2)
  {
    forall j: nat | j < |bits| && (r == 0 || if start <= r - 2 then start <= j < r - 2 else start <= j || j < r - 2) ensures bits[j] {
      var q := if start <= j then j - start else j + |bits| - start;
      assert Round(|bits|, start, q) == j;
      assert !FreeRun(bits, start, q, 1);
    }
    if r != 0 { assert !bits[Round(|bits|, start, s)]; }
  }

  /** The search over the bytes behind the window and the one over plain bits, which the allocator of lazy chains calls, answer
      the same. */
  lemma SameAnswer(bits: seq<bool>, start: nat, r: nat, s: nat, r2: nat)
    requires start < |bits| && Found(bits, start, 1, r, s)
    requires r2 == 0 <==> forall j | 0 <= j < |bits| :: bits[j]
    requires r2 != 0 ==> 2 <= r2 && FirstClear(bits, start, r2 - 2)
    ensures r == r2
  {
    OneCluster(bits, start, r, s);
  }

  /** Three clusters, the middle one in use: a search for two from cluster 4 on gives cluster 4, which is the last one. */
  lemma WrappedRun()
    ensures var bits := [false, true, false]; Found(bits, 2, 2, 4, 0) && !FreeBlock(bits, 4, 2)
  {
    var bits := [false, true, false];
    assert FreeRun(bits, 2, 0, 2);
    BlockIffNoWrap(bits, 2, 2, 4, 0);
  }

  // ---- changing a block

  /** Flips the bit under the mask. */
  method FlipHere(fs: FatFs, ghost base: nat, ghost n: nat, ghost val: nat, i: nat, bm: nat)
    requires Sound(fs, base, n) && val < n && Here(fs, base, val, i, bm) && i < SS && bm > 0
    modifies fs`wflag, fs.win
    ensures Sound(fs, base, n) && Here(fs, base, val, i, bm) && BitmapOnly(old(fs.Map()), fs.Map(), base, n)
    ensures FlippedRun(old(Bits(fs.Map(), base, n)), Bits(fs.Map(), base, n), val, 1, !old(Bits(fs.Map(), base, n))[val])
  {
    hide Mask, Under;
    ghost var m, dirty, win := fs.Map(), fs.wflag, fs.win[..];
    FlipFits(fs.win[i], val % 8);
    fs.win[i] := if Under(fs.win[i], bm) then fs.win[i] - bm else fs.win[i] + bm;
    fs.wflag := true;
    assert fs.win[..] == win[i := Flip(win[i], val % 8)];
    assert fs.Map() == m[fs.winsect := fs.win[..]];
    FlippedOne(m, fs.Map(), base, n, val);
  }

  lemma FlippedOne(m: seq<Sector>, m2: seq<Sector>, base: nat, n: nat, val: nat)
    requires RoomFor(|m|, base, n) && val < n
    requires var s, i := base + val / 8 / SS, val / 8 % SS; m2 == m[s := m[s][i := Flip(m[s][i], val % 8)]]
    ensures FlippedRun(Bits(m, base, n), Bits(m2, base, n), val, 1, !Bits(m, base, n)[val]) && BitmapOnly(m, m2, base, n)
  {
    hide Flip, BitOf;
    var s, i := base + val / 8 / SS, val / 8 % SS;
    var b := m[s][i];
    forall j: nat | j < n ensures BitAt(m2, base, j) <==> (BitAt(m, base, j) != (j == val)) {
      if j / 8 == val / 8 {
        FlipOne(b, val % 8, j % 8);
      }
    }
  }

  /** The bits of a block from bit from up to bit val had the other value and are flipped now, and nothing else is. */
  ghost predicate Changed(m0: seq<Sector>, m: seq<Sector>, base: nat, n: nat, from: nat, val: nat, bv: bool)
    requires |m0| == |m| && RoomFor(|m|, base, n)
  {
    var b0 := Bits(m0, base, n);
    && from <= val <= n && BitmapOnly(m0, m, base, n) && FlippedRun(b0, Bits(m, base, n), from, val - from, bv)
    && forall j | from <= j < val :: b0[j] != bv
  }

  lemma ChangedMore(m0: seq<Sector>, m: seq<Sector>, m2: seq<Sector>, base: nat, n: nat, from: nat, val: nat, bv: bool)
    requires |m0| == |m| == |m2| && RoomFor(|m|, base, n) && val < n
    requires Changed(m0, m, base, n, from, val, bv) && BitmapOnly(m, m2, base, n)
    requires Bits(m, base, n)[val] != bv && FlippedRun(Bits(m, base, n), Bits(m2, base, n), val, 1, bv)
    ensures Changed(m0, m2, base, n, from, val + 1, bv)
  {
    hide Bits;
  }

  /** A bit behind those that are changed is as it was. */
  lemma ChangedSame(m0: seq<Sector>, m: seq<Sector>, base: nat, n: nat, from: nat, val: nat, bv: bool)
    requires |m0| == |m| && RoomFor(|m|, base, n) && val < n
    requires Changed(m0, m, base, n, from, val, bv)
    ensures Bits(m0, base, n)[val] == Bits(m, base, n)[val]
  {
    hide Bits;
  }

  /** One bit of a block: refused if it has the value already, else flipped. */
  method ChangeBit(fs: FatFs, ghost base: nat, ghost n: nat, ghost m0: seq<Sector>, ghost from: nat, ghost val: nat,
                   i: nat, bm: nat, bv: bool) returns (same: bool)
    requires Sound(fs, base, n) && |m0| == |fs.drive.sectors| && val < n
    requires Changed(m0, fs.Map(), base, n, from, val, bv) && Here(fs, base, val, i, bm)
    modifies fs`wflag, fs.win
    ensures Sound(fs, base, n) && if same then Bits(m0, base, n)[val] == bv && Changed(m0, fs.Map(), base, n, from, val, bv)
                                  else Changed(m0, fs.Map(), base, n, from, val + 1, bv)
    ensures i < SS && OnTo(fs, base, val, i, bm)
  {
    hide FatFs.Coherent, FatFs.Map, RoomFor, Bits, Mask, Under, Shift, Here, Changed, FlippedRun, BitmapOnly, Place, SectorOf;
    BelowEoc(fs, base, n);
    ghost var m := fs.Map();
    UnderMask(fs, base, n, val, i, bm);
    ChangedSame(m0, m, base, n, from, val, bv);
    same := bv == Under(fs.win[i], bm);
    if !same {
      FlipHere(fs, base, n, val, i, bm);
      ChangedMore(m0, m, fs.Map(), base, n, from, val, bv);
      UnderMask(fs, base, n, val, i, bm);
    }
  }

  /** Where the bit val is, behind the byte i of the sector of bit val0. */
  ghost predicate Behind(fs: FatFs, base: nat, val0: nat, val: nat, i: nat)
    reads fs`winsect, fs`wflag, fs.drive, fs.win
  {
    if i + 1 < SS then Here(fs, base, val, i + 1, 1) && SectorOf(val) == SectorOf(val0)
    else Place(val, 0, 1) && SectorOf(val) == SectorOf(val0) + 1
  }

  /** How changing a block ended before bit end: there, or at a bit that has the value already. */
  ghost predicate Ended(m0: seq<Sector>, base: nat, n: nat, val: nat, end: nat, bv: bool, res: FResult)
    requires RoomFor(|m0|, base, n) && end <= n
  {
    val <= end && res == (if val == end then FR_OK else FR_INT_ERR) && (val < end ==> Bits(m0, base, n)[val] == bv)
  }

  /** The loop over the bits of byte i of the window, from mask bm0 on; left bits are to be changed yet. */
  method ChangeByte(fs: FatFs, ghost base: nat, ghost n: nat, ghost m0: seq<Sector>, ghost from: nat, ghost val0: nat,
                    i: nat, bm0: nat, left0: nat, bv: bool) returns (out: bool, res: FResult, left: nat, ghost val: nat)
    requires Sound(fs, base, n) && |m0| == |fs.drive.sectors| && 0 < left0 && val0 + left0 <= n
    requires Changed(m0, fs.Map(), base, n, from, val0, bv) && Here(fs, base, val0, i, bm0)
    modifies fs`wflag, fs.win
    ensures Sound(fs, base, n) && i < SS && val + left == val0 + left0 && Changed(m0, fs.Map(), base, n, from, val, bv)
    ensures if out then Ended(m0, base, n, val, val0 + left0, bv, res) else 0 < left < left0 && Behind(fs, base, val0, val, i)
  {
    BelowEoc(fs, base, n);
    hide FatFs.Coherent, FatFs.Map, Sound, RoomFor, Bits, Mask, Under, Shift, Here, Place, SectorOf, Changed;
    out, res, left, val := true, FR_OK, left0, val0;
    var bm := bm0;
    while true
      invariant Sound(fs, base, n) && Changed(m0, fs.Map(), base, n, from, val, bv) && Here(fs, base, val, i, bm)
      invariant out && val + left == val0 + left0 && 0 < left && res == FR_OK && SectorOf(val) == SectorOf(val0)
      decreases left
    {
      var same := ChangeBit(fs, base, n, m0, from, val, i, bm, bv);
      if same {
        res := FR_INT_ERR;
        return;
      }
      left, val := left - 1, val + 1;
      if left == 0 { return; }
      bm := Shift(bm);
      if bm == 0 { break; }
    }
    out := false;
  }

  /** The loop over the bytes of the sector in the window, from byte i0 on. */
  method ChangeSector(fs: FatFs, ghost base: nat, ghost n: nat, ghost m0: seq<Sector>, ghost from: nat, ghost val0: nat,
                      i0: nat, bm0: nat, left0: nat, bv: bool) returns (out: bool, res: FResult, left: nat, ghost val: nat)
    requires Sound(fs, base, n) && |m0| == |fs.drive.sectors| && 0 < left0 && val0 + left0 <= n
    requires Changed(m0, fs.Map(), base, n, from, val0, bv) && Here(fs, base, val0, i0, bm0)
    modifies fs`wflag, fs.win
    ensures Sound(fs, base, n) && val + left == val0 + left0 && Changed(m0, fs.Map(), base, n, from, val, bv)
    ensures if out then Ended(m0, base, n, val, val0 + left0, bv, res)
            else 0 < left < left0 && Place(val, 0, 1) && SectorOf(val) == SectorOf(val0) + 1
  {
    BelowEoc(fs, base, n);
    hide FatFs.Coherent, FatFs.Map, Sound, RoomFor, Here, Place, SectorOf, Changed, Ended;
    var i: nat := i0;
    out, res, left, val := ChangeByte(fs, base, n, m0, from, val0, i, bm0, left0, bv);
    while !out && i + 1 < SS
      invariant Sound(fs, base, n) && i < SS && val + left == val0 + left0 && Changed(m0, fs.Map(), base, n, from, val, bv)
      invariant if out then Ended(m0, base, n, val, val0 + left0, bv, res) else 0 < left < left0 && Behind(fs, base, val0, val, i)
      decreases !out, left
    {
      i := i + 1;
      out, res, left, val := ChangeByte(fs, base, n, m0, from, val, i, 1, left, bv);
    }
  }

  /** The loop over the sectors of the bitmap, from byte i0 of sector sect0 on. */
  method ChangeBlock(fs: FatFs, ghost base: nat, ghost n: nat, ghost from: nat, sect0: u32, i0: nat, bm0: nat, ncl: nat, bv: bool)
    returns (res: FResult, ghost val: nat)
    requires Sound(fs, base, n) && 0 < ncl && from + ncl <= n && Place(from, i0, bm0) && sect0 == base + SectorOf(from)
    modifies fs`wflag, fs`winsect, fs.drive, fs.win
    ensures Sound(fs, base, n) && |fs.Map()| == old(|fs.Map()|)
    ensures old(Mirrored(fs.geo, fs.drive.sectors)) ==> Mirrored(fs.geo, fs.drive.sectors)
    ensures Changed(old(fs.Map()), fs.Map(), base, n, from, val, bv) && Ended(old(fs.Map()), base, n, val, from + ncl, bv, res)
  {
    BelowEoc(fs, base, n);
    UnchangedYet(fs.Map(), base, n, from, bv);
    hide FatFs.Map, FatFs.Coherent, Mirrored, RoomFor, Place, SectorOf, Changed, Ended;
    ghost var m0, mirrored, end := fs.Map(), Mirrored(fs.geo, fs.drive.sectors), from + ncl;
    var sect, i, bm, left, out := sect0, i0, bm0, ncl, false;
    val, res := from, FR_OK;
    while !out
      invariant Sound(fs, base, n) && |fs.drive.sectors| == |m0| && (mirrored ==> Mirrored(fs.geo, fs.drive.sectors))
      invariant val + left == end && Changed(m0, fs.Map(), base, n, from, val, bv)
      invariant if out then Ended(m0, base, n, val, end, bv, res) else left > 0 && Place(val, i, bm) && sect == base + SectorOf(val)
      decreases !out, left
    {
      InSector(fs, base, n, val);
      var _ := MoveWindow(fs, sect);
      sect := sect + 1;
      out, res, left, val := ChangeSector(fs, base, n, m0, from, val, i, bm, left, bv);
      i, bm := 0, 1;
    }
  }

  /** Byte and mask of a bit as the code computes them. */
  lemma StartsHere(fs: FatFs, base: nat, n: nat, val: nat)
    requires Sound(fs, base, n) && val < n
    ensures val / 8 / SS == SectorOf(val) && base + SectorOf(val) < ALL_ONES && Place(val, val / 8 % SS, Mask(val % 8))
    ensures val / 8 % SS >= 0
  {
    InSector(fs, base, n, val);
  }

  lemma InSector(fs: FatFs, base: nat, n: nat, val: nat)
    requires Sound(fs, base, n) && val < n
    ensures base + SectorOf(val) < |fs.drive.sectors| < ALL_ONES
  {
    SectorOnDisk(fs, base, n, val);
  }

  /** change_bitmap: flips the bits of a block from the first one on, up to bit val, which is behind the block or has the value
      already. */
  method ChangeBitmap(fs: FatFs, base: u32, clst: u32, ncl: nat, bv: bool, ghost n: nat) returns (res: FResult, ghost val: nat)
    requires Sound(fs, base, n) && 2 <= clst && 0 < ncl && clst - 2 + ncl <= n
    modifies fs`wflag, fs`winsect, fs.drive, fs.win
    ensures Sound(fs, base, n) && |fs.Map()| == old(|fs.Map()|)
    ensures Changed(old(fs.Map()), fs.Map(), base, n, clst - 2, val, bv) && Ended(old(fs.Map()), base, n, val, clst - 2 + ncl, bv, res)
    ensures res == FR_OK <==> forall j | clst - 2 <= j < clst - 2 + ncl :: Bits(old(fs.Map()), base, n)[j] != bv
    ensures res == FR_OK ==> FlippedRun(Bits(old(fs.Map()), base, n), Bits(fs.Map(), base, n), clst - 2, ncl, bv)
    ensures old(Mirrored(fs.geo, fs.drive.sectors)) ==> Mirrored(fs.geo, fs.drive.sectors)
  {
    BelowEoc(fs, base, n);
    ghost var m0 := fs.Map();
    StartsHere(fs, base, n, clst - 2);
    hide Sound, Bits, Mask, FatFs.Map, FatFs.Coherent, Mirrored, RoomFor, Place, SectorOf, Changed, Ended, FlippedRun;
    var sect: u32, i: nat, bm: nat := base + (clst - 2) / 8 / SS, (clst - 2) / 8 % SS, Mask((clst - 2) % 8);
    res, val := ChangeBlock(fs, base, n, clst - 2, sect, i, bm, ncl, bv);
    ChangedAll(m0, fs.Map(), base, n, clst - 2, val, clst - 2 + ncl, bv, res);
  }

  /** All bits of the block are changed exactly if none of them had the value already. */
  lemma ChangedAll(m0: seq<Sector>, m: seq<Sector>, base: nat, n: nat, from: nat, val: nat, end: nat, bv: bool, res: FResult)
    requires |m0| == |m| && RoomFor(|m|, base, n) && from <= end <= n
    requires Changed(m0, m, base, n, from, val, bv) && Ended(m0, base, n, val, end, bv, res)
    ensures res == FR_OK <==> forall j | from <= j < end :: Bits(m0, base, n)[j] != bv
    ensures res == FR_OK ==> FlippedRun(Bits(m0, base, n), Bits(m, base, n), from, end - from, bv)
    ensures res != FR_OK ==> res == FR_INT_ERR
  {
  }

  lemma UnchangedYet(m: seq<Sector>, base: nat, n: nat, from: nat, bv: bool)
    requires RoomFor(|m|, base, n) && from <= n
    ensures Changed(m, m, base, n, from, from, bv)
  {
    hide Bits;
  }
}
