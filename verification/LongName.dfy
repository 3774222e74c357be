/** Long file names in directory entries (ff.c): thirteen characters to an entry, the last part first. */
module LongName {
  import opened Arith
  import opened Bytes

  type wchar = x: int | 0 <= x < 0x1_0000

  const MAX_LFN: nat := 255
  const LLEF: nat := 0x40     // flag of the entry that holds the last part
  const AM_LFN: byte := 0x0F
  const DDEM: nat := 0xE5
  const FILLER: wchar := 0xFFFF
  const ENTRY: nat := 32      // bytes in a directory entry
  const PART: nat := 13       // characters in an entry

  /** Where in an entry the characters are. */
  function LfnOfs(di: nat): (o: nat)
    requires di < PART
    ensures 1 <= o <= 30
  {
    if di < 5 then 1 + 2 * di else if di < 11 then 4 + 2 * di else 6 + 2 * di
  }

  function CharIn(e: seq<byte>, di: nat): wchar
    requires |e| == ENTRY && di < PART
  {
    Word(e[LfnOfs(di)], e[LfnOfs(di) + 1])
  }

  function CharsIn(e: seq<byte>): (c: seq<wchar>)
    requires |e| == ENTRY
    ensures |c| == PART
  {
    seq(PART, di requires 0 <= di < PART => CharIn(e, di))
  }

  /** Names that entries can hold: neither the terminator nor the filler is a character of them. */
  predicate IsName(name: seq<wchar>) {
    1 <= |name| <= MAX_LFN && forall c | c in name :: c != 0 && c != FILLER
  }

  /** The name is in the buffer, with its terminator; what follows is left over. */
  predicate Holds(buf: seq<wchar>, name: seq<wchar>) {
    |buf| == MAX_LFN + 1 && |name| < |buf| && buf[..|name|] == name && buf[|name|] == 0
  }

  /** The characters of a name as entries hold them: the terminator, then filler. */
  function NameChar(name: seq<wchar>, i: nat): wchar {
    if i < |name| then name[i] else if i == |name| then 0 else FILLER
  }

  function Parts(name: seq<wchar>): (n: nat)
    ensures PART * n >= |name| && (|name| > 0 ==> PART * (n - 1) < |name|)
    ensures IsName(name) ==> 1 <= n <= 20
  {
    (|name| + 12) / 13
  }

  /** Entry number ord of a name. */
  ghost predicate Packed(name: seq<wchar>, ord: nat, sum: byte, e: seq<byte>) {
    && |e| == ENTRY && e[11] == AM_LFN && e[12] == 0 && e[13] == sum && Word(e[26], e[27]) == 0
    && ord >= 1 && e[0] == (if ord * PART >= |name| then ord + LLEF else ord)
    && forall di | 0 <= di < PART :: CharIn(e, di) == NameChar(name, (ord - 1) * PART + di)
  }

  // ---- writing

  method StoreWord(dir: array<byte>, at: nat, v: wchar)
    requires at + 2 <= dir.Length
    modifies dir
    ensures Word(dir[at], dir[at + 1]) == v
    ensures forall i | 0 <= i < dir.Length && i != at && i != at + 1 :: dir[i] == old(dir[i])
  {
    dir[at], dir[at + 1] := v % 0x100, v / 0x100;
  }

  /** The first d characters of an entry are those of the name from place n0 on. */
  ghost predicate Filled(bytes: seq<byte>, at: nat, name: seq<wchar>, n0: nat, d: nat) {
    at + ENTRY <= |bytes| && d <= PART && forall i | 0 <= i < d :: Word(bytes[at + LfnOfs(i)], bytes[at + LfnOfs(i) + 1]) == NameChar(name, n0 + i)
  }

  lemma FilledOn(was: seq<byte>, now: seq<byte>, at: nat, name: seq<wchar>, n0: nat, d: nat)
    requires Filled(was, at, name, n0, d) && d < PART && |now| == |was|
    requires forall i | 0 <= i < |now| && i != at + LfnOfs(d) && i != at + LfnOfs(d) + 1 :: now[i] == was[i]
    requires Word(now[at + LfnOfs(d)], now[at + LfnOfs(d) + 1]) == NameChar(name, n0 + d)
    ensures Filled(now, at, name, n0, d + 1)
  {
  }

  lemma FilledIsPacked(bytes: seq<byte>, at: nat, name: seq<wchar>, ord: nat, sum: byte)
    requires ord >= 1 && Filled(bytes, at, name, (ord - 1) * PART, PART)
    requires bytes[at + 11] == AM_LFN && bytes[at + 12] == 0 && bytes[at + 13] == sum && Word(bytes[at + 26], bytes[at + 27]) == 0
    requires bytes[at] == if ord * PART >= |name| then ord + LLEF else ord
    ensures Packed(name, ord, sum, bytes[at..at + ENTRY])
  {
    var e := bytes[at..at + ENTRY];
    forall di | 0 <= di < PART ensures CharIn(e, di) == NameChar(name, (ord - 1) * PART + di) {
      assert e[LfnOfs(di)] == bytes[at + LfnOfs(di)] && e[LfnOfs(di) + 1] == bytes[at + LfnOfs(di) + 1];
    }
  }

  /** Where the writing of a name stands: the character last taken, or filler from the terminator on. */
  ghost predicate Taken(name: seq<wchar>, n0: nat, di: nat, ni: nat, chr: wchar) {
    if di == 0 then chr == 0 && ni == n0
    else if n0 + di <= |name| then chr == name[n0 + di - 1] && ni == n0 + di
    else chr == FILLER
  }

  /** put_lfn: fills the entry at the given place with part number ord of the name. */
  method PutLfn(lfn: seq<wchar>, ghost name: seq<wchar>, dir: array<byte>, at: nat, ord: nat, sum: byte)
    requires IsName(name) && Holds(lfn, name) && 1 <= ord <= Parts(name) && at + ENTRY <= dir.Length
    modifies dir
    ensures Packed(name, ord, sum, dir[..][at..at + ENTRY])
    ensures forall i | 0 <= i < dir.Length && !(at <= i < at + ENTRY) :: dir[i] == old(dir[i])
  {
    hide Filled, Packed, Word;
    dir[at + 13] := sum;
    dir[at + 11] := AM_LFN;
    dir[at + 12] := 0;
    StoreWord(dir, at + 26, 0);
    var ni: nat, di, chr: wchar := (ord - 1) * PART, 0, 0;
    ghost var n0 := ni;
    assert Filled(dir[..], at, name, n0, 0) by { NoneFilled(dir[..], at, name, n0); }
    while di < PART
      invariant di <= PART && Taken(name, n0, di, ni, chr) && Filled(dir[..], at, name, n0, di)
      invariant dir[at + 11] == AM_LFN && dir[at + 12] == 0 && dir[at + 13] == sum && Word(dir[at + 26], dir[at + 27]) == 0
      invariant forall i | 0 <= i < dir.Length && !(at <= i < at + ENTRY) :: dir[i] == old(dir[i])
    {
      NameIn(lfn, name, n0 + di);
      if di > 0 { NameIn(lfn, name, n0 + di - 1); }
      ghost var was := dir[..];
      if chr != FILLER {
        chr := lfn[ni];
        ni := ni + 1;
      }
      StoreWord(dir, at + LfnOfs(di), chr);
      FilledOn(was, dir[..], at, name, n0, di);
      if chr == 0 {
        chr := FILLER;
      }
      di := di + 1;
    }
    NameIn(lfn, name, n0 + PART);
    NameIn(lfn, name, n0 + PART - 1);
    var last := chr == FILLER || lfn[ni] == 0;
    ghost var was := dir[..];
    dir[at] := if last then ord + LLEF else ord;
    FilledStill(was, dir[..], at, name, n0, PART);
    FilledIsPacked(dir[..], at, name, ord, sum);
  }

  lemma NoneFilled(bytes: seq<byte>, at: nat, name: seq<wchar>, n0: nat)
    requires at + ENTRY <= |bytes|
    ensures Filled(bytes, at, name, n0, 0)
  {
  }

  lemma FilledStill(was: seq<byte>, now: seq<byte>, at: nat, name: seq<wchar>, n0: nat, d: nat)
    requires Filled(was, at, name, n0, d) && |now| == |was| && forall i | 0 <= i < |now| && i != at :: now[i] == was[i]
    ensures Filled(now, at, name, n0, d)
  {
  }

  /** The characters of a name in its buffer. */
  lemma NameIn(buf: seq<wchar>, name: seq<wchar>, i: nat)
    requires IsName(name) && Holds(buf, name)
    ensures i < |name| ==> buf[i] == name[i] && name[i] != 0 && name[i] != FILLER
    ensures i == |name| ==> buf[i] == 0
  {
    if i < |name| { assert name[i] in name && buf[i] == buf[..|name|][i]; }
  }

  // ---- reading

  /** How many characters come before the terminator. */
  ghost function FirstZero(c: seq<wchar>): (z: nat)
    ensures z <= |c| && (forall i | 0 <= i < z :: c[i] != 0) && (z < |c| ==> c[z] == 0)
  {
    if c == [] || c[0] == 0 then 0 else 1 + FirstZero(c[1..])
  }

  /** Behind the terminator there is only filler. */
  ghost predicate Sound(c: seq<wchar>) {
    forall i | FirstZero(c) < i < |c| :: c[i] == FILLER
  }

  /** What the characters of an entry say of the name: with the terminator, if they have it or if they are the last part. */
  ghost function Text(c: seq<wchar>, last: bool): (t: seq<wchar>) {
    var z := FirstZero(c);
    if z < |c| then c[..z + 1] else if last then c + [0] else c
  }

  function IsLast(b: byte): bool {
    b / LLEF % 2 == 1
  }

  function OrdOf(b: byte): (ord: byte) {
    if IsLast(b) then b - LLEF else b
  }

  /** Where part number ord starts: unsigned, so part number 0 starts nowhere. */
  function StartOf(ord: byte): (ni: u32)
    ensures ord > 0 ==> ni == (ord - 1) * PART
    ensures ord == 0 ==> ni > MAX_LFN + 1
    ensures ni + PART != MAX_LFN + 1
  {
    (ord - 1) * PART % 0x1_0000_0000
  }

  ghost predicate Copied(was: seq<wchar>, now: seq<wchar>, start: nat, t: seq<wchar>) {
    |now| == |was| && forall i | 0 <= i < |now| :: now[i] == if start <= i < start + |t| then t[i - start] else was[i]
  }

  /** pick_lfn: takes the part of the name that an entry holds, exactly when the entry is sound and the part fits. */
  method PickLfn(lfnbuf: array<wchar>, e: seq<byte>) returns (ok: bool)
    requires |e| == ENTRY && lfnbuf.Length == MAX_LFN + 1
    modifies lfnbuf
    ensures var t := Text(CharsIn(e), IsLast(e[0])); ok <==> Word(e[26], e[27]) == 0 && Sound(CharsIn(e)) && StartOf(OrdOf(e[0])) + |t| <= lfnbuf.Length
    ensures ok ==> Copied(old(lfnbuf[..]), lfnbuf[..], StartOf(OrdOf(e[0])), Text(CharsIn(e), IsLast(e[0])))
  {
    hide FirstZero, IsLast, OrdOf, StartOf, Word;
    ghost var c, was, z := CharsIn(e), lfnbuf[..], FirstZero(CharsIn(e));
    if Word(e[26], e[27]) != 0 {
      return false;
    }
    var ni: nat, pchr: wchar, di := StartOf(OrdOf(e[0])), 1, 0;
    ghost var start := ni;
    while di < PART
      invariant di <= PART && (pchr != 0 <==> di <= z)
      invariant pchr != 0 ==> ni == start + di && Copied(was, lfnbuf[..], start, c[..di])
      invariant pchr == 0 ==> ni == start + z + 1 && Copied(was, lfnbuf[..], start, c[..z + 1])
      invariant di > 0 ==> ni <= lfnbuf.Length
      invariant forall i | z < i < di :: c[i] == FILLER
    {
      var chr := CharIn(e, di);
      assert chr == c[di];
      if pchr != 0 {
        if ni >= MAX_LFN + 1 {
          return false;
        }
        pchr := chr;
        lfnbuf[ni] := chr;
        ni := ni + 1;
      } else {
        if chr != FILLER {
          return false;
        }
      }
      di := di + 1;
    }
    if IsLast(e[0]) && pchr != 0 {
      if ni >= MAX_LFN + 1 {
        return false;
      }
      lfnbuf[ni] := 0;
    }
    ok := true;
  }

  /** cmp_lfn: compares the part of the name that an entry holds with a name, up to folding of case. */
  method CmpLfn(lfnbuf: seq<wchar>, e: seq<byte>, fold: wchar -> wchar) returns (ok: bool)
    requires |e| == ENTRY && |lfnbuf| == MAX_LFN + 1
    ensures ok <==> Word(e[26], e[27]) == 0 && Sound(CharsIn(e)) && Agrees(lfnbuf, e[0], CharsIn(e), fold)
  {
    hide FirstZero, IsLast, StartOf, Word;
    ghost var c, z := CharsIn(e), FirstZero(CharsIn(e));
    if Word(e[26], e[27]) != 0 {
      return false;
    }
    var ni: nat, pchr: wchar, di := StartOf(e[0] % LLEF), 1, 0;
    ghost var start := ni;
    while di < PART
      invariant di <= PART && (pchr != 0 <==> di <= z)
      invariant pchr != 0 ==> ni == start + di
      invariant di > 0 ==> ni <= |lfnbuf|
      invariant forall i | 0 <= i < di && i <= z :: start + i < |lfnbuf| && fold(c[i]) == fold(lfnbuf[start + i])
      invariant forall i | z < i < di :: c[i] == FILLER
    {
      var chr := CharIn(e, di);
      assert chr == c[di];
      if pchr != 0 {
        if ni >= MAX_LFN + 1 || fold(chr) != fold(lfnbuf[ni]) {
          return false;
        }
        ni := ni + 1;
        pchr := chr;
      } else {
        if chr != FILLER {
          return false;
        }
      }
      di := di + 1;
    }
    if IsLast(e[0]) && pchr != 0 && lfnbuf[ni] != 0 {
      return false;
    }
    ok := true;
  }

  /** The characters of an entry agree with a name in the buffer; a last part without terminator also ends where the name does. */
  ghost predicate Agrees(buf: seq<wchar>, b: byte, c: seq<wchar>, fold: wchar -> wchar) {
    var start, z := StartOf(b % LLEF), FirstZero(c);
    && (forall i | 0 <= i < |c| && i <= z :: start + i < |buf| && fold(c[i]) == fold(buf[start + i]))
    && (IsLast(b) && z == |c| ==> start + |c| < |buf| && buf[start + |c|] == 0)
  }

  // ---- entries of a name

  /** The order byte of part ord of n. */
  lemma OrderByte(ord: nat, last: bool, b: byte)
    requires 1 <= ord <= 20 && b == if last then ord + LLEF else ord
    ensures (IsLast(b) <==> last) && OrdOf(b) == ord && b % LLEF == ord && StartOf(ord) == (ord - 1) * PART
  {
    ModUnique(b, LLEF, if last then 1 else 0, ord);
  }

  lemma LastPart(name: seq<wchar>, ord: nat)
    requires IsName(name) && 1 <= ord <= Parts(name)
    ensures ord * PART >= |name| <==> ord == Parts(name)
    ensures (ord - 1) * PART < |name| && Parts(name) <= 20
  {
  }

  /** The flag and the number of an entry of a name. */
  lemma PackedOrder(name: seq<wchar>, ord: nat, sum: byte, e: seq<byte>)
    requires IsName(name) && 1 <= ord <= Parts(name) && Packed(name, ord, sum, e)
    ensures (IsLast(e[0]) <==> ord == Parts(name)) && OrdOf(e[0]) == ord && e[0] % LLEF == ord && StartOf(ord) == (ord - 1) * PART
    ensures |e| == ENTRY && (ord - 1) * PART < |name| && Word(e[26], e[27]) == 0 && e[11] == AM_LFN && e[13] == sum
  {
    hide IsLast, OrdOf, StartOf, Parts, Word, IsName, CharIn;
    LastPart(name, ord);
    OrderByte(ord, ord == Parts(name), e[0]);
  }

  /** The characters of an entry of a name. */
  lemma PackedChars(name: seq<wchar>, ord: nat, sum: byte, e: seq<byte>)
    requires IsName(name) && ord >= 1 && (ord - 1) * PART < |name| && Packed(name, ord, sum, e)
    ensures var n0 := (ord - 1) * PART; var c := CharsIn(e);
      && Sound(c) && FirstZero(c) == (if |name| < n0 + PART then |name| - n0 else PART)
      && forall i | 0 <= i < PART :: c[i] == NameChar(name, n0 + i)
  {
    hide CharIn, FirstZero, Word;
    var n0, c := (ord - 1) * PART, CharsIn(e);
    assert forall i | 0 <= i < PART :: c[i] == CharIn(e, i);
    forall i | 0 <= i < PART && n0 + i < |name| ensures c[i] != 0 {
      assert name[n0 + i] in name;
    }
    ZeroAt(c, if |name| < n0 + PART then |name| - n0 else PART);
  }

  lemma ZeroAt(c: seq<wchar>, z: nat)
    requires z <= |c| && (forall i | 0 <= i < z :: c[i] != 0) && (z < |c| ==> c[z] == 0)
    ensures FirstZero(c) == z
  {
  }

  function EntryAt(bytes: seq<byte>, at: nat): (e: seq<byte>)
    requires at + ENTRY <= |bytes|
    ensures |e| == ENTRY
  {
    bytes[at..at + ENTRY]
  }

  /** Parts n down to k of a name, one after the other. */
  ghost predicate PartsFrom(bytes: seq<byte>, at: nat, name: seq<wchar>, sum: byte, k: nat) {
    at + ENTRY * Parts(name) <= |bytes| && forall ord | k <= ord <= Parts(name) :: PartIn(bytes, at, name, sum, ord)
  }

  ghost predicate PartIn(bytes: seq<byte>, at: nat, name: seq<wchar>, sum: byte, ord: nat) {
    var p := at + ENTRY * (Parts(name) - ord);
    ord <= Parts(name) && p + ENTRY <= |bytes| && Packed(name, ord, sum, EntryAt(bytes, p))
  }

  /** The part of dir_register that stores a long name: its last part first. */
  method PutName(lfn: seq<wchar>, ghost name: seq<wchar>, len: nat, dir: array<byte>, at: nat, sum: byte)
    requires IsName(name) && Holds(lfn, name) && len == |name| && at + ENTRY * Parts(name) <= dir.Length
    modifies dir
    ensures PartsFrom(dir[..], at, name, sum, 1)
  {
    hide Packed, IsName, Holds, Parts;
    var nEnt, p := (len + 12) / 13, at;
    ghost var n := nEnt;
    PartsIs(name);
    while nEnt > 0
      invariant 0 <= nEnt <= n == Parts(name) && p == at + ENTRY * (n - nEnt)
      invariant forall ord | nEnt < ord <= n :: PartIn(dir[..], at, name, sum, ord)
    {
      ghost var was := dir[..];
      PutLfn(lfn, name, dir, p, nEnt, sum);
      forall ord | nEnt < ord <= n ensures PartIn(dir[..], at, name, sum, ord) {
        assert PartIn(was, at, name, sum, ord);
        var q := at + ENTRY * (n - ord);
        assert EntryAt(dir[..], q) == EntryAt(was, q);
      }
      assert PartIn(dir[..], at, name, sum, nEnt);
      p := p + ENTRY;
      nEnt := nEnt - 1;
    }
  }

  lemma PartsIs(name: seq<wchar>)
    ensures Parts(name) == (|name| + 12) / 13
  {
  }

  /** The name is in the buffer from part k on. */
  ghost predicate BufFrom(buf: seq<wchar>, name: seq<wchar>, k: nat) {
    |buf| == MAX_LFN + 1 && |name| <= MAX_LFN && forall i: nat | k * PART <= i + PART && i <= |name| :: buf[i] == NameChar(name, i)
  }

  /** Part k taken over into the buffer. */
  lemma BufGrows(was: seq<wchar>, now: seq<wchar>, name: seq<wchar>, k: nat, sum: byte, e: seq<byte>)
    requires IsName(name) && 1 <= k <= Parts(name) && Packed(name, k, sum, e) && |was| == MAX_LFN + 1
    requires k < Parts(name) ==> BufFrom(was, name, k + 1)
    requires Copied(was, now, StartOf(OrdOf(e[0])), Text(CharsIn(e), IsLast(e[0])))
    ensures BufFrom(now, name, k)
  {
    hide IsLast, OrdOf, StartOf, Parts, Word, CharIn, Packed, CharsIn;
    PackedOrder(name, k, sum, e);
    PackedChars(name, k, sum, e);
    LastPart(name, k);
  }

  /** The text of an entry of a name fits the buffer. */
  lemma TextFits(name: seq<wchar>, k: nat, sum: byte, e: seq<byte>)
    requires IsName(name) && 1 <= k <= Parts(name) && Packed(name, k, sum, e)
    ensures StartOf(OrdOf(e[0])) + |Text(CharsIn(e), IsLast(e[0]))| <= MAX_LFN + 1 && Sound(CharsIn(e))
  {
    hide IsLast, OrdOf, StartOf, Parts, Word, CharIn, Packed, CharsIn;
    PackedOrder(name, k, sum, e);
    PackedChars(name, k, sum, e);
    LastPart(name, k);
  }

  /** The entry is sound and its part of the name fits the buffer. */
  ghost predicate Fits(e: seq<byte>)
    requires |e| == ENTRY
  {
    Word(e[26], e[27]) == 0 && Sound(CharsIn(e)) && StartOf(OrdOf(e[0])) + |Text(CharsIn(e), IsLast(e[0]))| <= MAX_LFN + 1
  }

  /** The LFN branch of dir_read for one entry: ord is the number of the part expected, 0xFF if none is. */
  method ReadEntry(lfnbuf: array<wchar>, e: seq<byte>, ord: byte, sum: byte) returns (ord2: byte, sum2: byte, ghost taken: bool)
    requires |e| == ENTRY && lfnbuf.Length == MAX_LFN + 1
    modifies lfnbuf
    ensures sum2 == if IsLast(e[0]) && e[0] != DDEM then e[13] else sum
    ensures taken <==> e[0] != DDEM && e[0] != 0x2E && (IsLast(e[0]) || (e[0] == ord && e[13] == sum)) && Fits(e)
    ensures taken ==> OrdOf(e[0]) >= 1 && ord2 == OrdOf(e[0]) - 1
    ensures taken ==> Copied(old(lfnbuf[..]), lfnbuf[..], StartOf(OrdOf(e[0])), Text(CharsIn(e), IsLast(e[0])))
    ensures !taken ==> ord2 == 0xFF
  {
    hide StartOf, Word, CharsIn, Text, Sound, Copied;
    var b: nat := e[0];
    ord2, sum2, taken := ord, sum, false;
    if b == DDEM || b == 0x2E {
      ord2 := 0xFF;
    } else {
      if IsLast(e[0]) {
        sum2 := e[13];
        b := b - LLEF;
        ord2 := b;
      }
      if b == ord2 && sum2 == e[13] {
        var ok := PickLfn(lfnbuf, e);
        taken := ok;
        ord2 := if ok then ord2 - 1 else 0xFF;
      } else {
        ord2 := 0xFF;
      }
    }
  }

  /** Reading part k of a name, parts above it having been read. */
  lemma EntryRead(name: seq<wchar>, k: nat, s: byte, e: seq<byte>)
    requires IsName(name) && 1 <= k <= Parts(name) && Packed(name, k, s, e)
    ensures e[0] != DDEM && e[0] != 0x2E && OrdOf(e[0]) == k && Fits(e) && e[13] == s
    ensures if k == Parts(name) then IsLast(e[0]) else !IsLast(e[0]) && e[0] == k
  {
    hide StartOf, Parts, Word, CharsIn, Text, Sound, Copied, BufFrom, IsName;
    PackedOrder(name, k, s, e);
    TextFits(name, k, s, e);
    LastPart(name, k);
  }

  lemma PartGives(bytes: seq<byte>, at: nat, name: seq<wchar>, sum: byte, k: nat)
    requires PartsFrom(bytes, at, name, sum, 1) && 1 <= k <= Parts(name)
    ensures at + ENTRY * (Parts(name) - k) + ENTRY <= |bytes| && Packed(name, k, sum, EntryAt(bytes, at + ENTRY * (Parts(name) - k)))
  {
    hide Packed;
    assert PartIn(bytes, at, name, sum, k);
  }

  /** The round trip: reading as many entries as a name has parts, as dir_read does, gives the name back with its terminator, and
      leaves the order at zero and the checksum of the parts, which tell the short entry that follows that it has a long name. */
  method ReadName(bytes: seq<byte>, at: nat, entries: nat, lfnbuf: array<wchar>, ghost name: seq<wchar>, ghost s: byte)
    returns (ord: byte, sum: byte)
    requires IsName(name) && PartsFrom(bytes, at, name, s, 1) && entries == Parts(name) && lfnbuf.Length == MAX_LFN + 1
    modifies lfnbuf
    ensures ord == 0 && sum == s && Holds(lfnbuf[..], name)
  {
    hide IsLast, OrdOf, StartOf, Parts, Word, Packed, CharsIn, Text, Sound, Copied, BufFrom, IsName, Fits, PartsFrom;
    ord, sum := 0xFF, 0xFF;
    AtLeastOne(name);
    for i := 0 to entries
      invariant i > 0 ==> ord == entries - i && sum == s && BufFrom(lfnbuf[..], name, entries - i + 1)
    {
      ghost var k, was := entries - i, lfnbuf[..];
      PartGives(bytes, at, name, s, k);
      var e := EntryAt(bytes, at + ENTRY * i);
      EntryRead(name, k, s, e);
      ghost var taken;
      ord, sum, taken := ReadEntry(lfnbuf, e, ord, sum);
      BufGrows(was, lfnbuf[..], name, k, s, e);
    }
    BufWhole(lfnbuf[..], name);
  }

  lemma AtLeastOne(name: seq<wchar>)
    requires IsName(name)
    ensures 1 <= Parts(name) <= 20
  {
  }

  lemma BufWhole(buf: seq<wchar>, name: seq<wchar>)
    requires BufFrom(buf, name, 1)
    ensures Holds(buf, name)
  {
    assert forall i: nat | i < |name| :: buf[i] == NameChar(name, i);
  }

  // ---- finding

  /** The LFN branch of dir_find for one entry. */
  method MatchEntry(lfnbuf: seq<wchar>, e: seq<byte>, ord: byte, sum: byte, fold: wchar -> wchar) returns (ord2: byte, sum2: byte, ghost matched: bool)
    requires |e| == ENTRY && |lfnbuf| == MAX_LFN + 1
    ensures sum2 == if IsLast(e[0]) && e[0] != DDEM then e[13] else sum
    ensures matched <==> e[0] != DDEM && (IsLast(e[0]) || (e[0] == ord && e[13] == sum)) && Word(e[26], e[27]) == 0 && Sound(CharsIn(e)) && Agrees(lfnbuf, e[0], CharsIn(e), fold)
    ensures ord2 == if matched && OrdOf(e[0]) >= 1 then OrdOf(e[0]) - 1 else 0xFF
    ensures matched ==> OrdOf(e[0]) >= 1
  {
    hide StartOf, Word, CharsIn, Sound, Agrees, FirstZero;
    var c: nat := e[0];
    ord2, sum2, matched := ord, sum, false;
    if c == DDEM {
      ord2 := 0xFF;
    } else {
      if IsLast(e[0]) {
        c := c - LLEF;
        ord2 := c;
        sum2 := e[13];
      }
      if c == ord2 && sum2 == e[13] {
        var ok := CmpLfn(lfnbuf, e, fold);
        matched := ok;
        if ok { PartZero(lfnbuf, e[0], CharsIn(e), fold); }
        ord2 := if ok then ord2 - 1 else 0xFF;
      } else {
        ord2 := 0xFF;
      }
    }
  }

  /** There is no part number 0. */
  lemma PartZero(buf: seq<wchar>, b: byte, c: seq<wchar>, fold: wchar -> wchar)
    requires |buf| == MAX_LFN + 1 && |c| == PART && Agrees(buf, b, c, fold)
    ensures OrdOf(b) >= 1
  {
    hide FirstZero, StartOf;
    var c0 := c[0];
    assert StartOf(b % LLEF) < |buf|;
  }

  /** The part of the name in entry k agrees with the name in the buffer. */
  ghost predicate PartSame(buf: seq<wchar>, name: seq<wchar>, k: nat, fold: wchar -> wchar)
    requires |buf| == MAX_LFN + 1 && |name| <= MAX_LFN && k >= 1
  {
    var n0 := (k - 1) * PART;
    (forall i | n0 <= i < n0 + PART && i <= |name| :: fold(NameChar(name, i)) == fold(buf[i])) && (n0 + PART == |name| ==> buf[|name|] == 0)
  }

  lemma AgreesIs(buf: seq<wchar>, name: seq<wchar>, k: nat, sum: byte, e: seq<byte>, fold: wchar -> wchar)
    requires |buf| == MAX_LFN + 1 && IsName(name) && 1 <= k <= Parts(name) && Packed(name, k, sum, e)
    ensures Agrees(buf, e[0], CharsIn(e), fold) <==> PartSame(buf, name, k, fold)
  {
    hide IsLast, OrdOf, StartOf, Parts, Word, CharIn, Packed, CharsIn, FirstZero, NameChar;
    PackedOrder(name, k, sum, e);
    PackedChars(name, k, sum, e);
    LastPart(name, k);
    var n0, c := (k - 1) * PART, CharsIn(e);
    if PartSame(buf, name, k, fold) {
      forall i | 0 <= i < |c| && i <= FirstZero(c) ensures n0 + i < |buf| && fold(c[i]) == fold(buf[n0 + i]) {
        assert fold(NameChar(name, n0 + i)) == fold(buf[n0 + i]);
      }
    }
    if Agrees(buf, e[0], c, fold) {
      forall i | n0 <= i < n0 + PART && i <= |name| ensures fold(NameChar(name, i)) == fold(buf[i]) {
        assert fold(c[i - n0]) == fold(buf[n0 + (i - n0)]);
      }
    }
  }

  /** The same name, up to folding of case. */
  ghost predicate SameName(name: seq<wchar>, other: seq<wchar>, fold: wchar -> wchar) {
    |name| == |other| && forall i | 0 <= i < |name| :: fold(name[i]) == fold(other[i])
  }

  /** Folding leaves the terminator alone. */
  ghost predicate Folds(fold: wchar -> wchar) {
    forall c: wchar :: fold(c) == fold(0) ==> c == 0
  }

  lemma PartsMean(buf: seq<wchar>, name: seq<wchar>, fold: wchar -> wchar)
    requires IsName(name) && |buf| == MAX_LFN + 1 && Folds(fold)
    ensures (forall k | 1 <= k <= Parts(name) :: PartSame(buf, name, k, fold)) <==> buf[|name|] == 0 && forall i | 0 <= i < |name| :: fold(name[i]) == fold(buf[i])
  {
    if buf[|name|] == 0 && forall i | 0 <= i < |name| :: fold(name[i]) == fold(buf[i]) {
      forall k | 1 <= k <= Parts(name) ensures PartSame(buf, name, k, fold) {
        forall i | (k - 1) * PART <= i < (k - 1) * PART + PART && i <= |name| ensures fold(NameChar(name, i)) == fold(buf[i]) {
          if i < |name| { assert fold(name[i]) == fold(buf[i]); }
        }
      }
    }
    if forall k | 1 <= k <= Parts(name) :: PartSame(buf, name, k, fold) {
      forall i | 0 <= i < |name| ensures fold(name[i]) == fold(buf[i]) {
        assert PartSame(buf, name, i / PART + 1, fold);
        assert fold(NameChar(name, i)) == fold(buf[i]);
      }
      assert PartSame(buf, name, Parts(name), fold);
      if Parts(name) * PART != |name| {
        assert fold(NameChar(name, |name|)) == fold(buf[|name|]);
      }
    }
  }

  lemma SameMeans(buf: seq<wchar>, name: seq<wchar>, other: seq<wchar>, fold: wchar -> wchar)
    requires IsName(name) && Holds(buf, other) && 0 !in other && Folds(fold)
    ensures SameName(name, other, fold) <==> buf[|name|] == 0 && forall i | 0 <= i < |name| :: fold(name[i]) == fold(buf[i])
  {
    forall i | 0 <= i < |other| ensures buf[i] == other[i] && other[i] != 0 {
      assert buf[i] == buf[..|other|][i];
    }
    if |other| < |name| {
      var c := name[|other|];
      assert c in name && fold(c) != fold(0);
    }
  }

  /** dir_find over the entries of a long name: they match exactly when the name in the buffer is the same, up to folding of
      case; left-over characters behind its terminator do not matter. */
  method FindName(bytes: seq<byte>, at: nat, entries: nat, lfnbuf: seq<wchar>, fold: wchar -> wchar, ghost name: seq<wchar>, ghost other: seq<wchar>, ghost s: byte)
    returns (ord: byte, sum: byte)
    requires IsName(name) && PartsFrom(bytes, at, name, s, 1) && entries == Parts(name)
    requires Holds(lfnbuf, other) && 0 !in other && Folds(fold)
    ensures sum == s && (ord == 0 <==> SameName(name, other, fold))
  {
    hide IsLast, OrdOf, StartOf, Parts, Word, Packed, CharsIn, Sound, Agrees, PartSame, IsName, PartsFrom, Folds;
    ord, sum := 0xFF, 0xFF;
    AtLeastOne(name);
    ghost var same := true;
    NameLength(name);
    for i := 0 to entries
      invariant i > 0 ==> sum == s && ord == (if same then entries - i else 0xFF)
      invariant i == 0 ==> same
      invariant same <==> forall k | entries - i < k <= entries :: PartSame(lfnbuf, name, k, fold)
    {
      ghost var k := entries - i;
      PartGives(bytes, at, name, s, k);
      var e := EntryAt(bytes, at + ENTRY * i);
      EntryFound(name, k, s, e);
      AgreesIs(lfnbuf, name, k, s, e, fold);
      ghost var matched;
      ord, sum, matched := MatchEntry(lfnbuf, e, ord, sum, fold);
      same := same && PartSame(lfnbuf, name, k, fold);
    }
    PartsMean(lfnbuf, name, fold);
    SameMeans(lfnbuf, name, other, fold);
  }

  lemma NameLength(name: seq<wchar>)
    requires IsName(name)
    ensures |name| <= MAX_LFN
  {
  }

  lemma EntryFound(name: seq<wchar>, k: nat, s: byte, e: seq<byte>)
    requires IsName(name) && 1 <= k <= Parts(name) && Packed(name, k, s, e)
    ensures e[0] != DDEM && OrdOf(e[0]) == k && Word(e[26], e[27]) == 0 && Sound(CharsIn(e)) && e[13] == s
    ensures if k == Parts(name) then IsLast(e[0]) else !IsLast(e[0]) && e[0] == k
  {
    hide StartOf, Parts, Word, CharsIn, Text, Sound, Copied, BufFrom, IsName;
    EntryRead(name, k, s, e);
  }
}
