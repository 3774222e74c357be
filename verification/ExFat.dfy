/** exFAT allocation: the bitmap says which clusters are in use, and the FAT chain of an object is written late.
    An object keeps the status of its chain (stat), the length of its contiguous first part (nCont) and the
    length of its last fragment, whose FAT entries are still to be written (nFrag). */
module ExFat {
  import opened Arith
  import opened Bytes
  import opened Chains
  import opened Window

  const EOC: u32 := 0x7FFF_FFFF // end mark as get_fat reports it

  /** The FAT as it is read: the top bit of an entry does not count. */
  function View(fat: FatSeq): (v: FatSeq)
    ensures |v| == |fat|
  {
    seq(|fat|, i requires 0 <= i < |fat| => fat[i] % 0x8000_0000)
  }

  /** The allocation state of an object (FFOBJID). stat: 0 FAT chain, 2 contiguous, 3 fragmented in this session. */
  datatype Ob = Ob(sclust: u32, objsize: nat, stat: nat, nCont: u32, nFrag: u32)

  /** Clusters a .. b-1 of the list are consecutive numbers. */
  ghost predicate Consec(cs: seq<int>, a: int, b: int) {
    0 <= a && b <= |cs| && forall i | a < i < b :: cs[i] == cs[i - 1] + 1
  }

  /** The FAT links clusters a .. b-1 of the list, with an end mark behind the last one. */
  ghost predicate Linked(fat: FatSeq, cs: seq<u32>, a: int, b: int) {
    && 0 <= a && b <= |cs|
    && forall i: nat | a <= i < b :: LinkAt(fat, cs, i)
  }

  /** Cluster number i is linked to the next one, or carries an end mark. The number of FAT entries itself is no end mark
      of the format; remove_chain would take it for the successor of the last cluster of the volume. */
  ghost predicate LinkAt(fat: FatSeq, cs: seq<u32>, i: nat)
    requires i < |cs|
  {
    && cs[i] < |fat|
    && if i + 1 < |cs| then fat[cs[i]] % 0x8000_0000 == cs[i + 1] else |fat| < fat[cs[i]] % 0x8000_0000
  }

  /** cs lists clusters in use, none twice. */
  ghost predicate InUse(n: nat, bits: seq<bool>, cs: seq<u32>) {
    && 3 <= n < EOC && |bits| == n - 2 && Distinct(cs)
    && forall i | 0 <= i < |cs| :: 2 <= cs[i] < n && bits[cs[i] - 2]
  }

  /** The lazy representation of the chain cs. */
  ghost predicate Lazy(fat: FatSeq, bits: seq<bool>, o: Ob, cs: seq<u32>) {
    && InUse(|fat|, bits, cs)
    && (if cs == [] then o.sclust == 0 && o.nFrag == 0 && (o.stat == 0 || o.stat == 2) else o.sclust == cs[0] && Shape(fat, o, cs))
  }

  ghost predicate Shape(fat: FatSeq, o: Ob, cs: seq<u32>) {
    if o.stat == 2 then o.nFrag == 0 && Consec(cs, 0, |cs|)
    else
      && (o.stat == 0 || o.stat == 3)
      && First(o) < |cs| && First(o) + o.nFrag <= |cs|
      && Consec(cs, 0, First(o) + 1)
      && Linked(fat, cs, First(o), |cs| - o.nFrag)
      && Consec(cs, |cs| - o.nFrag, |cs|)
  }

  /** Number of links that are known from the contiguous first part alone. */
  function First(o: Ob): nat {
    if o.stat == 3 then o.nCont else 0
  }

  /** The size of the object is exactly what its clusters are needed for, as it is whenever the chain is asked about. */
  ghost predicate Covers(csize: nat, o: Ob, m: nat) {
    SizeCovers(csize, o.objsize, m)
  }

  ghost predicate SizeCovers(csize: nat, size: nat, m: nat) {
    csize > 0 && 0 < size < 0x1_0000_0000_0000_0000 && (size - 1) / SS < 0x1_0000_0000 && (size - 1) / SS / csize == m - 1
  }

  /** get_fat on an exFAT volume. */
  function GetFat(fat: FatSeq, csize: nat, o: Ob, clst: u32): (val: u32)
    requires csize > 0 && |fat| < EOC
    ensures val <= EOC
  {
    if clst < 2 || clst >= |fat| then 1
    else if (o.objsize != 0 && o.sclust != 0) || o.stat == 0 then
      var cofs := Sub32(clst, o.sclust);
      var clen := (o.objsize - 1) % 0x1_0000_0000_0000_0000 / SS % 0x1_0000_0000 / csize;
      if o.stat == 2 && cofs <= clen then (if cofs == clen then EOC else clst + 1)
      else if o.stat == 3 && cofs < o.nCont then clst + 1
      else if o.stat != 2 then (if o.nFrag != 0 then EOC else fat[clst] % 0x8000_0000)
      else 1
    else 1
  }

  /** The right answer for cluster number i of a chain. */
  ghost predicate RightAnswer(n: nat, cs: seq<u32>, i: nat, val: u32)
    requires i < |cs|
  {
    if i + 1 < |cs| then val == cs[i + 1] else val > n
  }

  lemma {:induction false} ConsecAt(cs: seq<int>, a: int, b: int, i: nat, j: nat)
    requires Consec(cs, a, b) && a <= i <= j < b
    ensures cs[j] == cs[i] + (j - i)
    decreases j
  {
    if i < j {
      ConsecAt(cs, a, b, i, j - 1);
    }
  }

  /** Where get_fat tells the truth about a chain: everywhere while the chain is contiguous, in its contiguous first
      part, at its tail, and elsewhere exactly when no fragment is pending. */
  lemma AnswerExact(fat: FatSeq, bits: seq<bool>, csize: nat, o: Ob, cs: seq<u32>, i: nat)
    requires Lazy(fat, bits, o, cs) && i < |cs| && Covers(csize, o, |cs|)
    ensures RightAnswer(|fat|, cs, i, GetFat(fat, csize, o, cs[i])) <==>
            o.stat == 2 || i < First(o) || i + 1 == |cs| || o.nFrag == 0
    ensures GetFat(fat, csize, o, cs[i]) >= 2
  {
    if o.stat == 2 {
      AnswerContiguous(fat, bits, csize, o, cs, i);
    } else {
      FirstPart(fat, bits, o, cs, i);
      AnswerListed(fat, csize, o, cs, i);
    }
  }

  /** Cluster 2 followed by the pending fragment 5, 6: asked for the successor of 2, get_fat tells of the end of the chain. */
  lemma PendingHidesLink()
    ensures var fat: FatSeq, bits, cs: seq<u32> := [0, 0, 5, 0, 0, 0, 0], [true, false, false, true, true], [2, 5, 6];
      var o := Ob(2, 3 * SS, 3, 0, 2);
      && Lazy(fat, bits, o, cs) && Covers(1, o, 3)
      && GetFat(fat, 1, o, 2) == EOC && !RightAnswer(7, cs, 0, GetFat(fat, 1, o, 2))
  {
    var fat: FatSeq, cs: seq<u32> := [0, 0, 5, 0, 0, 0, 0], [2, 5, 6];
    assert LinkAt(fat, cs, 0);
  }

  lemma AnswerContiguous(fat: FatSeq, bits: seq<bool>, csize: nat, o: Ob, cs: seq<u32>, i: nat)
    requires Lazy(fat, bits, o, cs) && i < |cs| && Covers(csize, o, |cs|) && o.stat == 2
    ensures RightAnswer(|fat|, cs, i, GetFat(fat, csize, o, cs[i])) && GetFat(fat, csize, o, cs[i]) >= 2
  {
    hide Sub32;
    SmallSub(cs[i], o.sclust);
    Clen(o.objsize, csize);
    ConsecAt(cs, 0, |cs|, 0, i);
    if i + 1 < |cs| { ConsecAt(cs, 0, |cs|, 0, i + 1); }
  }

  lemma AnswerListed(fat: FatSeq, csize: nat, o: Ob, cs: seq<u32>, i: nat)
    requires csize > 0 && |fat| < EOC && i < |cs| && o.objsize != 0 && o.sclust != 0 && (o.stat == 0 || o.stat == 3)
    requires forall j | 0 <= j < |cs| :: 2 <= cs[j] < |fat|
    requires Linked(fat, cs, First(o), |cs| - o.nFrag)
    requires Sub32(cs[i], o.sclust) < First(o) <==> i < First(o)
    requires i < First(o) ==> i + 1 < |cs| && cs[i + 1] == cs[i] + 1
    ensures RightAnswer(|fat|, cs, i, GetFat(fat, csize, o, cs[i])) <==> i < First(o) || i + 1 == |cs| || o.nFrag == 0
    ensures GetFat(fat, csize, o, cs[i]) >= 2
  {
    hide Sub32;
    assert i >= First(o) && o.nFrag == 0 ==> LinkAt(fat, cs, i);
    hide Linked;
  }

  lemma SmallSub(a: u32, b: u32)
    ensures a >= b ==> Sub32(a, b) == a - b
    ensures a < b ==> Sub32(a, b) == 0x1_0000_0000 + a - b
  {
  }

  lemma Clen(objsize: nat, csize: nat)
    requires csize > 0 && 0 < objsize < 0x1_0000_0000_0000_0000 && (objsize - 1) / SS < 0x1_0000_0000
    ensures (objsize - 1) % 0x1_0000_0000_0000_0000 / SS % 0x1_0000_0000 / csize == (objsize - 1) / SS / csize
  {
    assert (objsize - 1) % 0x1_0000_0000_0000_0000 == objsize - 1;
    assert (objsize - 1) / SS % 0x1_0000_0000 == (objsize - 1) / SS;
  }

  /** In a chain that is not contiguous as a whole: the clusters with small offsets from the first are the first part. */
  lemma FirstPart(fat: FatSeq, bits: seq<bool>, o: Ob, cs: seq<u32>, i: nat)
    requires Lazy(fat, bits, o, cs) && i < |cs| && o.stat != 2
    ensures Sub32(cs[i], o.sclust) < First(o) <==> i < First(o)
    ensures i < First(o) ==> i + 1 < |cs| && cs[i + 1] == cs[i] + 1
  {
    hide Sub32;
    SmallSub(cs[i], o.sclust);
    if i < First(o) {
      ConsecAt(cs, 0, First(o) + 1, 0, i);
      ConsecAt(cs, 0, First(o) + 1, i, i + 1);
    } else {
      if First(o) > 0 { ConsecAt(cs, 0, First(o) + 1, 0, First(o)); }
      if cs[0] <= cs[i] < cs[0] + First(o) {
        ConsecAt(cs, 0, First(o) + 1, 0, cs[i] - cs[0]);
        assert false;
      }
    }
  }

  // ---- the volume

  /** Number of free clusters among the first k bits. */
  function ClearBelow(bits: seq<bool>, k: nat): (n: nat)
    requires k <= |bits|
    ensures n <= k
  {
    if k == 0 then 0 else ClearBelow(bits, k - 1) + if bits[k - 1] then 0 else 1
  }

  lemma {:induction false} ClearBelowUpdate(bits: seq<bool>, j: nat, b: bool, k: nat)
    requires j < |bits| && k <= |bits|
    ensures ClearBelow(bits[j := b], k) ==
            ClearBelow(bits, k) + if j < k then (if b then 0 else 1) - (if bits[j] then 0 else 1) else 0
  {
    if k > 0 {
      ClearBelowUpdate(bits, j, b, k - 1);
    }
  }

  lemma {:induction false} ClearBelowZero(bits: seq<bool>, k: nat)
    requires k <= |bits|
    ensures ClearBelow(bits, k) == 0 <==> forall j | 0 <= j < k :: bits[j]
  {
    if k > 0 {
      ClearBelowZero(bits, k - 1);
    }
  }

  function CountClear(bits: seq<bool>): nat {
    ClearBelow(bits, |bits|)
  }

  /** A mounted exFAT volume: its FAT, its bitmap and the allocator's hints. */
  class Volume {
    const csize: nat
    const fat: array<u32>
    const bitmap: array<bool>
    var lastClst: u32
    var freeClst: u32

    constructor (csize: nat, fat: array<u32>, bitmap: array<bool>)
      requires csize > 0 && 3 <= fat.Length < EOC && bitmap.Length == fat.Length - 2
      ensures this.csize == csize && this.fat == fat && this.bitmap == bitmap && Valid()
    {
      this.csize, this.fat, this.bitmap := csize, fat, bitmap;
      lastClst, freeClst := ALL_ONES, ALL_ONES;
    }

    /** Sizes fit, and the free count is exact or unknown. */
    ghost predicate Valid()
      reads this, bitmap
    {
      && csize > 0 && 3 <= fat.Length < EOC && bitmap.Length == fat.Length - 2
      && (freeClst <= fat.Length - 2 ==> freeClst == CountClear(bitmap[..]))
    }
  }

  /** j is the first clear bit on the way round from bit start on. */
  ghost predicate FirstClear(bits: seq<bool>, start: nat, j: nat) {
    j < |bits| && !bits[j] && forall i | 0 <= i < |bits| && (if start <= j then start <= i < j else start <= i || i < j) :: bits[i]
  }

  /** The bit from which a search that is given cluster clst starts. */
  function StartBit(n: nat, clst: u32): nat {
    if clst >= 2 && clst - 2 < n then clst - 2 else 0
  }

  /** find_bitmap for one cluster: circular search from clst on. It finds the first free one, and fails exactly when no
      cluster is free. */
  method FindBitmap(v: Volume, clst0: u32) returns (r: u32)
    requires v.Valid()
    ensures r == 0 <==> forall j | 0 <= j < v.bitmap.Length :: v.bitmap[j]
    ensures r != 0 ==> 2 <= r < v.fat.Length && FirstClear(v.bitmap[..], StartBit(v.bitmap.Length, clst0), r - 2)
  {
    var n := v.fat.Length - 2;
    var clst := Sub32(clst0, 2);
    if clst >= n { clst := 0; }
    var val := clst;
    ghost var wrapped := false;
    while true
      invariant if wrapped then 0 <= val < clst else clst <= val < n
      invariant forall j | 0 <= j < n && (if wrapped then clst <= j || j < val else clst <= j < val) :: v.bitmap[j]
      decreases !wrapped, n - val
    {
      var scl := val;
      var bv := v.bitmap[val];
      val := val + 1;
      if val >= n {
        val := 0;
        wrapped := true;
      }
      if !bv { return scl + 2; }
      if val == clst { return 0; }
    }
  }

  /** change_bitmap: flips the bits of a block that all have the other value; stops at one that has not. */
  method ChangeBitmap(v: Volume, clst: u32, ncl: nat, bv: bool) returns (res: FResult)
    requires 2 <= clst && 0 < ncl && clst + ncl <= v.bitmap.Length + 2
    modifies v.bitmap
    ensures (forall j | clst - 2 <= j < clst - 2 + ncl :: old(v.bitmap[j]) != bv) ==> res == FR_OK && FlippedRun(old(v.bitmap[..]), v.bitmap[..], clst - 2, ncl, bv)
    ensures (exists j | clst - 2 <= j < clst - 2 + ncl :: old(v.bitmap[j]) == bv) ==> res == FR_INT_ERR
  {
    var i := clst - 2;
    var left := ncl;
    while true
      invariant 0 < left <= ncl && i == clst - 2 + (ncl - left)
      invariant forall j | clst - 2 <= j < i :: old(v.bitmap[j]) != bv
      invariant FlippedRun(old(v.bitmap[..]), v.bitmap[..], clst - 2, ncl - left, bv)
      decreases left
    {
      if bv == v.bitmap[i] { return FR_INT_ERR; }
      v.bitmap[i] := !v.bitmap[i];
      left := left - 1;
      if left == 0 { return FR_OK; }
      i := i + 1;
    }
  }

  ghost predicate FlippedRun(b: seq<bool>, b2: seq<bool>, from: int, n: nat, bv: bool) {
    |b2| == |b| && forall j | 0 <= j < |b| :: b2[j] == if from <= j < from + n then bv else b[j]
  }

  // ---- the object

  class Obj {
    const v: Volume
    var sclust: u32
    var objsize: nat
    var stat: nat
    var nCont: u32
    var nFrag: u32
    ghost var cs: seq<u32>

    ghost function St(): Ob
      reads this
    {
      Ob(sclust, objsize, stat, nCont, nFrag)
    }

    ghost predicate Valid()
      reads this, v, v.fat, v.bitmap
    {
      v.Valid() && Lazy(v.fat[..], v.bitmap[..], St(), cs)
    }

    /** An object as init_alloc_info finds it: nothing pending. */
    constructor (v: Volume, sclust: u32, objsize: nat, stat: nat, ghost cs: seq<u32>)
      requires v.Valid() && Lazy(v.fat[..], v.bitmap[..], Ob(sclust, objsize, stat, 0, 0), cs)
      ensures this.v == v && this.cs == cs && St() == Ob(sclust, objsize, stat, 0, 0) && Valid()
    {
      this.v, this.sclust, this.objsize, this.stat, this.cs := v, sclust, objsize, stat, cs;
      nCont, nFrag := 0, 0;
    }
  }

  /** put_fat on an exFAT volume: all 32 bits are stored. */
  method PutFat(v: Volume, clst: int, val: u32) returns (res: FResult)
    modifies v.fat
    ensures res == if 2 <= clst < v.fat.Length then FR_OK else FR_INT_ERR
    ensures v.fat[..] == if 2 <= clst < v.fat.Length then old(v.fat[..])[clst := val] else old(v.fat[..])
  {
    if 2 <= clst < v.fat.Length {
      v.fat[clst] := val;
      res := FR_OK;
    } else {
      res := FR_INT_ERR;
    }
  }

  /** The FAT after linking a .. b-1 each to its successor and b - 1 to term. */
  function Filled(fat: FatSeq, a: int, b: int, term: u32): (f: FatSeq)
    requires b <= |fat| < EOC
    ensures |f| == |fat|
    ensures forall c | 0 <= c < |fat| :: f[c] == if a <= c < b then (if c + 1 == b then term else c + 1) else fat[c]
  {
    seq(|fat|, c requires 0 <= c < |fat| => if a <= c < b then (if c + 1 == b then term else c + 1) else fat[c])
  }

  /** fill_first_frag: the first fragment goes to the FAT. */
  method FillFirstFrag(o: Obj) returns (res: FResult)
    requires o.Valid()
    modifies o`stat, o.v.fat
    ensures res == FR_OK && o.Valid() && o.St() == old(o.St()).(stat := if old(o.stat) == 3 then 0 else old(o.stat))
    ensures forall c | 0 <= c < o.v.fat.Length && c !in o.cs :: o.v.fat[c] == old(o.v.fat[c])
  {
    hide Lazy, Shape;
    if o.stat == 3 {
      ghost var fat := o.v.fat[..];
      FirstRange(fat, o.v.bitmap[..], o.St(), o.cs);
      var cl, n := o.sclust, o.nCont;
      while n > 0
        invariant 0 <= n <= o.nCont && cl == o.sclust + (o.nCont - n)
        invariant o.v.fat[..] == Filled(fat, o.sclust, cl, cl)
        decreases n
      {
        res := PutFat(o.v, cl, cl + 1);
        if res != FR_OK { return; }
        cl, n := cl + 1, n - 1;
      }
      o.stat := 0;
      FirstFilled(fat, o.v.bitmap[..], old(o.St()), o.cs, o.v.fat[..]);
    }
    res := FR_OK;
  }

  lemma FirstRange(fat: FatSeq, bits: seq<bool>, o: Ob, cs: seq<u32>)
    requires Lazy(fat, bits, o, cs) && o.stat == 3
    ensures cs != [] && 2 <= o.sclust && o.sclust + o.nCont < |fat|
    ensures forall i | 0 <= i <= o.nCont :: cs[i] == o.sclust + i
  {
    forall i: nat | i <= o.nCont ensures cs[i] == o.sclust + i {
      ConsecAt(cs, 0, o.nCont + 1, 0, i);
    }
    assert cs[o.nCont] == o.sclust + o.nCont;
  }

  lemma FirstFilled(fat: FatSeq, bits: seq<bool>, o: Ob, cs: seq<u32>, fat2: FatSeq)
    requires Lazy(fat, bits, o, cs) && o.stat == 3 && o.sclust + o.nCont <= |fat| < EOC
    requires fat2 == Filled(fat, o.sclust, o.sclust + o.nCont, o.sclust + o.nCont)
    ensures Lazy(fat2, bits, o.(stat := 0), cs)
    ensures forall c | 0 <= c < |fat| && c !in cs :: fat2[c] == fat[c]
  {
    FirstRange(fat, bits, o, cs);
    forall c | o.sclust <= c < o.sclust + o.nCont ensures c in cs {
      assert cs[c - o.sclust] == c;
    }
    hide InUse, Consec, Linked, Filled;
    LinkedAfterFirst(fat, bits, o, cs, fat2);
    ConsecStart(cs, o.nCont + 1);
  }

  lemma ConsecStart(cs: seq<int>, b: nat)
    requires Consec(cs, 0, b) && 0 < b
    ensures Consec(cs, 0, 1)
  {
  }

  lemma LinkedAfterFirst(fat: FatSeq, bits: seq<bool>, o: Ob, cs: seq<u32>, fat2: FatSeq)
    requires Lazy(fat, bits, o, cs) && o.stat == 3 && o.sclust + o.nCont <= |fat| < EOC
    requires fat2 == Filled(fat, o.sclust, o.sclust + o.nCont, o.sclust + o.nCont)
    ensures Linked(fat2, cs, 0, |cs| - o.nFrag)
  {
    hide Sub32;
    FirstRange(fat, bits, o, cs);
    forall i: nat | i < |cs| - o.nFrag ensures LinkAt(fat2, cs, i) {
      FirstPart(fat, bits, o, cs, i);
      FirstFilledAt(fat, o, cs, fat2, i);
    }
  }

  lemma FirstFilledAt(fat: FatSeq, o: Ob, cs: seq<u32>, fat2: FatSeq, i: nat)
    requires o.stat == 3 && o.sclust + o.nCont <= |fat| < EOC && Linked(fat, cs, o.nCont, |cs| - o.nFrag)
    requires fat2 == Filled(fat, o.sclust, o.sclust + o.nCont, o.sclust + o.nCont)
    requires i < |cs| - o.nFrag && cs[i] < |fat|
    requires Sub32(cs[i], o.sclust) < o.nCont <==> i < o.nCont
    requires i < o.nCont ==> i + 1 < |cs| && cs[i + 1] == cs[i] + 1
    ensures LinkAt(fat2, cs, i)
  {
    hide Sub32;
    SmallSub(cs[i], o.sclust);
    assert i >= o.nCont ==> LinkAt(fat, cs, i);
  }

  /** fill_last_frag: the pending last fragment, which ends at lcl, goes to the FAT, its end linked to term. */
  method FillLastFrag(o: Obj, lcl: u32, term: u32) returns (res: FResult)
    requires o.v.fat.Length < EOC && (o.nFrag > 0 ==> 2 <= lcl - o.nFrag + 1 && lcl < o.v.fat.Length)
    modifies o`nFrag, o.v.fat
    ensures res == FR_OK && o.nFrag == 0
    ensures o.v.fat[..] == if old(o.nFrag) == 0 then old(o.v.fat[..]) else Filled(old(o.v.fat[..]), lcl + 1 - old(o.nFrag), lcl + 1, term)
  {
    res := FR_OK;
    ghost var fat, a := o.v.fat[..], lcl + 1 - o.nFrag;
    while o.nFrag > 0
      invariant 0 <= o.nFrag <= old(o.nFrag) && res == FR_OK
      invariant forall c | 0 <= c < |fat| ::
        o.v.fat[c] == if a <= c < lcl + 1 - o.nFrag then (if c == lcl then term else c + 1) else fat[c]
      decreases o.nFrag
    {
      res := PutFat(o.v, lcl - o.nFrag + 1, if o.nFrag > 1 then lcl - o.nFrag + 2 else term);
      if res != FR_OK { return; }
      o.nFrag := o.nFrag - 1;
    }
    assert old(o.nFrag) > 0 ==> o.v.fat[..] == Filled(fat, a, lcl + 1, term);
  }

  /** The pending fragment is the run of numbers that ends at the tail. */
  lemma LastPart(fat: FatSeq, bits: seq<bool>, o: Ob, cs: seq<u32>, i: nat)
    requires Lazy(fat, bits, o, cs) && i < |cs| && o.stat != 2
    ensures var t := cs[|cs| - 1];
      && o.nFrag <= |cs| && (t + 1 - o.nFrag <= cs[i] <= t <==> |cs| - o.nFrag <= i)
      && (|cs| - o.nFrag <= i ==> cs[i] == t - (|cs| - 1 - i))
  {
    var t, a := cs[|cs| - 1], |cs| - o.nFrag;
    if a <= i {
      ConsecAt(cs, a, |cs|, i, |cs| - 1);
      ConsecAt(cs, a, |cs|, a, |cs| - 1);
    } else if t + 1 - o.nFrag <= cs[i] <= t {
      var j := |cs| - 1 - (t - cs[i]);
      ConsecAt(cs, a, |cs|, j, |cs| - 1);
      assert false;
    }
  }

  /** Every number of the run belongs to the chain. */
  lemma LastRun(fat: FatSeq, bits: seq<bool>, o: Ob, cs: seq<u32>, c: int)
    requires Lazy(fat, bits, o, cs) && cs != [] && o.stat != 2 && o.nFrag > 0
    ensures 2 <= cs[|cs| - 1] + 1 - o.nFrag && cs[|cs| - 1] < |fat|
    ensures cs[|cs| - 1] + 1 - o.nFrag <= c <= cs[|cs| - 1] ==> c in cs
  {
    var t, a := cs[|cs| - 1], |cs| - o.nFrag;
    ConsecAt(cs, a, |cs|, a, |cs| - 1);
    assert 2 <= cs[a];
    if t + 1 - o.nFrag <= c <= t {
      var j := |cs| - 1 - (t - c);
      ConsecAt(cs, a, |cs|, j, |cs| - 1);
      assert cs[j] == c;
    }
  }

  /** With the last fragment written the FAT links all but the contiguous first part. */
  lemma LastFilled(fat: FatSeq, bits: seq<bool>, o: Ob, cs: seq<u32>, term: u32, fat2: FatSeq)
    requires Lazy(fat, bits, o, cs) && cs != [] && o.stat != 2 && o.nFrag > 0 && |fat| < EOC
    requires cs[|cs| - 1] + 1 <= |fat| && fat2 == Filled(fat, cs[|cs| - 1] + 1 - o.nFrag, cs[|cs| - 1] + 1, term)
    ensures |fat2| == |fat| && fat2[cs[|cs| - 1]] == term
    ensures LinkedUpTo(fat2, cs, First(o), |cs| - 1)
    ensures forall c | 0 <= c < |fat| && c !in cs :: fat2[c] == fat[c]
  {
    forall c: nat | c < |fat| && c !in cs ensures fat2[c] == fat[c] {
      LastRun(fat, bits, o, cs, c);
    }
    forall i: nat | First(o) <= i < |cs| - 1 ensures cs[i] < |fat| && fat2[cs[i]] % 0x8000_0000 == cs[i + 1] {
      LastPart(fat, bits, o, cs, i);
      LastPart(fat, bits, o, cs, i + 1);
      LastFilledAt(fat, o, cs, term, fat2, i);
    }
  }

  /** The FAT links clusters a .. b of the list. */
  ghost predicate LinkedUpTo(fat: FatSeq, cs: seq<u32>, a: int, b: int) {
    0 <= a && b < |cs| && forall i | a <= i < b :: cs[i] < |fat| && fat[cs[i]] % 0x8000_0000 == cs[i + 1]
  }

  lemma LastFilledAt(fat: FatSeq, o: Ob, cs: seq<u32>, term: u32, fat2: FatSeq, i: nat)
    requires cs != [] && o.stat != 2 && o.nFrag > 0 && |fat| < EOC && Linked(fat, cs, First(o), |cs| - o.nFrag)
    requires var t := cs[|cs| - 1]; t + 1 <= |fat| && fat2 == Filled(fat, t + 1 - o.nFrag, t + 1, term)
    requires var t := cs[|cs| - 1]; First(o) <= i < |cs| - 1 && cs[i] < |fat| && (t + 1 - o.nFrag <= cs[i] <= t <==> |cs| - o.nFrag <= i)
    requires |cs| - o.nFrag <= i ==> cs[i + 1] == cs[i] + 1 && cs[i] != cs[|cs| - 1]
    ensures fat2[cs[i]] % 0x8000_0000 == cs[i + 1]
  {
    assert i < |cs| - o.nFrag ==> LinkAt(fat, cs, i);
  }

  // ---- growing

  lemma GrownInUse(n: nat, bits: seq<bool>, cs: seq<u32>, r: u32)
    requires InUse(n, bits, cs) && 2 <= r < n && !bits[r - 2]
    ensures InUse(n, bits[r - 2 := true], cs + [r]) && r !in cs
  {
  }

  /** The new cluster continues a contiguous chain, or starts one. */
  lemma GrowContiguous(fat: FatSeq, bits: seq<bool>, o: Ob, cs: seq<u32>, r: u32, o2: Ob)
    requires Lazy(fat, bits, o, cs) && 2 <= r < |fat| && !bits[r - 2]
    requires cs != [] ==> o.stat == 2 && r == cs[|cs| - 1] + 1
    requires o2 == o.(stat := 2, sclust := if cs == [] then r else o.sclust)
    ensures Lazy(fat, bits[r - 2 := true], o2, cs + [r])
  {
    GrownInUse(|fat|, bits, cs, r);
  }

  /** The new cluster continues the last fragment. */
  lemma GrowFragment(fat: FatSeq, bits: seq<bool>, o: Ob, cs: seq<u32>, r: u32, o2: Ob)
    requires Lazy(fat, bits, o, cs) && 2 <= r < |fat| && !bits[r - 2]
    requires cs != [] && o.stat != 2 && r == cs[|cs| - 1] + 1 && o.nFrag < ALL_ONES
    requires o2 == o.(nFrag := if o.nFrag > 0 then o.nFrag + 1 else 2)
    ensures Lazy(fat, bits[r - 2 := true], o2, cs + [r])
  {
    GrownInUse(|fat|, bits, cs, r);
    LinkedPrefix(fat, cs, First(o), |cs| - o.nFrag, |cs| + 1 - o2.nFrag, r);
    var cs2 := cs + [r];
    assert Consec(cs2, |cs2| - o2.nFrag, |cs2|);
    assert Consec(cs2, 0, First(o2) + 1);
  }

  lemma LinkedPrefix(fat: FatSeq, cs: seq<u32>, a: int, b: int, b2: int, r: u32)
    requires Linked(fat, cs, a, b) && b2 <= b && b2 < |cs|
    ensures Linked(fat, cs + [r], a, b2)
  {
    forall i: nat | a <= i < b2 ensures LinkAt(fat, cs + [r], i) {
      assert LinkAt(fat, cs, i);
    }
  }

  /** A new fragment begins: the old one has been written, linked to the new cluster. */
  lemma GrowNew(fat: FatSeq, bits: seq<bool>, o: Ob, cs: seq<u32>, r: u32, fat2: FatSeq)
    requires Lazy(fat, bits, o, cs) && 2 <= r < |fat| < EOC && !bits[r - 2]
    requires cs != [] && o.stat != 2 && o.nFrag > 0 && cs[|cs| - 1] + 1 <= |fat|
    requires fat2 == Filled(fat, cs[|cs| - 1] + 1 - o.nFrag, cs[|cs| - 1] + 1, r)
    ensures Lazy(fat2, bits[r - 2 := true], o.(nFrag := 1), cs + [r])
    ensures forall c | 0 <= c < |fat| && c !in cs :: fat2[c] == fat[c]
  {
    GrownInUse(|fat|, bits, cs, r);
    LastFilled(fat, bits, o, cs, r, fat2);
    var cs2 := cs + [r];
    forall i: nat | First(o) <= i < |cs| ensures LinkAt(fat2, cs2, i) {
      assert cs2[i] == cs[i];
      assert i < |cs| - 1 ==> fat2[cs[i]] % 0x8000_0000 == cs[i + 1];
    }
    assert Consec(cs2, 0, First(o) + 1);
  }

  /** The first time a contiguous chain gets a cluster from elsewhere. */
  lemma Fragmented(fat: FatSeq, bits: seq<bool>, o: Ob, cs: seq<u32>)
    requires Lazy(fat, bits, o, cs) && cs != [] && o.stat == 2
    ensures 0 <= cs[|cs| - 1] - o.sclust < 0x8000_0000
    ensures Lazy(fat, bits, o.(stat := 3, nCont := cs[|cs| - 1] - o.sclust, nFrag := 1), cs)
  {
    ConsecAt(cs, 0, |cs|, 0, |cs| - 1);
  }

  /** A last fragment of one cluster, the tail itself. */
  lemma TailPending(fat: FatSeq, bits: seq<bool>, o: Ob, cs: seq<u32>)
    requires Lazy(fat, bits, o, cs) && cs != [] && o.stat != 2 && o.nFrag == 0
    ensures Lazy(fat, bits, o.(nFrag := 1), cs)
  {
  }

  /** Whether get_fat can be asked for the successor of cluster number i. */
  ghost predicate Asks(o: Ob, cs: seq<u32>, i: nat) {
    o.stat == 2 || i < First(o) || i + 1 == |cs| || o.nFrag == 0
  }

  /** The chain bookkeeping of create_chain once cluster ncl has been taken: how the object and the FAT note it. */
  method NoteGrowth(o: Obj, clst: u32, ncl: u32, ghost bits: seq<bool>) returns (res: FResult)
    requires Lazy(o.v.fat[..], bits, o.St(), o.cs) && 2 <= ncl < o.v.fat.Length && !bits[ncl - 2]
    requires if clst == 0 then o.cs == [] else o.cs != [] && clst == o.cs[|o.cs| - 1]
    modifies o`stat, o`nCont, o`nFrag, o.v.fat
    ensures res == FR_OK
    ensures Lazy(o.v.fat[..], bits[ncl - 2 := true], o.St().(sclust := if clst == 0 then ncl else o.sclust), o.cs + [ncl])
    ensures forall c | 0 <= c < o.v.fat.Length && c !in o.cs :: o.v.fat[c] == old(o.v.fat[c])
  {
    hide Lazy, Shape, Consec, Linked, InUse, Filled;
    ghost var fat, st0, cs := o.v.fat[..], o.St(), o.cs;
    LazyFacts(fat, bits, st0, cs);
    res := FR_OK;
    if clst == 0 {
      o.stat := 2;
      GrowContiguous(fat, bits, st0, cs, ncl, o.St().(sclust := ncl));
    } else if o.stat == 2 {
      if ncl != clst + 1 {
        Fragmented(fat, bits, st0, cs);
        o.nCont := clst - o.sclust;
        o.stat := 3;
      } else {
        GrowContiguous(fat, bits, st0, cs, ncl, st0);
      }
    }
    if o.stat != 2 {
      if ncl == clst + 1 {
        o.nFrag := if o.nFrag != 0 then o.nFrag + 1 else 2;
        GrowFragment(fat, bits, st0, cs, ncl, o.St());
      } else {
        if o.nFrag == 0 {
          if st0.stat != 2 { TailPending(fat, bits, st0, cs); }
          o.nFrag := 1;
        }
        ghost var st1 := o.St();
        LastRun(fat, bits, st1, cs, 0);
        res := FillLastFrag(o, clst, ncl);
        GrowNew(fat, bits, st1, cs, ncl, o.v.fat[..]);
        if res == FR_OK { o.nFrag := 1; }
      }
    }
  }

  lemma LazyFacts(fat: FatSeq, bits: seq<bool>, o: Ob, cs: seq<u32>)
    requires Lazy(fat, bits, o, cs)
    ensures 3 <= |fat| < EOC && |bits| == |fat| - 2 && forall i | 0 <= i < |cs| :: 2 <= cs[i] < |fat| && bits[cs[i] - 2]
    ensures o.stat == 0 || o.stat == 2 || o.stat == 3
    ensures o.stat == 2 || cs == [] ==> o.nFrag == 0
    ensures o.nFrag <= |cs| <= |fat|
    ensures if cs == [] then o.sclust == 0 else o.sclust == cs[0]
  {
    assert forall c | c in cs :: c < |fat|;
    DistinctLength(cs, |fat|);
  }

  /** What taking a cluster at the end of a chain does, if r is its number; 0 means that nothing was free. */
  ghost predicate Taken(fat: FatSeq, bits: seq<bool>, o: Ob, cs: seq<u32>, fat2: FatSeq, bits2: seq<bool>, o2: Ob, cs2: seq<u32>, r: u32) {
    && |bits| + 2 == |fat| == |fat2| && (r == 0 <==> forall j | 0 <= j < |bits| :: bits[j])
    && o2.sclust == o.sclust && o2.objsize == o.objsize
    && (forall c | 0 <= c < |fat| && c !in cs :: fat2[c] == fat[c])
    && (if r == 0 then fat2 == fat && bits2 == bits && o2 == o && cs2 == cs
        else 2 <= r < |fat| && !bits[r - 2] && bits2 == bits[r - 2 := true] && cs2 == cs + [r]
             && Lazy(fat2, bits2, o2.(sclust := if cs == [] then r else o.sclust), cs2))
  }

  /** How create_chain reports: the cluster, or an error number. */
  function OrError(res: FResult, ncl: u32): u32 {
    if res == FR_OK then ncl else if res == FR_DISK_ERR then ALL_ONES else 1
  }

  /** The second half of create_chain: finds a free cluster and takes it. */
  method TakeCluster(o: Obj, clst: u32, scl: u32) returns (r: u32)
    requires o.Valid()
    requires if clst == 0 then o.cs == [] else o.cs != [] && clst == o.cs[|o.cs| - 1]
    modifies o`stat, o`nCont, o`nFrag, o`cs, o.v, o.v.fat, o.v.bitmap
    ensures o.v.Valid() && r != 1 && r != ALL_ONES
    ensures Taken(old(o.v.fat[..]), old(o.v.bitmap[..]), old(o.St()), old(o.cs), o.v.fat[..], o.v.bitmap[..], o.St(), o.cs, r)
    ensures r != 0 ==> FirstClear(old(o.v.bitmap[..]), StartBit(o.v.bitmap.Length, scl), r - 2)
  {
    hide Lazy, Shape, Consec, Linked, InUse, CountClear, StartBit;
    var v := o.v;
    ghost var fat, bits, st0 := v.fat[..], v.bitmap[..], o.St();
    LazyFacts(fat, bits, st0, o.cs);
    FullBitmap(bits);
    if v.freeClst == 0 { return 0; }
    r := FindBitmap(v, scl);
    if r == 0 || r == ALL_ONES { return; }
    var res := ChangeBitmap(v, r, 1, true);
    OneBit(bits, v.bitmap[..], r - 2);
    r := OrError(res, r);
    if res != FR_OK { return; }
    res := NoteGrowth(o, clst, r, bits);
    o.cs := o.cs + [r];
    v.lastClst := r;
    if v.freeClst > 0 && v.freeClst <= v.fat.Length - 2 {
      v.freeClst := v.freeClst - 1;
    }
  }

  /** create_chain on an exFAT volume. From a cluster inside the chain it only moves on. From the tail (or for an empty
      object) it takes a free cluster, marks it in the bitmap and notes it lazily; it returns 0 exactly when the bitmap
      is full. No FAT entry of a cluster outside the chain is written. */
  method CreateChain(o: Obj, clst: u32, ghost i: int) returns (r: u32)
    requires o.Valid()
    requires if clst == 0 then o.cs == [] && i == -1
             else 0 <= i < |o.cs| && clst == o.cs[i] && Covers(o.v.csize, o.St(), |o.cs|) && Asks(o.St(), o.cs, i)
    modifies o`stat, o`nCont, o`nFrag, o`cs, o.v, o.v.fat, o.v.bitmap
    ensures o.v.Valid() && r != 1 && r != ALL_ONES
    ensures i + 1 < |old(o.cs)| ==> r == old(o.cs)[i + 1] && o.cs == old(o.cs) && o.St() == old(o.St())
    ensures i + 1 < |old(o.cs)| ==> o.v.fat[..] == old(o.v.fat[..]) && o.v.bitmap[..] == old(o.v.bitmap[..])
    ensures i + 1 == |old(o.cs)| ==>
      Taken(old(o.v.fat[..]), old(o.v.bitmap[..]), old(o.St()), old(o.cs), o.v.fat[..], o.v.bitmap[..], o.St(), o.cs, r)
    ensures i + 1 == |old(o.cs)| && r != 0 ==>
      FirstClear(old(o.v.bitmap[..]), StartBit(o.v.bitmap.Length, if clst == 0 then old(o.v.lastClst) else clst), r - 2)
  {
    hide Lazy, GetFat, Taken, FirstClear;
    var v := o.v;
    LazyFacts(v.fat[..], v.bitmap[..], o.St(), o.cs);
    var scl: u32;
    if clst == 0 {
      scl := v.lastClst;
      if scl == 0 || scl >= v.fat.Length { scl := 1; }
    } else {
      AnswerExact(v.fat[..], v.bitmap[..], v.csize, o.St(), o.cs, i);
      var cs := GetFat(v.fat[..], v.csize, Ob(o.sclust, o.objsize, o.stat, o.nCont, o.nFrag), clst);
      r := 1;
      if cs < 2 { return; }
      r := cs;
      if cs == ALL_ONES || cs < v.fat.Length { return; }
      scl := clst;
    }
    r := TakeCluster(o, clst, scl);
  }

  lemma FullBitmap(bits: seq<bool>)
    ensures CountClear(bits) == 0 <==> forall j | 0 <= j < |bits| :: bits[j]
  {
    ClearBelowZero(bits, |bits|);
  }

  /** Setting one clear bit. */
  lemma OneBit(bits: seq<bool>, bits2: seq<bool>, j: nat)
    requires j < |bits| && !bits[j] && FlippedRun(bits, bits2, j, 1, true)
    ensures bits2 == bits[j := true] && CountClear(bits2) == CountClear(bits) - 1
  {
    assert bits2 == bits[j := true];
    ClearBelowUpdate(bits, j, true, |bits|);
  }

  // ---- removing

  /** The bitmap with clusters k .. i-1 of the list free. */
  ghost function Cleared(bits: seq<bool>, cs: seq<u32>, k: nat, i: nat): (b: seq<bool>)
    requires i <= |cs| && forall j | 0 <= j < |cs| :: 2 <= cs[j] < |bits| + 2
    ensures |b| == |bits|
  {
    if i <= k then bits else Cleared(bits, cs, k, i - 1)[cs[i - 1] - 2 := false]
  }

  lemma {:induction false} ClearedAt(bits: seq<bool>, cs: seq<u32>, k: nat, i: nat, j: nat)
    requires k <= i <= |cs| && j < |bits| && Distinct(cs) && forall h | 0 <= h < |cs| :: 2 <= cs[h] < |bits| + 2
    ensures Cleared(bits, cs, k, i)[j] <==> bits[j] && !exists h | k <= h < i :: cs[h] == j + 2
    decreases i
  {
    if k < i {
      ClearedAt(bits, cs, k, i - 1, j);
    }
  }

  /** Freeing one more cluster. */
  lemma ClearOne(bits: seq<bool>, cs: seq<u32>, k: nat, i: nat)
    requires k <= i < |cs| && InUse(|bits| + 2, bits, cs)
    ensures CountClear(Cleared(bits, cs, k, i + 1)) == CountClear(Cleared(bits, cs, k, i)) + 1 <= |bits|
  {
    ClearedAt(bits, cs, k, i, cs[i] - 2);
    var b := Cleared(bits, cs, k, i);
    assert b[cs[i] - 2];
    assert Cleared(bits, cs, k, i + 1) == b[cs[i] - 2 := false];
    ClearBelowUpdate(b, cs[i] - 2, false, |b|);
  }

  /** Clusters a .. b-1 being consecutive, freeing them is clearing a run of bits. */
  lemma {:induction false} ClearedRun(bits: seq<bool>, cs: seq<u32>, k: nat, a: nat, b: nat)
    requires k <= a < b <= |cs| && Consec(cs, a, b) && InUse(|bits| + 2, bits, cs)
    ensures FlippedRun(Cleared(bits, cs, k, a), Cleared(bits, cs, k, b), cs[a] - 2, b - a, false)
    decreases b
  {
    if a + 1 < b {
      ClearedRun(bits, cs, k, a, b - 1);
      ConsecAt(cs, a, b, a, b - 1);
    }
  }

  lemma SameFlip(b: seq<bool>, b2: seq<bool>, b3: seq<bool>, from: int, n: nat)
    requires FlippedRun(b, b2, from, n, false) && FlippedRun(b, b3, from, n, false)
    ensures b2 == b3
  {
  }

  /** The bits of a pending block are all set. */
  lemma BlockSet(bits: seq<bool>, cs: seq<u32>, k: nat, a: nat, i: nat)
    requires k <= a <= i < |cs| && Consec(cs, a, i + 1) && InUse(|bits| + 2, bits, cs)
    ensures cs[i] == cs[a] + (i - a)
    ensures forall j | cs[a] - 2 <= j <= cs[i] - 2 :: Cleared(bits, cs, k, a)[j]
  {
    ConsecAt(cs, a, i + 1, a, i);
    forall j | cs[a] - 2 <= j <= cs[i] - 2 ensures Cleared(bits, cs, k, a)[j] {
      var h := a + (j + 2 - cs[a]);
      ConsecAt(cs, a, i + 1, a, h);
      ClearedAt(bits, cs, k, a, j);
    }
  }

  /** Clears a block of consecutive clusters of the chain in the bitmap. */
  method ClearBlock(v: Volume, scl: u32, ecl: u32, ghost bits: seq<bool>, ghost cs: seq<u32>, ghost k: nat, ghost a: nat, ghost i: nat)
    returns (res: FResult)
    requires k <= a <= i < |cs| && Consec(cs, a, i + 1) && InUse(|bits| + 2, bits, cs)
    requires scl == cs[a] && ecl == cs[i] && v.bitmap[..] == Cleared(bits, cs, k, a)
    modifies v.bitmap
    ensures res == FR_OK && v.bitmap[..] == Cleared(bits, cs, k, i + 1)
  {
    BlockSet(bits, cs, k, a, i);
    ClearedRun(bits, cs, k, a, i + 1);
    hide Consec, InUse, Cleared, FlippedRun;
    ghost var b := v.bitmap[..];
    assert forall j | cs[a] - 2 <= j <= cs[i] - 2 :: b[j];
    res := ChangeBitmap(v, scl, ecl - scl + 1, false);
    SameFlip(b, v.bitmap[..], Cleared(bits, cs, k, i + 1), cs[a] - 2, i + 1 - a);
  }

  /** The clusters from position k on leave the bitmap; the clusters before keep their bits. */
  lemma CutInUse(bits: seq<bool>, cs: seq<u32>, k: nat)
    requires InUse(|bits| + 2, bits, cs) && k <= |cs|
    ensures InUse(|bits| + 2, Cleared(bits, cs, k, |cs|), cs[..k])
  {
    forall i | 0 <= i < k ensures Cleared(bits, cs, k, |cs|)[cs[i] - 2] {
      ClearedAt(bits, cs, k, |cs|, cs[i] - 2);
    }
  }

  /** The FAT of a chain that ends before position k. */
  ghost function EndedAt(fat: FatSeq, o: Ob, cs: seq<u32>, k: nat): (f: FatSeq)
    requires 0 < k <= |cs| && cs[k - 1] < |fat|
    ensures |f| == |fat|
  {
    if o.stat == 2 then fat else fat[cs[k - 1] := ALL_ONES]
  }

  /** A chain cut before position k, with the status it had. */
  lemma CutKeeps(fat: FatSeq, bits: seq<bool>, o: Ob, cs: seq<u32>, k: nat)
    requires Lazy(fat, bits, o, cs) && 0 < k < |cs| && o.nFrag == 0
    requires o.stat == 3 ==> First(o) < k
    ensures Lazy(EndedAt(fat, o, cs, k), Cleared(bits, cs, k, |cs|), o, cs[..k])
  {
    CutInUse(bits, cs, k);
    hide InUse, Cleared;
    if o.stat != 2 {
      var fat2, cs2 := EndedAt(fat, o, cs, k), cs[..k];
      forall i: nat | First(o) <= i < k ensures LinkAt(fat2, cs2, i) {
        assert LinkAt(fat, cs, i);
        if i < k - 1 { DistinctAt(fat, bits, cs, i, k - 1); }
      }
    }
  }

  lemma DistinctAt(fat: FatSeq, bits: seq<bool>, cs: seq<u32>, i: nat, j: nat)
    requires InUse(|fat|, bits, cs) && i < |cs| && j < |cs| && i != j
    ensures cs[i] != cs[j] && cs[i] < |fat|
  {
  }

  /** A chain cut to clusters that turn out to be consecutive is contiguous again. */
  lemma CutContiguous(fat: FatSeq, bits: seq<bool>, o: Ob, cs: seq<u32>, k: nat, fat2: FatSeq)
    requires Lazy(fat, bits, o, cs) && 0 < k < |cs| && o.nFrag == 0 && Consec(cs, 0, k) && |fat2| == |fat|
    ensures Lazy(fat2, Cleared(bits, cs, k, |cs|), o.(stat := 2), cs[..k])
  {
    CutInUse(bits, cs, k);
  }

  /** Marking cluster k-1 as an end changes no answer about other clusters of the chain. */
  lemma SameAnswer(fat: FatSeq, bits: seq<bool>, csize: nat, o: Ob, cs: seq<u32>, k: nat, i: nat)
    requires Lazy(fat, bits, o, cs) && 0 < k < |cs| && i < |cs| && i != k - 1 && csize > 0 && |fat| < EOC && cs[k - 1] < |fat|
    ensures GetFat(EndedAt(fat, o, cs, k), csize, o, cs[i]) == GetFat(fat, csize, o, cs[i])
  {
    DistinctAt(fat, bits, cs, i, k - 1);
  }

  /** While clusters are removed: what get_fat says of cluster i of the chain. */
  lemma RemovalAnswer(fat: FatSeq, bits: seq<bool>, csize: nat, o: Ob, cs: seq<u32>, k: nat, i: nat, fat1: FatSeq)
    requires Lazy(fat, bits, o, cs) && k <= i < |cs| && Covers(csize, o, |cs|) && o.nFrag == 0 && |fat| < EOC
    requires fat1 == if k == 0 then fat else EndedAt(fat, o, cs, k)
    ensures RightAnswer(|fat|, cs, i, GetFat(fat1, csize, o, cs[i])) && GetFat(fat1, csize, o, cs[i]) >= 2
  {
    AnswerExact(fat, bits, csize, o, cs, i);
    if k > 0 { SameAnswer(fat, bits, csize, o, cs, k, i); }
  }

  /** The removal loop: frees the clusters from position k on, block by block. */
  method FreeClusters(o: Obj, clst: u32, ghost k: nat, ghost fat0: FatSeq) returns (res: FResult)
    requires o.v.Valid() && Lazy(fat0, o.v.bitmap[..], o.St(), o.cs) && o.nFrag == 0 && Covers(o.v.csize, o.St(), |o.cs|)
    requires k < |o.cs| && clst == o.cs[k] && |fat0| == o.v.fat.Length
    requires o.v.fat[..] == if k == 0 then fat0 else EndedAt(fat0, o.St(), o.cs, k)
    modifies o.v, o.v.bitmap
    ensures res == FR_OK && o.v.Valid() && |old(o.v.bitmap[..])| + 2 == |fat0|
    ensures forall j | 0 <= j < |o.cs| :: 2 <= o.cs[j] < |fat0|
    ensures o.v.bitmap[..] == Cleared(old(o.v.bitmap[..]), o.cs, k, |o.cs|)
  {
    hide Lazy, Shape, Consec, Linked, InUse, CountClear, GetFat, Cleared, Covers, EndedAt;
    var v := o.v;
    ghost var bits, st, cs, fat1 := v.bitmap[..], o.St(), o.cs, v.fat[..];
    LazyFacts(fat0, bits, st, cs);
    LazyInUse(fat0, bits, st, cs);
    CoversPositive(v.csize, st, |cs|);
    ghost var i, a := k, k;
    ghost var exact := v.freeClst <= v.fat.Length - 2;
    var scl, ecl, c := clst, clst, clst;
    ClearedNone(bits, cs, k);
    while true
      invariant k <= a <= i < |cs| && c == cs[i] == ecl && scl == cs[a] && Consec(cs, a, i + 1)
      invariant v.bitmap[..] == Cleared(bits, cs, k, a)
      invariant if exact then v.freeClst == CountClear(Cleared(bits, cs, k, i)) else v.freeClst > v.fat.Length - 2
      decreases |cs| - i
    {
      RemovalAnswer(fat0, bits, v.csize, st, cs, k, i, fat1);
      var nxt := GetFat(v.fat[..], v.csize, Ob(o.sclust, o.objsize, o.stat, o.nCont, o.nFrag), c);
      if nxt == 0 { break; }
      if nxt == 1 { return FR_INT_ERR; }
      if nxt == ALL_ONES { return FR_DISK_ERR; }
      ClearOne(bits, cs, k, i);
      if v.freeClst < v.fat.Length - 2 {
        v.freeClst := v.freeClst + 1;
      }
      if ecl + 1 == nxt {
        NotAnEnd(|fat0|, cs, i, nxt);
        MoreConsec(cs, a, i + 1);
        ecl := nxt;
      } else {
        res := ClearBlock(v, scl, ecl, bits, cs, k, a, i);
        if res != FR_OK { return; }
        scl, ecl := nxt, nxt;
        a := i + 1;
        OneConsec(cs, a);
      }
      c := nxt;
      i := i + 1;
      if c >= v.fat.Length { break; }
    }
    res := FR_OK;
  }

  lemma LazyInUse(fat: FatSeq, bits: seq<bool>, o: Ob, cs: seq<u32>)
    requires Lazy(fat, bits, o, cs)
    ensures InUse(|bits| + 2, bits, cs)
  {
  }

  lemma CoversPositive(csize: nat, o: Ob, m: nat)
    requires Covers(csize, o, m)
    ensures csize > 0
  {
  }

  lemma ClearedNone(bits: seq<bool>, cs: seq<u32>, k: nat)
    requires k < |cs| && InUse(|bits| + 2, bits, cs)
    ensures Cleared(bits, cs, k, k) == bits && Consec(cs, k, k + 1)
  {
  }

  /** The number after a cluster is not an end mark. */
  lemma NotAnEnd(n: nat, cs: seq<u32>, i: nat, nxt: u32)
    requires i < |cs| && cs[i] < n && RightAnswer(n, cs, i, nxt) && nxt - 1 == cs[i]
    ensures i + 1 < |cs| && nxt == cs[i + 1]
  {
  }

  lemma MoreConsec(cs: seq<int>, a: nat, b: nat)
    requires Consec(cs, a, b) && a < b < |cs| && cs[b] == cs[b - 1] + 1
    ensures Consec(cs, a, b + 1)
  {
  }

  lemma OneConsec(cs: seq<int>, a: nat)
    ensures a < |cs| ==> Consec(cs, a, a + 1)
  {
  }

  /** Where in the contiguous first part a cluster of the chain lies, by number. */
  lemma InFirstByNumber(fat: FatSeq, bits: seq<bool>, o: Ob, cs: seq<u32>, i: nat)
    requires Lazy(fat, bits, o, cs) && i < |cs| && o.stat == 3
    ensures o.sclust <= cs[i] <= o.sclust + o.nCont <==> i <= First(o)
    ensures i <= First(o) ==> Consec(cs, 0, i + 1)
  {
    hide Sub32;
    SmallSub(cs[i], o.sclust);
    FirstPart(fat, bits, o, cs, i);
    ConsecAt(cs, 0, First(o) + 1, 0, First(o));
    if i != First(o) { DistinctAt(fat, bits, cs, i, First(o)); }
  }

  /** Follows a FAT chain from its start as long as its clusters are consecutive; tells whether that leads to pclst. */
  method IsContiguous(o: Obj, pclst: u32, ghost k: nat, ghost fat0: FatSeq, ghost bits: seq<bool>) returns (res: FResult, yes: bool)
    requires Lazy(fat0, bits, o.St(), o.cs) && o.stat == 0 && o.nFrag == 0 && Covers(o.v.csize, o.St(), |o.cs|)
    requires 0 < k < |o.cs| && pclst == o.cs[k - 1] && |fat0| == o.v.fat.Length
    requires o.v.fat[..] == EndedAt(fat0, o.St(), o.cs, k)
    ensures res == FR_OK && (yes <==> Consec(o.cs, 0, k))
  {
    hide Lazy, Consec, GetFat, Covers, EndedAt;
    var v := o.v;
    ghost var st, cs, j := o.St(), o.cs, 0;
    LazyFacts(fat0, bits, st, cs);
    CoversPositive(v.csize, st, |cs|);
    OneConsec(cs, 0);
    var c := o.sclust;
    while c != pclst
      invariant 0 <= j < k && c == cs[j] && Consec(cs, 0, j + 1)
      decreases k - j
    {
      AnswerExact(fat0, bits, v.csize, st, cs, j);
      SameAnswer(fat0, bits, v.csize, st, cs, k, j);
      var nxt := GetFat(v.fat[..], v.csize, Ob(o.sclust, o.objsize, o.stat, o.nCont, o.nFrag), c);
      res, yes := FR_INT_ERR, false;
      if nxt < 2 { return; }
      res := FR_DISK_ERR;
      if nxt == ALL_ONES { return; }
      res := FR_OK;
      if nxt != c + 1 {
        NotConsec(cs, k, j);
        return;
      }
      NotAnEnd(|fat0|, cs, j, nxt);
      MoreConsec(cs, 0, j + 1);
      KeepsDistinct(fat0, bits, st, cs, j + 1, k - 1);
      c := c + 1;
      j := j + 1;
    }
    KeepsDistinct(fat0, bits, st, cs, j, k - 1);
    res, yes := FR_OK, true;
  }

  lemma NotConsec(cs: seq<int>, k: nat, j: nat)
    requires j + 1 < k <= |cs| && cs[j + 1] != cs[j] + 1
    ensures !Consec(cs, 0, k)
  {
    if Consec(cs, 0, k) { ConsecAt(cs, 0, k, j, j + 1); }
  }

  lemma KeepsDistinct(fat: FatSeq, bits: seq<bool>, o: Ob, cs: seq<u32>, i: nat, j: nat)
    requires Lazy(fat, bits, o, cs) && i < |cs| && j < |cs|
    ensures cs[i] == cs[j] ==> i == j
  {
  }

  /** The status of a chain cut to its first k clusters: contiguous, if that is what they are found to be. */
  ghost function StatAfterCut(o: Ob, cs: seq<u32>, k: nat): nat
    requires k <= |cs|
  {
    if k == 0 then 0
    else if (o.stat == 0 && Consec(cs, 0, k)) || (o.stat == 3 && k - 1 <= First(o)) then 2
    else o.stat
  }

  /** remove_chain on an exFAT volume, from position k of an object's chain on: the clusters leave the bitmap, the rest stays
      the object's chain, and its status is brought up to date (contiguous again, if it is). The caller resets the first
      cluster when the whole chain went. */
  method RemoveChain(o: Obj, clst: u32, pclst: u32, ghost k: nat) returns (res: FResult)
    requires o.Valid() && o.nFrag == 0 && k < |o.cs| && Covers(o.v.csize, o.St(), |o.cs|)
    requires clst == o.cs[k] && pclst == if k == 0 then 0 else o.cs[k - 1]
    modifies o`stat, o`cs, o.v, o.v.fat, o.v.bitmap
    ensures res == FR_OK && o.v.Valid() && o.cs == old(o.cs)[..k] && o.nFrag == 0
    ensures Lazy(o.v.fat[..], o.v.bitmap[..], o.St().(sclust := if k == 0 then 0 else o.sclust), o.cs)
    ensures o.v.bitmap.Length + 2 == o.v.fat.Length && forall j | 0 <= j < |old(o.cs)| :: 2 <= old(o.cs)[j] < o.v.fat.Length
    ensures o.v.bitmap[..] == Cleared(old(o.v.bitmap[..]), old(o.cs), k, |old(o.cs)|)
    ensures forall c | 0 <= c < o.v.fat.Length && c !in o.cs :: o.v.fat[c] == old(o.v.fat[c])
    ensures o.St() == old(o.St()).(stat := StatAfterCut(old(o.St()), old(o.cs), k))
  {
    hide Lazy, Shape, Consec, Linked, InUse, CountClear, GetFat, Cleared, Covers;
    var v := o.v;
    ghost var fat, bits, st, cs := v.fat[..], v.bitmap[..], o.St(), o.cs;
    LazyFacts(fat, bits, st, cs);
    CoversPositive(v.csize, st, |cs|);
    if clst < 2 || clst >= v.fat.Length { return FR_INT_ERR; }
    if pclst != 0 && o.stat != 2 {
      res := PutFat(v, pclst, ALL_ONES);
      if res != FR_OK { return; }
    }
    res := FreeClusters(o, clst, k, fat);
    if res != FR_OK { return; }
    if pclst == 0 {
      LazyInUse(fat, bits, st, cs);
      EmptyIsLazy(v.fat[..], bits, st, cs);
      o.stat := 0;
    } else if o.stat == 0 {
      CutKeeps(fat, bits, st, cs, k);
      var yes;
      res, yes := IsContiguous(o, pclst, k, fat, bits);
      if res != FR_OK { return; }
      if yes {
        CutContiguous(fat, bits, st, cs, k, v.fat[..]);
        o.stat := 2;
      }
    } else {
      if o.stat == 3 { InFirstByNumber(fat, bits, st, cs, k - 1); }
      if o.stat == 3 && pclst >= o.sclust && pclst <= o.sclust + o.nCont {
        CutContiguous(fat, bits, st, cs, k, v.fat[..]);
        o.stat := 2;
      } else {
        CutKeeps(fat, bits, st, cs, k);
      }
    }
    o.cs := o.cs[..k];
  }

  lemma EmptyIsLazy(fat: FatSeq, bits: seq<bool>, o: Ob, cs: seq<u32>)
    requires InUse(|fat|, bits, cs) && o.nFrag == 0
    ensures forall j | 0 <= j < |cs| :: 2 <= cs[j] < |bits| + 2
    ensures Lazy(fat, Cleared(bits, cs, 0, |cs|), o.(stat := 0, sclust := 0), [])
  {
  }

  // ---- whole sessions

  /** The pending last fragment written, ended by an end mark. */
  lemma FlushedTail(fat: FatSeq, bits: seq<bool>, o: Ob, cs: seq<u32>, fat2: FatSeq)
    requires Lazy(fat, bits, o, cs) && o.nFrag > 0 && |fat| < EOC
    requires cs != [] && cs[|cs| - 1] + 1 <= |fat| && fat2 == Filled(fat, cs[|cs| - 1] + 1 - o.nFrag, cs[|cs| - 1] + 1, ALL_ONES)
    ensures Lazy(fat2, bits, o.(nFrag := 0), cs) && forall c | 0 <= c < |fat| && c !in cs :: fat2[c] == fat[c]
  {
    LastFilled(fat, bits, o, cs, ALL_ONES, fat2);
    forall i: nat | First(o) <= i < |cs| ensures LinkAt(fat2, cs, i) {
      assert i < |cs| - 1 ==> fat2[cs[i]] % 0x8000_0000 == cs[i + 1];
    }
  }

  /** fill_last_frag with the tail and an end mark, as f_lseek and f_sync call it. */
  method Flush(o: Obj, clust: u32) returns (res: FResult)
    requires o.Valid() && (o.nFrag > 0 ==> o.cs != [] && clust == o.cs[|o.cs| - 1])
    modifies o`nFrag, o.v.fat
    ensures res == FR_OK && o.Valid() && o.St() == old(o.St()).(nFrag := 0)
    ensures forall c | 0 <= c < o.v.fat.Length && c !in o.cs :: o.v.fat[c] == old(o.v.fat[c])
  {
    hide Lazy, Filled;
    ghost var fat, bits, st, cs := o.v.fat[..], o.v.bitmap[..], o.St(), o.cs;
    LazyFacts(fat, bits, st, cs);
    if o.nFrag > 0 && o.stat != 2 { LastRun(fat, bits, st, cs, 0); }
    res := FillLastFrag(o, clust, ALL_ONES);
    if st.nFrag > 0 {
      FlushedTail(fat, bits, st, cs, o.v.fat[..]);
    }
  }

  /** After a sync the chain can be read back: either the clusters are one contiguous run and the status says so, or the
      FAT as it is stored links exactly the clusters of the object, in order. */
  ghost predicate Stored(fat: FatSeq, o: Ob, cs: seq<u32>) {
    o.nFrag == 0 && if o.stat == 2 then Consec(cs, 0, |cs|) else o.stat == 0 && (cs != [] ==> IsChain(View(fat), cs))
  }

  lemma SettledIsStored(fat: FatSeq, bits: seq<bool>, o: Ob, cs: seq<u32>)
    requires Lazy(fat, bits, o, cs) && o.nFrag == 0 && o.stat != 3
    ensures Stored(fat, o, cs)
  {
    if o.stat == 0 && cs != [] {
      ViewIsChain(fat, cs);
    }
  }

  lemma ViewIsChain(fat: FatSeq, cs: seq<u32>)
    requires cs != [] && Linked(fat, cs, 0, |cs|) && forall i | 0 <= i < |cs| :: 2 <= cs[i] < |fat|
    ensures IsChain(View(fat), cs)
  {
    var v := View(fat);
    forall i: nat | i < |cs| ensures LinkAt(fat, cs, i) && v[cs[i]] == fat[cs[i]] % 0x8000_0000 {
    }
    assert LinkAt(fat, cs, |cs| - 1);
    assert forall i: nat | i < |cs| - 1 :: v[cs[i]] == cs[i + 1];
  }

  /** The allocation part of f_sync: fill_first_frag, then fill_last_frag with the tail. */
  method Sync(o: Obj, clust: u32) returns (res: FResult)
    requires o.Valid() && (o.nFrag > 0 ==> o.cs != [] && clust == o.cs[|o.cs| - 1])
    modifies o`stat, o`nFrag, o.v.fat
    ensures res == FR_OK && o.Valid() && Stored(o.v.fat[..], o.St(), o.cs)
    ensures o.St() == old(o.St()).(stat := if old(o.stat) == 3 then 0 else old(o.stat), nFrag := 0)
    ensures forall c | 0 <= c < o.v.fat.Length && c !in o.cs :: o.v.fat[c] == old(o.v.fat[c])
  {
    hide Lazy, Stored;
    res := FillFirstFrag(o);
    if res == FR_OK {
      res := Flush(o, clust);
    }
    SettledIsStored(o.v.fat[..], o.v.bitmap[..], o.St(), o.cs);
  }

  /** Size of an object of m clusters whose last one holds fill bytes. */
  function SizeFor(csize: nat, m: nat, fill: nat): nat {
    if m == 0 then 0 else SS * (csize * (m - 1)) + fill
  }

  lemma SizeForCovers(csize: nat, n: nat, m: nat, fill: nat)
    requires 0 < m <= n && 0 < fill <= csize * SS && csize * n < 0x1_0000_0000
    ensures SizeCovers(csize, SizeFor(csize, m, fill), m)
  {
    var x := fill - 1;
    assert x / SS < csize;
    MulLe(csize, 0, m - 1);
    DivMod(x, SS);
    ModUnique(SS * (csize * (m - 1)) + x, SS, csize * (m - 1) + x / SS, x % SS);
    ModUnique(csize * (m - 1) + x / SS, csize, m - 1, x / SS);
    MulStep(csize, m - 1);
    MulLe(csize, m, n);
  }

  /** A chain has no more clusters than the volume. */
  lemma ChainInVolume(fat: FatSeq, bits: seq<bool>, o: Ob, cs: seq<u32>)
    requires Lazy(fat, bits, o, cs)
    ensures |cs| <= |fat| - 2
  {
    var ds := seq(|cs|, i requires 0 <= i < |cs| => cs[i] - 2);
    assert Distinct(ds);
    assert forall c | c in ds :: c < |fat| - 2;
    DistinctLength(ds, |fat| - 2);
  }

  /** The object between the steps of a session: the position is at the tail, the size covers the chain. */
  ghost predicate InSession(o: Obj, clust: u32)
    reads o, o.v, o.v.fat, o.v.bitmap
  {
    && o.Valid() && o.v.csize * (o.v.fat.Length - 2) < 0x1_0000_0000
    && (o.cs != [] ==> clust == o.cs[|o.cs| - 1] && Covers(o.v.csize, o.St(), |o.cs|))
  }

  /** Clusters of other objects, as they were at first, keep their bits and FAT entries; the chain keeps off them, and no other
      cluster comes into use. */
  ghost predicate OthersKept(fat0: FatSeq, bits0: seq<bool>, cs0: seq<u32>, fat: FatSeq, bits: seq<bool>, cs: seq<u32>) {
    && |fat| == |fat0| && |bits| == |bits0| && |bits| + 2 == |fat|
    && (forall c: nat | 2 <= c < |fat| && bits0[c - 2] && c !in cs0 :: bits[c - 2] && fat[c] == fat0[c] && c !in cs)
    && forall c: nat | 2 <= c < |fat| && bits[c - 2] && c !in cs :: bits0[c - 2] && c !in cs0
  }

  /** The clusters that the object has or could get. */
  function Room(bits: seq<bool>, cs: seq<u32>): nat {
    CountClear(bits) + |cs|
  }

  predicate FreeBit(bits: seq<bool>, c: nat) {
    2 <= c < |bits| + 2 && !bits[c - 2]
  }

  ghost function ClearSet(bits: seq<bool>, k: nat): set<nat>
    requires k <= |bits|
  {
    set c: nat | c < k + 2 && FreeBit(bits, c)
  }

  lemma {:induction false} ClearSize(bits: seq<bool>, k: nat)
    requires k <= |bits|
    ensures |ClearSet(bits, k)| == ClearBelow(bits, k)
  {
    if k == 0 {
      assert ClearSet(bits, k) == {};
    } else {
      ClearSize(bits, k - 1);
      if bits[k - 1] {
        assert ClearSet(bits, k) == ClearSet(bits, k - 1);
      } else {
        assert ClearSet(bits, k) == ClearSet(bits, k - 1) + {k + 1};
      }
    }
  }

  lemma RoomSize(bits: seq<bool>, cs: seq<u32>)
    requires InUse(|bits| + 2, bits, cs)
    ensures |set c: nat | 2 <= c < |bits| + 2 && (FreeBit(bits, c) || c in cs)| == Room(bits, cs)
  {
    ClearSize(bits, |bits|);
    DistinctSize(cs);
    forall c | c in cs ensures 2 <= c < |bits| + 2 && bits[c - 2] {
      var i: nat :| i < |cs| && cs[i] == c;
    }
    assert (set c: nat | 2 <= c < |bits| + 2 && (FreeBit(bits, c) || c in cs)) == ClearSet(bits, |bits|) + Members(cs);
  }

  /** What the chain gains was free, and what it loses is free. */
  lemma RoomKept(fat0: FatSeq, bits0: seq<bool>, cs0: seq<u32>, fat: FatSeq, bits: seq<bool>, cs: seq<u32>)
    requires OthersKept(fat0, bits0, cs0, fat, bits, cs) && InUse(|fat0|, bits0, cs0) && InUse(|fat|, bits, cs)
    ensures Room(bits, cs) == Room(bits0, cs0)
  {
    RoomSize(bits0, cs0);
    RoomSize(bits, cs);
    assert (set c: nat | 2 <= c < |bits| + 2 && (FreeBit(bits, c) || c in cs)) == (set c: nat | 2 <= c < |bits0| + 2 && (FreeBit(bits0, c) || c in cs0));
  }

  /** One more cluster for data: create_chain at the tail, then what f_write does with its answer. */
  method Grow(o: Obj, clust0: u32, size: nat) returns (full: bool, clust: u32)
    requires InSession(o, clust0) && (|o.cs| + 1 <= o.v.fat.Length - 2 ==> SizeCovers(o.v.csize, size, |o.cs| + 1))
    modifies o, o.v, o.v.fat, o.v.bitmap
    ensures InSession(o, clust)
    ensures full ==> o.cs == old(o.cs) && o.St() == old(o.St()) && forall j | 0 <= j < o.v.bitmap.Length :: o.v.bitmap[j]
    ensures !full ==> o.cs == old(o.cs) + [clust] && o.objsize == size
    ensures OthersKept(old(o.v.fat[..]), old(o.v.bitmap[..]), old(o.cs), o.v.fat[..], o.v.bitmap[..], o.cs)
  {
    hide Lazy, SizeCovers;
    var v := o.v;
    ghost var fat, bits, st, cs := v.fat[..], v.bitmap[..], o.St(), o.cs;
    LazyFacts(fat, bits, st, cs);
    var clst := if o.sclust == 0 then 0 else clust0;
    if cs != [] { TailAsks(st, cs); }
    var r := CreateChain(o, clst, |o.cs| - 1);
    clust, full := clust0, r == 0;
    if r != 0 {
      TakenIsNew(fat, bits, st, cs, r);
      if o.sclust == 0 { o.sclust := r; }
      clust := r;
      ChainInVolume(v.fat[..], v.bitmap[..], o.St(), o.cs);
      SizeIsLazy(v.fat[..], v.bitmap[..], o.St(), o.cs, size);
      o.objsize := size;
    }
  }

  lemma TailAsks(o: Ob, cs: seq<u32>)
    requires cs != []
    ensures Asks(o, cs, |cs| - 1)
  {
  }

  lemma TakenIsNew(fat: FatSeq, bits: seq<bool>, o: Ob, cs: seq<u32>, r: u32)
    requires Lazy(fat, bits, o, cs) && 2 <= r < |fat| && !bits[r - 2]
    ensures r !in cs
  {
  }

  lemma SizeIsLazy(fat: FatSeq, bits: seq<bool>, o: Ob, cs: seq<u32>, size: nat)
    requires Lazy(fat, bits, o, cs)
    ensures Lazy(fat, bits, o.(objsize := size), cs)
  {
  }

  /** Cuts the chain to its first k clusters, as f_lseek and f_truncate do: pending links are written, remove_chain is
      called from the cluster after the last one kept, and the size follows. */
  method Cut(o: Obj, clust0: u32, clst: u32, pclst: u32, size: nat, ghost k: nat) returns (res: FResult)
    requires InSession(o, clust0) && k < |o.cs|
    requires clst == o.cs[k] && pclst == if k == 0 then 0 else o.cs[k - 1]
    requires k > 0 ==> SizeCovers(o.v.csize, size, k)
    modifies o, o.v, o.v.fat, o.v.bitmap
    ensures res == FR_OK && InSession(o, pclst) && o.cs == old(o.cs)[..k] && o.nFrag == 0 && o.objsize == size
    ensures o.v.bitmap.Length + 2 == o.v.fat.Length && forall j | 0 <= j < |old(o.cs)| :: 2 <= old(o.cs)[j] < o.v.fat.Length
    ensures o.v.bitmap[..] == Cleared(old(o.v.bitmap[..]), old(o.cs), k, |old(o.cs)|)
    ensures OthersKept(old(o.v.fat[..]), old(o.v.bitmap[..]), old(o.cs), o.v.fat[..], o.v.bitmap[..], o.cs)
  {
    hide Lazy, SizeCovers, Cleared;
    var v := o.v;
    ghost var fat, bits, st, cs := v.fat[..], v.bitmap[..], o.St(), o.cs;
    LazyFacts(fat, bits, st, cs);
    res := Flush(o, clust0);
    ghost var fat1 := v.fat[..];
    res := RemoveChain(o, clst, pclst, k);
    if clst == o.sclust { FirstOnly(fat, bits, st, cs, k); }
    if pclst == 0 { o.sclust := 0; }
    SizeIsLazy(v.fat[..], v.bitmap[..], o.St(), o.cs, size);
    o.objsize := size;
    OthersAfterCut(fat, bits, st, cs, k, v.fat[..]);
  }

  lemma FirstOnly(fat: FatSeq, bits: seq<bool>, o: Ob, cs: seq<u32>, k: nat)
    requires Lazy(fat, bits, o, cs) && k < |cs| && cs[k] == o.sclust
    ensures k == 0
  {
  }

  /** A cluster in use that the cut chain does not have is one in use that the chain did not have. */
  lemma OutsideCut(bits: seq<bool>, cs: seq<u32>, k: nat, c: nat)
    requires k <= |cs| && Distinct(cs) && (forall h | 0 <= h < |cs| :: 2 <= cs[h] < |bits| + 2) && 2 <= c < |bits| + 2
    ensures Cleared(bits, cs, k, |cs|)[c - 2] && c !in cs[..k] <==> bits[c - 2] && c !in cs
  {
    ClearedAt(bits, cs, k, |cs|, c - 2);
    hide Cleared;
    if c in cs {
      var h: nat :| h < |cs| && cs[h] == c;
      assert h < k ==> cs[..k][h] == c;
    }
  }

  lemma OthersAfterCut(fat: FatSeq, bits: seq<bool>, o: Ob, cs: seq<u32>, k: nat, fat2: FatSeq)
    requires Lazy(fat, bits, o, cs) && k < |cs| && |fat2| == |fat|
    requires forall c | 0 <= c < |fat| && c !in cs :: fat2[c] == fat[c]
    ensures forall j | 0 <= j < |cs| :: 2 <= cs[j] < |bits| + 2
    ensures OthersKept(fat, bits, cs, fat2, Cleared(bits, cs, k, |cs|), cs[..k])
  {
    hide Cleared, Shape;
    forall c: nat | 2 <= c < |fat| ensures Cleared(bits, cs, k, |cs|)[c - 2] && c !in cs[..k] <==> bits[c - 2] && c !in cs {
      OutsideCut(bits, cs, k, c);
    }
  }

  /** Follows the chain to its cluster number i; nothing is pending. */
  method WalkTo(o: Obj, i: nat) returns (c: u32)
    requires o.Valid() && o.nFrag == 0 && i < |o.cs| && Covers(o.v.csize, o.St(), |o.cs|)
    ensures c == o.cs[i]
  {
    hide Lazy, GetFat, Covers;
    var v := o.v;
    LazyFacts(v.fat[..], v.bitmap[..], o.St(), o.cs);
    CoversPositive(v.csize, o.St(), |o.cs|);
    c := o.sclust;
    for j := 0 to i
      invariant c == o.cs[j]
    {
      AnswerExact(v.fat[..], v.bitmap[..], v.csize, o.St(), o.cs, j);
      c := GetFat(v.fat[..], v.csize, Ob(o.sclust, o.objsize, o.stat, o.nCont, o.nFrag), c);
    }
  }

  /** What happens to an object in a session: it gets one more cluster, holding fill bytes; the pointer is moved (and
      comes back); it is cut to its first k clusters, the last of them holding fill bytes; it is synchronised. */
  datatype Op = Append(fill: nat) | Reposition | Truncate(k: nat, fill: nat) | Synchronise

  predicate Fills(csize: nat, op: Op) {
    (op.Append? || op.Truncate? ==> 0 < op.fill <= csize * SS)
  }

  /** What an operation does to the list of clusters, on a volume that has room for so many of them. */
  ghost predicate ListStep(room: nat, op: Op, a: seq<u32>, b: seq<u32>) {
    match op
    case Append(_) => if |a| == room then b == a else |b| == |a| + 1 <= room && a <= b && b[|a|] !in a
    case Truncate(k, _) => b == if k < |a| then a[..k] else a
    case _ => b == a
  }

  /** Truncation as an operation of a session: the pointer goes to the tail that is left, and the rest is cut. */
  method Shorten(o: Obj, clust0: u32, count0: nat, k: nat, fill: nat) returns (clust: u32, count: nat)
    requires InSession(o, clust0) && count0 == |o.cs| && 0 < fill <= o.v.csize * SS
    modifies o, o.v, o.v.fat, o.v.bitmap
    ensures InSession(o, clust) && count == |o.cs| && o.cs == if k < |old(o.cs)| then old(o.cs)[..k] else old(o.cs)
    ensures OthersKept(old(o.v.fat[..]), old(o.v.bitmap[..]), old(o.cs), o.v.fat[..], o.v.bitmap[..], o.cs)
  {
    hide Lazy, Cleared, SizeCovers, SizeFor;
    var v := o.v;
    ghost var fat, bits, st, cs := v.fat[..], v.bitmap[..], o.St(), o.cs;
    LazyFacts(fat, bits, st, cs);
    clust, count := clust0, count0;
    if k < count {
      ChainInVolume(fat, bits, st, cs);
      if k > 0 { SizeForCovers(v.csize, v.fat.Length - 2, k, fill); }
      var _ := Flush(o, clust0);
      var clst := WalkTo(o, k);
      var pclst: u32 := 0;
      if k > 0 { pclst := WalkTo(o, k - 1); }
      var _ := Cut(o, clust0, clst, pclst, SizeFor(v.csize, k, fill), k);
      clust, count := pclst, k;
    }
  }

  /** One operation of a session. */
  method Perform(o: Obj, clust0: u32, count0: nat, op: Op) returns (clust: u32, count: nat)
    requires InSession(o, clust0) && count0 == |o.cs| && Fills(o.v.csize, op)
    modifies o, o.v, o.v.fat, o.v.bitmap
    ensures InSession(o, clust) && count == |o.cs| && ListStep(old(Room(o.v.bitmap[..], o.cs)), op, old(o.cs), o.cs)
    ensures Room(o.v.bitmap[..], o.cs) == old(Room(o.v.bitmap[..], o.cs))
    ensures op == Synchronise ==> Stored(o.v.fat[..], o.St(), o.cs)
    ensures OthersKept(old(o.v.fat[..]), old(o.v.bitmap[..]), old(o.cs), o.v.fat[..], o.v.bitmap[..], o.cs)
  {
    hide Lazy, Cleared, SizeCovers, Stored, SizeFor, CountClear;
    var v := o.v;
    ghost var fat, bits, st, cs := v.fat[..], v.bitmap[..], o.St(), o.cs;
    LazyFacts(fat, bits, st, cs);
    clust, count := clust0, count0;
    match op {
      case Append(fill) =>
        if count + 1 <= v.fat.Length - 2 { SizeForCovers(v.csize, v.fat.Length - 2, count + 1, fill); }
        var stop;
        stop, clust := Grow(o, clust0, SizeFor(v.csize, count + 1, fill));
        FullBitmap(v.bitmap[..]);
        if !stop {
          count := count + 1;
          GrownDistinct(v.fat[..], v.bitmap[..], o.St(), cs, clust);
        }
      case Reposition =>
        var _ := Flush(o, clust0);
      case Truncate(k, fill) =>
        clust, count := Shorten(o, clust0, count0, k, fill);
      case Synchronise =>
        var _ := Sync(o, clust0);
    }
    RoomSame(fat, bits, st, cs, v.fat[..], v.bitmap[..], o.St(), o.cs);
  }

  lemma RoomSame(fat0: FatSeq, bits0: seq<bool>, o0: Ob, cs0: seq<u32>, fat: FatSeq, bits: seq<bool>, o: Ob, cs: seq<u32>)
    requires OthersKept(fat0, bits0, cs0, fat, bits, cs) && Lazy(fat0, bits0, o0, cs0) && Lazy(fat, bits, o, cs)
    ensures Room(bits, cs) == Room(bits0, cs0)
  {
    hide OthersKept, Shape, Room;
    RoomKept(fat0, bits0, cs0, fat, bits, cs);
  }

  lemma GrownDistinct(fat: FatSeq, bits: seq<bool>, o: Ob, cs: seq<u32>, r: u32)
    requires Lazy(fat, bits, o, cs + [r])
    ensures r !in cs
  {
    var ds := cs + [r];
    forall i | 0 <= i < |cs| ensures cs[i] != r {
      assert ds[i] == cs[i] && ds[|cs|] == r;
    }
  }

  lemma OthersTrans(f0: FatSeq, b0: seq<bool>, c0: seq<u32>, f1: FatSeq, b1: seq<bool>, c1: seq<u32>, f2: FatSeq, b2: seq<bool>, c2: seq<u32>)
    requires OthersKept(f0, b0, c0, f1, b1, c1) && OthersKept(f1, b1, c1, f2, b2, c2)
    ensures OthersKept(f0, b0, c0, f2, b2, c2)
  {
  }

  /** A run of operations on the list of clusters, on a volume with room for so many. */
  ghost predicate ListRun(room: nat, ops: seq<Op>, lists: seq<seq<u32>>) {
    |lists| == |ops| + 1 && forall i | 0 <= i < |ops| :: ListStep(room, ops[i], lists[i], lists[i + 1])
  }

  /** Lazy chains refine plain lists of clusters: after any run of operations, and a final synchronisation, the stored
      allocation is exactly the list that the run built, which an append makes longer as long as there is room; and no other
      object was touched. */
  method Session(o: Obj, clust0: u32, count0: nat, ops: seq<Op>) returns (ghost lists: seq<seq<u32>>)
    requires InSession(o, clust0) && count0 == |o.cs| && forall op | op in ops :: Fills(o.v.csize, op)
    modifies o, o.v, o.v.fat, o.v.bitmap
    ensures o.Valid() && ListRun(old(Room(o.v.bitmap[..], o.cs)), ops, lists) && lists[0] == old(o.cs) && lists[|ops|] == o.cs
    ensures Stored(o.v.fat[..], o.St(), o.cs)
    ensures OthersKept(old(o.v.fat[..]), old(o.v.bitmap[..]), old(o.cs), o.v.fat[..], o.v.bitmap[..], o.cs)
  {
    hide Lazy, SizeCovers, Stored, ListStep, OthersKept, Room;
    ghost var fat0, bits0, cs0 := o.v.fat[..], o.v.bitmap[..], o.cs;
    ghost var room := Room(bits0, cs0);
    var clust, count := clust0, count0;
    lists := [cs0];
    OthersRefl(fat0, bits0, o.St(), cs0);
    for k := 0 to |ops|
      invariant InSession(o, clust) && count == |o.cs| && ListRun(room, ops[..k], lists)
      invariant lists[0] == cs0 && lists[k] == o.cs && Room(o.v.bitmap[..], o.cs) == room
      invariant OthersKept(fat0, bits0, cs0, o.v.fat[..], o.v.bitmap[..], o.cs)
    {
      ghost var fat1, bits1, cs1 := o.v.fat[..], o.v.bitmap[..], o.cs;
      clust, count := Perform(o, clust, count, ops[k]);
      OthersTrans(fat0, bits0, cs0, fat1, bits1, cs1, o.v.fat[..], o.v.bitmap[..], o.cs);
      lists := lists + [o.cs];
      assert ops[..k + 1] == ops[..k] + [ops[k]];
    }
    assert ops[..|ops|] == ops;
    ghost var fat1, bits1, cs1 := o.v.fat[..], o.v.bitmap[..], o.cs;
    clust, count := Perform(o, clust, count, Synchronise);
    SyncList(room, cs1, o.cs);
    OthersTrans(fat0, bits0, cs0, fat1, bits1, cs1, o.v.fat[..], o.v.bitmap[..], o.cs);
  }

  lemma OthersRefl(fat: FatSeq, bits: seq<bool>, o: Ob, cs: seq<u32>)
    requires Lazy(fat, bits, o, cs)
    ensures OthersKept(fat, bits, cs, fat, bits, cs)
  {
  }

  lemma SyncList(room: nat, a: seq<u32>, b: seq<u32>)
    requires ListStep(room, Synchronise, a, b)
    ensures a == b
  {
  }
}
