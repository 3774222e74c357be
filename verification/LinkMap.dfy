/** The cluster link map table of fast seek: built by f_lseek(CREATE_LINKMAP), read by clmt_clust. */
module LinkMap {
  import opened Alloc
  import opened Bytes
  import opened Chains
  import opened FatTable
  import opened Window

  /** A run of consecutive clusters. */
  datatype Fragment = Fragment(len: u32, top: u32)

  function Run(f: Fragment): (r: seq<int>)
    ensures |r| == f.len
  {
    seq(f.len, i => f.top + i)
  }

  /** The clusters of some fragments, in order. */
  function Expand(frs: seq<Fragment>): seq<int> {
    if frs == [] then [] else Expand(frs[..|frs| - 1]) + Run(frs[|frs| - 1])
  }

  /** The table: its fragments as pairs from index 1 on, closed by a zero. */
  ghost predicate Holds(tbl: seq<u32>, frs: seq<Fragment>) {
    && 2 * |frs| + 1 < |tbl| && tbl[2 * |frs| + 1] == 0
    && forall j | 0 <= j < |frs| :: frs[j].len > 0 && tbl[2 * j + 1] == frs[j].len && tbl[2 * j + 2] == frs[j].top
  }

  lemma {:induction false} ExpandSplit(frs: seq<Fragment>, j: nat)
    requires j <= |frs|
    ensures Expand(frs[..j]) <= Expand(frs)
    decreases |frs|
  {
    if j < |frs| {
      ExpandSplit(frs[..|frs| - 1], j);
      assert frs[..|frs| - 1][..j] == frs[..j];
    } else {
      assert frs[..j] == frs;
    }
  }

  /** Cluster number k of the fragments, 0 if there is none. */
  function Lookup(frs: seq<Fragment>, k: nat): int {
    if k < |Expand(frs)| then Expand(frs)[k] else 0
  }

  /** clmt_clust: the cluster of the given order in the file, 0 beyond the end of the table. */
  method ClmtClust(tbl: array<u32>, ofs: nat, csize: nat, ghost frs: seq<Fragment>) returns (r: u32)
    requires Holds(tbl[..], frs) && csize > 0
    requires forall c | c in Expand(frs) :: 0 <= c < ALL_ONES
    ensures ofs / SS / csize >= 0 && r == Lookup(frs, ofs / SS / csize)
  {
    var cl := ofs / SS / csize;
    ghost var k, j := cl, 0;
    QuotNat(ofs / SS, csize);
    var p := 1;
    while true
      invariant 0 <= j <= |frs| && p == 2 * j + 1 && 0 <= cl
      invariant k == cl + |Expand(frs[..j])|
      decreases |frs| - j
    {
      ExpandSplit(frs, j);
      HoldsAt(tbl[..], frs, j);
      var ncl := tbl[p];
      p := p + 1;
      if ncl == 0 {
        assert frs[..j] == frs;
        return 0;
      }
      assert frs[..j + 1][..j] == frs[..j] && Expand(frs[..j + 1]) == Expand(frs[..j]) + Run(frs[j]);
      ExpandSplit(frs, j + 1);
      if cl < ncl {
        assert Expand(frs)[k] == Expand(frs[..j + 1])[k] == Run(frs[j])[cl];
        break;
      }
      cl := cl - ncl;
      p := p + 1;
      j := j + 1;
    }
    assert Expand(frs)[k] in Expand(frs);
    r := cl + tbl[p];
  }

  lemma HoldsAt(tbl: seq<u32>, frs: seq<Fragment>, j: nat)
    requires Holds(tbl, frs) && j <= |frs|
    ensures 2 * j + 1 < |tbl|
    ensures if j < |frs| then 2 * j + 2 < |tbl| && 0 < frs[j].len == tbl[2 * j + 1] && tbl[2 * j + 2] == frs[j].top
            else tbl[2 * j + 1] == 0
  {
  }

  lemma QuotNat(x: nat, k: nat)
    requires k > 0
    ensures x / k >= 0
  {
  }

  /** Places in a chain where the next cluster is not the next number. */
  function Breaks(cs: seq<int>): nat {
    if |cs| <= 1 then 0 else Breaks(cs[..|cs| - 1]) + if cs[|cs| - 1] == cs[|cs| - 2] + 1 then 0 else 1
  }

  /** Items of the smallest table for a chain: the size, two for each fragment, the zero. */
  function Needed(cs: seq<int>): nat {
    if cs == [] then 2 else 4 + 2 * Breaks(cs)
  }

  lemma {:induction false} BreaksJoin(a: seq<int>, f: Fragment)
    requires f.len > 0
    ensures Breaks(a + Run(f)) == Breaks(a) + if a == [] || f.top == a[|a| - 1] + 1 then 0 else 1
    decreases f.len
  {
    var s := a + Run(f);
    if f.len == 1 {
      assert s[..|s| - 1] == a;
    } else {
      var f1 := Fragment(f.len - 1, f.top);
      assert s[..|s| - 1] == a + Run(f1);
      BreaksJoin(a, f1);
    }
  }

  /** No table with fewer fragments holds the chain. */
  lemma {:induction false} FewestFragments(frs: seq<Fragment>)
    requires forall j | 0 <= j < |frs| :: frs[j].len > 0
    ensures Needed(Expand(frs)) <= 2 + 2 * |frs|
  {
    if frs != [] {
      var init := frs[..|frs| - 1];
      FewestFragments(init);
      BreaksJoin(Expand(init), frs[|frs| - 1]);
    }
  }

  /** Clusters a, a+1, ... b-1 of the chain are top, top+1, ... */
  ghost predicate IsRun(cs: seq<int>, a: nat, b: nat, top: int)
    requires b <= |cs|
  {
    forall k | a <= k < b :: cs[k] == top + (k - a)
  }

  ghost predicate BreakAt(cs: seq<int>, i: int)
    requires 0 < i < |cs|
  {
    cs[i] != cs[i - 1] + 1
  }

  /** What the builder has done after i clusters. */
  ghost predicate Built(tbl: seq<u32>, tlen: nat, p: nat, frs: seq<Fragment>, done: seq<u32>) {
    && Expand(frs) == done && 2 + 2 * |frs| == Needed(done) && p <= tlen + 1
    && (forall j | 0 <= j < |frs| :: frs[j].len > 0)
    && (2 + 2 * |frs| <= tlen || frs == [] ==> p == 2 * |frs| + 1)
    && tlen <= |tbl|
    && (2 + 2 * |frs| <= tlen ==> forall j | 0 <= j < |frs| :: tbl[2 * j + 1] == frs[j].len && tbl[2 * j + 2] == frs[j].top)
  }

  /** One more fragment in the table, or one more that no longer fits. */
  lemma BuildStep(tbl: seq<u32>, tbl2: seq<u32>, tlen: nat, p: nat, p2: nat, frs: seq<Fragment>, done: seq<u32>, f: Fragment, done2: seq<u32>)
    requires Built(tbl, tlen, p, frs, done) && f.len > 0 && |tbl2| == |tbl| >= tlen
    requires done2 == done + Run(f) && (done != [] ==> BreakAt(done2, |done|))
    requires if 4 + 2 * |frs| <= tlen then p2 == p + 2 && tbl2 == tbl[p := f.len][p + 1 := f.top] else p2 == p && tbl2 == tbl
    ensures Built(tbl2, tlen, p2, frs + [f], done2)
  {
    BreaksJoin(done, f);
    assert (frs + [f])[..|frs|] == frs;
    assert done == [] <==> frs == [] by {
      if frs != [] { assert |Run(frs[|frs| - 1])| > 0; }
    }
  }

  /** The mark at the end of the chain is not the number after its last cluster (which could only be one past all clusters). */
  ghost predicate EndsWell(fat: FatSeq, chain: seq<u32>)
    requires IsChain(fat, chain)
  {
    fat[chain[|chain| - 1]] != chain[|chain| - 1] + 1
  }

  /** The last cluster of a volume of one cluster, with 3 as its end mark: a chain, but its table cannot be built. */
  lemma MarkLooksConsecutive()
    ensures var fat: FatSeq := [0xFFF8, 0xFFFF, 3]; IsChain(fat, [2]) && !EndsWell(fat, [2])
  {
    var fat: FatSeq := [0xFFF8, 0xFFFF, 3];
    assert IsCl(fat, 2) && fat[2] == 3;
  }

  /** f_lseek(CREATE_LINKMAP): the table gets the chain's maximal runs, if it is big enough; its first item becomes
      the size that is needed in any case, and nothing beyond the given size is written. It fails exactly for a chain whose
      end mark looks like one more consecutive cluster. */
  method CreateLinkmap(fs: FatFs, sclust: u32, tbl: array<u32>, ghost chain: seq<u32>) returns (res: FResult, ghost frs: seq<Fragment>)
    requires fs.Mounted() && tbl.Length > 0 && tbl[0] <= tbl.Length
    requires chain == [] <==> sclust == 0
    requires chain != [] ==> IsChain(Table(fs), chain) && chain[0] == sclust
    modifies tbl, fs`wflag, fs`winsect, fs.drive, fs.win
    ensures fs.Mounted() && Table(fs) == old(Table(fs)) && FatOnly(fs.geo, old(Snap(fs)), Snap(fs))
    ensures res == FR_INT_ERR <==> chain != [] && !EndsWell(Table(fs), chain)
    ensures res != FR_INT_ERR ==> Expand(frs) == chain && tbl[0] == Needed(chain)
    ensures res != FR_INT_ERR ==> res == if tbl[0] <= old(tbl[0]) then FR_OK else FR_NOT_ENOUGH_CORE
    ensures res == FR_INT_ERR ==> tbl[0] == old(tbl[0])
    ensures res == FR_OK ==> Holds(tbl[..], frs)
    ensures forall i | 0 < i < tbl.Length && old(tbl[0]) <= i :: tbl[i] == old(tbl[i])
  {
    hide FatFs.Mounted, Fat, FatOnly, Snap, FatFs.Map, Table, Expand, Needed, Run, Built, IsRun, IsChain, Holds, EndsWell, BreakAt;
    MountedFacts(fs);
    SnapRefl(fs);
    EmptyMap();
    ghost var s0, fat := Snap(fs), Table(fs);
    if chain != [] { ChainShort(fat, chain); }
    BuiltNone(tbl[..], tbl[0]);
    var p := 1;
    var tlen := tbl[0];
    var ulen := 2;
    var cl := sclust;
    frs := [];
    ghost var i := 0;
    res := FR_OK;
    if cl != 0 {
      while true
        invariant fs.Mounted() && Table(fs) == fat && FatOnly(fs.geo, s0, Snap(fs)) && res == FR_OK
        invariant 0 <= i < |chain| && cl == chain[i] && IsChain(fat, chain)
        invariant tbl[0] == tlen && ulen == 2 + 2 * |frs| && |frs| <= i && p >= 1
        invariant Built(tbl[..], tlen, p, frs, chain[..i])
        invariant i > 0 ==> BreakAt(chain, i)
        invariant forall k | 0 < k < tbl.Length && tlen <= k :: tbl[k] == old(tbl[k])
        decreases |chain| - i
      {
        ghost var s1, i0 := Snap(fs), i;
        var ncl, tcl := 0, cl;
        ulen := ulen + 2;
        BuiltRoom(tbl[..], tlen, p, frs, chain[..i]);
        res, cl, ncl, i := FollowRun(fs, cl, chain, i);
        FatOnlyTrans(fs.geo, s0, s1, Snap(fs));
        if res != FR_OK { return; }
        ghost var before, p0, f := tbl[..], p, Fragment(ncl, tcl);
        if ulen <= tlen {
          tbl[p] := ncl;
          tbl[p + 1] := tcl;
          p := p + 2;
        }
        RunIs(chain, i0, f);
        BuildStep(before, tbl[..], tlen, p0, p, frs, chain[..i0], f, chain[..i]);
        frs := frs + [f];
        if cl >= fs.geo.nFatent { break; }
      }
      assert chain[..i] == chain;
    }
    ghost var b := tbl[..];
    BuiltSize(b, tlen, p, frs, chain);
    tbl[0] := ulen;
    if ulen <= tlen {
      tbl[p] := 0;
      BuiltHolds(b, tbl[..], tlen, p, frs, chain, ulen);
    } else {
      res := FR_NOT_ENOUGH_CORE;
    }
  }

  lemma EmptyMap()
    ensures Expand([]) == [] && Needed([]) == 2
  {
  }

  lemma ChainShort(fat: FatSeq, chain: seq<u32>)
    requires IsChain(fat, chain)
    ensures |chain| <= |fat|
  {
    ChainDistinct(fat, chain);
    DistinctLength(chain, |fat|);
  }

  lemma BuiltNone(tbl: seq<u32>, tlen: nat)
    requires tlen <= |tbl|
    ensures Built(tbl, tlen, 1, [], [])
  {
  }

  lemma BuiltRoom(tbl: seq<u32>, tlen: nat, p: nat, frs: seq<Fragment>, done: seq<u32>)
    requires Built(tbl, tlen, p, frs, done)
    ensures 4 + 2 * |frs| <= tlen ==> p == 2 * |frs| + 1 && p + 1 < tlen <= |tbl|
    ensures tlen <= |tbl|
  {
  }

  lemma BuiltSize(tbl: seq<u32>, tlen: nat, p: nat, frs: seq<Fragment>, done: seq<u32>)
    requires Built(tbl, tlen, p, frs, done)
    ensures Expand(frs) == done && Needed(done) == 2 + 2 * |frs|
    ensures 2 + 2 * |frs| <= tlen ==> p == 2 * |frs| + 1 < |tbl|
  {
  }

  lemma BuiltHolds(b: seq<u32>, tbl: seq<u32>, tlen: nat, p: nat, frs: seq<Fragment>, done: seq<u32>, ulen: u32)
    requires Built(b, tlen, p, frs, done) && ulen == 2 + 2 * |frs| <= tlen
    requires 0 < p < |b| && tbl == b[0 := ulen][p := 0]
    ensures Holds(tbl, frs)
  {
    hide Expand, Needed;
  }

  /** A run of consecutive clusters in the chain is the run of its fragment. */
  lemma RunIs(chain: seq<int>, i: nat, f: Fragment)
    requires i + f.len <= |chain| && IsRun(chain, i, i + f.len, f.top)
    ensures chain[..i + f.len] == chain[..i] + Run(f)
    ensures 0 < i < |chain| && f.len > 0 && BreakAt(chain, i) ==> BreakAt(chain[..i + f.len], i)
  {
    forall k | i <= k < i + f.len ensures chain[k] == (chain[..i] + Run(f))[k] {
      assert Run(f)[k - i] == f.top + (k - i);
    }
  }

  /** The inner loop: from cluster number i of the chain to the end of its run. */
  method FollowRun(fs: FatFs, clst: u32, ghost chain: seq<u32>, ghost i0: nat) returns (res: FResult, cl: u32, ncl: u32, ghost i: nat)
    requires fs.Mounted() && IsChain(Table(fs), chain) && i0 < |chain| <= fs.geo.nFatent && clst == chain[i0]
    modifies fs`wflag, fs`winsect, fs.drive, fs.win
    ensures fs.Mounted() && Table(fs) == old(Table(fs)) && FatOnly(fs.geo, old(Snap(fs)), Snap(fs))
    ensures res == FR_OK || (res == FR_INT_ERR && !EndsWell(Table(fs), chain))
    ensures res == FR_OK ==> ncl > 0 && i == i0 + ncl <= |chain| && IsRun(chain, i0, i, clst)
    ensures res == FR_OK && i < |chain| ==> cl == chain[i] && cl < fs.geo.nFatent && BreakAt(chain, i)
    ensures res == FR_OK && i >= |chain| ==> cl >= fs.geo.nFatent && EndsWell(Table(fs), chain)
  {
    hide FatFs.Mounted, Fat, FatOnly, Snap, FatFs.Map, Table;
    MountedFacts(fs);
    SnapRefl(fs);
    ghost var s0, fat := Snap(fs), Table(fs);
    i := i0;
    res, cl, ncl := FR_OK, clst, 0;
    while true
      invariant fs.Mounted() && Table(fs) == fat && FatOnly(fs.geo, s0, Snap(fs)) && res == FR_OK
      invariant i == i0 + ncl <= |chain|
      invariant if i < |chain| then cl == chain[i] && IsRun(chain, i0, i + 1, clst) else cl == fs.geo.nFatent && !EndsWell(fat, chain)
      decreases |chain| + 1 - i
    {
      ghost var s1 := Snap(fs);
      if i < |chain| { LinkOf(fat, chain, i); }
      var pcl := cl;
      ncl := ncl + 1;
      cl := GetFat(fs, cl);
      FatOnlyTrans(fs.geo, s0, s1, Snap(fs));
      if cl <= 1 {
        return FR_INT_ERR, cl, ncl, i;
      }
      i := i + 1;
      if cl != pcl + 1 { break; }
    }
  }

  /** The cluster reached by reading the FAT k times from cluster c. */
  ghost function Follow(fat: FatSeq, c: u32, k: nat): u32
    decreases k
  {
    if k == 0 || !IsCl(fat, c) then c else Follow(fat, fat[c], k - 1)
  }

  lemma {:induction false} FollowChain(fat: FatSeq, chain: seq<u32>, i: nat, k: nat)
    requires IsChain(fat, chain) && i + k < |chain|
    ensures Follow(fat, chain[i], k) == chain[i + k]
    decreases k
  {
    LinkOf(fat, chain, i);
    if k > 0 {
      FollowChain(fat, chain, i + 1, k - 1);
    }
  }

  /** Fast seek refines the chain walk: looking cluster number k up in the table that was built for a chain gives the
      cluster that k reads of the FAT lead to, and 0 from the end of the chain on. */
  lemma LookupIsWalk(fat: FatSeq, chain: seq<u32>, tbl: seq<u32>, frs: seq<Fragment>, k: nat)
    requires IsChain(fat, chain) && Holds(tbl, frs) && Expand(frs) == chain
    ensures k < |chain| ==> Lookup(frs, k) == Follow(fat, chain[0], k) && IsCl(fat, Lookup(frs, k))
    ensures k >= |chain| ==> Lookup(frs, k) == 0
  {
    if k < |chain| {
      FollowChain(fat, chain, 0, k);
    }
  }
}
