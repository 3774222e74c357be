/** The cluster allocator: create_chain, remove_chain and the free count (f_getfree). */
module Alloc {
  import opened Bytes
  import opened Chains
  import opened FatTable
  import opened VolumeGeometry
  import opened Window

  /** The cached free count is exact, or marked unknown. */
  ghost predicate FreeExact(fs: FatFs)
    requires fs.Mounted()
    reads fs`freeClst, fs`winsect, fs`wflag, fs.drive, fs.win
  {
    fs.freeClst <= fs.geo.nFatent - 2 ==> fs.freeClst == CountFree(Table(fs))
  }

  /** The end mark of this volume, as 0xFFFFFFFF is stored. */
  function Eoc(g: Geometry): u32 {
    EocMark(g.fsType)
  }

  lemma MountedFacts(fs: FatFs)
    requires fs.Mounted()
    ensures 3 <= fs.geo.nFatent <= Eoc(fs.geo) && Eoc(fs.geo) == Masked(fs.geo.fsType, ALL_ONES)
    ensures fs.geo.nFatent < ALL_ONES
  {
  }

  lemma SnapRefl(fs: FatFs)
    requires fs.Mounted()
    ensures FatOnly(fs.geo, Snap(fs), Snap(fs))
  {
  }

  /** r is the first free cluster on the way round from behind scl. */
  ghost predicate FirstFree(fat: FatSeq, scl: nat, r: nat) {
    IsCl(fat, r) && fat[r] == 0 && forall c | 2 <= c < |fat| && (if r > scl then scl < c < r else scl < c || c < r) :: fat[c] != 0
  }

  /** The circular search of create_chain from scl. It finds the first free cluster on its way if there is one, for every
      start; it gives up with 1 only on meeting an entry of value 1. */
  method SearchFree(fs: FatFs, scl: u32) returns (r: u32)
    requires fs.Mounted() && 1 <= scl < fs.geo.nFatent
    modifies fs`wflag, fs`winsect, fs.drive, fs.win
    ensures fs.Mounted() && FatOnly(fs.geo, old(Snap(fs)), Snap(fs)) && Table(fs) == old(Table(fs))
    ensures r == 0 ==> NoFree(Table(fs))
    ensures r == 1 ==> 1 in Table(fs)
    ensures r > 1 ==> FirstFree(Table(fs), scl, r)
  {
    hide FatFs.Mounted, Fat, FatOnly, Snap, FatFs.Map, Table;
    MountedFacts(fs);
    SnapRefl(fs);
    ghost var s0, fat := Snap(fs), Table(fs);
    var n := fs.geo.nFatent;
    var ncl := scl;
    ghost var wrapped := false;
    while true
      invariant fs.Mounted() && Table(fs) == fat && FatOnly(fs.geo, s0, Snap(fs))
      invariant if wrapped then 2 <= ncl < scl else scl <= ncl < n
      invariant forall c | 2 <= c < n && (if wrapped then scl < c || c <= ncl else scl < c <= ncl) :: fat[c] != 0
      decreases !wrapped, if wrapped then scl - ncl else n - ncl
    {
      ncl := ncl + 1;
      if ncl >= n {
        ncl := 2;
        wrapped := true;
        if ncl > scl {
          return 0;
        }
      }
      ghost var s1 := Snap(fs);
      var cs := GetFat(fs, ncl);
      FatOnlyTrans(fs.geo, s0, s1, Snap(fs));
      if cs == 0 {
        return ncl;
      }
      if cs == 1 || cs == ALL_ONES {
        assert cs == 1 ==> fat[ncl] == 1;
        return cs;
      }
      if ncl == scl {
        return 0;
      }
    }
  }

  /** Which cluster create_chain takes: the one after clst when stretching, if it is free, else the first free one on the way
      round from the cluster allocated last, if that is known. */
  ghost predicate Choice(fat: FatSeq, last: nat, clst: nat, r: nat) {
    var next := if clst + 1 >= |fat| then 2 else clst + 1;
    if clst != 0 && next < |fat| && fat[next] == 0 then r == next
    else if clst == 0 then FirstFree(fat, if last == 0 || last >= |fat| then 1 else last, r)
    else FirstFree(fat, if 2 <= last < |fat| then last else clst, r)
  }

  /** The choice of a cluster by create_chain: the one after clst when stretching, if it is free,
      else the result of the circular search from a hint. */
  method PickCluster(fs: FatFs, clst: u32, hint: u32) returns (ncl: u32)
    requires fs.Mounted() && 1 <= hint < fs.geo.nFatent && (clst != 0 ==> hint == clst)
    modifies fs`wflag, fs`winsect, fs.drive, fs.win
    ensures fs.Mounted() && FatOnly(fs.geo, old(Snap(fs)), Snap(fs)) && Table(fs) == old(Table(fs))
    ensures ncl == 0 ==> NoFree(Table(fs))
    ensures ncl == 1 ==> 1 in Table(fs)
    ensures ncl > 1 ==> IsCl(Table(fs), ncl) && Table(fs)[ncl] == 0
    ensures clst == 0 && ncl > 1 ==> FirstFree(Table(fs), hint, ncl)
    ensures clst != 0 && ncl > 1 ==> Choice(Table(fs), fs.lastClst, clst, ncl)
  {
    hide FatFs.Mounted, Fat, FatOnly, Snap, FatFs.Map, Table;
    MountedFacts(fs);
    ghost var s0, fat := Snap(fs), Table(fs);
    SnapRefl(fs);
    var n := fs.geo.nFatent;
    var scl := hint;
    ncl := 0;
    if scl == clst {
      ncl := scl + 1;
      if ncl >= n { ncl := 2; }
      var cs := GetFat(fs, ncl);
      if cs == 1 || cs == ALL_ONES {
        assert fat[ncl] == 1;
        return cs;
      }
      if cs != 0 {
        cs := fs.lastClst;
        if cs >= 2 && cs < n { scl := cs; }
        ncl := 0;
      }
    }
    if ncl == 0 {
      ghost var s1 := Snap(fs);
      ncl := SearchFree(fs, scl);
      FatOnlyTrans(fs.geo, s0, s1, Snap(fs));
    }
  }

  /** Marks the chosen cluster as an end and links it behind clst, if there is one. */
  method LinkCluster(fs: FatFs, clst: u32, ncl: u32) returns (res: FResult)
    requires fs.Mounted() && IsCl(Table(fs), ncl) && Table(fs)[ncl] == 0
    requires clst != 0 ==> IsCl(Table(fs), clst) && Table(fs)[clst] != 0
    modifies fs`wflag, fs`winsect, fs.drive, fs.win
    ensures res == FR_OK && fs.Mounted() && FatOnly(fs.geo, old(Snap(fs)), Snap(fs))
    ensures Table(fs) == if clst == 0 then Created(old(Table(fs)), ncl, Eoc(fs.geo))
                         else Appended(old(Table(fs)), clst, ncl, Eoc(fs.geo))
    ensures CountFree(Table(fs)) == old(CountFree(Table(fs))) - 1
  {
    hide FatFs.Mounted, Fat, FatOnly, Snap, FatFs.Map, Table;
    MountedFacts(fs);
    ghost var s0, fat := Snap(fs), Table(fs);
    CountFreeUpdate(fat, ncl, Eoc(fs.geo));
    res := PutFat(fs, ncl, ALL_ONES);
    if res == FR_OK && clst != 0 {
      ghost var s1, fat1 := Snap(fs), Table(fs);
      CountFreeUpdate(fat1, clst, ncl);
      res := PutFat(fs, clst, ncl);
      FatOnlyTrans(fs.geo, s0, s1, Snap(fs));
    }
  }

  /** What create_chain(clst) may answer with r, and what the FAT is afterwards. */
  ghost predicate CreateSpec(fat: FatSeq, fat2: FatSeq, clst: u32, r: u32, eoc: u32) {
    if clst != 0 && (!IsCl(fat, clst) || fat[clst] < 2) then r == 1 && fat2 == fat
    else if clst != 0 && fat[clst] < |fat| then r == fat[clst] && fat2 == fat
    else if r == 0 then NoFree(fat) && fat2 == fat
    else if r == 1 then 1 in fat && fat2 == fat
    else IsCl(fat, r) && fat[r] == 0 && fat2 == if clst == 0 then Created(fat, r, eoc) else Appended(fat, clst, r, eoc)
  }

  /** create_chain. With a cluster that already has a successor the successor is returned; a cluster that
      heads no chain is refused with 1; otherwise a free cluster is taken, marked as an end and linked
      behind clst (if any). The result is 0 exactly when there is no free cluster, unless the search met an
      entry of value 1, which no well-formed FAT has. */
  method CreateChain(fs: FatFs, clst: u32) returns (r: u32)
    requires fs.Mounted() && FreeExact(fs)
    modifies fs, fs.drive, fs.win
    ensures fs.Mounted() && FreeExact(fs) && FatOnly(fs.geo, old(Snap(fs)), Snap(fs))
    ensures CreateSpec(old(Table(fs)), Table(fs), clst, r, Eoc(fs.geo))
    ensures r != ALL_ONES && (Table(fs) != old(Table(fs)) ==> Choice(old(Table(fs)), old(fs.lastClst), clst, r))
    ensures fs.lastClst == if Table(fs) == old(Table(fs)) then old(fs.lastClst) else r
  {
    hide FatFs.Mounted, Fat, FatOnly, Snap, FatFs.Map, Table;
    MountedFacts(fs);
    SnapRefl(fs);
    CountFreeZero(Table(fs));
    ghost var s0, fat := Snap(fs), Table(fs);
    var n := fs.geo.nFatent;
    var scl: u32;
    if clst == 0 {
      scl := fs.lastClst;
      if scl == 0 || scl >= n { scl := 1; }
    } else {
      var cs := GetFat(fs, clst);
      if cs < 2 { return 1; }
      if cs == ALL_ONES { return cs; }
      if cs < n { return cs; }
      scl := clst;
    }
    if fs.freeClst == 0 {
      return 0;
    }
    ghost var s1 := Snap(fs);
    r := PickCluster(fs, clst, scl);
    FatOnlyTrans(fs.geo, s0, s1, Snap(fs));
    if r <= 1 { return; }
    ghost var s2 := Snap(fs);
    var res := LinkCluster(fs, clst, r);
    FatOnlyTrans(fs.geo, s0, s2, Snap(fs));
    assert res == FR_OK && Table(fs)[r] != 0;
    fs.lastClst := r;
    if fs.freeClst > 0 && fs.freeClst <= n - 2 {
      fs.freeClst := fs.freeClst - 1;
    }
  }

  /** remove_chain, on any FAT. A bad first or previous cluster is refused; otherwise the previous cluster
      (if any) is marked as an end and the walk from clst frees what it meets. Every round of the loop turns a
      used entry into a free one, so it ends on cyclic and cross-linked chains too. */
  method RemoveChain(fs: FatFs, clst: u32, pclst: u32) returns (res: FResult)
    requires fs.Mounted()
    modifies fs`wflag, fs`winsect, fs`freeClst, fs.drive, fs.win
    ensures fs.Mounted() && FatOnly(fs.geo, old(Snap(fs)), Snap(fs))
    ensures RemoveSpec(old(Table(fs)), Table(fs), clst, pclst, res, Eoc(fs.geo))
    ensures old(FreeExact(fs)) && (IsCl(Table(fs), pclst) ==> old(Table(fs))[pclst] != 0) ==> FreeExact(fs)
    ensures old(fs.freeClst) >= fs.geo.nFatent - 2 ==> fs.freeClst == old(fs.freeClst)
  {
    hide FatFs.Mounted, Fat, FatOnly, Snap, FatFs.Map, Table;
    MountedFacts(fs);
    SnapRefl(fs);
    ghost var s0, fat0 := Snap(fs), Table(fs);
    var n := fs.geo.nFatent;
    if clst < 2 || clst >= n {
      return FR_INT_ERR;
    }
    if pclst != 0 {
      if IsCl(fat0, pclst) { CountFreeUpdate(fat0, pclst, Eoc(fs.geo)); }
      res := PutFat(fs, pclst, ALL_ONES);
      if res != FR_OK { return; }
    }
    ghost var fat1 := Table(fs);
    ghost var exact := FreeExact(fs);
    var c := clst;
    while true
      invariant fs.Mounted() && FatOnly(fs.geo, s0, Snap(fs)) && |Table(fs)| == n
      invariant IsCl(Table(fs), c) && Walk(Table(fs), c) == Walk(fat1, clst)
      invariant exact ==> FreeExact(fs)
      invariant old(fs.freeClst) >= n - 2 ==> fs.freeClst == old(fs.freeClst)
      decreases n - CountFree(Table(fs))
    {
      ghost var s1, fat := Snap(fs), Table(fs);
      var nxt := GetFat(fs, c);
      FatOnlyTrans(fs.geo, s0, s1, Snap(fs));
      if nxt == 0 { break; }
      if nxt == 1 { return FR_INT_ERR; }
      CountFreeUpdate(fat, c, 0);
      ghost var s2 := Snap(fs);
      res := PutFat(fs, c, 0);
      FatOnlyTrans(fs.geo, s0, s2, Snap(fs));
      if res != FR_OK { return; }
      if fs.freeClst < n - 2 {
        fs.freeClst := fs.freeClst + 1;
      }
      if nxt >= n { break; }
      c := nxt;
    }
    res := FR_OK;
  }

  /** remove_chain(clst, pclst): its answer and the FAT afterwards. */
  ghost predicate RemoveSpec(fat: FatSeq, fat2: FatSeq, clst: u32, pclst: u32, res: FResult, eoc: u32) {
    if !IsCl(fat, clst) || (pclst != 0 && !IsCl(fat, pclst)) then res == FR_INT_ERR && fat2 == fat
    else
      var w := Walk(if pclst == 0 then fat else fat[pclst := eoc], clst);
      fat2 == w.0 && res == if w.1 then FR_OK else FR_INT_ERR
  }
}
