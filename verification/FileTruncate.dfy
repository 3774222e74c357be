/** f_truncate. */
module FileTruncate {
  import opened Alloc
  import opened Arith
  import opened Bytes
  import opened Chains
  import opened DriveModel
  import opened FatTable
  import opened FileIO
  import opened FileModel
  import opened VolumeGeometry
  import opened Window

  /** A step that gives clusters at the file's end back, if any, and writes to the clusters that it had only. */
  ghost predicate Backward(g: Geometry, a: World, b: World) {
    Confined(g, a, b) && b.chain <= a.chain && Spares(g, a, b)
  }

  lemma BackwardRefl(g: Geometry, a: World)
    ensures Backward(g, a, a)
  {
  }

  lemma BackwardTrans(g: Geometry, a: World, b: World, c: World)
    requires Backward(g, a, b) && Backward(g, b, c)
    ensures Backward(g, a, c)
  {
    ConfinedTrans(g, a, b, c);
    hide Confined;
    SparesTrans(g, a, b, c);
  }

  lemma ForwardSameChain(g: Geometry, a: World, b: World)
    requires Forward(g, a, b) && b.chain == a.chain
    ensures Backward(g, a, b)
  {
    hide Confined, Spares;
  }

  /** Cutting a chain at k frees exactly the clusters from k on and touches no cluster outside the chain. */
  lemma CutCases(fat: FatSeq, fat2: FatSeq, chain: seq<u32>, k: nat, res: FResult, eoc: u32)
    requires IsChain(fat, chain) && k < |chain| && |fat| <= eoc && 1 !in fat
    requires RemoveSpec(fat, fat2, chain[k], if k == 0 then 0 else chain[k - 1], res, eoc)
    ensures res == FR_OK && |fat2| == |fat| && 1 !in fat2
    ensures k > 0 ==> IsChain(fat2, chain[..k])
    ensures forall c | c in chain[k..] :: fat2[c] == 0
    ensures OwnFat(fat, chain, fat2, chain[..k])
  {
    assert Heap(fat, {chain});
    if k == 0 {
      DropKeepsHeap(fat, {chain}, chain);
    } else {
      CutKeepsHeap(fat, {chain}, chain, k, eoc);
      assert chain[..k] in {chain} - {chain} + {chain[..k]};
    }
    hide Walk, Heap, IsChain;
    CutEntries(fat, fat2, chain, k, eoc);
  }

  /** The same, from what the cut does entry by entry. */
  lemma CutEntries(fat: FatSeq, fat2: FatSeq, chain: seq<u32>, k: nat, eoc: u32)
    requires IsChain(fat, chain) && k < |chain| && |fat2| == |fat| <= eoc && 1 !in fat
    requires k > 0 ==> IsChain(fat2, chain[..k])
    requires forall d: nat | d < |fat| ::
      fat2[d] == if d in chain[k..] then 0 else if k > 0 && d == chain[k - 1] then eoc else fat[d]
    ensures 1 !in fat2
    ensures forall c | c in chain[k..] :: c < |fat| && fat2[c] == 0
    ensures OwnFat(fat, chain, fat2, chain[..k])
  {
    forall c | c in chain[k..] ensures IsCl(fat, c) {
      InChain(fat, chain, k, c);
    }
    forall c: nat | IsCl(fat, c) ensures (fat2[c] == 0 || c in chain[..k]) <==> (fat[c] == 0 || c in chain) {
      assert c in chain <==> c in chain[..k] || c in chain[k..] by {
        assert chain == chain[..k] + chain[k..];
      }
    }
  }

  /** remove_chain for the part of the file's chain from position k on. */
  method CutChain(fp: Fil, clst: u32, pclst: u32, ghost k: nat) returns (res: FResult)
    requires fp.Ready() && k < |fp.chain| && IsChain(Table(fp.fs), fp.chain)
    requires clst == fp.chain[k] && pclst == if k == 0 then 0 else fp.chain[k - 1]
    requires !Mine(fp.fs.geo, Table(fp.fs), fp.chain, fp.fs.winsect)
    modifies fp`chain, fp.fs`wflag, fp.fs`winsect, fp.fs`freeClst, fp.fs.drive, fp.fs.win
    ensures res == FR_OK && fp.Ready() && fp.chain == old(fp.chain)[..k]
    ensures k > 0 ==> IsChain(Table(fp.fs), fp.chain)
    ensures forall c | c in old(fp.chain)[k..] :: c < |Table(fp.fs)| && Table(fp.fs)[c] == 0
    ensures SameMine(fp.fs.geo, old(Table(fp.fs)), old(fp.chain), old(fp.fs.drive.sectors), fp.fs.drive.sectors)
    ensures forall s :: Mine(fp.fs.geo, Table(fp.fs), fp.chain, s) <==> Mine(fp.fs.geo, old(Table(fp.fs)), old(fp.chain), s)
    ensures !Mine(fp.fs.geo, Table(fp.fs), fp.chain, fp.fs.winsect)
    ensures Backward(fp.fs.geo, old(fp.W()), fp.W())
  {
    hide FatFs.Mounted, Table, FatFs.Map, Mine, FreeExact, RemoveSpec, IsChain, Confined, Spares, FatOnly, OwnFat;
    ghost var g, fat, s, chain, w0 := fp.fs.geo, Table(fp.fs), Snap(fp.fs), fp.chain, fp.W();
    MountedFacts(fp.fs);
    LinkOf(fat, chain, k);
    if k > 0 { LinkOf(fat, chain, k - 1); }
    res := RemoveChain(fp.fs, clst, pclst);
    CutCases(fat, Table(fp.fs), chain, k, res, Eoc(g));
    OutsideFile(g, fat, chain, s, Snap(fp.fs));
    fp.chain := fp.chain[..k];
    ConfinedByFat(g, w0, fp.W(), s, Snap(fp.fs));
    SameMySectors(g, w0, fp.W());
    forall t ensures Mine(g, Table(fp.fs), fp.chain, t) <==> Mine(g, fat, chain, t) {
      assert MySector(g, w0, t) <==> MySector(g, fp.W(), t);
    }
    forall c | c in chain[k..] ensures c < |Table(fp.fs)| && Table(fp.fs)[c] == 0 {
      InChain(fat, chain, k, c);
    }
  }

  lemma InChain(fat: FatSeq, chain: seq<u32>, k: nat, c: u32)
    requires IsChain(fat, chain) && k <= |chain| && c in chain[k..]
    ensures IsCl(fat, c)
  {
  }

  /** The file cut at its pointer, with the buffer written back. */
  lemma TruncStep(g: Geometry, fat: FatSeq, disk: seq<Sector>, w: int, f: FilState, fat2: FatSeq, disk2: seq<Sector>, w2: int, f2: FilState)
    requires Inv(g, fat, disk, w, f) && |fat2| == |fat| && |disk2| == |disk|
    requires f2 == f.(sclust := f2.sclust, objsize := f.fptr, dirty := false, chain := f2.chain)
    requires 0 < g.csize && f2.chain <= f.chain && ClustersFor(g, f.fptr) <= |f2.chain|
    requires f.fptr == 0 ==> f2.chain == [] && f2.sclust == 0
    requires f.fptr > 0 ==> f2.sclust == f.sclust && IsChain(fat2, f2.chain)
    requires forall s :: Mine(g, fat2, f2.chain, s) <==> Mine(g, fat, f.chain, s)
    requires !Mine(g, fat2, f2.chain, w2)
    requires forall s | 0 <= s < |disk| && Mine(g, fat, f.chain, s) ::
      disk2[s] == if f.dirty && s == f.sect then f.buf else disk[s]
    ensures Inv(g, fat2, disk2, w2, f2) && Content(g, disk2, f2) == Content(g, disk, f)[..f.fptr]
  {
    PrefixFits(g, f.chain, f2.chain);
    ClustersCover(g, f.fptr, |f2.chain|);
    MineRange(g, fat, f.chain, f.sect, disk);
    hide FileSector, Span, Content, Mine, ChainFits;
    forall i | 0 <= i < f.fptr ensures ByteAt(g, disk2, f2, i) == ByteAt(g, disk, f, i) {
      TruncByte(g, fat, disk, w, f, disk2, f2, i);
    }
    if f.fptr % SS != 0 {
      PrefixSector(g, f2.chain, f.chain, f.fptr / SS);
    }
    assert Core(g, fat2, disk2, w2, f2);
    ByteWise(g, disk, f, disk2, f2);
  }

  lemma TruncByte(g: Geometry, fat: FatSeq, disk: seq<Sector>, w: int, f: FilState, disk2: seq<Sector>, f2: FilState, i: nat)
    requires Core(g, fat, disk, w, f) && Sized(g, disk2, f2) && |disk2| == |disk| && f2.chain <= f.chain && !f2.dirty
    requires i < f.fptr == f2.objsize
    requires forall s | 0 <= s < |disk| && Mine(g, fat, f.chain, s) ::
      disk2[s] == if f.dirty && s == f.sect then f.buf else disk[s]
    ensures ByteAt(g, disk2, f2, i) == ByteAt(g, disk, f, i)
  {
    hide FileSector, Span, Mine, ChainFits;
    PrefixSector(g, f2.chain, f.chain, i / SS);
    FileSectorMine(g, fat, f.chain, i / SS);
    FileSectorInDisk(g, disk, f, i / SS);
  }

  lemma PrefixFits(g: Geometry, chain: seq<u32>, chain2: seq<u32>)
    requires ChainFits(g, chain) && chain2 <= chain
    ensures ChainFits(g, chain2)
  {
  }

  /** ClustersFor(n) clusters hold n bytes. */
  lemma ClustersCover(g: Geometry, n: nat, k: nat)
    requires g.csize > 0 && ClustersFor(g, n) <= k
    ensures n <= SS * (k * g.csize)
    ensures n > 0 ==> (n - 1) / SS / g.csize < k
    ensures n % SS != 0 ==> n / SS < k * g.csize
  {
    if n > 0 {
      InSpan((n - 1) / SS, g.csize, k);
    } else {
      MulLe(g.csize, 0, k);
    }
  }

  lemma ByteWise(g: Geometry, disk: seq<Sector>, f: FilState, disk2: seq<Sector>, f2: FilState)
    requires Sized(g, disk, f) && Sized(g, disk2, f2) && f2.objsize <= f.objsize
    requires forall i | 0 <= i < f2.objsize :: ByteAt(g, disk2, f2, i) == ByteAt(g, disk, f, i)
    ensures Content(g, disk2, f2) == Content(g, disk, f)[..f2.objsize]
  {
    hide ByteAt, ChainFits;
  }

  /** The buffer goes back to its sector even when that sector has just been freed. */
  method WriteBack(fp: Fil) returns (res: FResult)
    requires fp.Ready() && (fp.faDirty ==> Mine(fp.fs.geo, Table(fp.fs), fp.chain, fp.sect))
    requires !Mine(fp.fs.geo, Table(fp.fs), fp.chain, fp.fs.winsect)
    modifies fp`faDirty, fp.fs.drive
    ensures res == FR_OK && fp.Ready() && !fp.faDirty && Table(fp.fs) == old(Table(fp.fs))
    ensures |fp.fs.drive.sectors| == |old(fp.fs.drive.sectors)|
    ensures forall s | 0 <= s < |fp.fs.drive.sectors| ::
      fp.fs.drive.sectors[s] == if old(fp.faDirty) && s == fp.sect then fp.buf[..] else old(fp.fs.drive.sectors)[s]
    ensures Confined(fp.fs.geo, old(fp.W()), fp.W()) && |fp.fs.Map()| == |old(fp.fs.Map())|
    ensures forall s | 0 <= s < |fp.fs.Map()| && !(old(fp.faDirty) && s == fp.sect) :: fp.fs.Map()[s] == old(fp.fs.Map())[s]
  {
    hide FatFs.Mounted, Table, FatFs.Map, Mine, FreeExact, Confined;
    ConfinedRefl(fp.fs.geo, fp.W());
    if fp.faDirty {
      var r := DiskWrite(fp, fp.buf[..], fp.sect, 1);
      if r != RES_OK { return FR_DISK_ERR; }
      assert Piece(fp.buf[..], 0) == fp.buf[..];
      fp.faDirty := false;
    }
    res := FR_OK;
  }

  /** The position from which f_truncate removes the chain: the clusters before it are needed for n > 0 bytes. */
  lemma CutPosition(g: Geometry, fat: FatSeq, disk: seq<Sector>, w: int, f: FilState)
    requires Inv(g, fat, disk, w, f) && f.fptr < f.objsize
    ensures 0 < g.csize && f.chain != [] && IsChain(fat, f.chain) && f.sclust == f.chain[0] && |fat| == g.nFatent
    ensures ClustersFor(g, f.fptr) <= |f.chain|
    ensures f.fptr > 0 ==> 0 < ClustersFor(g, f.fptr) && f.clust == f.chain[ClustersFor(g, f.fptr) - 1]
    ensures f.dirty ==> Mine(g, fat, f.chain, f.sect)
    ensures !Mine(g, fat, f.chain, w)
  {
    if f.dirty {
      var j: nat :| j < Span(g, f.chain) && f.sect == FileSector(g, f.chain, j);
      FileSectorMine(g, fat, f.chain, j);
    }
    hide FileSector, Mine;
    assert f.chain != [];
    if f.fptr > 0 {
      QuotientNat((f.fptr - 1) / SS, g.csize);
    }
  }

  lemma QuotientNat(x: nat, k: nat)
    requires k > 0
    ensures x / k >= 0
  {
  }

  /** f_truncate: the file ends at the pointer; the clusters it no longer needs are free again. */
  method FTruncate(fp: Fil) returns (res: FResult)
    requires fp.Valid()
    modifies fp, fp.buf, fp.fs, fp.fs.drive, fp.fs.win
    ensures fp.Valid() && fp.fptr == old(fp.fptr) <= |old(fp.Data())| && fp.fs.geo.csize > 0
    ensures Backward(fp.fs.geo, old(fp.W()), fp.W())
    ensures res == if fp.faWrite then FR_OK else FR_DENIED
    ensures fp.Data() == if fp.faWrite then old(fp.Data())[..fp.fptr] else old(fp.Data())
    ensures !fp.faWrite || old(fp.fptr == fp.objsize) ==> fp.St() == old(fp.St()) && Table(fp.fs) == old(Table(fp.fs))
    ensures fp.faWrite && old(fp.fptr < fp.objsize) ==>
      fp.faModified && ClustersFor(fp.fs.geo, fp.fptr) <= |old(fp.chain)| && fp.chain == old(fp.chain)[..ClustersFor(fp.fs.geo, fp.fptr)]
    ensures fp.chain <= old(fp.chain) && |fp.chain| + fp.Free() == old(|fp.chain| + fp.Free())
    ensures forall c | c in old(fp.chain)[|fp.chain|..] :: c < |Table(fp.fs)| && Table(fp.fs)[c] == 0
  {
    hide FatFs.Mounted, Table, FatFs.Map, Mine, FreeExact, IsChain, Confined, Backward, Within, Core, Content, Positioned, ClustersFor;
    ghost var g, w0, fat, disk, w, f := fp.fs.geo, fp.W(), Table(fp.fs), fp.fs.drive.sectors, fp.fs.winsect, fp.St();
    BackwardRefl(g, w0);
    BelowCsize(fp.fs, 0);
    PointerInFile(fp);
    Account(fp);
    if !fp.faWrite {
      return FR_DENIED;
    }
    if fp.fptr < fp.objsize {
      CutPosition(g, fat, disk, w, f);
      ghost var k := ClustersFor(g, f.fptr);
      res := RemoveRest(fp, k);
      ghost var w1 := fp.W();
      fp.objsize := fp.fptr;
      fp.faModified := true;
      if res == FR_OK {
        if fp.faDirty { DirtyWithin(g, fat, disk, w, f); }
        res := WriteBack(fp);
        WroteBack(g, w0, w1, fp.W(), f.dirty, f.sect);
      }
      if res != FR_OK { return; }
      TruncStep(g, fat, disk, w, f, Table(fp.fs), fp.fs.drive.sectors, fp.fs.winsect, fp.St());
      BalanceBack(fp, w0);
    }
    res := FR_OK;
  }

  lemma BalanceBack(fp: Fil, w0: World)
    requires fp.Busy() && Backward(fp.fs.geo, w0, fp.W()) && (w0.chain != [] ==> IsChain(w0.fat, w0.chain))
    ensures |fp.chain| + fp.Free() == |w0.chain| + CountFree(w0.fat)
  {
    hide FatFs.Mounted, Table, FatFs.Map, CountFree, IsChain, Confined, Core;
    Account(fp);
    Kept(fp.fs.geo, w0, fp.W());
  }

  /** The write-back goes to a sector that the file had. */
  lemma WroteBack(g: Geometry, a: World, b: World, c: World, dirty: bool, s: int)
    requires Backward(g, a, b) && Confined(g, b, c) && c.chain == b.chain && (dirty ==> Within(g, a.chain, s)) && |c.sects| == |b.sects|
    requires forall t | 0 <= t < |b.sects| && !(dirty && t == s) :: c.sects[t] == b.sects[t]
    ensures Backward(g, a, c)
  {
    ConfinedTrans(g, a, b, c);
    hide Confined, Geometry.DataSector, Geometry.ClusterOf;
  }

  /** The chain part of f_truncate: all of it for an empty file, else what follows the current cluster. */
  method RemoveRest(fp: Fil, ghost k: nat) returns (res: FResult)
    requires fp.Valid() && fp.fptr < fp.objsize && fp.fs.geo.csize > 0 && k == ClustersFor(fp.fs.geo, fp.fptr)
    modifies fp`chain, fp`sclust, fp.fs`wflag, fp.fs`winsect, fp.fs`freeClst, fp.fs.drive, fp.fs.win
    ensures res == FR_OK && fp.Ready() && k <= |old(fp.chain)| && fp.chain == old(fp.chain)[..k]
    ensures k == 0 ==> fp.sclust == 0
    ensures k > 0 ==> fp.sclust == old(fp.sclust) && IsChain(Table(fp.fs), fp.chain)
    ensures fp.fptr == 0 <==> k == 0
    ensures forall c | c in old(fp.chain)[k..] :: c < |Table(fp.fs)| && Table(fp.fs)[c] == 0
    ensures SameMine(fp.fs.geo, old(Table(fp.fs)), old(fp.chain), old(fp.fs.drive.sectors), fp.fs.drive.sectors)
    ensures forall s :: Mine(fp.fs.geo, Table(fp.fs), fp.chain, s) <==> Mine(fp.fs.geo, old(Table(fp.fs)), old(fp.chain), s)
    ensures !Mine(fp.fs.geo, Table(fp.fs), fp.chain, fp.fs.winsect)
    ensures Backward(fp.fs.geo, old(fp.W()), fp.W())
  {
    hide FatFs.Mounted, Table, FatFs.Map, Mine, FreeExact, IsChain, Forward, Backward, Core, Content, Positioned;
    ghost var g, fat, f, s := fp.fs.geo, Table(fp.fs), fp.St(), Snap(fp.fs);
    CutPosition(g, fat, fp.fs.drive.sectors, fp.fs.winsect, f);
    if fp.fptr == 0 {
      res := CutChain(fp, fp.sclust, 0, 0);
      fp.sclust := 0;
    } else {
      LinkOf(fat, f.chain, k - 1);
      ghost var w0 := fp.W();
      var ncl := NextCluster(fp, fp.clust);
      res := FR_OK;
      if ncl == ALL_ONES { res := FR_DISK_ERR; }
      if ncl == 1 { res := FR_INT_ERR; }
      if res == FR_OK && ncl < fp.fs.geo.nFatent {
        ghost var w1 := fp.W();
        res := CutChain(fp, ncl, fp.clust, k);
        ForwardSameChain(g, w0, w1);
        BackwardTrans(g, w0, w1, fp.W());
      } else {
        assert f.chain[..k] == f.chain;
        ForwardSameChain(g, w0, fp.W());
      }
    }
  }
}
