/** What an open file means: the bytes behind a cluster chain, a private sector buffer and a disk. */
module FileModel {
  import opened Arith
  import opened Bytes
  import opened Chains
  import opened DriveModel
  import opened VolumeGeometry

  /** The fields of FIL that the data operations use, and the chain they stand for. */
  datatype FilState = FilState(
    sclust: u32,       // first cluster, 0 for none
    objsize: u32,      // file size
    fptr: u32,         // read/write pointer
    clust: u32,        // cluster of byte fptr - 1
    sect: u32,         // sector in buf, 0 for none
    dirty: bool,       // buf must be written back
    buf: Sector,       // the private sector buffer
    chain: seq<u32>    // the clusters of the file
  )

  ghost predicate ChainFits(g: Geometry, chain: seq<u32>) {
    g.Valid() && Distinct(chain) && forall c | c in chain :: g.IsCluster(c)
  }

  /** Sectors of the chain. */
  function Span(g: Geometry, chain: seq<u32>): nat {
    |chain| * g.csize
  }

  /** LBA of sector number j of the file. */
  function FileSector(g: Geometry, chain: seq<u32>, j: nat): int
    requires ChainFits(g, chain) && j < Span(g, chain)
  {
    SectorInChain(j, g.csize, |chain|);
    g.Clst2Sect(chain[j / g.csize]) + j % g.csize
  }

  lemma SectorInChain(j: nat, k: nat, n: nat)
    requires j < n * k && k > 0
    ensures j / k < n && 0 <= j % k < k
  {
    assert j == k * (j / k) + j % k;
    if j / k >= n {
      MulLe(k, n, j / k);
    }
  }

  /** Different sector numbers are different data sectors. */
  lemma FileSectorsDiffer(g: Geometry, chain: seq<u32>, i: nat, j: nat)
    requires ChainFits(g, chain) && i < Span(g, chain) && j < Span(g, chain)
    ensures g.DataSector(FileSector(g, chain, i))
    ensures FileSector(g, chain, i) == FileSector(g, chain, j) ==> i == j
  {
    hide Geometry.Valid, Geometry.Clst2Sect, Geometry.DataSector, FileSector, Span;
    FileSectorIs(g, chain, i);
    FileSectorIs(g, chain, j);
    ClustersTileDataArea(g, chain[i / g.csize], chain[j / g.csize], i % g.csize, j % g.csize);
    SameDivMod(i, j, g.csize);
  }

  lemma FileSectorIs(g: Geometry, chain: seq<u32>, j: nat)
    requires ChainFits(g, chain) && j < Span(g, chain)
    ensures 0 < g.csize && 0 <= j / g.csize < |chain| && 0 <= j % g.csize < g.csize && g.IsCluster(chain[j / g.csize])
    ensures FileSector(g, chain, j) == g.Clst2Sect(chain[j / g.csize]) + j % g.csize
  {
    hide Geometry.Clst2Sect;
    SectorInChain(j, g.csize, |chain|);
    assert chain[j / g.csize] in chain;
  }

  /** Sectors that follow each other inside a cluster follow each other on the disk. */
  lemma RunInCluster(g: Geometry, chain: seq<u32>, j: nat, k: nat)
    requires ChainFits(g, chain) && j < Span(g, chain) && j % g.csize + k < g.csize
    ensures j + k < Span(g, chain) && FileSector(g, chain, j + k) == FileSector(g, chain, j) + k
  {
    var q := j / g.csize;
    SectorInChain(j, g.csize, |chain|);
    assert j == g.csize * q + j % g.csize;
    ModUnique(j + k, g.csize, q, j % g.csize + k);
    MulLe(g.csize, q + 1, |chain|);
    MulStep(g.csize, q);
  }

  /** Contents of file sector j: the buffer if it holds that sector dirty, else the disk. */
  function SecAt(g: Geometry, disk: seq<Sector>, f: FilState, j: nat): Sector
    requires ChainFits(g, f.chain) && g.EndOfData() <= |disk| && j < Span(g, f.chain)
  {
    FileSectorsDiffer(g, f.chain, j, j);
    var s := FileSector(g, f.chain, j);
    if f.dirty && s == f.sect then f.buf else disk[s]
  }

  function ByteAt(g: Geometry, disk: seq<Sector>, f: FilState, i: nat): byte
    requires ChainFits(g, f.chain) && g.EndOfData() <= |disk| && i < SS * Span(g, f.chain)
  {
    SecAt(g, disk, f, i / SS)[i % SS]
  }

  ghost predicate Sized(g: Geometry, disk: seq<Sector>, f: FilState) {
    ChainFits(g, f.chain) && g.EndOfData() <= |disk| && f.objsize <= SS * Span(g, f.chain)
  }

  /** The file as a byte sequence. */
  function Content(g: Geometry, disk: seq<Sector>, f: FilState): (c: seq<byte>)
    requires Sized(g, disk, f)
    ensures |c| == f.objsize
  {
    seq(f.objsize, i requires 0 <= i < f.objsize => ByteAt(g, disk, f, i))
  }

  /** Data sectors in clusters of this file or in free clusters: the only ones its operations may write. */
  ghost predicate Mine(g: Geometry, fat: FatSeq, chain: seq<u32>, s: int) {
    g.csize > 0 && g.DataSector(s) && IsCl(fat, g.ClusterOf(s))
    && (fat[g.ClusterOf(s)] == 0 || g.ClusterOf(s) in chain)
  }

  /** The invariant of an open file between operations. */
  ghost predicate Inv(g: Geometry, fat: FatSeq, disk: seq<Sector>, winsect: int, f: FilState) {
    Core(g, fat, disk, winsect, f) && Positioned(g, f)
  }

  /** The part of the invariant that holds inside the transfer loops too. */
  ghost predicate Core(g: Geometry, fat: FatSeq, disk: seq<Sector>, winsect: int, f: FilState) {
    && Sized(g, disk, f) && |fat| == g.nFatent
    && (f.chain == [] <==> f.sclust == 0)
    && (f.chain != [] ==> IsChain(fat, f.chain) && f.chain[0] == f.sclust)
    && f.fptr <= f.objsize
    && (f.fptr % SS != 0 ==> f.sect == FileSector(g, f.chain, f.fptr / SS))
    && Cached(g, fat, disk, f)
    && !Mine(g, fat, f.chain, winsect)
  }

  /** The current cluster is the one of the byte before the pointer. */
  ghost predicate Positioned(g: Geometry, f: FilState)
    requires ChainFits(g, f.chain)
  {
    f.fptr > 0 ==>
      (f.fptr - 1) / SS / g.csize < |f.chain| && f.clust == f.chain[(f.fptr - 1) / SS / g.csize]
  }

  /** The buffer: dirty only on a sector of the file; clean, it shows its sector. */
  ghost predicate Cached(g: Geometry, fat: FatSeq, disk: seq<Sector>, f: FilState)
    requires ChainFits(g, f.chain) && g.EndOfData() <= |disk|
  {
    && (f.dirty ==> exists j: nat :: j < Span(g, f.chain) && f.sect == FileSector(g, f.chain, j))
    && (f.sect != 0 ==> Mine(g, fat, f.chain, f.sect))
    && (!f.dirty && f.sect != 0 ==> f.buf == disk[f.sect])
  }

  /** Every sector of the file is one of its own. */
  lemma FileSectorMine(g: Geometry, fat: FatSeq, chain: seq<u32>, j: nat)
    requires ChainFits(g, chain) && |fat| == g.nFatent && j < Span(g, chain)
    ensures Mine(g, fat, chain, FileSector(g, chain, j)) && 0 < FileSector(g, chain, j) < ALL_ONES
  {
    hide Geometry.Valid, Geometry.Clst2Sect, Geometry.DataSector, Geometry.ClusterOf;
    SectorInChain(j, g.csize, |chain|);
    var c := chain[j / g.csize];
    assert c in chain;
    ClusterOfSector(g, c, j % g.csize);
  }

  /** The two disks agree on all sectors this file may use. */
  ghost predicate SameMine(g: Geometry, fat: FatSeq, chain: seq<u32>, disk: seq<Sector>, disk2: seq<Sector>) {
    |disk2| == |disk| && forall s | 0 <= s < |disk| && Mine(g, fat, chain, s) :: disk2[s] == disk[s]
  }

  /** f2 shows the same bytes as f, as far as f goes. */
  ghost predicate SameBytes(g: Geometry, disk: seq<Sector>, f: FilState, disk2: seq<Sector>, f2: FilState)
    requires Sized(g, disk, f) && Sized(g, disk2, f2) && Span(g, f.chain) <= Span(g, f2.chain)
  {
    forall j | 0 <= j < Span(g, f.chain) :: SecAt(g, disk2, f2, j) == SecAt(g, disk, f, j)
  }

  lemma SameContent(g: Geometry, disk: seq<Sector>, f: FilState, disk2: seq<Sector>, f2: FilState)
    requires Sized(g, disk, f) && Sized(g, disk2, f2) && Span(g, f.chain) <= Span(g, f2.chain)
    requires f2.objsize == f.objsize && SameBytes(g, disk, f, disk2, f2)
    ensures Content(g, disk2, f2) == Content(g, disk, f)
  {
    hide SecAt, ChainFits, FileSector, Content;
    forall i | 0 <= i < f.objsize ensures Content(g, disk2, f2)[i] == Content(g, disk, f)[i] {
      ByteIndex(g, disk, f, i);
      ByteIndex(g, disk2, f2, i);
      assert SecAt(g, disk2, f2, i / SS) == SecAt(g, disk, f, i / SS);
    }
  }

  /** Where byte i of the content lies. */
  lemma ByteIndex(g: Geometry, disk: seq<Sector>, f: FilState, i: nat)
    requires Sized(g, disk, f) && i < f.objsize
    ensures i / SS < Span(g, f.chain) && Content(g, disk, f)[i] == SecAt(g, disk, f, i / SS)[i % SS]
  {
  }

  lemma FileSectorInDisk(g: Geometry, disk: seq<Sector>, f: FilState, j: nat)
    requires Sized(g, disk, f) && j < Span(g, f.chain)
    ensures 0 <= FileSector(g, f.chain, j) < |disk|
  {
    FileSectorsDiffer(g, f.chain, j, j);
  }

  /** A step of the volume that leaves this FAT and this file's sectors alone. */
  lemma VolumeStep(g: Geometry, fat: FatSeq, disk: seq<Sector>, w: int, f: FilState, disk2: seq<Sector>, w2: int)
    requires Core(g, fat, disk, w, f) && SameMine(g, fat, f.chain, disk, disk2) && !Mine(g, fat, f.chain, w2)
    ensures Core(g, fat, disk2, w2, f) && Content(g, disk2, f) == Content(g, disk, f)
    ensures SameBytes(g, disk, f, disk2, f)
  {
    forall j | 0 <= j < Span(g, f.chain) ensures SecAt(g, disk2, f, j) == SecAt(g, disk, f, j) {
      FileSectorMine(g, fat, f.chain, j);
    }
    SameContent(g, disk, f, disk2, f);
  }

  /** Writing the dirty buffer back. */
  lemma FlushStep(g: Geometry, fat: FatSeq, disk: seq<Sector>, w: int, f: FilState, disk2: seq<Sector>)
    requires Core(g, fat, disk, w, f) && f.dirty
    requires 0 <= f.sect < |disk| && disk2 == disk[f.sect := f.buf]
    ensures var f2 := f.(dirty := false);
            Core(g, fat, disk2, w, f2) && Content(g, disk2, f2) == Content(g, disk, f) && SameBytes(g, disk, f, disk2, f2)
  {
    hide FileSector, ChainFits, Mine, Content, Geometry.DataSector;
    var f2 := f.(dirty := false);
    forall j | 0 <= j < Span(g, f.chain) ensures SecAt(g, disk2, f2, j) == SecAt(g, disk, f, j) {
      FileSectorInDisk(g, disk, f, j);
    }
    SameContent(g, disk, f, disk2, f2);
  }

  /** Filling the clean buffer from a sector of the file. */
  lemma LoadStep(g: Geometry, fat: FatSeq, disk: seq<Sector>, w: int, f: FilState, j: nat)
    requires Core(g, fat, disk, w, f) && !f.dirty && j < Span(g, f.chain) && f.fptr % SS == 0
    ensures g.DataSector(FileSector(g, f.chain, j))
    ensures var s := FileSector(g, f.chain, j); var f2 := f.(sect := s, buf := disk[s]);
            Core(g, fat, disk, w, f2) && Content(g, disk, f2) == Content(g, disk, f) && SameBytes(g, disk, f, disk, f2)
  {
    FileSectorMine(g, fat, f.chain, j);
    hide FileSector, ChainFits, Content;
    var s := FileSector(g, f.chain, j);
    SameContent(g, disk, f, disk, f.(sect := s, buf := disk[s]));
  }

  // ---- writing

  /** c with d written over it from position pos on. */
  function Overwrite(c: seq<byte>, pos: nat, d: seq<byte>): (r: seq<byte>)
    requires pos <= |c|
    ensures |r| == if pos + |d| < |c| then |c| else pos + |d|
  {
    c[..pos] + d + if pos + |d| < |c| then c[pos + |d|..] else []
  }

  /** Two writes in a row are one write. */
  lemma OverwriteTwice(c: seq<byte>, pos: nat, a: seq<byte>, b: seq<byte>)
    requires pos <= |c|
    ensures Overwrite(Overwrite(c, pos, a), pos + |a|, b) == Overwrite(c, pos, a + b)
  {
  }

  ghost function Max(a: int, b: int): int {
    if a > b then a else b
  }

  ghost function Min(a: int, b: int): int {
    if a < b then a else b
  }

  /** Byte by byte, f2 is f with data written at pos. */
  ghost predicate Written(g: Geometry, disk: seq<Sector>, f: FilState, disk2: seq<Sector>, f2: FilState, pos: nat, data: seq<byte>)
    requires Sized(g, disk, f) && Sized(g, disk2, f2) && Span(g, f.chain) == Span(g, f2.chain)
  {
    forall i | 0 <= i < f2.objsize ::
      ByteAt(g, disk2, f2, i) == if pos <= i < pos + |data| then data[i - pos] else ByteAt(g, disk, f, i)
  }

  lemma ContentWritten(g: Geometry, disk: seq<Sector>, f: FilState, disk2: seq<Sector>, f2: FilState, pos: nat, data: seq<byte>)
    requires Sized(g, disk, f) && Sized(g, disk2, f2) && Span(g, f.chain) == Span(g, f2.chain)
    requires pos <= f.objsize && f2.objsize == Max(f.objsize, pos + |data|)
    requires Written(g, disk, f, disk2, f2, pos, data)
    ensures Content(g, disk2, f2) == Overwrite(Content(g, disk, f), pos, data)
  {
    hide ByteAt, ChainFits;
  }

  /** Putting data into the buffer at the pointer. */
  lemma PokeStep(g: Geometry, fat: FatSeq, disk: seq<Sector>, w: int, f: FilState, j: nat, nb: Sector, data: seq<byte>)
    requires Core(g, fat, disk, w, f) && j == f.fptr / SS && j < Span(g, f.chain)
    requires f.dirty ==> f.sect == FileSector(g, f.chain, j)
    requires 0 < |data| && f.fptr % SS + |data| <= SS && f.fptr + |data| <= ALL_ONES
    requires forall k | 0 <= k < |data| :: nb[f.fptr % SS + k] == data[k]
    requires forall k | 0 <= k < SS && !(f.fptr % SS <= k < f.fptr % SS + |data|) && SS * j + k < f.objsize ::
      nb[k] == SecAt(g, disk, f, j)[k]
    ensures Max(f.objsize, f.fptr + |data|) <= ALL_ONES
    ensures var f2 := f.(sect := FileSector(g, f.chain, j), buf := nb, dirty := true,
                         fptr := f.fptr + |data|, objsize := Max(f.objsize, f.fptr + |data|));
            Core(g, fat, disk, w, f2)
            && Content(g, disk, f2) == Overwrite(Content(g, disk, f), f.fptr, data)
  {
    hide ChainFits, FileSector, Mine, Content, ByteAt;
    FileSectorMine(g, fat, f.chain, j);
    var f2 := f.(sect := FileSector(g, f.chain, j), buf := nb, dirty := true,
                 fptr := f.fptr + |data|, objsize := Max(f.objsize, f.fptr + |data|));
    assert Sized(g, disk, f2);
    forall i | 0 <= i < f2.objsize
      ensures ByteAt(g, disk, f2, i) ==
              if f.fptr <= i < f.fptr + |data| then data[i - f.fptr] else ByteAt(g, disk, f, i)
    {
      PokeByte(g, disk, f, j, f2, data, i);
    }
    ContentWritten(g, disk, f, disk, f2, f.fptr, data);
  }

  lemma PokeByte(g: Geometry, disk: seq<Sector>, f: FilState, j: nat, f2: FilState, data: seq<byte>, i: nat)
    requires Sized(g, disk, f) && Sized(g, disk, f2) && f2.chain == f.chain && j == f.fptr / SS && j < Span(g, f.chain)
    requires f2.dirty && f2.sect == FileSector(g, f.chain, j) && i < f2.objsize
    requires f.dirty ==> f.sect == FileSector(g, f.chain, j)
    requires f.fptr <= f.objsize && f.fptr % SS + |data| <= SS && f2.objsize == Max(f.objsize, f.fptr + |data|)
    requires forall k | 0 <= k < |data| :: f2.buf[f.fptr % SS + k] == data[k]
    requires forall k | 0 <= k < SS && !(f.fptr % SS <= k < f.fptr % SS + |data|) && SS * j + k < f.objsize ::
      f2.buf[k] == SecAt(g, disk, f, j)[k]
    ensures i / SS < Span(g, f.chain)
    ensures ByteAt(g, disk, f2, i) ==
            if f.fptr <= i < f.fptr + |data| then data[i - f.fptr] else ByteAt(g, disk, f, i)
  {
    hide ChainFits, FileSector;
    assert i == SS * (i / SS) + i % SS && f.fptr == SS * j + f.fptr % SS;
    FileSectorInDisk(g, disk, f, i / SS);
    if i / SS == j {
      if f.fptr <= i < f.fptr + |data| {
        assert f2.buf[f.fptr % SS + (i - f.fptr)] == data[i - f.fptr];
      }
    } else {
      FileSectorsDiffer(g, f.chain, i / SS, j);
    }
  }

  /** Another sector of the file does not lie among cc sectors that follow each other inside one cluster. */
  lemma OutsideRun(g: Geometry, chain: seq<u32>, j: nat, cc: nat, i: nat)
    requires ChainFits(g, chain) && j < Span(g, chain) && i < Span(g, chain) && j % g.csize + cc <= g.csize
    requires !(j <= i < j + cc)
    ensures !(FileSector(g, chain, j) <= FileSector(g, chain, i) < FileSector(g, chain, j) + cc)
  {
    hide Geometry.Valid, ChainFits, FileSector, Span;
    var k := FileSector(g, chain, i) - FileSector(g, chain, j);
    if 0 <= k < cc {
      RunInCluster(g, chain, j, k);
      FileSectorsDiffer(g, chain, i, j + k);
    }
  }

  /** Sectors j, j+1, ... of the file, cc of them inside one cluster, lie at s, s+1, ...; no other sector does. */
  lemma RunOfSectors(g: Geometry, chain: seq<u32>, j: nat, cc: nat, i: nat)
    requires ChainFits(g, chain) && j < Span(g, chain) && i < Span(g, chain) && 0 < cc && j % g.csize + cc <= g.csize
    ensures j + cc <= Span(g, chain)
    ensures var s := FileSector(g, chain, j);
            if j <= i < j + cc then FileSector(g, chain, i) == s + (i - j)
            else !(s <= FileSector(g, chain, i) < s + cc)
  {
    hide Geometry.Valid, ChainFits, FileSector, Span;
    RunInCluster(g, chain, j, cc - 1);
    if j <= i < j + cc { RunInCluster(g, chain, j, i - j); } else { OutsideRun(g, chain, j, cc, i); }
  }

  /** The disk after a direct transfer of cc whole sectors to LBA s. */
  ghost predicate Transferred(disk: seq<Sector>, disk2: seq<Sector>, s: int, cc: nat, data: seq<byte>) {
    && |disk2| == |disk| && |data| == cc * SS
    && forall t | 0 <= t < |disk| :: disk2[t] == if s <= t < s + cc then Piece(data, t - s) else disk[t]
  }

  /** Writing whole sectors past the buffer; a cached sector among them is refreshed. */
  lemma DirectStep(g: Geometry, fat: FatSeq, disk: seq<Sector>, w: int, f: FilState, disk2: seq<Sector>,
                   j: nat, cc: nat, nb: Sector, data: seq<byte>)
    requires Core(g, fat, disk, w, f) && !f.dirty && f.fptr == SS * j && j < Span(g, f.chain)
    requires 0 < cc && j % g.csize + cc <= g.csize && f.fptr + cc * SS <= ALL_ONES
    requires Transferred(disk, disk2, FileSector(g, f.chain, j), cc, data)
    requires nb == var s := FileSector(g, f.chain, j); if s <= f.sect < s + cc then Piece(data, f.sect - s) else f.buf
    ensures Max(f.objsize, f.fptr + |data|) <= ALL_ONES
    ensures var f2 := f.(buf := nb, fptr := f.fptr + |data|, objsize := Max(f.objsize, f.fptr + |data|));
            Core(g, fat, disk2, w, f2)
            && Content(g, disk2, f2) == Overwrite(Content(g, disk, f), f.fptr, data)
  {
    hide ChainFits, FileSector, Mine, Content, ByteAt, Span, Core;
    var f2 := f.(buf := nb, fptr := f.fptr + |data|, objsize := Max(f.objsize, f.fptr + |data|));
    DirectCore(g, fat, disk, w, f, disk2, j, cc, f2, data);
    forall i | 0 <= i < f2.objsize
      ensures ByteAt(g, disk2, f2, i) ==
              if f.fptr <= i < f.fptr + |data| then data[i - f.fptr] else ByteAt(g, disk, f, i)
    {
      RunOfSectors(g, f.chain, j, cc, i / SS);
      FileSectorInDisk(g, disk, f, i / SS);
      DirectByte(g, disk, f, disk2, f2, j, cc, data, i);
    }
    ContentWritten(g, disk, f, disk2, f2, f.fptr, data);
  }

  lemma DirectCore(g: Geometry, fat: FatSeq, disk: seq<Sector>, w: int, f: FilState, disk2: seq<Sector>,
                   j: nat, cc: nat, f2: FilState, data: seq<byte>)
    requires Core(g, fat, disk, w, f) && !f.dirty && f.fptr == SS * j && j < Span(g, f.chain)
    requires 0 < cc && j % g.csize + cc <= g.csize && f.fptr + cc * SS <= ALL_ONES
    requires Transferred(disk, disk2, FileSector(g, f.chain, j), cc, data)
    requires f2.buf == var s := FileSector(g, f.chain, j); if s <= f.sect < s + cc then Piece(data, f.sect - s) else f.buf
    requires f2 == f.(buf := f2.buf, fptr := f.fptr + |data|, objsize := Max(f.objsize, f.fptr + |data|))
    ensures Core(g, fat, disk2, w, f2) && Sized(g, disk, f) && Sized(g, disk2, f2) && f.fptr <= f.objsize
  {
    RunOfSectors(g, f.chain, j, cc, j);
    ModUnique(f2.fptr, SS, j + cc, 0);
    MineRange(g, fat, f.chain, f.sect, disk);
    hide ChainFits, FileSector, Mine, Span;
  }

  lemma MineRange(g: Geometry, fat: FatSeq, chain: seq<u32>, s: int, disk: seq<Sector>)
    requires g.EndOfData() <= |disk|
    ensures Mine(g, fat, chain, s) ==> 0 <= s < |disk|
  {
  }

  lemma DirectByte(g: Geometry, disk: seq<Sector>, f: FilState, disk2: seq<Sector>, f2: FilState,
                   j: nat, cc: nat, data: seq<byte>, i: nat)
    requires Sized(g, disk, f) && Sized(g, disk2, f2) && f2.chain == f.chain && !f.dirty && !f2.dirty
    requires i / SS < Span(g, f.chain) && j < Span(g, f.chain)
    requires Transferred(disk, disk2, FileSector(g, f.chain, j), cc, data)
    requires var s := FileSector(g, f.chain, j); var t := FileSector(g, f.chain, i / SS);
             0 <= t < |disk| && if j <= i / SS < j + cc then t == s + (i / SS - j) else !(s <= t < s + cc)
    ensures ByteAt(g, disk2, f2, i) ==
            if SS * j <= i < SS * j + |data| then data[i - SS * j] else ByteAt(g, disk, f, i)
  {
    hide FileSector, ChainFits;
    if j <= i / SS < j + cc {
      assert Piece(data, i / SS - j)[i % SS] == data[(i / SS - j) * SS + i % SS];
    }
  }

  // ---- growing

  /** The chain after one more cluster. */
  function Grown(f: FilState, r: u32): FilState {
    f.(chain := f.chain + [r], sclust := if f.chain == [] then r else f.sclust)
  }

  /** Appending a free cluster (or starting the chain with it) changes no byte of the file. */
  lemma GrowStep(g: Geometry, fat: FatSeq, disk: seq<Sector>, w: int, f: FilState, fat2: FatSeq, disk2: seq<Sector>, w2: int,
                 r: u32, eoc: u32)
    requires Core(g, fat, disk, w, f) && SameMine(g, fat, f.chain, disk, disk2) && !Mine(g, fat, f.chain, w2)
    requires IsCl(fat, r) && fat[r] == 0 && eoc >= |fat|
    requires fat2 == if f.chain == [] then Created(fat, r, eoc) else Appended(fat, f.chain[|f.chain| - 1], r, eoc)
    ensures Core(g, fat2, disk2, w2, Grown(f, r))
    ensures Content(g, disk2, Grown(f, r)) == Content(g, disk, f)
    ensures forall s :: Mine(g, fat2, Grown(f, r).chain, s) <==> Mine(g, fat, f.chain, s)
  {
    hide FileSector, Span, Content, Geometry.Valid;
    var f2 := Grown(f, r);
    GrownChain(fat, fat2, f.chain, r, eoc);
    ChainDistinct(fat2, f2.chain);
    forall s ensures Mine(g, fat2, f2.chain, s) <==> Mine(g, fat, f.chain, s) {
    }
    hide Mine;
    forall j: nat | j < Span(g, f.chain)
      ensures j < Span(g, f2.chain) && FileSector(g, f2.chain, j) == FileSector(g, f.chain, j)
      ensures SecAt(g, disk2, f2, j) == SecAt(g, disk, f, j)
    {
      PrefixSector(g, f.chain, f2.chain, j);
      FileSectorMine(g, fat, f.chain, j);
    }
    PrefixSpan(g, f.chain, f2.chain);
    SameContent(g, disk, f, disk2, f2);
  }

  /** A longer chain has the same sectors at its start. */
  lemma PrefixSector(g: Geometry, chain: seq<u32>, chain2: seq<u32>, j: nat)
    requires ChainFits(g, chain) && ChainFits(g, chain2) && chain <= chain2 && j < Span(g, chain)
    ensures j < Span(g, chain2) && FileSector(g, chain2, j) == FileSector(g, chain, j)
  {
    PrefixSpan(g, chain, chain2);
    SectorInChain(j, g.csize, |chain|);
  }

  lemma PrefixSpan(g: Geometry, chain: seq<u32>, chain2: seq<u32>)
    requires chain <= chain2 && g.csize >= 0
    ensures Span(g, chain) <= Span(g, chain2)
  {
    MulLe(g.csize, |chain|, |chain2|);
  }

  lemma GrownChain(fat: FatSeq, fat2: FatSeq, chain: seq<u32>, r: u32, eoc: u32)
    requires chain != [] ==> IsChain(fat, chain)
    requires IsCl(fat, r) && fat[r] == 0 && eoc >= |fat|
    requires fat2 == if chain == [] then Created(fat, r, eoc) else Appended(fat, chain[|chain| - 1], r, eoc)
    ensures IsChain(fat2, chain + [r])
    ensures forall c | IsCl(fat, c) :: (fat2[c] == 0 || c in chain + [r]) <==> (fat[c] == 0 || c in chain)
    ensures forall c | IsCl(fat, c) && fat[c] != 0 && c !in chain :: fat2[c] == fat[c]
  {
    if chain != [] {
      AppendKeepsHeap(fat, {chain}, chain, r, eoc);
      assert chain + [r] in {chain} - {chain} + {chain + [r]};
    }
  }

  // ---- where the pointer is

  /** The pointer stands at a sector of the file, sector number sect of the disk, and the current cluster holds it. */
  ghost predicate Entered(g: Geometry, f: FilState, sect: int) {
    && ChainFits(g, f.chain) && f.fptr / SS < Span(g, f.chain)
    && f.fptr / SS / g.csize < |f.chain| && f.clust == f.chain[f.fptr / SS / g.csize]
    && sect == FileSector(g, f.chain, f.fptr / SS)
  }

  /** The number before j, in blocks of k. */
  lemma PrevBlock(j: nat, k: nat)
    requires 0 < j && 0 < k
    ensures (j - 1) / k == if j % k == 0 then j / k - 1 else j / k
    ensures j % k == 0 ==> j / k >= 1
  {
    var q, r := j / k, j % k;
    assert j == k * q + r;
    if r == 0 {
      assert q >= 1 by {
        if q <= 0 { MulLe(k, q, 0); }
      }
      MulStep(k, q - 1);
      ModUnique(j - 1, k, q - 1, k - 1);
    } else {
      ModUnique(j - 1, k, q, r - 1);
    }
  }

  /** At a sector boundary inside the file: which cluster is current, which one is next. */
  lemma AtBoundary(g: Geometry, disk: seq<Sector>, f: FilState, j: nat)
    requires Sized(g, disk, f) && Positioned(g, f) && f.fptr == SS * j && f.fptr < f.objsize
    ensures j < Span(g, f.chain) && j / g.csize < |f.chain| && 0 <= j % g.csize < g.csize
    ensures j % g.csize != 0 ==> f.clust == f.chain[j / g.csize]
    ensures j % g.csize == 0 && 0 < j ==> 0 < j / g.csize && f.clust == f.chain[j / g.csize - 1]
    ensures j == 0 ==> j / g.csize == 0 == j % g.csize
  {
    SectorInChain(j, g.csize, |f.chain|);
    if 0 < j {
      PrevBlock(j, g.csize);
      assert (f.fptr - 1) / SS == j - 1;
    }
  }

  lemma EnteredSector(g: Geometry, f: FilState, j: nat)
    requires ChainFits(g, f.chain) && j == f.fptr / SS < Span(g, f.chain)
    requires j / g.csize < |f.chain| && f.clust == f.chain[j / g.csize]
    ensures g.Clst2Sect(f.clust) != 0
    ensures Entered(g, f, g.Clst2Sect(f.clust) + j % g.csize)
    ensures 0 <= g.Clst2Sect(f.clust) + j % g.csize < ALL_ONES
  {
    FileSectorsDiffer(g, f.chain, j, j);
    SectorInChain(j, g.csize, |f.chain|);
    ClustersTileDataArea(g, f.clust, f.clust, 0, 0);
  }

  /** The current cluster is no part of Core. */
  lemma SetClust(g: Geometry, fat: FatSeq, disk: seq<Sector>, w: int, f: FilState, clst: u32)
    requires Core(g, fat, disk, w, f)
    ensures Core(g, fat, disk, w, f.(clust := clst))
    ensures Content(g, disk, f.(clust := clst)) == Content(g, disk, f)
  {
    hide ChainFits, FileSector, Mine;
    SameContent(g, disk, f, disk, f.(clust := clst));
  }

  /** Inside a sector the invariant says that the buffer holds it. */
  lemma MidSector(g: Geometry, fat: FatSeq, disk: seq<Sector>, w: int, f: FilState)
    requires Inv(g, fat, disk, w, f) && f.fptr % SS != 0
    ensures Entered(g, f, f.sect)
  {
    hide Geometry.Valid, Mine;
    assert (f.fptr - 1) / SS == f.fptr / SS;
    assert f.fptr / SS < Span(g, f.chain);
  }

  /** The buffer shows the file's bytes of the sector at the pointer. */
  lemma BufferShows(g: Geometry, fat: FatSeq, disk: seq<Sector>, w: int, f: FilState, i: nat)
    requires Core(g, fat, disk, w, f) && Entered(g, f, f.sect) && i < f.objsize && i / SS == f.fptr / SS
    ensures Content(g, disk, f)[i] == f.buf[i % SS]
  {
    FileSectorMine(g, fat, f.chain, i / SS);
    hide ChainFits, FileSector, Mine;
    ByteIndex(g, disk, f, i);
  }

  /** The last byte moved over lies in the cluster of the first. */
  lemma AdvanceIndex(p: nat, n: nat, k: nat)
    requires 0 < n && 0 < k
    requires if p % SS == 0 && n % SS == 0 then p / SS % k + n / SS <= k else p % SS + n <= SS
    ensures (p + n - 1) / SS / k == p / SS / k
    ensures (p + n) % SS != 0 ==> (p + n) / SS == p / SS && !(p % SS == 0 && n % SS == 0)
  {
    var j := p / SS;
    if p % SS == 0 && n % SS == 0 {
      var cc := n / SS;
      assert p + n - 1 == SS * (j + cc - 1) + (SS - 1);
      ModUnique(p + n - 1, SS, j + cc - 1, SS - 1);
      ModUnique(j + cc - 1, k, j / k, j % k + (cc - 1));
    } else {
      ModUnique(p + n - 1, SS, j, p % SS + n - 1);
    }
  }

  /** Clusters needed for n bytes. */
  function ClustersFor(g: Geometry, n: nat): nat
    requires g.csize > 0
  {
    if n == 0 then 0 else (n - 1) / SS / g.csize + 1
  }

  lemma NeededMore(g: Geometry, n: nat, m: nat)
    requires g.csize > 0 && n <= m
    ensures 0 <= ClustersFor(g, n) <= ClustersFor(g, m)
  {
    if 0 < m {
      var x, y := if n == 0 then 0 else (n - 1) / SS, (m - 1) / SS;
      DivMod(x, g.csize);
      DivMod(y, g.csize);
      if y / g.csize < x / g.csize { MulLe(g.csize, y / g.csize + 1, x / g.csize); MulStep(g.csize, y / g.csize); }
    }
  }

  /** The bytes that so many clusters and so many free ones have room for. */
  function Capacity(g: Geometry, clusters: nat, free: nat): int {
    SS * ((clusters + free) * g.csize)
  }

  /** Moving on by n bytes inside a cluster needs that cluster. */
  lemma NeededFor(g: Geometry, p: nat, n: nat)
    requires 0 < n && 0 < g.csize
    requires if p % SS == 0 && n % SS == 0 then p / SS % g.csize + n / SS <= g.csize else p % SS + n <= SS
    ensures ClustersFor(g, p + n) == p / SS / g.csize + 1
  {
    AdvanceIndex(p, n, g.csize);
  }

  /** A file has the clusters that its bytes up to the pointer need. */
  lemma HasNeeded(g: Geometry, disk: seq<Sector>, f: FilState)
    requires Sized(g, disk, f) && Positioned(g, f)
    ensures 0 < g.csize && ClustersFor(g, f.fptr) <= |f.chain|
  {
  }

  /** What the buffer holds does not depend on the pointer. */
  lemma CachedAnywhere(g: Geometry, fat: FatSeq, disk: seq<Sector>, f: FilState, f2: FilState)
    requires ChainFits(g, f.chain) && g.EndOfData() <= |disk| && f2 == f.(fptr := f2.fptr)
    ensures Cached(g, fat, disk, f) <==> Cached(g, fat, disk, f2)
  {
    hide ChainFits, FileSector, Mine;
  }

  /** Moving the pointer by n inside the current cluster. */
  lemma Advance(g: Geometry, fat: FatSeq, disk: seq<Sector>, w: int, f: FilState, sect: int, n: nat)
    requires Core(g, fat, disk, w, f) && Entered(g, f, sect) && 0 < n && f.fptr + n <= f.objsize
    requires if f.fptr % SS == 0 && n % SS == 0 then f.fptr / SS % g.csize + n / SS <= g.csize
             else f.sect == sect && f.fptr % SS + n <= SS
    ensures var f2 := f.(fptr := f.fptr + n); Inv(g, fat, disk, w, f2) && Content(g, disk, f2) == Content(g, disk, f)
  {
    var f2 := f.(fptr := f.fptr + n);
    SpanPositive(g, f.chain, f.fptr / SS);
    hide ChainFits, FileSector, Mine, Content, SecAt, Cached, IsChain;
    AdvanceIndex(f.fptr, n, g.csize);
    CachedAnywhere(g, fat, disk, f, f2);
    SameContent(g, disk, f, disk, f2);
  }

  /** Moving by n inside the current cluster keeps the current cluster the right one. */
  lemma StaysPositioned(g: Geometry, f: FilState, sect: int, n: nat, f2: FilState)
    requires Entered(g, f, sect) && 0 < n && f2.fptr == f.fptr + n && f2.clust == f.clust && f2.chain == f.chain
    requires if f.fptr % SS == 0 && n % SS == 0 then f.fptr / SS % g.csize + n / SS <= g.csize
             else f.fptr % SS + n <= SS
    ensures Positioned(g, f2)
  {
    hide Geometry.Valid, FileSector;
    assert g.csize > 0 by {
      SpanPositive(g, f.chain, f.fptr / SS);
    }
    AdvanceIndex(f.fptr, n, g.csize);
  }

  lemma SpanPositive(g: Geometry, chain: seq<u32>, j: nat)
    requires ChainFits(g, chain) && j < Span(g, chain)
    ensures g.csize > 0
  {
  }

  /** At a sector boundary anywhere up to the end of the file: which cluster is current, which one is next. */
  lemma AtBoundaryOrEnd(g: Geometry, disk: seq<Sector>, f: FilState, j: nat)
    requires Sized(g, disk, f) && Positioned(g, f) && f.fptr == SS * j
    ensures 0 < g.csize && 0 <= j % g.csize < g.csize
    ensures j % g.csize != 0 ==> j < Span(g, f.chain) && j / g.csize < |f.chain| && f.clust == f.chain[j / g.csize]
    ensures j % g.csize == 0 && 0 < j ==> 0 < j / g.csize <= |f.chain| && f.clust == f.chain[j / g.csize - 1]
    ensures j == 0 ==> j / g.csize == 0 == j % g.csize
  {
    if 0 < j {
      PrevBlock(j, g.csize);
      assert (f.fptr - 1) / SS == j - 1;
      if j % g.csize != 0 {
        InSpan(j, g.csize, |f.chain|);
      }
    }
  }

  lemma InSpan(j: nat, k: nat, n: nat)
    requires k > 0 && j / k < n
    ensures j < n * k
  {
    assert j == k * (j / k) + j % k;
    MulLe(k, j / k + 1, n);
    MulStep(k, j / k);
  }
}
