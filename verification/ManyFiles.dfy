/** Several open files on one volume, used in turns: each behaves like its own byte string with a cursor. */
module ManyFiles {
  import opened Alloc
  import opened Bytes
  import opened Chains
  import opened FatTable
  import opened FileIO
  import opened FileModel
  import opened FileRuns
  import opened VolumeGeometry
  import opened Window

  // ---- what a step of one file means for another one

  /** The logical sectors of the data area are those of the disk, but for the one in the window. */
  ghost predicate Shown(g: Geometry, w: World) {
    |w.sects| == |w.disk| && forall s | 0 <= s < |w.disk| && g.DataSector(s) && s != w.winsect :: w.sects[s] == w.disk[s]
  }

  ghost predicate Disjoint(a: seq<u32>, b: seq<u32>) {
    forall c | c in a :: c !in b
  }

  /** The buffer of file f holds a sector of a cluster that the other file has. */
  ghost predicate Lost(g: Geometry, f: FilState, chain: seq<u32>) {
    f.sect != 0 && Within(g, chain, f.sect)
  }

  /** A chain of another file, entry by entry. */
  lemma OtherChain(g: Geometry, a: World, b: World, chain: seq<u32>)
    requires Confined(g, a, b) && IsChain(a.fat, chain) && Disjoint(chain, a.chain)
    ensures IsChain(b.fat, chain) && Disjoint(chain, b.chain)
  {
    hide Mirrored;
    forall c | c in chain ensures IsCl(a.fat, c) && a.fat[c] != 0 && b.fat[c] == a.fat[c] && c !in b.chain {
      var i: nat :| i < |chain| && chain[i] == c;
      LinkOf(a.fat, chain, i);
      assert !Own(a, c) && !Own(b, c);
    }
    forall i | 0 <= i < |chain| ensures b.fat[chain[i]] == a.fat[chain[i]] && IsCl(b.fat, chain[i]) {
      assert chain[i] in chain;
    }
  }

  /** The world of another file is usable to this one: proper chains, a window off their sectors, a disk that shows. */
  ghost predicate Usable(g: Geometry, w: World) {
    (w.chain != [] ==> IsChain(w.fat, w.chain)) && !Mine(g, w.fat, w.chain, w.winsect) && Shown(g, w) && |w.fat| == g.nFatent
  }

  /** What was this file's or free still is, but for what the other one took; and that shows the same bytes on the disk. */
  lemma OtherSector(g: Geometry, a: World, b: World, chain: seq<u32>, s: int)
    requires Apart(g, a, b) && Usable(g, a) && Usable(g, b) && 0 <= s < |a.disk| && |b.disk| == |a.disk| && Disjoint(chain, a.chain)
    requires chain != [] ==> IsChain(a.fat, chain)
    requires Mine(g, a.fat, chain, s) && s != a.winsect && g.EndOfFats() <= g.database
    ensures Mine(g, b.fat, chain, s) <==> !Within(g, b.chain, s)
    ensures !Within(g, b.chain, s) ==> s != b.winsect && b.disk[s] == a.disk[s]
  {
    hide Mirrored, Geometry.EndOfFats;
    var c := g.ClusterOf(s);
    if chain != [] { OtherChain(g, a, b, chain); }
    assert Own(b, c) <==> Own(a, c);
    ChainUsed(b, c);
    ChainUsed(a, c);
  }

  lemma ChainUsed(w: World, c: int)
    requires w.chain != [] ==> IsChain(w.fat, w.chain)
    ensures c in w.chain ==> IsCl(w.fat, c) && w.fat[c] != 0
  {
    if c in w.chain {
      var i: nat :| i < |w.chain| && w.chain[i] == c;
      LinkOf(w.fat, w.chain, i);
    }
  }

  /** The window of the volume stays off this file's sectors. */
  lemma OtherWindow(g: Geometry, a: World, b: World, chain: seq<u32>)
    requires Apart(g, a, b) && Usable(g, a) && Usable(g, b) && Disjoint(chain, a.chain)
    requires chain != [] ==> IsChain(a.fat, chain)
    requires !Mine(g, a.fat, chain, a.winsect)
    ensures !Mine(g, b.fat, chain, b.winsect)
  {
    hide Mirrored;
    var c := if g.csize > 0 then g.ClusterOf(a.winsect) else 0;
    assert Own(b, c) <==> Own(a, c);
    ChainUsed(a, c);
  }

  lemma OtherSectors(g: Geometry, a: World, b: World, f: FilState, j: nat)
    requires Apart(g, a, b) && Usable(g, a) && Usable(g, b) && |b.disk| == |a.disk| && Disjoint(f.chain, a.chain)
    requires Core(g, a.fat, a.disk, a.winsect, f) && j < Span(g, f.chain)
    ensures SecAt(g, b.disk, f, j) == SecAt(g, a.disk, f, j)
  {
    FileSectorInDisk(g, a.disk, f, j);
    FileSectorMine(g, a.fat, f.chain, j);
    SectorWithin(g, f.chain, j);
    ValidFacts(g);
    if f.chain != [] { OtherChain(g, a, b, f.chain); }
    hide Apart, Usable, Mine, FileSector, Geometry.Valid, IsChain;
    OtherSector(g, a, b, f.chain, FileSector(g, f.chain, j));
  }

  /** A step of one file leaves another one as it is, with all its bytes, if and only if it does not take the cluster of the
      sector that the other one still has in its buffer. */
  lemma OtherKept(g: Geometry, a: World, b: World, f: FilState)
    requires Apart(g, a, b) && Usable(g, a) && Usable(g, b) && |b.disk| == |a.disk| && Disjoint(f.chain, a.chain)
    requires Inv(g, a.fat, a.disk, a.winsect, f)
    ensures Disjoint(f.chain, b.chain) && Sized(g, b.disk, f) && Sized(g, a.disk, f)
    ensures Inv(g, b.fat, b.disk, b.winsect, f) <==> !Lost(g, f, b.chain)
    ensures Content(g, b.disk, f) == Content(g, a.disk, f)
  {
    assert Sized(g, b.disk, f);
    if f.chain != [] { OtherChain(g, a, b, f.chain); }
    OtherWindow(g, a, b, f.chain);
    forall j: nat | j < Span(g, f.chain) ensures SecAt(g, b.disk, f, j) == SecAt(g, a.disk, f, j) {
      OtherSectors(g, a, b, f, j);
    }
    hide SecAt, FileSector, ChainFits, IsChain;
    SameContent(g, a.disk, f, b.disk, f);
    OtherBuffer(g, a, b, f);
    hide Mine, Confined, Spares, Shown, Content;
  }

  lemma OtherBuffer(g: Geometry, a: World, b: World, f: FilState)
    requires Apart(g, a, b) && Usable(g, a) && Usable(g, b) && |b.disk| == |a.disk| && Disjoint(f.chain, a.chain)
    requires Core(g, a.fat, a.disk, a.winsect, f)
    ensures Cached(g, b.fat, b.disk, f) <==> !Lost(g, f, b.chain)
  {
    ValidFacts(g);
    if f.sect != 0 {
      MineRange(g, a.fat, f.chain, f.sect, a.disk);
      OtherSector(g, a, b, f.chain, f.sect);
    }
    hide Mine, Within, Apart, Usable, FileSector, Geometry.Valid, IsChain;
  }

  // ---- open files together

  lemma UsableWorld(x: Fil)
    requires x.Valid()
    ensures Usable(x.fs.geo, x.W())
  {
    ValidFacts(x.fs.geo);
    CoreParts(x.fs.geo, Table(x.fs), x.fs.drive.sectors, x.fs.winsect, x.St());
    hide Table, Mine, IsChain, FreeExact;
  }

  lemma SameSize(g: Geometry, a: World, b: World)
    requires Apart(g, a, b) && Usable(g, a) && Usable(g, b)
    ensures |b.disk| == |a.disk|
  {
  }

  // ---- runs

  /** A volume with open files. */
  datatype Volume = Volume(fat: FatSeq, sects: seq<Sector>, disk: seq<Sector>, winsect: int, files: seq<FilState>)

  /** What may be done: read and write access of each file. */
  datatype Mode = Mode(canRead: bool, canWrite: bool)

  /** One operation on one of the files. */
  datatype Act = Act(file: nat, op: Op)

  ghost function WorldOf(v: Volume, i: nat): World
    requires i < |v.files|
  {
    World(v.fat, v.files[i].chain, v.sects, v.disk, v.winsect)
  }

  ghost predicate FileInv(g: Geometry, v: Volume, i: nat)
    requires i < |v.files|
  {
    Inv(g, v.fat, v.disk, v.winsect, v.files[i]) && Usable(g, WorldOf(v, i))
  }

  /** Every file is in order, and no two have a cluster in common. */
  ghost predicate Together(g: Geometry, v: Volume) {
    && (forall i | 0 <= i < |v.files| :: FileInv(g, v, i))
    && forall i, j | 0 <= i < |v.files| && 0 <= j < |v.files| && i != j :: Disjoint(v.files[i].chain, v.files[j].chain)
  }

  /** The simple file behind file i. */
  ghost function SimpleAt(g: Geometry, v: Volume, i: nat): Simple
    requires i < |v.files| && Sized(g, v.disk, v.files[i])
  {
    Simple(Content(g, v.disk, v.files[i]), v.files[i].fptr, |v.files[i].chain|, CountFree(v.fat))
  }

  /** What an operation on one file says about itself: that file makes its step, its world is spared, and no other file object
      is touched. Of the bytes of other files it says nothing. */
  ghost predicate Stepped(g: Geometry, modes: seq<Mode>, v: Volume, act: Act, seen: Seen, v2: Volume) {
    && |v2.files| == |v.files| == |modes| && act.file < |v.files| && FileInv(g, v, act.file) && FileInv(g, v2, act.file)
    && (forall j | 0 <= j < |v.files| && j != act.file :: v2.files[j] == v.files[j])
    && Apart(g, WorldOf(v, act.file), WorldOf(v2, act.file))
    && SimpleStep(g, modes[act.file].canRead, modes[act.file].canWrite, SimpleAt(g, v, act.file), act.op, seen, SimpleAt(g, v2, act.file))
  }

  /** Another file's buffer holds a sector of a cluster that file i has. */
  ghost predicate Clash(g: Geometry, v: Volume, i: nat)
    requires i < |v.files|
  {
    exists j :: 0 <= j < |v.files| && j != i && Lost(g, v.files[j], v.files[i].chain)
  }

  /** One operation among several files: the files stay in order together if and only if it did not take a cluster under another
      file's buffer; and the bytes, the pointers and the clusters of all other files stay. */
  lemma StepTogether(g: Geometry, modes: seq<Mode>, v: Volume, act: Act, seen: Seen, v2: Volume)
    requires Together(g, v) && Stepped(g, modes, v, act, seen, v2)
    ensures Together(g, v2) <==> !Clash(g, v2, act.file)
    ensures forall j | 0 <= j < |v.files| && j != act.file ::
      Sized(g, v2.disk, v2.files[j]) && Sized(g, v.disk, v.files[j]) && SimpleAt(g, v2, j) == SimpleAt(g, v, j).(free := CountFree(v2.fat))
  {
    hide Apart, Usable, Inv, Content, Sized, Disjoint, Lost, SimpleStep, CountFree;
    var i := act.file;
    var a, b := WorldOf(v, i), WorldOf(v2, i);
    SameSize(g, a, b);
    forall j: nat | j < |v.files| && j != i
      ensures Disjoint(v2.files[j].chain, v2.files[i].chain) && Sized(g, v2.disk, v2.files[j]) && Sized(g, v.disk, v.files[j])
      ensures FileInv(g, v2, j) <==> !Lost(g, v2.files[j], v2.files[i].chain)
      ensures SimpleAt(g, v2, j) == SimpleAt(g, v, j).(free := CountFree(v2.fat))
    {
      assert FileInv(g, v, j);
      OtherKept(g, a, b, v.files[j]);
      OtherUsable(g, v2, i, j);
    }
    forall j: nat | j < |v.files| && j != i ensures Disjoint(v2.files[i].chain, v2.files[j].chain) {
      DisjointBack(v2.files[j].chain, v2.files[i].chain);
    }
  }

  lemma DisjointBack(a: seq<u32>, b: seq<u32>)
    requires Disjoint(a, b)
    ensures Disjoint(b, a)
  {
  }

  lemma OtherUsable(g: Geometry, v: Volume, i: nat, j: nat)
    requires i < |v.files| && j < |v.files| && Usable(g, WorldOf(v, i))
    ensures Inv(g, v.fat, v.disk, v.winsect, v.files[j]) ==> Usable(g, WorldOf(v, j))
  {
    hide Mine, IsChain;
  }

  /** The sector in the buffer of a file is none or one of its own. */
  ghost predicate Home(g: Geometry, f: FilState) {
    f.sect == 0 || Within(g, f.chain, f.sect)
  }

  /** A file whose buffer holds a sector of its own cannot lose it to another file. */
  lemma HomeIsSafe(g: Geometry, modes: seq<Mode>, v: Volume, act: Act, seen: Seen, v2: Volume)
    requires Together(g, v) && Stepped(g, modes, v, act, seen, v2)
    requires forall j | 0 <= j < |v.files| && j != act.file :: Home(g, v.files[j])
    ensures Together(g, v2)
  {
    hide Together, Apart, Usable, Inv, Content, SimpleStep, CountFree;
    StepTogether(g, modes, v, act, seen, v2);
    forall j: nat | j < |v.files| && j != act.file ensures !Lost(g, v2.files[j], v2.files[act.file].chain) {
      StaysApart(g, modes, v, act, seen, v2, j);
    }
  }

  lemma StaysApart(g: Geometry, modes: seq<Mode>, v: Volume, act: Act, seen: Seen, v2: Volume, j: nat)
    requires Together(g, v) && Stepped(g, modes, v, act, seen, v2) && j < |v.files| && j != act.file
    ensures v2.files[j] == v.files[j] && Disjoint(v2.files[j].chain, v2.files[act.file].chain)
  {
    hide Apart, Usable, Inv, Content, Sized, Disjoint, SimpleStep, CountFree;
    SameSize(g, WorldOf(v, act.file), WorldOf(v2, act.file));
    assert FileInv(g, v, j);
    OtherKept(g, WorldOf(v, act.file), WorldOf(v2, act.file), v.files[j]);
  }

  /** The simple files of a volume whose files are in order. */
  ghost function Simples(g: Geometry, v: Volume): (s: seq<Simple>)
    requires Together(g, v)
    ensures |s| == |v.files|
  {
    seq(|v.files|, i requires 0 <= i < |v.files| => assert FileInv(g, v, i); SimpleAt(g, v, i))
  }

  /** One operation on one of several simple files, which share nothing but the number of free clusters. */
  ghost predicate SystemStep(g: Geometry, modes: seq<Mode>, a: seq<Simple>, act: Act, seen: Seen, b: seq<Simple>) {
    && |a| == |b| == |modes| && act.file < |a|
    && SimpleStep(g, modes[act.file].canRead, modes[act.file].canWrite, a[act.file], act.op, seen, b[act.file])
    && forall j | 0 <= j < |a| && j != act.file :: b[j] == a[j].(free := b[act.file].free)
  }

  /** Operations one after the other. */
  ghost predicate ManyRun(g: Geometry, modes: seq<Mode>, vols: seq<Volume>, acts: seq<Act>, seen: seq<Seen>) {
    && |vols| == |acts| + 1 && |seen| == |acts|
    && forall k | 0 <= k < |acts| :: Stepped(g, modes, vols[k], acts[k], seen[k], vols[k + 1])
  }

  /** Over every run of operations on several open files, in any order: as long as no operation takes a cluster under another
      file's buffer, all files stay in order together, and each behaves as its own simple file. */
  lemma {:induction false} RunTogether(g: Geometry, modes: seq<Mode>, vols: seq<Volume>, acts: seq<Act>, seen: seq<Seen>, n: nat)
    requires ManyRun(g, modes, vols, acts, seen) && n <= |acts| && Together(g, vols[0])
    requires forall k | 0 <= k < n :: acts[k].file < |vols[k + 1].files| && !Clash(g, vols[k + 1], acts[k].file)
    ensures forall k | 0 <= k <= n :: Together(g, vols[k])
    ensures forall k | 0 <= k < n :: SystemStep(g, modes, Simples(g, vols[k]), acts[k], seen[k], Simples(g, vols[k + 1]))
  {
    hide Together, Stepped, Clash, SystemStep, Simples;
    if n > 0 {
      RunTogether(g, modes, vols, acts, seen, n - 1);
      OneTogether(g, modes, vols[n - 1], acts[n - 1], seen[n - 1], vols[n]);
    }
  }

  lemma OneTogether(g: Geometry, modes: seq<Mode>, v: Volume, act: Act, seen: Seen, v2: Volume)
    requires Together(g, v) && Stepped(g, modes, v, act, seen, v2) && !Clash(g, v2, act.file)
    ensures Together(g, v2) && SystemStep(g, modes, Simples(g, v), act, seen, Simples(g, v2))
  {
    StepTogether(g, modes, v, act, seen, v2);
    hide Apart, Usable, Inv, Content, Sized, Disjoint, Lost, SimpleStep, CountFree, FileInv;
  }

  // ---- the objects

  ghost function Bufs(files: seq<Fil>): set<object> {
    set f | f in files :: f.buf
  }

  /** Different file objects of one volume. */
  ghost predicate Opened(fs: FatFs, files: seq<Fil>) {
    && (forall f | f in files :: f.fs == fs && f.buf.Length == SS && f.buf != fs.win)
    && forall i, j | 0 <= i < j < |files| :: files[i] != files[j] && files[i].buf != files[j].buf
  }

  ghost function StatesOf(files: seq<Fil>): (s: seq<FilState>)
    requires forall f | f in files :: f.buf.Length == SS
    reads files, Bufs(files)
    ensures |s| == |files| && forall i | 0 <= i < |files| :: s[i] == files[i].St()
  {
    if files == [] then [] else StatesOf(files[..|files| - 1]) + [files[|files| - 1].St()]
  }

  ghost function VolumeOf(fs: FatFs, files: seq<Fil>): Volume
    requires fs.Mounted() && Opened(fs, files)
    reads files, Bufs(files), fs`winsect, fs`wflag, fs.drive, fs.win
  {
    Volume(Table(fs), fs.Map(), fs.drive.sectors, fs.winsect, StatesOf(files))
  }

  ghost function ModesOf(files: seq<Fil>): seq<Mode> {
    seq(|files|, i requires 0 <= i < |files| => Mode(files[i].faRead, files[i].faWrite))
  }

  /** An operation on one of the open files, in whatever state the others are. */
  method PerformAmong(fs: FatFs, files: seq<Fil>, i: nat, op: Op) returns (seen: Seen)
    requires Opened(fs, files) && i < |files| && files[i].Valid() && Callable(op)
    modifies files[i], files[i].buf, fs, fs.drive, fs.win
    ensures files[i].Valid()
    ensures Stepped(fs.geo, ModesOf(files), old(VolumeOf(fs, files)), Act(i, op), seen, VolumeOf(fs, files))
  {
    hide FatFs.Mounted, Table, FatFs.Map, Mine, FreeExact, IsChain, Apart, Usable, Core, Content, Positioned, CountFree, SimpleStep, Inv, Sized;
    UsableWorld(files[i]);
    ghost var v := VolumeOf(fs, files);
    FileAlone(fs, files, i);
    seen := Perform(files[i], op);
    UsableWorld(files[i]);
    FileAlone(fs, files, i);
  }

  lemma FileAlone(fs: FatFs, files: seq<Fil>, i: nat)
    requires Opened(fs, files) && i < |files| && files[i].Valid() && Usable(fs.geo, files[i].W())
    ensures fs.Mounted() && FileInv(fs.geo, VolumeOf(fs, files), i) && Sized(fs.geo, fs.drive.sectors, files[i].St())
    ensures SimpleAt(fs.geo, VolumeOf(fs, files), i) == SimpleOf(files[i]) && WorldOf(VolumeOf(fs, files), i) == files[i].W()
  {
    hide FatFs.Mounted, Table, FatFs.Map, FreeExact, Usable, Content, CountFree;
  }

  /** Files that are in order together can all be used. */
  lemma AllUsable(fs: FatFs, files: seq<Fil>, i: nat)
    requires Opened(fs, files) && i < |files| && fs.Mounted() && FreeExact(fs) && 1 !in Table(fs) && Together(fs.geo, VolumeOf(fs, files))
    ensures files[i].Valid()
  {
    hide FatFs.Mounted, Table, FatFs.Map, FreeExact, Usable, Core, Content, CountFree, Positioned, Disjoint;
    assert FileInv(fs.geo, VolumeOf(fs, files), i);
  }
}
