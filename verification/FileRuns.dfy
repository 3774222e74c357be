/** Runs of file operations: any sequence of reads, writes, seeks and truncations on an open file
    behaves like the same sequence on a plain byte string with a cursor. */
module FileRuns {
  import opened Alloc
  import opened Arith
  import opened Bytes
  import opened Chains
  import opened FatTable
  import opened FileIO
  import opened FileModel
  import opened FileSeek
  import opened FileTruncate
  import opened VolumeGeometry
  import opened Window

  /** The simple file: its bytes, its pointer, its clusters, and the clusters that are free on the volume. */
  datatype Simple = Simple(content: seq<byte>, pos: nat, clusters: nat, free: nat)

  datatype Op = Read(btr: u32) | Write(data: seq<byte>) | Seek(ofs: u32) | Truncate

  /** What a caller sees of an operation. */
  datatype Seen = Seen(res: FResult, bytes: seq<byte>, count: nat)

  /** The pointer is inside the file, and the file fits its clusters. */
  ghost predicate Sound(g: Geometry, a: Simple) {
    a.pos <= |a.content| <= ALL_ONES && g.csize > 0 && |a.content| <= Capacity(g, a.clusters, 0)
  }

  /** From a to b clusters are taken for the bytes up to the pointer, if they are missing. */
  ghost predicate Extended(g: Geometry, a: Simple, b: Simple)
    requires g.csize > 0
  {
    b.clusters == Max(a.clusters, ClustersFor(g, b.pos)) && b.clusters + b.free == a.clusters + a.free
  }

  /** The bytes that a write gets in: all of them, but for the limits of a file's size and of the room there is. */
  ghost function Written(g: Geometry, a: Simple, n: u32): int
    requires a.pos <= ALL_ONES
  {
    Min(Clipped(a.pos, n), Capacity(g, a.clusters, a.free) - a.pos)
  }

  /** One operation on the simple file. The state and the operation determine the answer and the new state, but for the bytes
      that a seek beyond the end adds. */
  ghost predicate SimpleStep(g: Geometry, canRead: bool, canWrite: bool, a: Simple, op: Op, seen: Seen, b: Simple) {
    Sound(g, a) && Sound(g, b) &&
    match op
    case Read(btr) =>
      var n := if !canRead then 0 else if btr < |a.content| - a.pos then btr else |a.content| - a.pos;
      seen == Seen(if canRead then FR_OK else FR_DENIED, a.content[a.pos..a.pos + n], n) && b == a.(pos := a.pos + n)
    case Write(data) =>
      && |data| <= ALL_ONES
      && var n := if canWrite then Written(g, a, |data|) else 0;
      && 0 <= n <= |data| && seen == Seen(if canWrite then FR_OK else FR_DENIED, [], n)
      && b.content == Overwrite(a.content, a.pos, data[..n]) && b.pos == a.pos + n && Extended(g, a, b)
    case Seek(ofs) =>
      && seen == Seen(FR_OK, [], 0)
      && b.pos == Min(SeekTarget(canWrite, |a.content|, ofs), Capacity(g, a.clusters, a.free))
      && |b.content| == Max(|a.content|, b.pos) && a.content <= b.content && Extended(g, a, b)
    case Truncate =>
      && seen == Seen(if canWrite then FR_OK else FR_DENIED, [], 0)
      && if canWrite && a.pos < |a.content| then
        && b.content == a.content[..a.pos] && b.pos == a.pos
        && b.clusters == ClustersFor(g, a.pos) && b.clusters + b.free == a.clusters + a.free
      else b == a
  }

  /** The simple file behind an open file. */
  ghost function SimpleOf(fp: Fil): Simple
    requires fp.Valid()
    reads fp, fp.buf, fp.fs`winsect, fp.fs`wflag, fp.fs`freeClst, fp.fs.drive, fp.fs.win
  {
    Simple(fp.Data(), fp.fptr, |fp.chain|, fp.Free())
  }

  lemma SoundFile(fp: Fil)
    requires fp.Valid()
    ensures Sound(fp.fs.geo, SimpleOf(fp))
  {
    hide FatFs.Mounted, Table, FatFs.Map, FreeExact, Content, CountFree, Core;
    PointerInFile(fp);
    CoreParts(fp.fs.geo, Table(fp.fs), fp.fs.drive.sectors, fp.fs.winsect, fp.St());
  }

  predicate Callable(op: Op) {
    op.Write? ==> |op.data| <= ALL_ONES
  }

  /** f_read as an operation. */
  method DoRead(fp: Fil, btr: u32) returns (seen: Seen)
    requires fp.Valid()
    modifies fp, fp.buf, fp.fs, fp.fs.drive, fp.fs.win
    ensures fp.Valid() && SimpleStep(fp.fs.geo, fp.faRead, fp.faWrite, old(SimpleOf(fp)), Read(btr), seen, SimpleOf(fp))
    ensures Forward(fp.fs.geo, old(fp.W()), fp.W())
  {
    hide FatFs.Mounted, Table, FatFs.Map, Mine, FreeExact, IsChain, Forward, Core, Content, Positioned, CountFree, Sound;
    SoundFile(fp);
    PointerInFile(fp);
    ghost var d0, p := fp.Data(), fp.fptr;
    var rbuff := new byte[btr](_ => 0);
    var res, br := FRead(fp, rbuff, btr);
    SoundFile(fp);
    seen := Seen(res, rbuff[..br], br);
    assert rbuff[..br] == d0[p..p + br];
  }

  /** f_write as an operation. */
  method DoWrite(fp: Fil, data: seq<byte>) returns (seen: Seen)
    requires fp.Valid() && |data| <= ALL_ONES
    modifies fp, fp.buf, fp.fs, fp.fs.drive, fp.fs.win
    ensures fp.Valid() && SimpleStep(fp.fs.geo, fp.faRead, fp.faWrite, old(SimpleOf(fp)), Write(data), seen, SimpleOf(fp))
    ensures Forward(fp.fs.geo, old(fp.W()), fp.W())
  {
    hide FatFs.Mounted, Table, FatFs.Map, Mine, FreeExact, IsChain, Forward, Core, Content, Positioned, Overwrite, Clipped, CountFree, Sound, Capacity, ClustersFor;
    SoundFile(fp);
    PointerInFile(fp);
    var res, bw := FWrite(fp, data, |data|);
    SoundFile(fp);
    seen := Seen(res, [], bw);
  }

  /** f_lseek as an operation. */
  method DoSeek(fp: Fil, ofs: u32) returns (seen: Seen)
    requires fp.Valid()
    modifies fp, fp.buf, fp.fs, fp.fs.drive, fp.fs.win
    ensures fp.Valid() && SimpleStep(fp.fs.geo, fp.faRead, fp.faWrite, old(SimpleOf(fp)), Seek(ofs), seen, SimpleOf(fp))
    ensures Forward(fp.fs.geo, old(fp.W()), fp.W())
  {
    hide FatFs.Mounted, Table, FatFs.Map, Mine, FreeExact, IsChain, Forward, Core, Content, Positioned, CountFree, Sound, Capacity, ClustersFor;
    SoundFile(fp);
    var res := FLseek(fp, ofs);
    SoundFile(fp);
    seen := Seen(res, [], 0);
  }

  /** f_truncate as an operation. */
  method DoTruncate(fp: Fil) returns (seen: Seen)
    requires fp.Valid()
    modifies fp, fp.buf, fp.fs, fp.fs.drive, fp.fs.win
    ensures fp.Valid() && SimpleStep(fp.fs.geo, fp.faRead, fp.faWrite, old(SimpleOf(fp)), Truncate, seen, SimpleOf(fp))
    ensures Backward(fp.fs.geo, old(fp.W()), fp.W())
  {
    hide FatFs.Mounted, Table, FatFs.Map, Mine, FreeExact, IsChain, Backward, Core, Content, Positioned, CountFree, Sound, ClustersFor;
    SoundFile(fp);
    var res := FTruncate(fp);
    SoundFile(fp);
    seen := Seen(res, [], 0);
  }

  /** Clusters outside the file are left alone: entries, data sectors, the place of the window. */
  ghost predicate Apart(g: Geometry, a: World, b: World) {
    Confined(g, a, b) && Spares(g, a, b)
  }

  /** Every operation refines its step on the simple file. */
  method Perform(fp: Fil, op: Op) returns (seen: Seen)
    requires fp.Valid() && Callable(op)
    modifies fp, fp.buf, fp.fs, fp.fs.drive, fp.fs.win
    ensures fp.Valid() && SimpleStep(fp.fs.geo, fp.faRead, fp.faWrite, old(SimpleOf(fp)), op, seen, SimpleOf(fp))
    ensures Apart(fp.fs.geo, old(fp.W()), fp.W())
  {
    hide FatFs.Mounted, Table, FatFs.Map, Mine, FreeExact, IsChain, Confined, Spares, Core, Content, Positioned, CountFree, SimpleStep;
    match op {
      case Read(btr) => seen := DoRead(fp, btr);
      case Write(data) => seen := DoWrite(fp, data);
      case Seek(ofs) => seen := DoSeek(fp, ofs);
      case Truncate => seen := DoTruncate(fp);
    }
  }

  /** A run of the simple file through the given states. */
  ghost predicate SimpleRun(g: Geometry, canRead: bool, canWrite: bool, states: seq<Simple>, ops: seq<Op>, seen: seq<Seen>) {
    && |ops| == |seen| && |states| == |ops| + 1
    && forall i | 0 <= i < |ops| :: SimpleStep(g, canRead, canWrite, states[i], ops[i], seen[i], states[i + 1])
  }

  /** Every run of operations on the file is a run of the simple file, from the bytes it had to the bytes it has;
      other files' clusters and sectors are not touched. */
  method Run(fp: Fil, ops: seq<Op>) returns (seen: seq<Seen>, ghost states: seq<Simple>)
    requires fp.Valid() && forall i | 0 <= i < |ops| :: Callable(ops[i])
    modifies fp, fp.buf, fp.fs, fp.fs.drive, fp.fs.win
    ensures fp.Valid() && SimpleRun(fp.fs.geo, fp.faRead, fp.faWrite, states, ops, seen)
    ensures states[0] == old(SimpleOf(fp)) && states[|ops|] == SimpleOf(fp)
    ensures Confined(fp.fs.geo, old(fp.W()), fp.W())
  {
    hide FatFs.Mounted, Table, FatFs.Map, Mine, FreeExact, IsChain, Confined, Spares, Core, Content, Positioned, CountFree, SimpleStep;
    seen, states := [], [SimpleOf(fp)];
    ghost var w0 := fp.W();
    ConfinedRefl(fp.fs.geo, w0);
    for k := 0 to |ops|
      invariant fp.Valid() && SimpleRun(fp.fs.geo, fp.faRead, fp.faWrite, states, ops[..k], seen)
      invariant states[0] == old(SimpleOf(fp)) && states[k] == SimpleOf(fp)
      invariant Confined(fp.fs.geo, w0, fp.W())
    {
      ghost var w1 := fp.W();
      var one := Perform(fp, ops[k]);
      ConfinedTrans(fp.fs.geo, w0, w1, fp.W());
      seen, states := seen + [one], states + [SimpleOf(fp)];
      assert ops[..k + 1] == ops[..k] + [ops[k]];
    }
    assert ops[..|ops|] == ops;
  }

  /** What is written can be read back: a complete write, a seek to where it began, a read. */
  lemma ReadBack(g: Geometry, a: Simple, data: seq<byte>, w: Seen, b: Simple, s: Seen, c: Simple, r: Seen, d: Simple)
    requires SimpleStep(g, true, true, a, Write(data), w, b) && w.count == |data|
    requires SimpleStep(g, true, true, b, Seek(a.pos), s, c)
    requires SimpleStep(g, true, true, c, Read(|data|), r, d)
    ensures r.bytes == data && d == b
  {
    RoomEnough(g, b.clusters, b.free);
    NeededMore(g, a.pos, b.pos);
    hide Capacity, ClustersFor;
    assert c.content == b.content;
    assert b.content[a.pos..a.pos + |data|] == data;
  }

  lemma RoomEnough(g: Geometry, clusters: nat, free: nat)
    ensures Capacity(g, clusters, 0) <= Capacity(g, clusters, free)
  {
    MulLe(g.csize, clusters, clusters + free);
  }

  /** Along a run no operation but a write or a truncation changes an existing byte, and only a write or a
      seek beyond the end makes the file longer. */
  lemma {:induction false} ExistingBytesKept(g: Geometry, canRead: bool, canWrite: bool, states: seq<Simple>, ops: seq<Op>, seen: seq<Seen>, k: nat)
    requires SimpleRun(g, canRead, canWrite, states, ops, seen) && k <= |ops|
    requires forall i | 0 <= i < k :: ops[i].Read? || ops[i].Seek?
    ensures states[0].content <= states[k].content
  {
    if k > 0 {
      ExistingBytesKept(g, canRead, canWrite, states, ops, seen, k - 1);
      assert SimpleStep(g, canRead, canWrite, states[k - 1], ops[k - 1], seen[k - 1], states[k]);
    }
  }

  /** The states agree in all but the bytes. */
  ghost predicate SameShape(a: Simple, b: Simple) {
    |a.content| == |b.content| && a.pos == b.pos && a.clusters == b.clusters && a.free == b.free
  }

  /** A run is determined by where it starts and what is done: how many bytes each operation moves, where the pointer stands, how
      long the file is, and which part of the volume it has, at every step. */
  lemma {:induction false} RunDetermined(g: Geometry, canRead: bool, canWrite: bool, ops: seq<Op>, states: seq<Simple>, seen: seq<Seen>,
                                         states2: seq<Simple>, seen2: seq<Seen>, k: nat)
    requires SimpleRun(g, canRead, canWrite, states, ops, seen) && SimpleRun(g, canRead, canWrite, states2, ops, seen2) && k <= |ops|
    requires SameShape(states[0], states2[0])
    ensures SameShape(states[k], states2[k]) && states[k].clusters + states[k].free == states[0].clusters + states[0].free
    ensures forall i | 0 <= i < k :: seen[i].res == seen2[i].res && seen[i].count == seen2[i].count
  {
    if k > 0 {
      RunDetermined(g, canRead, canWrite, ops, states, seen, states2, seen2, k - 1);
      assert SimpleStep(g, canRead, canWrite, states[k - 1], ops[k - 1], seen[k - 1], states[k]);
      assert SimpleStep(g, canRead, canWrite, states2[k - 1], ops[k - 1], seen2[k - 1], states2[k]);
      hide Capacity, ClustersFor;
    }
  }
}
