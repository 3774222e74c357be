/** The heap of cluster chains under any run of create_chain and remove_chain calls. */
module HeapRuns {
  import opened Alloc
  import opened Bytes
  import opened Chains
  import opened Window

  /** A FAT and the chains in it. */
  datatype HeapState = HeapState(fat: FatSeq, H: set<seq<u32>>)

  datatype HeapOp =
    | Create(clst: u32)               // create_chain: a new chain (0), or the chain clst belongs to
    | Remove(clst: u32, pclst: u32)   // remove_chain: from clst on, behind pclst (0 for the whole chain)

  /** The heap after create_chain(clst) answered r; cs is the chain of clst. */
  ghost function AfterCreate(s: HeapState, fat2: FatSeq, clst: u32, cs: seq<u32>, r: u32): HeapState {
    HeapState(fat2, if fat2 == s.fat then s.H else if clst == 0 then s.H + {[r]} else s.H - {cs} + {cs + [r]})
  }

  /** The heap after the chain cs was cut before position k. */
  ghost function AfterCut(s: HeapState, fat2: FatSeq, cs: seq<u32>, k: nat): HeapState
    requires k <= |cs|
  {
    HeapState(fat2, if k == 0 then s.H - {cs} else s.H - {cs} + {cs[..k]})
  }

  ghost predicate WellFormed(s: HeapState) {
    Heap(s.fat, s.H) && 1 !in s.fat
  }

  /** create_chain on a heap: with a cluster that has a successor it only moves on; else it takes one cluster that
      no chain has, and it fails exactly when no cluster is free. The heap stays a heap. */
  lemma CreateOnHeap(s: HeapState, fat2: FatSeq, clst: u32, cs: seq<u32>, i: nat, r: u32, eoc: u32)
    requires WellFormed(s) && |s.fat| <= eoc && CreateSpec(s.fat, fat2, clst, r, eoc)
    requires clst != 0 ==> cs in s.H && i < |cs| && cs[i] == clst
    ensures WellFormed(AfterCreate(s, fat2, clst, cs, r))
    ensures clst != 0 && i + 1 < |cs| ==> fat2 == s.fat && r == cs[i + 1]
    ensures clst == 0 || i + 1 == |cs| ==> (r == 0 <==> NoFree(s.fat)) && (r == 0 <==> fat2 == s.fat)
    ensures fat2 != s.fat ==> IsCl(s.fat, r) && s.fat[r] == 0 && (forall ds | ds in s.H :: r !in ds)
    ensures forall c | IsCl(s.fat, c) && s.fat[c] != 0 && c != clst :: fat2[c] == s.fat[c]
  {
    var fat := s.fat;
    if clst != 0 {
      LinkOf(fat, cs, i);
    }
    if fat2 != fat {
      if clst == 0 {
        CreateKeepsHeap(fat, s.H, r, eoc);
      } else {
        AppendKeepsHeap(fat, s.H, cs, r, eoc);
      }
    }
    if r > 1 && (clst == 0 || i + 1 == |cs|) {
      assert fat2[r] != fat[r];
    }
  }

  /** remove_chain on a heap: it frees exactly the clusters from position k of the chain on, leaves the rest of that
      chain as a chain, and changes no entry of any other cluster. */
  lemma RemoveOnHeap(s: HeapState, fat2: FatSeq, cs: seq<u32>, k: nat, res: FResult, eoc: u32)
    requires WellFormed(s) && |s.fat| <= eoc && cs in s.H && k < |cs|
    requires RemoveSpec(s.fat, fat2, cs[k], if k == 0 then 0 else cs[k - 1], res, eoc)
    ensures res == FR_OK && WellFormed(AfterCut(s, fat2, cs, k))
    ensures |fat2| == |s.fat| && forall d: nat | d < |s.fat| ::
      fat2[d] == if d in cs[k..] then 0 else if k > 0 && d == cs[k - 1] then eoc else s.fat[d]
  {
    LinkOf(s.fat, cs, k);
    if k == 0 {
      DropKeepsHeap(s.fat, s.H, cs);
      assert cs[0..] == cs;
    } else {
      LinkOf(s.fat, cs, k - 1);
      CutKeepsHeap(s.fat, s.H, cs, k, eoc);
    }
  }

  /** create_chain from cluster number i of chain cs, or from 0. */
  ghost predicate CreateStep(s: HeapState, t: HeapState, clst: u32, cs: seq<u32>, i: nat, r: u32, eoc: u32) {
    (clst != 0 ==> cs in s.H && i < |cs| && cs[i] == clst) && CreateSpec(s.fat, t.fat, clst, r, eoc) && t == AfterCreate(s, t.fat, clst, cs, r)
  }

  /** remove_chain from cluster number k of chain cs on. */
  ghost predicate RemoveStep(s: HeapState, t: HeapState, clst: u32, pclst: u32, cs: seq<u32>, k: nat, res: FResult, eoc: u32) {
    && cs in s.H && k < |cs| && cs[k] == clst && pclst == (if k == 0 then 0 else cs[k - 1])
    && RemoveSpec(s.fat, t.fat, clst, pclst, res, eoc) && t == AfterCut(s, t.fat, cs, k)
  }

  /** One call with arguments that name chains of the heap, and the heap it leaves. */
  ghost predicate HeapStep(s: HeapState, op: HeapOp, t: HeapState, eoc: u32) {
    match op
    case Create(clst) => exists cs, i: nat, r :: CreateStep(s, t, clst, cs, i, r, eoc)
    case Remove(clst, pclst) => exists cs, k: nat, res :: RemoveStep(s, t, clst, pclst, cs, k, res, eoc)
  }

  /** Over every run the chains stay acyclic, disjoint and properly ended. */
  lemma {:induction false} HeapOverRuns(states: seq<HeapState>, ops: seq<HeapOp>, eoc: u32, n: nat)
    requires |states| == |ops| + 1 && n <= |ops|
    requires WellFormed(states[0]) && |states[0].fat| <= eoc
    requires forall i | 0 <= i < |ops| :: HeapStep(states[i], ops[i], states[i + 1], eoc)
    ensures WellFormed(states[n]) && |states[n].fat| == |states[0].fat|
    ensures forall cs | cs in states[n].H :: Distinct(cs)
  {
    if n > 0 {
      HeapOverRuns(states, ops, eoc, n - 1);
      StepKeepsHeap(states[n - 1], ops[n - 1], states[n], eoc);
    }
    forall cs | cs in states[n].H ensures Distinct(cs) {
      ChainDistinct(states[n].fat, cs);
    }
  }

  lemma CreateStepKeeps(s: HeapState, t: HeapState, clst: u32, cs: seq<u32>, i: nat, r: u32, eoc: u32)
    requires WellFormed(s) && |s.fat| <= eoc && CreateStep(s, t, clst, cs, i, r, eoc)
    ensures WellFormed(t) && |t.fat| == |s.fat|
  {
    CreateOnHeap(s, t.fat, clst, cs, i, r, eoc);
  }

  lemma RemoveStepKeeps(s: HeapState, t: HeapState, clst: u32, pclst: u32, cs: seq<u32>, k: nat, res: FResult, eoc: u32)
    requires WellFormed(s) && |s.fat| <= eoc && RemoveStep(s, t, clst, pclst, cs, k, res, eoc)
    ensures WellFormed(t) && |t.fat| == |s.fat|
  {
    RemoveOnHeap(s, t.fat, cs, k, res, eoc);
  }

  lemma StepKeepsHeap(s: HeapState, op: HeapOp, t: HeapState, eoc: u32)
    requires WellFormed(s) && |s.fat| <= eoc && HeapStep(s, op, t, eoc)
    ensures WellFormed(t) && |t.fat| == |s.fat|
  {
    hide WellFormed, CreateStep, RemoveStep;
    match op
    case Create(clst) =>
      var cs, i: nat, r :| CreateStep(s, t, clst, cs, i, r, eoc);
      CreateStepKeeps(s, t, clst, cs, i, r, eoc);
    case Remove(clst, pclst) =>
      var cs, k: nat, res :| RemoveStep(s, t, clst, pclst, cs, k, res, eoc);
      RemoveStepKeeps(s, t, clst, pclst, cs, k, res, eoc);
  }
}
