/** Cluster chains in a FAT seen as an integer array: what chains are, and what allocating
    and removing clusters does to a whole heap of them. Nothing here reads a volume. */
module Chains {
  import opened Bytes

  type FatSeq = seq<u32>

  predicate IsCl(fat: FatSeq, c: int) {
    2 <= c < |fat|
  }

  /** cs follows the links from its first cluster to an end mark. */
  ghost predicate IsChain(fat: FatSeq, cs: seq<u32>) {
    && |cs| > 0
    && (forall i | 0 <= i < |cs| :: IsCl(fat, cs[i]))
    && (forall i | 0 <= i < |cs| - 1 :: fat[cs[i]] == cs[i + 1])
    && fat[cs[|cs| - 1]] >= |fat|
  }

  ghost predicate Distinct(cs: seq<u32>) {
    forall i, j | 0 <= i < j < |cs| :: cs[i] != cs[j]
  }

  /** A chain is acyclic: the end mark at its end forbids meeting a cluster twice. */
  lemma {:induction false} ChainDistinct(fat: FatSeq, cs: seq<u32>)
    requires IsChain(fat, cs)
    ensures Distinct(cs)
  {
    forall i, j | 0 <= i < j < |cs| ensures cs[i] != cs[j] {
      if cs[i] == cs[j] {
        SameTail(fat, cs, i, j);
      }
    }
  }

  lemma {:induction false} SameTail(fat: FatSeq, cs: seq<u32>, i: nat, j: nat)
    requires IsChain(fat, cs) && i < j < |cs|
    ensures cs[i] != cs[j]
    decreases |cs| - j
  {
    if cs[i] == cs[j] {
      assert fat[cs[i]] == cs[i + 1] && IsCl(fat, cs[i + 1]);
      if j + 1 < |cs| {
        SameTail(fat, cs, i + 1, j + 1);
      }
    }
  }

  /** There is only one chain from a given cluster. */
  lemma {:induction false} ChainUnique(fat: FatSeq, cs: seq<u32>, ds: seq<u32>)
    requires IsChain(fat, cs) && IsChain(fat, ds) && cs[0] == ds[0]
    ensures cs == ds
  {
    assert |cs| > 1 ==> fat[cs[0]] == cs[1] && IsCl(fat, cs[1]);
    assert |ds| > 1 ==> fat[ds[0]] == ds[1] && IsCl(fat, ds[1]);
    if |cs| > 1 && |ds| > 1 {
      ChainUnique(fat, cs[1..], ds[1..]);
    }
  }

  /** What the FAT says at position i of a chain. */
  lemma LinkOf(fat: FatSeq, chain: seq<u32>, i: nat)
    requires IsChain(fat, chain) && i < |chain|
    ensures IsCl(fat, chain[i]) && fat[chain[i]] >= 2
    ensures if i + 1 < |chain| then fat[chain[i]] == chain[i + 1] && IsCl(fat, chain[i + 1]) else fat[chain[i]] >= |fat|
  {
    assert i + 1 < |chain| ==> IsCl(fat, chain[i + 1]);
  }

  /** A chain is no longer than the FAT. */
  lemma {:induction false} DistinctLength(cs: seq<u32>, n: nat)
    requires Distinct(cs) && forall c | c in cs :: c < n
    ensures |cs| <= n
    decreases n
  {
    if cs == [] {
    } else if i: nat :| i < |cs| && cs[i] == n - 1 {
      var rest := cs[..i] + cs[i + 1..];
      assert forall c | c in rest :: c in cs && c != n - 1;
      DistinctLength(rest, n - 1);
    } else {
      assert cs[0] in cs;
      assert forall c | c in cs :: c != n - 1;
      DistinctLength(cs, n - 1);
    }
  }

  // ---- free clusters

  /** Number of free clusters below k. */
  function FreeBelow(fat: FatSeq, k: nat): (n: nat)
    requires k <= |fat|
    ensures n <= if k > 2 then k - 2 else 0
  {
    if k <= 2 then 0 else FreeBelow(fat, k - 1) + if fat[k - 1] == 0 then 1 else 0
  }

  function CountFree(fat: FatSeq): nat {
    FreeBelow(fat, |fat|)
  }

  ghost predicate NoFree(fat: FatSeq) {
    forall c | IsCl(fat, c) :: fat[c] != 0
  }

  lemma {:induction false} FreeBelowUpdate(fat: FatSeq, c: u32, v: u32, k: nat)
    requires IsCl(fat, c) && k <= |fat|
    ensures FreeBelow(fat[c := v], k) ==
            FreeBelow(fat, k) + if c < k then (if v == 0 then 1 else 0) - (if fat[c] == 0 then 1 else 0) else 0
  {
    if k > 2 {
      FreeBelowUpdate(fat, c, v, k - 1);
    }
  }

  /** Writing an entry changes the count by what it does to that entry. */
  lemma CountFreeUpdate(fat: FatSeq, c: u32, v: u32)
    requires IsCl(fat, c)
    ensures CountFree(fat[c := v]) == CountFree(fat) + (if v == 0 then 1 else 0) - (if fat[c] == 0 then 1 else 0)
  {
    FreeBelowUpdate(fat, c, v, |fat|);
  }

  lemma {:induction false} FreeBelowZero(fat: FatSeq, k: nat)
    requires k <= |fat|
    ensures FreeBelow(fat, k) == 0 <==> forall c | 2 <= c < k :: fat[c] != 0
  {
    if k > 2 {
      FreeBelowZero(fat, k - 1);
    }
  }

  lemma CountFreeZero(fat: FatSeq)
    ensures CountFree(fat) == 0 <==> NoFree(fat)
  {
    FreeBelowZero(fat, |fat|);
  }

  // ---- conservation

  ghost function FreeSet(fat: FatSeq, k: nat): set<nat>
    requires k <= |fat|
  {
    set c: nat | 2 <= c < k && fat[c] == 0
  }

  lemma {:induction false} FreeSize(fat: FatSeq, k: nat)
    requires k <= |fat|
    ensures |FreeSet(fat, k)| == FreeBelow(fat, k)
  {
    if k <= 2 {
      assert FreeSet(fat, k) == {};
    } else {
      FreeSize(fat, k - 1);
      var t := FreeSet(fat, k - 1);
      if fat[k - 1] == 0 {
        assert FreeSet(fat, k) == t + {k - 1};
      } else {
        assert FreeSet(fat, k) == t;
      }
    }
  }

  ghost function Members(cs: seq<u32>): set<nat> {
    set i | 0 <= i < |cs| :: cs[i]
  }

  lemma {:induction false} DistinctSize(cs: seq<u32>)
    requires Distinct(cs)
    ensures |Members(cs)| == |cs|
    decreases |cs|
  {
    if cs == [] {
    } else {
      var rest, c := cs[..|cs| - 1], cs[|cs| - 1];
      DistinctSize(rest);
      forall d ensures d in Members(cs) <==> d in Members(rest) || d == c {
        assert d in Members(cs) <==> exists i :: 0 <= i < |cs| && cs[i] == d;
        assert d in Members(rest) <==> exists i :: 0 <= i < |rest| && rest[i] == d;
        assert cs == rest + [c];
      }
      assert Members(cs) == Members(rest) + {c};
    }
  }

  /** The free clusters and those of the chain, counted. */
  lemma OwnSize(fat: FatSeq, chain: seq<u32>)
    requires chain != [] ==> IsChain(fat, chain)
    ensures |set c: nat | 2 <= c < |fat| && (fat[c] == 0 || c in chain)| == CountFree(fat) + |chain|
  {
    if chain != [] { ChainDistinct(fat, chain); }
    FreeSize(fat, |fat|);
    DistinctSize(chain);
    var own := set c: nat | 2 <= c < |fat| && (fat[c] == 0 || c in chain);
    forall c | c in chain ensures IsCl(fat, c) && fat[c] != 0 {
      var i: nat :| i < |chain| && chain[i] == c;
      LinkOf(fat, chain, i);
    }
    assert own == FreeSet(fat, |fat|) + Members(chain);
  }

  /** What a chain loses or gains becomes free or was free: nothing else changes hands. */
  lemma Conserved(fat: FatSeq, chain: seq<u32>, fat2: FatSeq, chain2: seq<u32>)
    requires |fat2| == |fat| && (chain != [] ==> IsChain(fat, chain)) && (chain2 != [] ==> IsChain(fat2, chain2))
    requires forall c | IsCl(fat, c) :: (fat2[c] == 0 || c in chain2) <==> (fat[c] == 0 || c in chain)
    ensures CountFree(fat2) + |chain2| == CountFree(fat) + |chain|
  {
    OwnSize(fat, chain);
    OwnSize(fat2, chain2);
    assert (set c: nat | 2 <= c < |fat| && (fat[c] == 0 || c in chain)) == (set c: nat | 2 <= c < |fat2| && (fat2[c] == 0 || c in chain2)) by {
      assert forall c: nat | 2 <= c < |fat| :: IsCl(fat, c);
    }
  }

  // ---- the heap of chains

  /** H is a heap of chains of this FAT: no two of them meet. */
  ghost predicate Heap(fat: FatSeq, H: set<seq<u32>>) {
    && (forall cs | cs in H :: IsChain(fat, cs))
    && (forall cs, ds, c | cs in H && ds in H && c in cs && c in ds :: cs == ds)
  }

  /** Making a new chain of one free cluster r. */
  function Created(fat: FatSeq, r: u32, eoc: u32): FatSeq
    requires IsCl(fat, r)
  {
    fat[r := eoc]
  }

  /** Linking a free cluster r behind the last cluster t of a chain. */
  function Appended(fat: FatSeq, t: u32, r: u32, eoc: u32): FatSeq
    requires IsCl(fat, r) && IsCl(fat, t)
  {
    fat[r := eoc][t := r]
  }

  /** A new chain is one cluster no chain had, and every other chain stays. */
  lemma CreateKeepsHeap(fat: FatSeq, H: set<seq<u32>>, r: u32, eoc: u32)
    requires Heap(fat, H) && IsCl(fat, r) && fat[r] == 0 && eoc >= |fat|
    ensures Heap(Created(fat, r, eoc), H + {[r]}) && forall cs | cs in H :: r !in cs
  {
    forall cs | cs in H ensures r !in cs && IsChain(Created(fat, r, eoc), cs) {
      ChainHasNoFree(fat, cs, r);
    }
    assert IsChain(Created(fat, r, eoc), [r]);
  }

  lemma ChainHasNoFree(fat: FatSeq, cs: seq<u32>, r: u32)
    requires IsChain(fat, cs) && r < |fat| && fat[r] == 0
    ensures r !in cs
  {
    if i: nat :| i < |cs| && cs[i] == r {
      assert i < |cs| - 1 ==> IsCl(fat, cs[i + 1]);
    }
  }

  /** Appending extends one chain by one cluster no chain had, and every other chain stays. */
  lemma AppendKeepsHeap(fat: FatSeq, H: set<seq<u32>>, cs: seq<u32>, r: u32, eoc: u32)
    requires Heap(fat, H) && cs in H && IsCl(fat, r) && fat[r] == 0 && eoc >= |fat|
    ensures Heap(Appended(fat, cs[|cs| - 1], r, eoc), H - {cs} + {cs + [r]}) && forall ds | ds in H :: r !in ds
  {
    var t := cs[|cs| - 1];
    var fat2 := Appended(fat, t, r, eoc);
    forall ds | ds in H ensures r !in ds {
      ChainHasNoFree(fat, ds, r);
    }
    ChainDistinct(fat, cs);
    var cs2 := cs + [r];
    forall i | 0 <= i < |cs2| - 1 ensures fat2[cs2[i]] == cs2[i + 1] {
      if i < |cs| - 1 {
        assert cs[i] != t;
      }
    }
    forall ds | ds in H && ds != cs ensures IsChain(fat2, ds) {
      assert t in cs && t !in ds;
    }
  }

  // ---- removal

  /** The loop of remove_chain on any FAT at all: free the cluster, go on to what it linked to.
      Every step turns a used entry into a free one, so it ends whatever the links are. */
  function Walk(fat: FatSeq, c: u32): (r: (FatSeq, bool))
    requires IsCl(fat, c)
    ensures |r.0| == |fat|
    decreases |fat| - CountFree(fat)
  {
    if fat[c] == 0 then (fat, true)
    else if fat[c] == 1 then (fat, false)
    else
      CountFreeUpdate(fat, c, 0);
      if fat[c] < |fat| then Walk(fat[c := 0], fat[c]) else (fat[c := 0], true)
  }

  /** d is met when following at most k links from c. */
  ghost predicate Reaches(fat: FatSeq, c: u32, d: u32, k: nat)
    requires IsCl(fat, c)
    decreases k
  {
    c == d || (k > 0 && IsCl(fat, fat[c]) && Reaches(fat, fat[c], d, k - 1))
  }

  ghost predicate Reachable(fat: FatSeq, c: u32, d: u32)
    requires IsCl(fat, c)
  {
    exists k: nat :: Reaches(fat, c, d, k)
  }

  /** Whatever the FAT, the walk only frees, and only clusters that the links lead to. */
  lemma {:induction false} WalkFreesReachable(fat: FatSeq, c: u32, d: u32)
    requires IsCl(fat, c) && d < |fat|
    ensures var fat2 := Walk(fat, c).0; fat2[d] == fat[d] || (fat2[d] == 0 && Reachable(fat, c, d))
    decreases |fat| - CountFree(fat)
  {
    if fat[c] > 1 {
      var fat1 := fat[c := 0];
      CountFreeUpdate(fat, c, 0);
      if c == d {
        assert Reaches(fat, c, d, 0);
        if fat[c] < |fat| {
          WalkOnlyFrees(fat1, fat[c], d);
        }
      } else if fat[c] < |fat| {
        WalkFreesReachable(fat1, fat[c], d);
        if Reachable(fat1, fat[c], d) {
          var k: nat :| Reaches(fat1, fat[c], d, k);
          ReachesBefore(fat, c, fat[c], d, k);
          assert Reaches(fat, c, d, k + 1);
        }
      }
    }
  }

  lemma {:induction false} WalkOnlyFrees(fat: FatSeq, c: u32, d: u32)
    requires IsCl(fat, c) && d < |fat|
    ensures var fat2 := Walk(fat, c).0; fat2[d] == fat[d] || fat2[d] == 0
    decreases |fat| - CountFree(fat)
  {
    if fat[c] > 1 {
      CountFreeUpdate(fat, c, 0);
      if fat[c] < |fat| {
        WalkOnlyFrees(fat[c := 0], fat[c], d);
      }
    }
  }

  lemma {:induction false} ReachesBefore(fat: FatSeq, z: u32, c: u32, d: u32, k: nat)
    requires IsCl(fat, z) && IsCl(fat, c) && Reaches(fat[z := 0], c, d, k)
    ensures Reaches(fat, c, d, k)
    decreases k
  {
    if c != d {
      ReachesBefore(fat, z, fat[c], d, k - 1);
    }
  }

  /** On a chain the walk frees exactly its clusters. */
  lemma {:induction false} WalkChain(fat: FatSeq, cs: seq<u32>)
    requires IsChain(fat, cs)
    ensures Walk(fat, cs[0]).1
    ensures forall d: nat | d < |fat| :: Walk(fat, cs[0]).0[d] == if d in cs then 0 else fat[d]
    decreases |cs|
  {
    ChainDistinct(fat, cs);
    var c := cs[0];
    assert fat[c] > 1 by {
      assert |cs| > 1 ==> IsCl(fat, cs[1]);
    }
    if |cs| > 1 {
      var fat1 := fat[c := 0];
      CountFreeUpdate(fat, c, 0);
      assert IsChain(fat1, cs[1..]);
      WalkChain(fat1, cs[1..]);
      assert cs == [c] + cs[1..];
    }
  }

  /** Cutting a chain before position k: first the new last cluster is marked, then the rest is freed.
      The kept part is a chain, the rest is free, and all other chains and entries stay. */
  lemma CutKeepsHeap(fat: FatSeq, H: set<seq<u32>>, cs: seq<u32>, k: nat, eoc: u32)
    requires Heap(fat, H) && cs in H && 0 < k < |cs| && eoc >= |fat|
    ensures var fat2 := Walk(fat[cs[k - 1] := eoc], cs[k]);
            fat2.1 && Heap(fat2.0, H - {cs} + {cs[..k]})
            && forall d: nat | d < |fat| ::
                 fat2.0[d] == if d in cs[k..] then 0 else if d == cs[k - 1] then eoc else fat[d]
  {
    ChainDistinct(fat, cs);
    var fat1 := fat[cs[k - 1] := eoc];
    assert IsChain(fat1, cs[k..]);
    WalkChain(fat1, cs[k..]);
    var fat2 := Walk(fat1, cs[k]).0;
    PrefixIsChain(fat, fat2, cs, k, eoc);
    OthersStay(fat, fat2, H, cs);
    assert forall c | c in cs[..k] :: c in cs;
  }

  lemma PrefixIsChain(fat: FatSeq, fat2: FatSeq, cs: seq<u32>, k: nat, eoc: u32)
    requires IsChain(fat, cs) && 0 < k <= |cs| && eoc >= |fat| == |fat2| && Distinct(cs)
    requires fat2[cs[k - 1]] == eoc
    requires forall i | 0 <= i < k - 1 :: cs[i] !in cs[k..] && cs[i] != cs[k - 1] ==> fat2[cs[i]] == fat[cs[i]]
    ensures IsChain(fat2, cs[..k])
  {
  }

  /** Chains other than cs do not notice changes to clusters of cs. */
  lemma OthersStay(fat: FatSeq, fat2: FatSeq, H: set<seq<u32>>, cs: seq<u32>)
    requires Heap(fat, H) && cs in H && |fat2| == |fat|
    requires forall d: nat | d < |fat| && d !in cs :: fat2[d] == fat[d]
    ensures Heap(fat2, H - {cs})
  {
    forall ds | ds in H && ds != cs ensures IsChain(fat2, ds) {
      forall c | c in ds ensures fat2[c] == fat[c] {
        assert c !in cs;
      }
    }
  }

  /** Removing a whole chain frees exactly its clusters; all other chains and entries stay. */
  lemma DropKeepsHeap(fat: FatSeq, H: set<seq<u32>>, cs: seq<u32>)
    requires Heap(fat, H) && cs in H
    ensures var fat2 := Walk(fat, cs[0]);
            fat2.1 && Heap(fat2.0, H - {cs})
            && forall d: nat | d < |fat| :: fat2.0[d] == if d in cs then 0 else fat[d]
  {
    WalkChain(fat, cs);
    OthersStay(fat, Walk(fat, cs[0]).0, H, cs);
  }
}
