/** The heap array when the tree is built: all nodes by frequency, fathers first. */
module HeapLayout {
  import opened Bits
  import opened Sums
  import opened Huffman
  import opened Heaps
  import opened Trees
  import opened Merging

  /** From a position on, no node is less frequent than those behind it. */
  ghost predicate Descending(f: seq<nat>, h: seq<nat>, from: nat)
  {
    && (forall p :: from <= p < |h| ==> h[p] < |f|)
    && forall p, q :: from <= p <= q < |h| ==> f[h[p]] >= f[h[q]]
  }

  /** Every node behind a position has its father before it. */
  ghost predicate FathersFirst(dl: seq<nat>, h: seq<nat>, root: nat)
  {
    forall p :: root < p < |h| ==> h[p] < |dl| && exists q :: root <= q < p && h[q] == dl[h[p]]
  }

  ghost predicate DownAt(f: seq<nat>, h: seq<nat>, p: nat)
  {
    p + 1 < |h| && h[p] < |f| && h[p + 1] < |f| && f[h[p]] >= f[h[p + 1]]
  }

  lemma {:induction false} StepsDown(f: seq<nat>, h: seq<nat>, p: nat, q: nat)
    requires p <= q < |h| && h[p] < |f| && forall k :: p <= k < q ==> DownAt(f, h, k)
    ensures h[q] < |f| && f[h[p]] >= f[h[q]]
  {
    if p < q {
      assert DownAt(f, h, q - 1);
      StepsDown(f, h, p, q - 1);
    }
  }

  /** The nodes of the heap array are those of the merges, the root in front. */
  ghost predicate AllStored(h: seq<nat>, elems: nat, merges: seq<Merge>, root: nat)
  {
    && LaidOut(h, merges) && merges != [] && root == HEAP_SIZE - 2 * |merges| - 1 && h[root] == elems + |merges| - 1
  }

  lemma NodeThere(h: seq<nat>, elems: nat, merges: seq<Merge>, root: nat, p: nat) returns (k: nat)
    requires AllStored(h, elems, merges, root) && root < p < HEAP_SIZE
    ensures k < |merges|
    ensures (p == HEAP_SIZE - 1 - 2 * k && h[p] == merges[k].n) || (p == HEAP_SIZE - 2 - 2 * k && h[p] == merges[k].m)
  {
    k := (HEAP_SIZE - 1 - p) / 2;
  }

  lemma MergeWeights(leaves: set<nat>, elems: nat, merges: seq<Merge>, w: seq<nat>, k: nat)
    requires GreedyRun(leaves, elems, merges, w) && k < |merges|
    ensures elems + k < |w| && merges[k].n < |w| && merges[k].m < |w|
    ensures w[merges[k].n] <= w[merges[k].m] <= w[elems + k]
  {
    hide ValidRun, Lightest;
  }

  lemma NextWeights(leaves: set<nat>, elems: nat, merges: seq<Merge>, w: seq<nat>, k: nat)
    requires GreedyRun(leaves, elems, merges, w) && k + 1 < |merges|
    ensures merges[k].m < |w| && merges[k + 1].n < |w| && w[merges[k].m] <= w[merges[k + 1].n]
  {
    hide ValidRun, Lightest, Live;
    MergesAscend(leaves, elems, merges, w, k);
  }

  lemma OneStepDown(leaves: set<nat>, elems: nat, merges: seq<Merge>, w: seq<nat>, h: seq<nat>, root: nat, p: nat)
    requires GreedyRun(leaves, elems, merges, w) && AllStored(h, elems, merges, root) && root <= p < HEAP_SIZE - 1
    ensures DownAt(w, h, p)
  {
    hide GreedyRun;
    var l := NodeThere(h, elems, merges, root, p + 1);
    MergeWeights(leaves, elems, merges, w, l);
    if p > root {
      var k := NodeThere(h, elems, merges, root, p);
      MergeWeights(leaves, elems, merges, w, k);
      if k != l {
        assert k == l + 1;
        NextWeights(leaves, elems, merges, w, l);
      }
    }
  }

  lemma LayoutDescends(leaves: set<nat>, elems: nat, merges: seq<Merge>, w: seq<nat>, f: seq<nat>, h: seq<nat>, root: nat)
    requires GreedyRun(leaves, elems, merges, w) && AllStored(h, elems, merges, root)
    requires |w| <= |f| && w == f[..|w|]
    ensures Descending(f, h, root)
  {
    hide GreedyRun, LaidOut;
    LayoutSize(h, merges);
    forall p | root <= p < HEAP_SIZE - 1
      ensures DownAt(f, h, p)
    {
      OneStepDown(leaves, elems, merges, w, h, root, p);
    }
    assert DownAt(f, h, root);
    forall p, q | root <= p <= q < |h|
      ensures h[p] < |f| && h[q] < |f| && f[h[p]] >= f[h[q]]
    {
      StepsDown(f, h, root, p);
      StepsDown(f, h, p, q);
    }
  }

  lemma LayoutSize(h: seq<nat>, merges: seq<Merge>)
    requires LaidOut(h, merges)
    ensures |h| == HEAP_SIZE
  {
  }

  lemma LayoutFathers(leaves: set<nat>, elems: nat, merges: seq<Merge>, dl: seq<nat>, h: seq<nat>, root: nat)
    requires ValidRun(leaves, elems, merges) && |leaves| == |merges| + 1 && AllStored(h, elems, merges, root)
    requires Fathers(dl, elems, merges)
    ensures FathersFirst(dl, h, root)
  {
    hide ValidRun;
    forall p | root < p < |h|
      ensures h[p] < |dl| && exists q :: root <= q < p && h[q] == dl[h[p]]
    {
      var k := NodeThere(h, elems, merges, root, p);
      if k == |merges| - 1 {
        assert h[root] == dl[h[p]];
      } else {
        var i := HasFather(leaves, elems, merges, elems + k);
        var q := if elems + k == merges[i].n then HEAP_SIZE - 1 - 2 * i else HEAP_SIZE - 2 - 2 * i;
        assert h[q] == dl[h[p]] && q < p;
      }
    }
  }

  /** No node is more frequent than all leaves together. */
  lemma CreatedWeight(leaves: set<nat>, elems: nat, merges: seq<Merge>, w: seq<nat>, j: nat)
    requires ValidRun(leaves, elems, merges) && Weighted(elems, merges, w) && j < |merges|
    ensures elems + j < |w| && w[elems + j] <= Total(leaves, w)
  {
    hide Live, Total;
    WeightKept(leaves, elems, merges, w, j + 1);
    LiveStep(leaves, elems, merges, j);
    TotalRemove(Live(leaves, elems, merges, j + 1), w, elems + j);
  }

  lemma SumsFit(leaves: set<nat>, elems: nat, merges: seq<Merge>, w: seq<nat>, f: seq<nat>)
    requires GreedyRun(leaves, elems, merges, w) && |w| <= |f| && w == f[..|w|] && Total(leaves, f) < U16
    ensures forall x :: elems <= x < |w| ==> f[x] < U16
  {
    hide Total, ValidRun, Weighted, Greedy;
    RunFacts(leaves, elems, merges, w);
    TotalOfLeaves(leaves, f, f, elems, |f|);
    TotalOfLeaves(leaves, f, w, elems, |w|);
    SameSums(leaves, f, w, elems);
    forall x | elems <= x < |w|
      ensures f[x] < U16
    {
      CreatedWeight(leaves, elems, merges, w, x - elems);
    }
  }

  lemma RunFacts(leaves: set<nat>, elems: nat, merges: seq<Merge>, w: seq<nat>)
    requires GreedyRun(leaves, elems, merges, w)
    ensures |w| == elems + |merges| && forall x :: x in leaves ==> x < elems
  {
  }

  lemma SameSums(leaves: set<nat>, f: seq<nat>, w: seq<nat>, elems: nat)
    requires elems <= |f| && Sum(leaves, f, |f|) == Sum(leaves, f, elems) == Sum(leaves, w, |w|)
    ensures Total(leaves, f) == Total(leaves, w)
  {
  }

  /** What the finished array is like. */
  lemma WellLaidOut(leaves: set<nat>, elems: nat, merges: seq<Merge>, f: seq<nat>, dl: seq<nat>, h: seq<nat>, root: nat)
    requires elems + |merges| <= |f| && GreedyRun(leaves, elems, merges, f[..elems + |merges|]) && Total(leaves, f) < U16
    requires |leaves| == |merges| + 1 && AllStored(h, elems, merges, root) && Fathers(dl, elems, merges)
    ensures Descending(f, h, root) && FathersFirst(dl, h, root)
    ensures forall x :: elems <= x < elems + |merges| ==> f[x] < U16
  {
    hide AllStored, Fathers, Total, Descending, FathersFirst, ValidRun, Weighted, Greedy;
    var w := f[..elems + |merges|];
    LayoutDescends(leaves, elems, merges, w, f, h, root);
    LayoutFathers(leaves, elems, merges, dl, h, root);
    SumsFit(leaves, elems, merges, w, f);
  }
}
