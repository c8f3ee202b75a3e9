/** How a run of merges grows by one, and what stays the same while it does. */
module Merging {
  import opened Bits
  import opened Sums
  import opened Huffman
  import opened Heaps
  import opened Trees
  import opened WorstCase

  /** Symbols that occur are merged, always the first two by weight and depth. */
  ghost predicate GreedyRun(leaves: set<nat>, elems: nat, merges: seq<Merge>, w: seq<nat>)
  {
    && ValidRun(leaves, elems, merges) && Weighted(elems, merges, w) && Greedy(leaves, elems, merges, w)
    && TieBroken(leaves, elems, merges, w) && forall x :: x in leaves ==> x < elems && w[x] > 0
  }

  lemma {:induction false} LivePrefix(leaves: set<nat>, elems: nat, merges: seq<Merge>, x: Merge, j: nat)
    requires j <= |merges|
    ensures Live(leaves, elems, merges + [x], j) == Live(leaves, elems, merges, j)
  {
    if j > 0 {
      LivePrefix(leaves, elems, merges, x, j - 1);
    }
  }

  /** Merging the two lightest live nodes continues a greedy run. */
  lemma ExtendRun(leaves: set<nat>, elems: nat, merges: seq<Merge>, w: seq<nat>, n: nat, m: nat)
    requires GreedyRun(leaves, elems, merges, w) && n != m
    requires n in Live(leaves, elems, merges, |merges|) && m in Live(leaves, elems, merges, |merges|)
    requires n < |w| && m < |w| && w[n] <= w[m]
    requires Lightest(Live(leaves, elems, merges, |merges|), w, n, m)
    requires FirstTwo(Live(leaves, elems, merges, |merges|), w, Depths(elems, merges), n, m)
    ensures GreedyRun(leaves, elems, merges + [Merge(n, m)], w + [w[n] + w[m]])
    ensures Live(leaves, elems, merges + [Merge(n, m)], |merges| + 1)
         == Live(leaves, elems, merges, |merges|) - {n, m} + {elems + |merges|}
  {
    hide Live, ValidRun, Greedy, TieBroken, Lightest, FirstTwo, Depths;
    LiveSnoc(leaves, elems, merges, n, m);
    ExtendValid(leaves, elems, merges, n, m);
    ExtendGreedy(leaves, elems, merges, w, n, m);
    ExtendTies(leaves, elems, merges, w, n, m);
    hide Weighted;
  }

  lemma LiveSnoc(leaves: set<nat>, elems: nat, merges: seq<Merge>, n: nat, m: nat)
    ensures Live(leaves, elems, merges + [Merge(n, m)], |merges| + 1)
         == Live(leaves, elems, merges, |merges|) - {n, m} + {elems + |merges|}
  {
    LivePrefix(leaves, elems, merges, Merge(n, m), |merges|);
  }

  lemma ExtendValid(leaves: set<nat>, elems: nat, merges: seq<Merge>, n: nat, m: nat)
    requires ValidRun(leaves, elems, merges) && n != m
    requires n in Live(leaves, elems, merges, |merges|) && m in Live(leaves, elems, merges, |merges|)
    ensures ValidRun(leaves, elems, merges + [Merge(n, m)])
  {
    hide Live;
    var merges' := merges + [Merge(n, m)];
    LiveBelow(leaves, elems, merges, |merges|);
    forall j | 0 <= j < |merges'|
      ensures MergesTwo(leaves, elems, merges', j)
    {
      LivePrefix(leaves, elems, merges, Merge(n, m), j);
      if j < |merges| {
        assert MergesTwo(leaves, elems, merges, j);
      }
    }
  }

  lemma ExtendGreedy(leaves: set<nat>, elems: nat, merges: seq<Merge>, w: seq<nat>, n: nat, m: nat)
    requires GreedyRun(leaves, elems, merges, w)
    requires n < |w| && m < |w| && w[n] <= w[m]
    requires n in Live(leaves, elems, merges, |merges|) && m in Live(leaves, elems, merges, |merges|)
    requires Lightest(Live(leaves, elems, merges, |merges|), w, n, m)
    ensures Weighted(elems, merges + [Merge(n, m)], w + [w[n] + w[m]])
    ensures Greedy(leaves, elems, merges + [Merge(n, m)], w + [w[n] + w[m]])
  {
    hide Live;
    var merges', w' := merges + [Merge(n, m)], w + [w[n] + w[m]];
    forall j | 0 <= j < |merges'|
      ensures merges'[j].n < elems + j && merges'[j].m < elems + j
      ensures w'[elems + j] == w'[merges'[j].n] + w'[merges'[j].m]
      ensures w'[merges'[j].n] <= w'[merges'[j].m]
      ensures Lightest(Live(leaves, elems, merges', j), w', merges'[j].n, merges'[j].m)
    {
      LivePrefix(leaves, elems, merges, Merge(n, m), j);
      LiveBelow(leaves, elems, merges, j);
      if j < |merges| {
        assert Lightest(Live(leaves, elems, merges, j), w, merges[j].n, merges[j].m);
      }
    }
  }

  lemma ExtendTies(leaves: set<nat>, elems: nat, merges: seq<Merge>, w: seq<nat>, n: nat, m: nat)
    requires GreedyRun(leaves, elems, merges, w) && n < |w| && m < |w|
    requires n in Live(leaves, elems, merges, |merges|) && m in Live(leaves, elems, merges, |merges|)
    requires FirstTwo(Live(leaves, elems, merges, |merges|), w, Depths(elems, merges), n, m)
    requires Weighted(elems, merges + [Merge(n, m)], w + [w[n] + w[m]])
    ensures TieBroken(leaves, elems, merges + [Merge(n, m)], w + [w[n] + w[m]])
  {
    hide Live, Depths, Greedy, ValidRun, Lightest;
    var merges', w' := merges + [Merge(n, m)], w + [w[n] + w[m]];
    var d, d' := Depths(elems, merges), Depths(elems, merges');
    DepthsSnoc(elems, merges, Merge(n, m));
    forall j | 0 <= j < |merges'|
      ensures FirstTwo(Live(leaves, elems, merges', j), w', d', merges'[j].n, merges'[j].m)
    {
      LivePrefix(leaves, elems, merges, Merge(n, m), j);
      LiveBelow(leaves, elems, merges, j);
      if j < |merges| {
        assert FirstTwo(Live(leaves, elems, merges, j), w, d, merges[j].n, merges[j].m);
      }
    }
  }

  /** The live nodes always weigh as much as the leaves together. */
  lemma {:induction false} WeightKept(leaves: set<nat>, elems: nat, merges: seq<Merge>, w: seq<nat>, j: nat)
    requires ValidRun(leaves, elems, merges) && Weighted(elems, merges, w) && j <= |merges|
    ensures Total(Live(leaves, elems, merges, j), w) == Total(leaves, w)
  {
    if j > 0 {
      WeightKept(leaves, elems, merges, w, j - 1);
      TotalStep(leaves, elems, merges, w, j - 1);
    }
  }

  /** The weight of a new node is bounded by the weight of all leaves. */
  lemma NodeWeight(leaves: set<nat>, elems: nat, merges: seq<Merge>, w: seq<nat>, n: nat, m: nat)
    requires ValidRun(leaves, elems, merges) && Weighted(elems, merges, w) && n != m
    requires n in Live(leaves, elems, merges, |merges|) && m in Live(leaves, elems, merges, |merges|)
    ensures n < |w| && m < |w| && w[n] + w[m] <= Total(leaves, w)
  {
    var live := Live(leaves, elems, merges, |merges|);
    WeightKept(leaves, elems, merges, w, |merges|);
    LiveBelow(leaves, elems, merges, |merges|);
    TotalRemove(live, w, n);
    TotalRemove(live - {n}, w, m);
  }

  /** Entries beyond the leaves do not count. */
  lemma {:induction false} TotalOfLeaves(leaves: set<nat>, f: seq<nat>, g: seq<nat>, elems: nat, n: nat)
    requires elems <= n && elems <= |f| && n <= |g| && f[..elems] == g[..elems]
    requires forall x :: x in leaves ==> x < elems
    ensures Sum(leaves, g, n) == Sum(leaves, f, elems)
    decreases n
  {
    if n == elems {
      SumSame(leaves, g, leaves, f, n) by {
        assert forall x: nat :: x < elems ==> f[x] == f[..elems][x] && g[x] == g[..elems][x];
      }
    } else {
      TotalOfLeaves(leaves, f, g, elems, n - 1);
    }
  }

  // ----- the heap and tree arrays during the merging -----

  /** The depths of the live nodes are kept in d. */
  ghost predicate DepthsKept(d: seq<nat>, leaves: set<nat>, elems: nat, merges: seq<Merge>)
  {
    forall x :: x in Live(leaves, elems, merges, |merges|) ==> x < |d| && d[x] == DepthAt(Depths(elems, merges), x)
  }

  /** A depth in a byte is that of the new node. */
  lemma NewDepth(f: seq<nat>, d: seq<nat>, d': seq<nat>, h: seq<nat>, len: nat, leaves: set<nat>, elems: nat,
                 merges: seq<Merge>, w: seq<nat>, n: nat, m: nat)
    requires Taken(f, d, h, len, leaves, elems, merges, w, n, m) && Total(leaves, f) < U16
    requires |d'| == |d| && elems + |merges| < |d| && n < |d| && m < |d|
    requires forall y :: 0 <= y < |d| && y != elems + |merges| ==> d'[y] == d[y]
    requires d'[elems + |merges|] == ((if d[n] >= d[m] then d[n] else d[m]) + 1) % 256
    ensures DepthsKept(d', leaves, elems, merges + [Merge(n, m)])
  {
    hide Live, Depths, Smaller, Nodes, HeapFrom, Lightest, FirstTwo;
    SumFits(f, d, h, len, leaves, elems, merges, w, n, m);
    DepthFits(leaves, elems, merges, w, n);
    DepthFits(leaves, elems, merges, w, m);
    DepthsSnoc(elems, merges, Merge(n, m));
    LivePrefix(leaves, elems, merges, Merge(n, m), |merges|);
    LiveBelow(leaves, elems, merges, |merges|);
    ExtendValid(leaves, elems, merges, n, m);
    LiveStep(leaves, elems, merges + [Merge(n, m)], |merges|);
  }

  /** The heap holds the live nodes, in heap order. */
  ghost predicate HoldsLive(f: seq<nat>, d: seq<nat>, h: seq<nat>, len: nat,
                            leaves: set<nat>, elems: nat, merges: seq<Merge>)
  {
    && |f| <= |d| && InBounds(h, len, |f|) && HeapFrom(f, d, h, len, 1)
    && len == |leaves| - |merges|
    && Nodes(h, len) == multiset(Live(leaves, elems, merges, |merges|))
    && DepthsKept(d, leaves, elems, merges)
  }

  /** After n has been taken out: n and m are the two lightest, and m is next. */
  ghost predicate Taken(f: seq<nat>, d: seq<nat>, h: seq<nat>, len: nat, leaves: set<nat>, elems: nat,
                        merges: seq<Merge>, w: seq<nat>, n: nat, m: nat)
  {
    var live := Live(leaves, elems, merges, |merges|);
    && |f| <= |d| && InBounds(h, len, |f|) && HeapFrom(f, d, h, len, 1) && 1 <= len && h[1] == m
    && Nodes(h, len) == multiset(live) - multiset{n}
    && n in live && m in live && n != m && n < |w| && m < |w|
    && w[n] <= w[m] && Lightest(live, w, n, m) && elems + |merges| !in live
    && |w| == elems + |merges| && FirstTwo(live, w, Depths(elems, merges), n, m) && DepthsKept(d, leaves, elems, merges)
    && GreedyRun(leaves, elems, merges, w) && |w| <= |f| && w == f[..|w|]
  }

  /** Merged nodes are stored from the end of the heap array downwards. */
  ghost predicate LaidOut(h: seq<nat>, merges: seq<Merge>)
  {
    && |h| == HEAP_SIZE && 2 * |merges| < HEAP_SIZE
    && forall k :: 0 <= k < |merges| ==>
         h[HEAP_SIZE - 1 - 2 * k] == merges[k].n && h[HEAP_SIZE - 2 - 2 * k] == merges[k].m
  }

  /** Every merged node knows the node created for it. */
  ghost predicate Fathers(dl: seq<nat>, elems: nat, merges: seq<Merge>)
  {
    forall k :: 0 <= k < |merges| ==>
      && merges[k].n < |dl| && merges[k].m < |dl|
      && dl[merges[k].n] == elems + k && dl[merges[k].m] == elems + k
  }

  /** The node taken out and the next one are the two lightest. */
  lemma PickTwo(f: seq<nat>, d: seq<nat>, h0: seq<nat>, len0: nat, h1: seq<nat>, len1: nat,
                leaves: set<nat>, elems: nat, merges: seq<Merge>, w: seq<nat>, n: nat)
    requires HoldsLive(f, d, h0, len0, leaves, elems, merges) && len0 >= 2 && len1 == len0 - 1
    requires InBounds(h1, len1, |f|) && HeapFrom(f, d, h1, len1, 1)
    requires Nodes(h1, len1) == Nodes(h0, len0) - multiset{n} && n in Nodes(h0, len0)
    requires forall x :: x in Nodes(h0, len0) ==> x < |f| && n < |f| && Smaller(f, d, n, x)
    requires GreedyRun(leaves, elems, merges, w) && |w| <= |f| && w == f[..|w|]
    ensures Taken(f, d, h1, len1, leaves, elems, merges, w, n, h1[1])
  {
    hide Live, HeapFrom;
    RootFirstAll(f, d, h1, len1);
    NodesIn(h1, len1, 1);
    LiveBelow(leaves, elems, merges, |merges|);
    hide Nodes;
    var live, m := Live(leaves, elems, merges, |merges|), h1[1];
    forall x | x in live && x != n
      ensures x in Nodes(h1, len1)
    {
    }
  }

  lemma SumFits(f: seq<nat>, d: seq<nat>, h: seq<nat>, len: nat, leaves: set<nat>, elems: nat,
                merges: seq<Merge>, w: seq<nat>, n: nat, m: nat)
    requires Taken(f, d, h, len, leaves, elems, merges, w, n, m) && Total(leaves, f) < U16
    ensures n < |w| <= |f| && m < |w| && f[n] + f[m] < U16 && w[n] == f[n] && w[m] == f[m]
    ensures (n in leaves || elems <= n) && (m in leaves || elems <= m)
  {
    hide Live;
    LiveLeaves(leaves, elems, merges, |merges|);
    NodeWeight(leaves, elems, merges, w, n, m);
    TotalOfLeaves(leaves, f, f, elems, |f|);
    TotalOfLeaves(leaves, f, w, elems, |w|);
  }

  lemma LiveReplaced(live: set<nat>, n: nat, m: nat, e: nat)
    requires n in live && m in live && n != m && e !in live
    ensures multiset(live - {n, m} + {e}) == multiset(live) - multiset{n} - multiset{m} + multiset{e}
  {
  }

  /** With the new node at the root, the heap holds the live nodes after the
      merge; only the root is out of order. */
  lemma NewRoot(f: seq<nat>, d: seq<nat>, f': seq<nat>, d': seq<nat>, h1: seq<nat>, len: nat, h2: seq<nat>,
                leaves: set<nat>, elems: nat, merges: seq<Merge>, w: seq<nat>, n: nat, m: nat)
    requires |f| <= |d| && |f'| == |f| && |d'| == |d| && elems + |merges| < |f|
    requires Taken(f, d, h1, len, leaves, elems, merges, w, n, m)
    requires |h2| == |h1| && forall p :: 0 <= p <= len ==> h2[p] == h1[p]
    requires forall y :: 0 <= y < |f| && y != elems + |merges| ==> f'[y] == f[y] && d'[y] == d[y]
    ensures var h := h2[1 := elems + |merges|];
            && InBounds(h, len, |f|) && HeapFrom(f', d', h, len, 2)
            && GreedyRun(leaves, elems, merges + [Merge(n, m)], w + [w[n] + w[m]])
            && Nodes(h, len) == multiset(Live(leaves, elems, merges + [Merge(n, m)], |merges| + 1))
  {
    hide Live, GreedyRun, Smaller, Nodes, HeapFrom;
    var e, live := elems + |merges|, Live(leaves, elems, merges, |merges|);
    ExtendRun(leaves, elems, merges, w, n, m);
    OutsideKeys(f, d, f', d', h1, len, 1, e);
    LiveReplaced(live, n, m, e);
    SamePart(h1, h2, len);
    NodesUpdate(h2, len, 1, e);
    RootFree(f', d', h1, h2, len, e);
  }

  lemma SamePart(h1: seq<nat>, h2: seq<nat>, len: nat)
    requires len < |h1| == |h2| && forall p :: 0 <= p <= len ==> h2[p] == h1[p]
    ensures Nodes(h1, len) == Nodes(h2, len)
  {
    assert h2[1..len + 1] == h1[1..len + 1];
  }

  lemma RootFree(f: seq<nat>, d: seq<nat>, h1: seq<nat>, h2: seq<nat>, len: nat, e: nat)
    requires |f| <= |d| && InBounds(h1, len, |f|) && HeapFrom(f, d, h1, len, 1) && 1 <= len && e < |f|
    requires |h2| == |h1| && forall p :: 0 <= p <= len ==> h2[p] == h1[p]
    ensures InBounds(h2[1 := e], len, |f|) && HeapFrom(f, d, h2[1 := e], len, 2)
  {
    hide Smaller;
    forall j | 2 <= j <= len && 2 <= j / 2
      ensures Smaller(f, d, h2[1 := e][j / 2], h2[1 := e][j])
    {
      assert Smaller(f, d, h1[j / 2], h1[j]);
    }
  }

  lemma StillLaidOut(h0: seq<nat>, h: seq<nat>, merges: seq<Merge>, n: nat, m: nat)
    requires LaidOut(h0, merges) && |h| == |h0| && 2 * |merges| + 2 < HEAP_SIZE
    requires forall p :: HEAP_SIZE - 2 * |merges| <= p < HEAP_SIZE ==> h[p] == h0[p]
    requires h[HEAP_SIZE - 1 - 2 * |merges|] == n && h[HEAP_SIZE - 2 - 2 * |merges|] == m
    ensures LaidOut(h, merges + [Merge(n, m)])
  {
  }

  lemma StillFathers(f: seq<nat>, d: seq<nat>, h: seq<nat>, len: nat, leaves: set<nat>, elems: nat,
                     merges: seq<Merge>, w: seq<nat>, dl: seq<nat>, n: nat, m: nat)
    requires Taken(f, d, h, len, leaves, elems, merges, w, n, m) && Fathers(dl, elems, merges)
    requires n < |dl| && m < |dl|
    ensures Fathers(dl[n := elems + |merges|][m := elems + |merges|], elems, merges + [Merge(n, m)])
  {
    hide Live;
    forall k | 0 <= k < |merges|
      ensures merges[k].n != n && merges[k].n != m && merges[k].m != n && merges[k].m != m
    {
      MergedIsGone(leaves, elems, merges, k, |merges|, merges[k].n);
      MergedIsGone(leaves, elems, merges, k, |merges|, merges[k].m);
    }
  }

  lemma FirstState(f: seq<nat>, d: seq<nat>, h: seq<nat>, len: nat, leaves: set<nat>, elems: nat)
    requires elems <= |f| <= |d| && leaves == LeafSet(f, elems) && len == |leaves| && |h| == HEAP_SIZE
    requires InBounds(h, len, |f|) && Nodes(h, len) == multiset(leaves) && HeapFrom(f, d, h, len, 1)
    requires forall x :: x in leaves ==> d[x] == 0
    ensures |leaves| <= elems && GreedyRun(leaves, elems, [], f[..elems])
    ensures HoldsLive(f, d, h, len, leaves, elems, []) && LaidOut(h, [])
  {
    hide Nodes, HeapFrom;
    SetBelow(leaves, elems);
    assert Live(leaves, elems, [], 0) == leaves;
  }

  lemma SameTotal(leaves: set<nat>, f: seq<nat>, g: seq<nat>, elems: nat)
    requires elems <= |f| && elems <= |g| && f[..elems] == g[..elems] && leaves == LeafSet(f, elems)
    ensures Total(leaves, f) == Total(leaves, g) && LeafSet(g, elems) == leaves
  {
    TotalOfLeaves(leaves, f, f, elems, |f|);
    TotalOfLeaves(leaves, f, g, elems, |g|);
    assert forall x: nat :: x < elems ==> f[x] == f[..elems][x] && g[x] == g[..elems][x];
  }

  lemma RootLeft(f: seq<nat>, d: seq<nat>, h: seq<nat>, len: nat, leaves: set<nat>, elems: nat,
                 merges: seq<Merge>, w: seq<nat>)
    requires HoldsLive(f, d, h, len, leaves, elems, merges) && len == 1 && |leaves| >= 2
    requires GreedyRun(leaves, elems, merges, w)
    ensures |merges| + 1 == |leaves| && h[1] == elems + |merges| - 1
  {
    LastIsRoot(leaves, elems, merges);
    NodesIn(h, 1, 1);
  }

  lemma RootStored(h: seq<nat>, h': seq<nat>, merges: seq<Merge>)
    requires LaidOut(h, merges) && |h'| == |h|
    requires forall p :: HEAP_SIZE - 2 * |merges| <= p < HEAP_SIZE ==> h'[p] == h[p]
    ensures LaidOut(h', merges)
  {
  }
}
