/** Frequencies that are equal are told apart by depth. Why this makes the longest
    code of an optimal code as short as it can be. */
module WorstCase {
  import opened Bits
  import opened Sums
  import opened Huffman
  import opened Heaps

  function DepthAt(d: seq<nat>, x: nat): nat
  {
    if x < |d| then d[x] else 0
  }

  /** How high the subtree of each node is; that of a symbol has height 0. */
  function Depths(elems: nat, merges: seq<Merge>): (d: seq<nat>)
    ensures |d| == elems + |merges| && forall x :: 0 <= x < elems ==> d[x] == 0
    decreases |merges|
  {
    if merges == [] then seq(elems, _ => 0)
    else
      var d, last := Depths(elems, merges[..|merges| - 1]), merges[|merges| - 1];
      d + [(if DepthAt(d, last.n) >= DepthAt(d, last.m) then DepthAt(d, last.n) else DepthAt(d, last.m)) + 1]
  }

  /** n comes first in s and m second, by weight and then by depth. */
  ghost predicate FirstTwo(s: set<nat>, w: seq<nat>, d: seq<nat>, n: nat, m: nat)
    requires n < |w| <= |d| && m < |w|
  {
    Smaller(w, d, n, m) && forall x :: x in s && x < |w| && x != n && x != m ==> Smaller(w, d, m, x)
  }

  /** Each merge takes the first two nodes. */
  ghost predicate TieBroken(leaves: set<nat>, elems: nat, merges: seq<Merge>, w: seq<nat>)
    requires Weighted(elems, merges, w)
  {
    forall j :: 0 <= j < |merges| ==>
      FirstTwo(Live(leaves, elems, merges, j), w, Depths(elems, merges), merges[j].n, merges[j].m)
  }

  lemma DepthsSnoc(elems: nat, merges: seq<Merge>, x: Merge)
    ensures var d := Depths(elems, merges);
            Depths(elems, merges + [x]) == d + [(if DepthAt(d, x.n) >= DepthAt(d, x.m) then DepthAt(d, x.n) else DepthAt(d, x.m)) + 1]
  {
    assert (merges + [x])[..|merges|] == merges;
  }

  /** A node is one higher than the higher of its sons. */
  lemma {:induction false} DepthOfMerge(elems: nat, merges: seq<Merge>, j: nat)
    requires j < |merges| && merges[j].n < elems + j && merges[j].m < elems + j
    ensures var d := Depths(elems, merges);
            d[elems + j] == (if d[merges[j].n] >= d[merges[j].m] then d[merges[j].n] else d[merges[j].m]) + 1
    decreases |merges|
  {
    if j < |merges| - 1 {
      DepthOfMerge(elems, merges[..|merges| - 1], j);
    }
  }

  // ----- depths are small -----

  lemma {:induction false} LaterIsHeavier(leaves: set<nat>, elems: nat, merges: seq<Merge>, w: seq<nat>, i: nat, j: nat)
    requires ValidRun(leaves, elems, merges) && Weighted(elems, merges, w) && Greedy(leaves, elems, merges, w)
    requires i < j < |merges|
    ensures w[merges[i].n] <= w[merges[i].m] <= w[merges[j].n] <= w[merges[j].m]
  {
    hide ValidRun, Lightest, Live;
    MergesAscend(leaves, elems, merges, w, j - 1);
    if i < j - 1 {
      LaterIsHeavier(leaves, elems, merges, w, i, j - 1);
    }
  }

  /** The weight doubles with every second level. */
  lemma {:induction false} HighIsHeavy(leaves: set<nat>, elems: nat, merges: seq<Merge>, w: seq<nat>, x: nat)
    requires ValidRun(leaves, elems, merges) && Weighted(elems, merges, w) && Greedy(leaves, elems, merges, w)
    requires forall y :: y in leaves ==> y < elems && w[y] > 0
    requires x < |w| && (x in leaves || elems <= x)
    ensures Pow2(Depths(elems, merges)[x] / 2) <= w[x]
    decreases x
  {
    hide Lightest, Live, ValidRun, Depths, Greedy;
    var d := Depths(elems, merges);
    if x >= elems {
      var j := x - elems;
      var high := HigherSon(leaves, elems, merges, w, j);
      if d[high] > 0 {
        var higher := HigherSon(leaves, elems, merges, w, high - elems);
        HighIsHeavy(leaves, elems, merges, w, higher);
        LaterIsHeavier(leaves, elems, merges, w, high - elems, j);
        assert d[x] / 2 == d[higher] / 2 + 1;
        assert w[x] >= 2 * w[higher];
      } else {
        HighIsHeavy(leaves, elems, merges, w, high);
      }
    }
  }

  lemma HigherSon(leaves: set<nat>, elems: nat, merges: seq<Merge>, w: seq<nat>, j: nat) returns (x: nat)
    requires ValidRun(leaves, elems, merges) && Weighted(elems, merges, w) && Greedy(leaves, elems, merges, w)
    requires j < |merges| && forall y :: y in leaves ==> y < elems
    ensures x < elems + j && (x in leaves || elems <= x) && (x == merges[j].n || x == merges[j].m)
    ensures Depths(elems, merges)[elems + j] == Depths(elems, merges)[x] + 1
    ensures Depths(elems, merges)[x] > 0 ==> elems <= x
    ensures w[x] <= w[merges[j].m] && w[elems + j] >= 2 * w[merges[j].n] && w[elems + j] >= w[x]
  {
    hide Live, Lightest;
    LiveStep(leaves, elems, merges, j);
    LiveLeaves(leaves, elems, merges, j);
    DepthOfMerge(elems, merges, j);
    x := if Depths(elems, merges)[merges[j].n] >= Depths(elems, merges)[merges[j].m] then merges[j].n else merges[j].m;
  }

  /** Depths are kept in a byte; with all weights below 65536 they are small. */
  lemma DepthFits(leaves: set<nat>, elems: nat, merges: seq<Merge>, w: seq<nat>, x: nat)
    requires ValidRun(leaves, elems, merges) && Weighted(elems, merges, w) && Greedy(leaves, elems, merges, w)
    requires forall y :: y in leaves ==> y < elems && w[y] > 0
    requires x < |w| && (x in leaves || elems <= x) && w[x] < 0x10000
    ensures Depths(elems, merges)[x] < 32
  {
    hide Pow2, Live, ValidRun, Greedy, Depths;
    HighIsHeavy(leaves, elems, merges, w, x);
    Pow2Values();
    SmallPower(Depths(elems, merges)[x] / 2, 16);
  }

  lemma {:induction false} SmallPower(h: nat, k: nat)
    requires Pow2(h) < Pow2(k)
    ensures h < k
  {
    if h >= k {
      Pow2Add(k, h - k);
      MulMonotone(1, Pow2(h - k), Pow2(k));
    }
  }

  // ----- the longest code -----

  /** Every node of s, with its subtree below it, stays within a level. */
  ghost predicate Within(s: set<nat>, d: seq<nat>, l: seq<nat>, bound: nat)
    requires |l| <= |d|
  {
    forall x :: x in s ==> x < |l| && d[x] + l[x] <= bound
  }

  lemma RearrangeStrict(wa: nat, wb: nat, la: nat, lb: nat)
    requires wa < wb && la < lb
    ensures wa * lb + wb * la < wa * la + wb * lb
  {
    var d := wb - wa;
    assert wb * la == wa * la + d * la && wb * lb == wa * lb + d * lb;
    MulMonotone(la + 1, lb, d);
    assert d * (la + 1) == d * la + d;
  }

  /** Exchanging the codes of two symbols at no gain does not raise the tree. */
  lemma SwapLow(s: set<nat>, w: seq<nat>, d: seq<nat>, l: seq<nat>, a: nat, b: nat, bound: nat)
    requires |w| == |l| == |d| && a in s && b in s && Within(s, d, l, bound)
    requires Smaller(w, d, a, b) && l[a] <= l[b]
    requires Total(s, Products(w, Swap(l, a, b))) >= Total(s, Products(w, l))
    ensures Within(s, d, Swap(l, a, b), bound)
  {
    hide Total;
    if a != b {
      TotalChange(s, Products(w, l), Products(w, Swap(l, a, b)), a, b);
      if w[a] < w[b] && l[a] < l[b] {
        RearrangeStrict(w[a], w[b], l[a], l[b]);
      }
    }
  }

  lemma EqualizeLow(s: set<nat>, w: seq<nat>, d: seq<nat>, l: seq<nat>, top: nat, n: nat, m: nat, bound: nat) returns (r: seq<nat>)
    requires |w| == |l| == |d| && KraftOk(s, l, top) && n in s && m in s && n != m
    requires l[m] <= l[n] && forall x :: x in s && x != n ==> l[x] <= l[m]
    ensures |r| == |l| && KraftOk(s, r, top) && r[n] == r[m]
    ensures Total(s, Products(w, r)) <= Total(s, Products(w, l))
    ensures Within(s, d, l, bound) ==> Within(s, d, r, bound)
  {
    r := l;
    if l[m] < l[n] {
      Shorten(s, l, top, n, l[m]);
      r := l[n := l[m]];
      MulMonotone(r[n], l[n], w[n]);
      SumMonotone(s, Products(w, r), Products(w, l), |w|);
    }
  }

  /** The first two symbols can be given one length without raising the tree,
      unless that makes the code cheaper. */
  lemma PairLow(s: set<nat>, w: seq<nat>, d: seq<nat>, l: seq<nat>, top: nat, n: nat, m: nat, bound: nat) returns (r: seq<nat>)
    requires |w| == |l| == |d| && KraftOk(s, l, top) && n in s && m in s && n != m
    requires FirstTwo(s, w, d, n, m) && Within(s, d, l, bound)
    ensures |r| == |l| && KraftOk(s, r, top) && r[n] == r[m] > 0
    ensures Total(s, Products(w, r)) <= Total(s, Products(w, l))
    ensures Total(s, Products(w, r)) == Total(s, Products(w, l)) ==> Within(s, d, r, bound)
  {
    hide Total, Within;
    var x := Longest(s, l);
    SwapHelps(s, w, l, top, n, x);
    var l1 := Swap(l, n, x);
    assert m in s - {n};
    var y := Longest(s - {n}, l1);
    SwapHelps(s, w, l1, top, m, y);
    var l2 := Swap(l1, m, y);
    r := EqualizeLow(s, w, d, l2, top, n, m, bound);
    PairNotEmpty(s, r, top, n, m);
    if Total(s, Products(w, r)) == Total(s, Products(w, l)) {
      SwapLow(s, w, d, l, n, x, bound);
      SwapLow(s, w, d, l1, m, y, bound);
    }
  }

  /** Lengths as cheap as those of the tree reach at least as far down. */
  lemma {:induction false} LowestFrom(leaves: set<nat>, elems: nat, merges: seq<Merge>, w: seq<nat>,
                                      len: seq<nat>, top: nat, j: nat, l: seq<nat>, top': nat, bound: nat)
    requires ValidRun(leaves, elems, merges) && |leaves| == |merges| + 1 && j <= |merges|
    requires Weighted(elems, merges, w) && Greedy(leaves, elems, merges, w) && TieBroken(leaves, elems, merges, w)
    requires Lengths(elems, merges, len, top) && forall i :: elems <= i < |len| ==> len[i] < top
    requires |l| == |w| && KraftOk(Live(leaves, elems, merges, j), l, top')
    requires Total(Live(leaves, elems, merges, j), Products(w, l)) <= Total(Live(leaves, elems, merges, j), Products(w, len))
    requires Within(Live(leaves, elems, merges, j), Depths(elems, merges), l, bound)
    ensures Within(Live(leaves, elems, merges, j), Depths(elems, merges), len, bound)
    decreases |merges| - j
  {
    hide Live, Total, KraftOk, Shares, Depths, FirstTwo;
    var live, d := Live(leaves, elems, merges, j), Depths(elems, merges);
    if j == |merges| {
      LastIsRoot(leaves, elems, merges);
    } else {
      var n, m, e := merges[j].n, merges[j].m, elems + j;
      LiveStep(leaves, elems, merges, j);
      DepthOfMerge(elems, merges, j);
      var r := PairLow(live, w, d, l, top', n, m, bound);
      OptimalFrom(leaves, elems, merges, w, len, top, j, r, top');
      var r' := r[e := r[n] - 1];
      MergePair(leaves, elems, merges, w, j, r, top');
      CostStep(leaves, elems, merges, w, len, j);
      LowestFrom(leaves, elems, merges, w, len, top, j + 1, r', top', bound);
    }
  }

  /** No prefix code that costs no more has a shorter longest codeword. */
  lemma WorstCaseLeast(leaves: set<nat>, elems: nat, merges: seq<Merge>, w: seq<nat>,
                       len: seq<nat>, top: nat, c: seq<seq<bool>>, longest: nat)
    requires ValidRun(leaves, elems, merges) && |leaves| == |merges| + 1
    requires Weighted(elems, merges, w) && Greedy(leaves, elems, merges, w) && TieBroken(leaves, elems, merges, w)
    requires Lengths(elems, merges, len, top) && forall i :: elems <= i < |len| ==> len[i] < top
    requires |c| == |w| && IsPrefixCode(leaves, c) && forall x :: x in leaves ==> |c[x]| <= longest
    requires Total(leaves, Products(w, Sizes(c))) <= Total(leaves, Products(w, len))
    ensures forall x :: x in leaves ==> x < |len| && len[x] <= longest
  {
    PrefixCodeIsKraftOk(leaves, c, longest);
    LowestFrom(leaves, elems, merges, w, len, top, 0, Sizes(c), longest, longest);
  }
}
