/** The mathematics of the tree construction: a run of merges of the two least
    frequent nodes, the Kraft sum of the lengths it leads to, and why no prefix
    code is shorter. */
module Huffman {
  import opened Bits
  import opened Sums

  datatype Merge = Merge(n: nat, m: nat)

  /** The nodes in the heap before merge j. Merge j creates node elems + j. */
  function Live(leaves: set<nat>, elems: nat, merges: seq<Merge>, j: nat): set<nat>
    requires j <= |merges|
  {
    if j == 0 then leaves
    else Live(leaves, elems, merges, j - 1) - {merges[j - 1].n, merges[j - 1].m} + {elems + j - 1}
  }

  ghost predicate ValidRun(leaves: set<nat>, elems: nat, merges: seq<Merge>)
  {
    && (forall x :: x in leaves ==> x < elems)
    && forall j :: 0 <= j < |merges| ==> MergesTwo(leaves, elems, merges, j)
  }

  /** Merge j takes two nodes that are live. */
  ghost predicate MergesTwo(leaves: set<nat>, elems: nat, merges: seq<Merge>, j: nat)
    requires j < |merges|
  {
    var live := Live(leaves, elems, merges, j);
    merges[j].n != merges[j].m && merges[j].n in live && merges[j].m in live
  }

  /** A created node weighs as much as its two sons. */
  ghost predicate Weighted(elems: nat, merges: seq<Merge>, w: seq<nat>)
  {
    |w| == elems + |merges|
    && forall j :: 0 <= j < |merges| ==>
         merges[j].n < elems + j && merges[j].m < elems + j
         && w[elems + j] == w[merges[j].n] + w[merges[j].m]
  }

  /** Each merge takes the two lightest nodes. */
  ghost predicate Greedy(leaves: set<nat>, elems: nat, merges: seq<Merge>, w: seq<nat>)
    requires Weighted(elems, merges, w)
  {
    forall j :: 0 <= j < |merges| ==>
      && w[merges[j].n] <= w[merges[j].m]
      && Lightest(Live(leaves, elems, merges, j), w, merges[j].n, merges[j].m)
  }

  /** n and m apart, nothing in s is lighter than m. */
  ghost predicate Lightest(s: set<nat>, w: seq<nat>, n: nat, m: nat)
    requires n < |w| && m < |w|
  {
    forall x :: x in s && x < |w| && x != n && x != m ==> w[m] <= w[x]
  }

  /** Code lengths read off the tree from the top, cut off at `top`. */
  ghost predicate Lengths(elems: nat, merges: seq<Merge>, len: seq<nat>, top: nat)
  {
    && |len| == elems + |merges| && merges != []
    && len[|len| - 1] == 0
    && forall j :: 0 <= j < |merges| ==>
         merges[j].n < elems + j && merges[j].m < elems + j
         && len[merges[j].n] == len[merges[j].m] == (if len[elems + j] < top then len[elems + j] + 1 else top)
  }

  lemma {:induction false} LiveBelow(leaves: set<nat>, elems: nat, merges: seq<Merge>, j: nat)
    requires j <= |merges| && forall x :: x in leaves ==> x < elems
    ensures forall x :: x in Live(leaves, elems, merges, j) ==> x < elems + j
  {
    if j > 0 {
      LiveBelow(leaves, elems, merges, j - 1);
    }
  }

  lemma {:induction false} LiveLeaves(leaves: set<nat>, elems: nat, merges: seq<Merge>, j: nat)
    requires j <= |merges|
    ensures forall x :: x in Live(leaves, elems, merges, j) ==> x in leaves || elems <= x
  {
    if j > 0 {
      LiveLeaves(leaves, elems, merges, j - 1);
    }
  }

  lemma LiveStep(leaves: set<nat>, elems: nat, merges: seq<Merge>, j: nat)
    requires j < |merges| && ValidRun(leaves, elems, merges)
    ensures var live := Live(leaves, elems, merges, j);
            && Live(leaves, elems, merges, j + 1) == live - {merges[j].n, merges[j].m} + {elems + j}
            && merges[j].n != merges[j].m && merges[j].n in live && merges[j].m in live
            && elems + j !in live && merges[j].n < elems + j && merges[j].m < elems + j
  {
    assert MergesTwo(leaves, elems, merges, j);
    LiveBelow(leaves, elems, merges, j);
  }

  lemma CardStep(s: set<nat>, n: nat, m: nat, e: nat)
    requires n in s && m in s && n != m && e !in s
    ensures |s - {n, m} + {e}| == |s| - 1
  {
    assert s - {n, m} == s - {n} - {m};
    assert |s - {n}| == |s| - 1 && |s - {n} - {m}| == |s| - 2;
  }

  lemma {:induction false} LiveSize(leaves: set<nat>, elems: nat, merges: seq<Merge>, j: nat)
    requires j <= |merges| && ValidRun(leaves, elems, merges)
    ensures |Live(leaves, elems, merges, j)| == |leaves| - j
  {
    if j > 0 {
      hide Live;
      LiveSize(leaves, elems, merges, j - 1);
      LiveStep(leaves, elems, merges, j - 1);
      CardStep(Live(leaves, elems, merges, j - 1), merges[j - 1].n, merges[j - 1].m, elems + j - 1);
    }
  }

  /** A node that was merged never comes back. */
  lemma {:induction false} MergedIsGone(leaves: set<nat>, elems: nat, merges: seq<Merge>, j: nat, k: nat, x: nat)
    requires ValidRun(leaves, elems, merges) && j < k <= |merges|
    requires x == merges[j].n || x == merges[j].m
    ensures x !in Live(leaves, elems, merges, k)
  {
    hide Live;
    LiveStep(leaves, elems, merges, j);
    if k > j + 1 {
      MergedIsGone(leaves, elems, merges, j, k - 1, x);
      LiveStep(leaves, elems, merges, k - 1);
    }
  }

  /** A node that is gone was merged. */
  lemma {:induction false} GoneWasMerged(leaves: set<nat>, elems: nat, merges: seq<Merge>, j: nat, k: nat, x: nat)
    returns (i: nat)
    requires j <= k <= |merges|
    requires x in Live(leaves, elems, merges, j) && x !in Live(leaves, elems, merges, k)
    ensures j <= i < k && (x == merges[i].n || x == merges[i].m)
  {
    if x in Live(leaves, elems, merges, k - 1) {
      i := k - 1;
    } else {
      i := GoneWasMerged(leaves, elems, merges, j, k - 1, x);
    }
  }

  /** Undoing merge j in a sum over live nodes. */
  lemma TotalStep(leaves: set<nat>, elems: nat, merges: seq<Merge>, f: seq<nat>, j: nat)
    requires ValidRun(leaves, elems, merges) && j < |merges| && |f| == elems + |merges|
    ensures merges[j].n < elems + j && merges[j].m < elems + j
    ensures Total(Live(leaves, elems, merges, j), f) + f[elems + j]
         == Total(Live(leaves, elems, merges, j + 1), f) + f[merges[j].n] + f[merges[j].m]
  {
    hide Live, Total;
    var live, n, m := Live(leaves, elems, merges, j), merges[j].n, merges[j].m;
    LiveStep(leaves, elems, merges, j);
    TotalRemove(live, f, n);
    TotalRemove(live - {n}, f, m);
    assert live - {n} - {m} == live - {n, m};
    TotalAdd(live - {n, m}, f, elems + j);
  }

  // ----- the Kraft sum -----

  /** What a symbol of each length takes up of 2^top. */
  function Shares(l: seq<nat>, top: nat): (s: seq<nat>)
    ensures |s| == |l| && forall i :: 0 <= i < |l| ==> s[i] == if l[i] <= top then Pow2(top - l[i]) else 0
  {
    seq(|l|, i requires 0 <= i < |l| => if l[i] <= top then Pow2(top - l[i]) else 0)
  }

  /** How many of the nodes created by merges j, j + 1, ... are cut off. */
  function Clipped(elems: nat, len: seq<nat>, top: nat, j: nat): nat
    requires elems + j <= |len|
    decreases |len| - j
  {
    if elems + j == |len| then 0
    else Clipped(elems, len, top, j + 1) + (if len[elems + j] == top then 1 else 0)
  }

  /** The Kraft sum of the cut-off lengths exceeds 2^top by one for each cut-off
      inner node. */
  lemma {:induction false} KraftOfRun(leaves: set<nat>, elems: nat, merges: seq<Merge>, len: seq<nat>, top: nat, j: nat)
    requires ValidRun(leaves, elems, merges) && Lengths(elems, merges, len, top) && j <= |merges|
    requires |leaves| == |merges| + 1 && top > 0
    requires forall i :: 0 <= i < |len| ==> len[i] <= top
    ensures Total(Live(leaves, elems, merges, j), Shares(len, top)) == Pow2(top) + Clipped(elems, len, top, j)
    decreases |merges| - j
  {
    hide Live, Total;
    var s := Shares(len, top);
    if j == |merges| {
      LastIsRoot(leaves, elems, merges);
      TotalOne(s, |len| - 1);
    } else {
      KraftOfRun(leaves, elems, merges, len, top, j + 1);
      TotalStep(leaves, elems, merges, s, j);
    }
  }

  /** After the last merge only the node it created is left. */
  lemma LastIsRoot(leaves: set<nat>, elems: nat, merges: seq<Merge>)
    requires ValidRun(leaves, elems, merges) && |leaves| == |merges| + 1 && merges != []
    ensures Live(leaves, elems, merges, |merges|) == {elems + |merges| - 1}
  {
    hide Live;
    var live, root := Live(leaves, elems, merges, |merges|), elems + |merges| - 1;
    LiveSize(leaves, elems, merges, |merges|);
    LiveStep(leaves, elems, merges, |merges| - 1);
    assert live == {root} by {
      assert |live - {root}| == 0;
    }
  }

  // ----- optimality -----

  /** Lengths on s that some prefix code could have. */
  ghost predicate KraftOk(s: set<nat>, l: seq<nat>, top: nat)
  {
    && (forall x :: x in s ==> x < |l| && l[x] <= top)
    && Total(s, Shares(l, top)) <= Pow2(top)
  }

  lemma {:induction false} Longest(s: set<nat>, l: seq<nat>) returns (x: nat)
    requires s != {} && forall y :: y in s ==> y < |l|
    ensures x in s && forall y :: y in s ==> l[y] <= l[x]
    decreases s
  {
    var a :| a in s;
    var rest := s - {a};
    assert forall z :: z in s ==> z == a || z in rest;
    x := a;
    if rest != {} {
      var y := Longest(rest, l);
      if l[y] > l[a] {
        x := y;
      }
    }
  }

  function Swap(l: seq<nat>, a: nat, b: nat): seq<nat>
    requires a < |l| && b < |l|
  {
    l[a := l[b]][b := l[a]]
  }

  /** A sum over s in which two entries change. */
  lemma TotalChange(s: set<nat>, f: seq<nat>, g: seq<nat>, a: nat, b: nat)
    requires a in s && b in s && a != b && a < |f| && b < |f| && |f| == |g|
    requires forall x: nat :: x < |f| && x != a && x != b ==> f[x] == g[x]
    ensures Total(s, f) - f[a] - f[b] == Total(s, g) - g[a] - g[b]
  {
    TotalRemove(s, f, a);
    TotalRemove(s - {a}, f, b);
    TotalRemove(s, g, a);
    TotalRemove(s - {a}, g, b);
    SumSame(s - {a} - {b}, f, s - {a} - {b}, g, |f|);
  }

  lemma Rearrange(wa: nat, wb: nat, la: nat, lb: nat)
    requires wa <= wb && la <= lb
    ensures wa * lb + wb * la <= wa * la + wb * lb
  {
    var d := wb - wa;
    assert wb * la == wa * la + d * la && wb * lb == wa * lb + d * lb;
    MulMonotone(la, lb, d);
  }

  lemma MulMonotone(a: nat, b: nat, p: nat)
    requires a <= b
    ensures p * a <= p * b
  {
  }

  /** Giving the lighter of two symbols the longer code costs nothing. */
  lemma SwapHelps(s: set<nat>, w: seq<nat>, l: seq<nat>, top: nat, a: nat, b: nat)
    requires |w| == |l| && KraftOk(s, l, top) && a in s && b in s
    requires w[a] <= w[b] && l[a] <= l[b]
    ensures KraftOk(s, Swap(l, a, b), top)
    ensures Total(s, Products(w, Swap(l, a, b))) <= Total(s, Products(w, l))
  {
    var l' := Swap(l, a, b);
    if a == b {
      assert l' == l;
    } else {
      TotalChange(s, Shares(l, top), Shares(l', top), a, b);
      TotalChange(s, Products(w, l), Products(w, l'), a, b);
      Rearrange(w[a], w[b], l[a], l[b]);
    }
  }

  /** Shares of codes no longer than d are multiples of 2^(top - d). */
  lemma {:induction false} SharesMultiple(s: set<nat>, l: seq<nat>, top: nat, d: nat, n: nat) returns (q: nat)
    requires n <= |l| && d <= top
    requires forall x: nat :: x < n && x in s ==> l[x] <= d
    ensures Sum(s, Shares(l, top), n) == Pow2(top - d) * q
  {
    if n == 0 {
      q := 0;
    } else {
      var q' := SharesMultiple(s, l, top, d, n - 1);
      if n - 1 in s {
        var g, e := Pow2(top - d), Pow2(d - l[n - 1]);
        Pow2Add(top - d, d - l[n - 1]);
        q := q' + e;
        Distribute(g, q', e);
      } else {
        q := q';
      }
    }
  }

  lemma StrictMultiple(g: nat, q: nat, p: nat)
    requires g * q < g * p
    ensures g * q + g <= g * p
  {
    if q >= p {
      MulMonotone(p, q, g);
    }
    MulMonotone(q + 1, p, g);
    assert g * (q + 1) == g * q + g;
  }

  /** If one symbol is strictly longest it can be shortened to the next length. */
  lemma Shorten(s: set<nat>, l: seq<nat>, top: nat, a: nat, d: nat)
    requires KraftOk(s, l, top) && a in s && d < l[a]
    requires forall x :: x in s && x != a ==> l[x] <= d
    ensures KraftOk(s, l[a := d], top)
  {
    var f, g := Shares(l, top), Shares(l[a := d], top);
    TotalRemove(s, f, a);
    TotalRemove(s, g, a);
    SumSame(s - {a}, f, s - {a}, g, |f|);
    var q := SharesMultiple(s - {a}, l, top, d, |l|);
    Pow2Add(top - d, d);
    StrictMultiple(Pow2(top - d), q, Pow2(d));
  }

  /** Any lengths can be changed, at no cost, so that the two lightest symbols
      have one and the same length, at least 1. */
  lemma PairUp(s: set<nat>, w: seq<nat>, l: seq<nat>, top: nat, n: nat, m: nat) returns (r: seq<nat>)
    requires |w| == |l| && KraftOk(s, l, top) && n in s && m in s && n != m
    requires w[n] <= w[m] && Lightest(s, w, n, m)
    ensures |r| == |l| && KraftOk(s, r, top) && r[n] == r[m] > 0
    ensures Total(s, Products(w, r)) <= Total(s, Products(w, l))
  {
    var x := Longest(s, l);
    SwapHelps(s, w, l, top, n, x);
    var l1 := Swap(l, n, x);
    assert m in s - {n};
    var y := Longest(s - {n}, l1);
    SwapHelps(s, w, l1, top, m, y);
    var l2 := Swap(l1, m, y);
    r := Equalize(s, w, l2, top, n, m);
    PairNotEmpty(s, r, top, n, m);
  }

  /** The longer of two lengths can be cut to the shorter. */
  lemma Equalize(s: set<nat>, w: seq<nat>, l: seq<nat>, top: nat, n: nat, m: nat) returns (r: seq<nat>)
    requires |w| == |l| && KraftOk(s, l, top) && n in s && m in s && n != m
    requires l[m] <= l[n] && forall x :: x in s && x != n ==> l[x] <= l[m]
    ensures |r| == |l| && KraftOk(s, r, top) && r[n] == r[m]
    ensures Total(s, Products(w, r)) <= Total(s, Products(w, l))
  {
    r := l;
    if l[m] < l[n] {
      Shorten(s, l, top, n, l[m]);
      r := l[n := l[m]];
      MulMonotone(r[n], l[n], w[n]);
      SumMonotone(s, Products(w, r), Products(w, l), |w|);
    }
  }

  lemma PairNotEmpty(s: set<nat>, l: seq<nat>, top: nat, n: nat, m: nat)
    requires KraftOk(s, l, top) && n in s && m in s && n != m
    ensures l[n] > 0
  {
    TotalRemove(s, Shares(l, top), n);
    TotalRemove(s - {n}, Shares(l, top), m);
  }

  /** Under any lengths a prefix code could have, the live nodes cost at least
      what they cost at their depths in the tree. */
  lemma {:induction false} OptimalFrom(leaves: set<nat>, elems: nat, merges: seq<Merge>, w: seq<nat>,
                                       len: seq<nat>, top: nat, j: nat, l: seq<nat>, top': nat)
    requires ValidRun(leaves, elems, merges) && |leaves| == |merges| + 1 && j <= |merges|
    requires Weighted(elems, merges, w) && Greedy(leaves, elems, merges, w)
    requires Lengths(elems, merges, len, top) && forall i :: elems <= i < |len| ==> len[i] < top
    requires |l| == |w| && KraftOk(Live(leaves, elems, merges, j), l, top')
    ensures Total(Live(leaves, elems, merges, j), Products(w, len))
         <= Total(Live(leaves, elems, merges, j), Products(w, l))
    decreases |merges| - j
  {
    hide Live, Total, KraftOk, Shares;
    var live := Live(leaves, elems, merges, j);
    if j == |merges| {
      LastIsRoot(leaves, elems, merges);
      TotalOne(Products(w, len), |len| - 1);
    } else {
      var n, m, e := merges[j].n, merges[j].m, elems + j;
      LiveStep(leaves, elems, merges, j);
      LiveBelow(leaves, elems, merges, j);
      var r := PairUp(live, w, l, top', n, m);
      var r' := r[e := r[n] - 1];
      MergePair(leaves, elems, merges, w, j, r, top');
      OptimalFrom(leaves, elems, merges, w, len, top, j + 1, r', top');
      CostStep(leaves, elems, merges, w, len, j);
    }
  }

  /** Merging a pair of equal length saves its weight once. */
  lemma CostStep(leaves: set<nat>, elems: nat, merges: seq<Merge>, w: seq<nat>, l: seq<nat>, j: nat)
    requires ValidRun(leaves, elems, merges) && j < |merges| && Weighted(elems, merges, w) && |l| == |w|
    requires l[merges[j].n] == l[merges[j].m] == l[elems + j] + 1
    ensures Total(Live(leaves, elems, merges, j), Products(w, l))
         == Total(Live(leaves, elems, merges, j + 1), Products(w, l)) + w[elems + j]
  {
    hide Live, Total;
    LiveStep(leaves, elems, merges, j);
    TotalStep(leaves, elems, merges, Products(w, l), j);
    var a, b, d := w[merges[j].n], w[merges[j].m], l[elems + j];
    Distribute(a, d, 1);
    Distribute(b, d, 1);
    Distribute(d, a, b);
  }

  lemma MergePair(leaves: set<nat>, elems: nat, merges: seq<Merge>, w: seq<nat>, j: nat, r: seq<nat>, top: nat)
    requires ValidRun(leaves, elems, merges) && j < |merges| && Weighted(elems, merges, w) && |r| == |w|
    requires KraftOk(Live(leaves, elems, merges, j), r, top) && r[merges[j].n] == r[merges[j].m] > 0
    ensures var r' := r[elems + j := r[merges[j].n] - 1];
            && KraftOk(Live(leaves, elems, merges, j + 1), r', top)
            && Total(Live(leaves, elems, merges, j), Products(w, r))
               == Total(Live(leaves, elems, merges, j + 1), Products(w, r')) + w[elems + j]
  {
    hide Live;
    var live, e := Live(leaves, elems, merges, j), elems + j;
    var r' := r[e := r[merges[j].n] - 1];
    LiveStep(leaves, elems, merges, j);
    SumSame(live, Shares(r, top), live, Shares(r', top), |r|);
    SumSame(live, Products(w, r), live, Products(w, r'), |r|);
    TotalStep(leaves, elems, merges, Shares(r', top), j);
    CostStep(leaves, elems, merges, w, r', j);
  }

  // ----- the order of the merges -----

  /** Later merges take heavier nodes: the nodes are produced in order of weight. */
  lemma MergesAscend(leaves: set<nat>, elems: nat, merges: seq<Merge>, w: seq<nat>, j: nat)
    requires ValidRun(leaves, elems, merges) && Weighted(elems, merges, w) && Greedy(leaves, elems, merges, w)
    requires j + 1 < |merges|
    ensures w[merges[j].n] <= w[merges[j].m] <= w[merges[j + 1].n] <= w[merges[j + 1].m]
  {
    hide Live;
    LiveStep(leaves, elems, merges, j);
    LiveStep(leaves, elems, merges, j + 1);
  }

  /** Every node but the last is some merge's son, a created one only later than
      its own sons. */
  lemma HasFather(leaves: set<nat>, elems: nat, merges: seq<Merge>, x: nat) returns (i: nat)
    requires ValidRun(leaves, elems, merges) && |leaves| == |merges| + 1 && merges != []
    requires x in leaves || elems <= x < elems + |merges| - 1
    ensures i < |merges| && (x == merges[i].n || x == merges[i].m)
    ensures x < elems + i
  {
    LastIsRoot(leaves, elems, merges);
    var j := if x in leaves then 0 else x - elems + 1;
    if x !in leaves {
      LiveStep(leaves, elems, merges, x - elems);
    }
    i := GoneWasMerged(leaves, elems, merges, j, |merges|, x);
  }

  // ----- prefix codes satisfy the Kraft inequality -----

  /** No codeword of a symbol in s starts that of another. */
  ghost predicate IsPrefixCode(s: set<nat>, c: seq<seq<bool>>)
  {
    && (forall x :: x in s ==> x < |c|)
    && forall x, y :: x in s && y in s && x != y ==> !(c[x] <= c[y])
  }

  function Sizes(c: seq<seq<bool>>): (l: seq<nat>)
    ensures |l| == |c| && forall i :: 0 <= i < |c| ==> l[i] == |c[i]|
  {
    seq(|c|, i requires 0 <= i < |c| => |c[i]|)
  }

  /** The codewords without their first bit. */
  function Tails(c: seq<seq<bool>>): (t: seq<seq<bool>>)
    ensures |t| == |c| && forall i :: 0 <= i < |c| ==> t[i] == if c[i] == [] then [] else c[i][1..]
  {
    seq(|c|, i requires 0 <= i < |c| => if c[i] == [] then [] else c[i][1..])
  }

  lemma TailsPrefixCode(s: set<nat>, c: seq<seq<bool>>, first: bool)
    requires IsPrefixCode(s, c) && forall x :: x in s ==> c[x] != [] && c[x][0] == first
    ensures IsPrefixCode(s, Tails(c))
  {
    forall x, y | x in s && y in s && x != y
      ensures !(Tails(c)[x] <= Tails(c)[y])
    {
      assert c[x] == [first] + c[x][1..] && c[y] == [first] + c[y][1..];
      assert !(c[x] <= c[y]);
    }
  }

  lemma TailShares(s: set<nat>, c: seq<seq<bool>>, top: nat)
    requires top > 0 && forall x :: x in s ==> x < |c| && 0 < |c[x]| <= top
    ensures Total(s, Shares(Sizes(c), top)) == Total(s, Shares(Sizes(Tails(c)), top - 1))
  {
    SumSame(s, Shares(Sizes(c), top), s, Shares(Sizes(Tails(c)), top - 1), |c|);
  }

  /** The symbols whose codeword starts with a given bit. */
  function Starting(s: set<nat>, c: seq<seq<bool>>, first: bool): (t: set<nat>)
    requires forall x :: x in s ==> x < |c| && c[x] != []
    ensures forall x :: x in t <==> x in s && c[x][0] == first
  {
    set x | x in s && c[x][0] == first
  }

  lemma EmptyWordAlone(s: set<nat>, c: seq<seq<bool>>, x: nat)
    requires IsPrefixCode(s, c) && x in s && c[x] == []
    ensures s == {x}
  {
    forall y | y in s
      ensures y == x
    {
      assert c[x] <= c[y];
    }
  }

  /** The Kraft inequality. */
  lemma {:induction false} PrefixCodeIsKraftOk(s: set<nat>, c: seq<seq<bool>>, top: nat)
    requires IsPrefixCode(s, c) && forall x :: x in s ==> |c[x]| <= top
    ensures KraftOk(s, Sizes(c), top)
    decreases top, 1
  {
    var f := Shares(Sizes(c), top);
    if x :| x in s && c[x] == [] {
      EmptyWordAlone(s, c, x);
      TotalOne(f, x);
    } else if s == {} {
      SumEmpty(f, |f|);
    } else {
      var y :| y in s;
      assert top > 0;
      KraftHalf(s, c, top, false);
      KraftHalf(s, c, top, true);
      var s0, s1 := Starting(s, c, false), Starting(s, c, true);
      assert s == s0 + s1;
      SumSplit(s0, s1, f, |f|);
    }
  }

  /** The codewords starting with one bit take up at most half. */
  lemma {:induction false} KraftHalf(s: set<nat>, c: seq<seq<bool>>, top: nat, first: bool)
    requires IsPrefixCode(s, c) && forall x :: x in s ==> |c[x]| <= top && c[x] != []
    requires top > 0
    ensures Total(Starting(s, c, first), Shares(Sizes(c), top)) <= Pow2(top - 1)
    decreases top, 0
  {
    var t := Starting(s, c, first);
    TailShares(t, c, top);
    TailsPrefixCode(t, c, first);
    PrefixCodeIsKraftOk(t, Tails(c), top - 1);
  }

  /** No prefix code for the leaves is shorter than the tree's lengths. */
  lemma HuffmanIsOptimal(leaves: set<nat>, elems: nat, merges: seq<Merge>, w: seq<nat>,
                         len: seq<nat>, top: nat, c: seq<seq<bool>>, longest: nat)
    requires ValidRun(leaves, elems, merges) && |leaves| == |merges| + 1
    requires Weighted(elems, merges, w) && Greedy(leaves, elems, merges, w)
    requires Lengths(elems, merges, len, top) && forall i :: elems <= i < |len| ==> len[i] < top
    requires |c| == |w| && IsPrefixCode(leaves, c) && forall x :: x in leaves ==> |c[x]| <= longest
    ensures Total(leaves, Products(w, len)) <= Total(leaves, Products(w, Sizes(c)))
  {
    PrefixCodeIsKraftOk(leaves, c, longest);
    OptimalFrom(leaves, elems, merges, w, len, top, 0, Sizes(c), longest);
  }
}
