/** Frequencies of symbols, and what a list of symbols costs. */
module Histogram {
  import opened Bits
  import opened Sums
  import opened Huffman
  import opened PrefixCode
  import opened Trees
  import opened CodeLengths

  /** f tells how often each symbol below n occurs in xs. */
  ghost predicate Frequencies(f: seq<nat>, xs: seq<nat>, n: nat)
  {
    n <= |f| && forall c :: 0 <= c < n ==> f[c] == Count(xs, c)
  }

  ghost predicate Below(xs: seq<nat>, n: nat)
  {
    forall i :: 0 <= i < |xs| ==> xs[i] < n
  }

  lemma CountSnoc(xs: seq<nat>, x: nat, c: nat)
    ensures Count(xs + [x], c) == Count(xs, c) + (if x == c then 1 else 0)
  {
    assert (xs + [x])[..|xs|] == xs;
  }

  lemma {:induction false} CountAppend(xs: seq<nat>, ys: seq<nat>, c: nat)
    ensures Count(xs + ys, c) == Count(xs, c) + Count(ys, c)
  {
    if ys == [] {
      assert xs + ys == xs;
    } else {
      var init := ys[..|ys| - 1];
      CountAppend(xs, init, c);
      assert (xs + ys)[..|xs + ys| - 1] == xs + init;
    }
  }

  lemma {:induction false} CountPositive(xs: seq<nat>, i: nat)
    requires i < |xs|
    ensures Count(xs, xs[i]) > 0
  {
    if i < |xs| - 1 {
      CountPositive(xs[..|xs| - 1], i);
    }
  }

  /** The cost of a list of symbols. */
  function Cost(xs: seq<nat>, cost: seq<nat>): nat
    requires Below(xs, |cost|)
  {
    if xs == [] then 0 else Cost(xs[..|xs| - 1], cost) + cost[xs[|xs| - 1]]
  }

  lemma {:induction false} CostAppend(xs: seq<nat>, ys: seq<nat>, cost: seq<nat>)
    requires Below(xs, |cost|) && Below(ys, |cost|)
    ensures Below(xs + ys, |cost|) && Cost(xs + ys, cost) == Cost(xs, cost) + Cost(ys, cost)
  {
    if ys == [] {
      assert xs + ys == xs;
    } else {
      var init := ys[..|ys| - 1];
      CostAppend(xs, init, cost);
      assert (xs + ys)[..|xs + ys| - 1] == xs + init;
    }
  }

  function FreqOf(xs: seq<nat>, n: nat): (f: seq<nat>)
    ensures |f| == n && forall c :: 0 <= c < n ==> f[c] == Count(xs, c)
  {
    seq(n, c requires 0 <= c < n => Count(xs, c))
  }

  /** Adding up frequency times cost gives the cost of the list. */
  lemma {:induction false} CostIsSum(xs: seq<nat>, cost: seq<nat>)
    requires Below(xs, |cost|)
    ensures Total(All(|cost|), Products(FreqOf(xs, |cost|), cost)) == Cost(xs, cost)
  {
    var n := |cost|;
    if xs == [] {
      SumZero(All(n), Products(FreqOf(xs, n), cost), n);
    } else {
      var init, x := xs[..|xs| - 1], xs[|xs| - 1];
      CostIsSum(init, cost);
      assert xs == init + [x];
      OneMore(init, x, cost);
    }
  }

  lemma OneMore(xs: seq<nat>, x: nat, cost: seq<nat>)
    requires x < |cost|
    ensures Total(All(|cost|), Products(FreqOf(xs + [x], |cost|), cost))
         == Total(All(|cost|), Products(FreqOf(xs, |cost|), cost)) + cost[x]
  {
    var n := |cost|;
    var f, g := Products(FreqOf(xs, n), cost), Products(FreqOf(xs + [x], n), cost);
    forall c: nat | c < n
      ensures g[c] == f[c] + (if c == x then cost[x] else 0)
    {
      ProductAt(xs, x, cost, c);
    }
    TotalBump(All(n), f, g, x, cost[x]);
  }

  lemma ProductAt(xs: seq<nat>, x: nat, cost: seq<nat>, c: nat)
    requires c < |cost|
    ensures Products(FreqOf(xs + [x], |cost|), cost)[c]
         == Products(FreqOf(xs, |cost|), cost)[c] + (if c == x then cost[c] else 0)
  {
    CountSnoc(xs, x, c);
    hide Count;
    Distribute(cost[c], Count(xs, c), 1);
  }

  lemma TotalBump(s: set<nat>, f: seq<nat>, g: seq<nat>, x: nat, d: nat)
    requires |f| == |g| && x in s && x < |f|
    requires forall c: nat :: c < |f| ==> g[c] == f[c] + (if c == x then d else 0)
    ensures Total(s, g) == Total(s, f) + d
  {
    TotalRemove(s, f, x);
    TotalRemove(s, g, x);
    TotalSame(s - {x}, f, g);
  }

  lemma TotalSame(s: set<nat>, f: seq<nat>, g: seq<nat>)
    requires |f| == |g| && forall x: nat :: x < |f| && x in s ==> f[x] == g[x]
    ensures Total(s, f) == Total(s, g)
  {
    SumSame(s, f, s, g, |f|);
  }

  lemma {:induction false} SumOfPart(s: set<nat>, f: seq<nat>, n: nat)
    requires n <= |f| && forall x: nat :: x < n && x !in s ==> f[x] == 0
    ensures Sum(s, f, n) == Sum(All(|f|), f, n)
  {
    if n > 0 {
      SumOfPart(s, f, n - 1);
    }
  }

  /** What a symbol costs with given lengths, extra bits included. */
  function CostsOf(desc: Desc, l: seq<nat>): (s: seq<nat>)
    requires desc.elems <= |l|
    ensures |s| == desc.elems && forall c :: 0 <= c < desc.elems ==> s[c] == l[c] + desc.XBits(c)
  {
    seq(desc.elems, c requires 0 <= c < desc.elems => l[c] + desc.XBits(c))
  }

  function StaticCostsOf(desc: Desc): (s: seq<nat>)
    ensures |s| == desc.elems && forall c :: 0 <= c < desc.elems ==> s[c] == desc.StaticLen(c) + desc.XBits(c)
  {
    seq(desc.elems, c requires 0 <= c < desc.elems => desc.StaticLen(c) + desc.XBits(c))
  }

  /** The sum kept in `opt_len` is the cost of the symbols that were counted. */
  lemma OptCostIsCost(desc: Desc, f: seq<nat>, l: seq<nat>, xs: seq<nat>)
    requires desc.elems <= |l| && Frequencies(f, xs, desc.elems) && Below(xs, desc.elems)
    ensures Total(LeafSet(f, desc.elems), OptCosts(desc, f, l)) == Cost(xs, CostsOf(desc, l))
  {
    var n := desc.elems;
    SumOfPart(LeafSet(f, n), OptCosts(desc, f, l), n);
    CostIsSum(xs, CostsOf(desc, l));
    SumSame(All(n), OptCosts(desc, f, l), All(n), Products(FreqOf(xs, n), CostsOf(desc, l)), n);
  }

  /** Likewise the sum kept in `static_len`. */
  lemma StaticCostIsCost(desc: Desc, f: seq<nat>, xs: seq<nat>)
    requires Frequencies(f, xs, desc.elems) && Below(xs, desc.elems) && desc.staticLens.Some?
    ensures Total(LeafSet(f, desc.elems), StaticCosts(desc, f)) == Cost(xs, StaticCostsOf(desc))
  {
    var n := desc.elems;
    SumOfPart(LeafSet(f, n), StaticCosts(desc, f), n);
    CostIsSum(xs, StaticCostsOf(desc));
    SumSame(All(n), StaticCosts(desc, f), All(n), Products(FreqOf(xs, n), StaticCostsOf(desc)), n);
  }

  lemma NoStaticCost(desc: Desc, f: seq<nat>)
    requires desc.elems <= |f| && desc.staticLens.None?
    ensures Total(LeafSet(f, desc.elems), StaticCosts(desc, f)) == 0
  {
    SumZero(LeafSet(f, desc.elems), StaticCosts(desc, f), desc.elems);
  }

  /** The frequencies of a list add up to its length. */
  lemma FrequenciesTotal(f: seq<nat>, xs: seq<nat>, n: nat)
    requires Frequencies(f, xs, n) && Below(xs, n)
    ensures Total(LeafSet(f, n), f) == |xs|
  {
    SumOfPart(LeafSet(f, n), f[..n], n);
    CostIsSum(xs, Ones(n));
    CostOfOnes(xs, n);
    SumSame(All(n), f[..n], All(n), Products(FreqOf(xs, n), Ones(n)), n);
    SumStops(LeafSet(f, n), f, n, |f|);
    SumSame(LeafSet(f, n), f, LeafSet(f, n), f[..n], n);
  }

  lemma {:induction false} CostOfOnes(xs: seq<nat>, n: nat)
    requires Below(xs, n)
    ensures Cost(xs, Ones(n)) == |xs|
  {
    if xs != [] {
      CostOfOnes(xs[..|xs| - 1], n);
    }
  }
}
