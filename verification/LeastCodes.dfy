/** What the optimality of a tree means for any other lengths that a reader could
    use for the same symbols. */
module LeastCodes {
  import opened Bits
  import opened Sums
  import opened PrefixCode
  import opened Inflate
  import opened Tokens
  import opened Huffman
  import opened Heaps
  import opened Trees
  import opened CodeLengths
  import opened TreeBuilder
  import opened Histogram

  // ----- lengths of a prefix code -----

  /** The codewords of lengths a reader can use. */
  ghost function Words(lens: seq<nat>): (c: seq<seq<bool>>)
    ensures |c| == |lens| && Sizes(c) == lens
  {
    seq(|lens|, n requires 0 <= n < |lens| => CodeWord(lens, n))
  }

  lemma WordsPrefixCode(lens: seq<nat>, leaves: set<nat>)
    requires Decodable(lens) && forall x :: x in leaves ==> x < |lens| && lens[x] > 0
    ensures IsPrefixCode(leaves, Words(lens))
  {
    hide CodeWord, Used;
    forall x, y | x in leaves && y in leaves && x != y
      ensures !(Words(lens)[x] <= Words(lens)[y])
    {
      PrefixFree(lens, x, y);
    }
  }

  /** Symbols without a code make no difference. */
  function Padded(lens: seq<nat>, n: nat): (r: seq<nat>)
    requires |lens| <= n
    ensures |r| == n && r[..|lens|] == lens && forall i :: |lens| <= i < n ==> r[i] == 0
  {
    lens + seq(n - |lens|, _ => 0)
  }

  lemma PaddedDecodable(lens: seq<nat>, n: nat)
    requires |lens| <= n && Decodable(lens)
    ensures Decodable(Padded(lens, n))
  {
    forall k: nat | 0 < k
      ensures Count(Padded(lens, n), k) == Count(lens, k)
    {
      PaddedCount(lens, n, k);
    }
    SameUsed(lens, Padded(lens, n), MAX_BITS);
  }

  lemma {:induction false} PaddedCount(lens: seq<nat>, n: nat, k: nat)
    requires |lens| <= n && 0 < k
    ensures Count(Padded(lens, n), k) == Count(lens, k)
    decreases n
  {
    if |lens| == n {
      assert Padded(lens, n) == lens;
    } else {
      PaddedCount(lens, n - 1, k);
      assert Padded(lens, n)[..n - 1] == Padded(lens, n - 1);
    }
  }

  lemma {:induction false} SameUsed(a: seq<nat>, b: seq<nat>, k: nat)
    requires forall i: nat :: 0 < i ==> Count(b, i) == Count(a, i)
    ensures Used(b, k) == Used(a, k)
  {
    if k > 0 {
      SameUsed(a, b, k - 1);
      assert Count(b, k) == Count(a, k);
    }
  }

  // ----- one tree -----

  /** The lengths of a tree, on the symbols that occur, against any others. */
  lemma NoBetterLengths(desc: Desc, f: seq<nat>, dl: seq<nat>, merges: seq<Merge>, l: seq<nat>)
    requires |f| == desc.elems == |l| && desc.elems <= |dl| && Grown(desc, f, dl, merges)
    requires forall x :: x in LeafSet(f, desc.elems) ==> dl[x] < desc.maxLength
    requires Decodable(l) && forall x :: x in LeafSet(f, desc.elems) ==> l[x] > 0
    ensures Total(LeafSet(f, desc.elems), Products(f, dl[..desc.elems])) <= Total(LeafSet(f, desc.elems), Products(f, l))
  {
    hide Total, Products, RunOf, Uncut, LeafSet, Decodable, ReachesAsFar;
    var leaves := LeafSet(f, desc.elems);
    if |leaves| >= 2 {
      WordsPrefixCode(l, leaves);
      assert Sizes(Words(l)) == l;
    } else if |leaves| == 1 {
      OneLength(leaves, f, dl[..desc.elems], l);
    } else {
      SumEmpty(Products(f, dl[..desc.elems]), desc.elems);
      SumEmpty(Products(f, l), desc.elems);
      assert leaves == {};
      NothingTotal(Products(f, dl[..desc.elems]));
      NothingTotal(Products(f, l));
    }
  }

  lemma NothingTotal(s: seq<nat>)
    ensures Total({}, s) == 0
  {
    SumEmpty(s, |s|);
  }

  lemma OneLength(leaves: set<nat>, f: seq<nat>, a: seq<nat>, b: seq<nat>)
    requires |f| == |a| == |b| && forall x :: x in leaves ==> x < |f| && a[x] <= b[x]
    ensures Total(leaves, Products(f, a)) <= Total(leaves, Products(f, b))
  {
    forall x: nat | x in leaves && x < |f|
      ensures Products(f, a)[x] <= Products(f, b)[x]
    {
      MulMonotone(a[x], b[x], f[x]);
    }
    SumMonotone(leaves, Products(f, a), Products(f, b), |f|);
  }

  /** Extra bits come on top of any lengths. */
  lemma {:induction false} SplitCosts(desc: Desc, f: seq<nat>, l: seq<nat>, extra: seq<nat>, s: set<nat>, n: nat)
    requires |f| == desc.elems == |extra| && desc.elems <= |l| && n <= desc.elems
    requires forall i :: 0 <= i < desc.elems ==> extra[i] == f[i] * desc.XBits(i)
    ensures Sum(s, OptCosts(desc, f, l), n) == Sum(s, Products(f, l[..desc.elems]), n) + Sum(s, extra, n)
  {
    if n > 0 {
      SplitCosts(desc, f, l, extra, s, n - 1);
      Distribute(f[n - 1], l[n - 1], desc.XBits(n - 1));
    }
  }

  lemma NoBetterCosts(desc: Desc, f: seq<nat>, dl: seq<nat>, merges: seq<Merge>, l: seq<nat>, xs: seq<nat>)
    requires |f| == desc.elems == |l| && desc.elems <= |dl| && Grown(desc, f, dl, merges)
    requires Frequencies(f, xs, desc.elems) && Below(xs, desc.elems)
    requires forall x :: x in LeafSet(f, desc.elems) ==> dl[x] < desc.maxLength
    requires Decodable(l) && forall x :: x in LeafSet(f, desc.elems) ==> l[x] > 0
    ensures Cost(xs, CostsOf(desc, dl)) <= Cost(xs, CostsOf(desc, l))
  {
    hide Grown, LeafSet, Products, OptCosts, Decodable, CostsOf, Cost;
    var n, leaves := desc.elems, LeafSet(f, desc.elems);
    var extra := seq(n, i requires 0 <= i < n => f[i] * desc.XBits(i));
    NoBetterLengths(desc, f, dl, merges, l);
    SplitCosts(desc, f, dl, extra, leaves, n);
    SplitCosts(desc, f, l, extra, leaves, n);
    assert l[..n] == l;
    OptCostIsCost(desc, f, dl, xs);
    OptCostIsCost(desc, f, l, xs);
  }

  lemma {:induction false} CountFound(xs: seq<nat>, c: nat) returns (i: nat)
    requires Count(xs, c) > 0
    ensures i < |xs| && xs[i] == c
  {
    i := |xs| - 1;
    if xs[i] != c {
      i := CountFound(xs[..i], c);
    }
  }
}
