/** Sums over a set of indices into a list of numbers. */
module Sums {

  function Sum(s: set<nat>, f: seq<nat>, n: nat): nat
    requires n <= |f|
  {
    if n == 0 then 0 else Sum(s, f, n - 1) + (if n - 1 in s then f[n - 1] else 0)
  }

  /** The sum of f over the indices in s. */
  function Total(s: set<nat>, f: seq<nat>): nat
  {
    Sum(s, f, |f|)
  }

  lemma {:induction false} SumSame(s: set<nat>, f: seq<nat>, t: set<nat>, g: seq<nat>, n: nat)
    requires n <= |f| && n <= |g|
    requires forall x: nat :: x < n ==> (x in s <==> x in t)
    requires forall x: nat :: x < n && x in s ==> f[x] == g[x]
    ensures Sum(s, f, n) == Sum(t, g, n)
  {
    if n > 0 {
      SumSame(s, f, t, g, n - 1);
      assert n - 1 in s <==> n - 1 in t;
    }
  }

  lemma {:induction false} SumRemove(s: set<nat>, f: seq<nat>, n: nat, x: nat)
    requires x < n <= |f| && x in s
    ensures Sum(s, f, n) == Sum(s - {x}, f, n) + f[x]
  {
    if x == n - 1 {
      SumSame(s, f, s - {x}, f, n - 1);
    } else {
      SumRemove(s, f, n - 1, x);
      assert n - 1 in s <==> n - 1 in s - {x};
    }
  }

  lemma TotalRemove(s: set<nat>, f: seq<nat>, x: nat)
    requires x < |f| && x in s
    ensures Total(s, f) == Total(s - {x}, f) + f[x]
  {
    SumRemove(s, f, |f|, x);
  }

  lemma TotalAdd(s: set<nat>, f: seq<nat>, x: nat)
    requires x < |f| && x !in s
    ensures Total(s + {x}, f) == Total(s, f) + f[x]
  {
    TotalRemove(s + {x}, f, x);
    assert s + {x} - {x} == s;
  }

  lemma {:induction false} SumEmpty(f: seq<nat>, n: nat)
    requires n <= |f|
    ensures Sum({}, f, n) == 0
  {
    if n > 0 {
      SumEmpty(f, n - 1);
    }
  }

  lemma TotalOne(f: seq<nat>, x: nat)
    requires x < |f|
    ensures Total({x}, f) == f[x]
  {
    TotalRemove({x}, f, x);
    assert {x} - {x} == {};
    SumEmpty(f, |f|);
  }

  /** A sum over two parts is the sum of the parts. */
  lemma {:induction false} SumSplit(s: set<nat>, t: set<nat>, f: seq<nat>, n: nat)
    requires n <= |f| && s !! t
    ensures Sum(s + t, f, n) == Sum(s, f, n) + Sum(t, f, n)
  {
    if n > 0 {
      SumSplit(s, t, f, n - 1);
      assert n - 1 in s + t <==> n - 1 in s || n - 1 in t;
    }
  }

  /** The products of two lists, entry by entry. */
  function Products(w: seq<nat>, l: seq<nat>): (p: seq<nat>)
    requires |w| == |l|
    ensures |p| == |w| && forall i :: 0 <= i < |w| ==> p[i] == w[i] * l[i]
  {
    seq(|w|, i requires 0 <= i < |w| => w[i] * l[i])
  }

  lemma {:induction false} SumMonotone(s: set<nat>, f: seq<nat>, g: seq<nat>, n: nat)
    requires n <= |f| && n <= |g|
    requires forall x: nat :: x < n && x in s ==> f[x] <= g[x]
    ensures Sum(s, f, n) <= Sum(s, g, n)
  {
    if n > 0 {
      SumMonotone(s, f, g, n - 1);
    }
  }
}
