/** Tree descriptors and their arrays, and the codes that `build_tree` forces. */
module Trees {
  import opened Bits
  import opened Sums
  import opened Heaps
  import opened PrefixCode

  const U16 := 0x1_0000

  /** `tree_desc`, the part that does not change. */
  datatype Desc = Desc(elems: nat, maxLength: nat, extraBits: seq<nat>, extraBase: nat,
                       staticLens: Option<seq<nat>>)
  {
    ghost predicate Valid() {
      && 3 <= elems <= L_CODES
      && 1 <= maxLength <= MAX_BITS && elems < Pow2(maxLength)
      && extraBase <= elems <= extraBase + |extraBits|
      && XBits(0) == XBits(1) == XBits(2) == 0
      && (staticLens.Some? ==> |staticLens.value| >= elems)
    }

    /** Extra bits sent with symbol n. */
    function XBits(n: nat): nat
    {
      if extraBase <= n < extraBase + |extraBits| then extraBits[n - extraBase] else 0
    }

    /** Length of symbol n in the fixed code, 0 if there is none. */
    function StaticLen(n: nat): nat
    {
      if staticLens.Some? && n < |staticLens.value| then staticLens.value[n] else 0
    }
  }

  /** A `tree_desc` with its tree. `fc` holds Freq or Code, `dl` holds Dad or Len. */
  class Tree {
    const desc: Desc
    const fc: array<nat>
    const dl: array<nat>
    var maxCode: int

    ghost predicate Valid()
    {
      desc.Valid() && fc != dl && fc.Length == dl.Length && 2 * desc.elems < fc.Length
    }

    constructor (desc: Desc, size: nat)
      requires desc.Valid() && 2 * desc.elems < size
      ensures Valid() && fresh(fc) && fresh(dl) && this.desc == desc
      ensures forall i :: 0 <= i < fc.Length ==> fc[i] == 0
      ensures fc.Length == size && forall i :: 0 <= i < dl.Length ==> dl[i] == 0
    {
      this.desc := desc;
      fc := new nat[size](_ => 0);
      dl := new nat[size](_ => 0);
      maxCode := 0;
    }
  }

  /** The symbols below n that occur. */
  function LeafSet(f: seq<nat>, n: nat): (s: set<nat>)
    requires n <= |f|
    ensures forall x: nat :: x in s <==> x < n && f[x] != 0
  {
    set x: nat | x < n && f[x] != 0
  }

  /** The frequencies after codes have been forced: nothing else changes, and a
      forced code is one of the first three and there are then no more than two. */
  ghost predicate Forced(f0: seq<nat>, f: seq<nat>, elems: nat)
    requires elems <= |f0| && elems <= |f|
  {
    && |f| == |f0| && (forall x :: elems <= x < |f| ==> f[x] == f0[x])
    && forall x :: 0 <= x < elems ==>
      f[x] == f0[x] || (f0[x] == 0 && f[x] == 1 && x <= 2 && |LeafSet(f, elems)| <= 2)
  }

  lemma NodesSnoc(h: seq<nat>, len: nat, v: nat)
    requires len + 1 < |h|
    ensures Nodes(h[len + 1 := v], len + 1) == Nodes(h, len) + multiset{v}
  {
    assert h[len + 1 := v][1..len + 2] == h[1..len + 1] + [v];
  }

  lemma SetSnoc(s: set<nat>, x: nat)
    requires x !in s
    ensures multiset(s + {x}) == multiset(s) + multiset{x}
  {
  }

  lemma SizeFromNodes(h: seq<nat>, len: nat, s: set<nat>)
    requires len < |h| && Nodes(h, len) == multiset(s)
    ensures |s| == len
  {
    assert |multiset(s)| == |s|;
    assert |Nodes(h, len)| == len;
  }

  lemma {:induction false} SetBelow(s: set<nat>, n: nat)
    requires forall x :: x in s ==> x < n
    ensures |s| <= n
  {
    if n > 0 {
      SetBelow(s - {n - 1}, n - 1);
    } else {
      assert s == {};
    }
  }

  lemma LeafSetSnoc(f: seq<nat>, n: nat)
    requires n < |f|
    ensures LeafSet(f, n + 1) == if f[n] != 0 then LeafSet(f, n) + {n} else LeafSet(f, n)
  {
  }

  lemma LeafSetUpdate(f: seq<nat>, n: nat, x: nat, v: nat)
    requires x < n <= |f| && v > 0
    ensures LeafSet(f[x := v], n) == LeafSet(f, n) + {x}
  {
  }

  /** Part way through forcing codes: the frequencies, the two running sizes, and
      the largest code, compared with their values before. */
  ghost predicate Forcing(desc: Desc, opt0: int, static0: int, f0: seq<nat>,
                          opt: int, static_: int, f: seq<nat>, maxCode: int)
    requires desc.elems <= |f0|
  {
    && 3 <= desc.elems <= |f|
    && -1 <= maxCode < desc.elems && LastLeaf(f, desc.elems, maxCode)
    && Forced(f0, f, desc.elems)
    && ForcedLens(desc, opt0, static0, f0, opt, static_, f)
  }

  /** x is the largest symbol below n that occurs, or -1. */
  ghost predicate LastLeaf(f: seq<nat>, n: nat, x: int)
    requires n <= |f|
  {
    && -1 <= x < n && (x >= 0 ==> f[x] != 0)
    && forall y :: 0 <= y < n && f[y] != 0 ==> y <= x
  }

  lemma NoLeaves(f: seq<nat>, h: seq<nat>, bound: nat)
    requires |h| > 0
    ensures LeafSet(f, 0) == {} && Nodes(h, 0) == multiset(LeafSet(f, 0)) && InBounds(h, 0, bound)
  {
  }

  lemma SetsGrow(a: set<nat>, b: set<nat>)
    requires a <= b
    ensures |a| <= |b|
  {
    assert b == a + (b - a);
  }

  /** What forcing codes takes off the two running sizes. */
  ghost predicate ForcedLens(desc: Desc, opt0: int, static0: int, f0: seq<nat>, opt: int, static_: int, f: seq<nat>)
    requires desc.elems <= |f0| && desc.elems <= |f|
  {
    var forced := LeafSet(f, desc.elems) - LeafSet(f0, desc.elems);
    && opt == opt0 - |forced|
    && static_ == static0 - Total(forced, StaticLens(desc))
  }

  function StaticLens(desc: Desc): (s: seq<nat>)
    ensures |s| == desc.elems && forall i :: 0 <= i < desc.elems ==> s[i] == desc.StaticLen(i)
  {
    seq(desc.elems, i requires 0 <= i < desc.elems => desc.StaticLen(i))
  }

  lemma NothingForced(desc: Desc, opt: int, static_: int, f: seq<nat>, maxCode: int)
    requires 3 <= desc.elems <= |f| && -1 <= maxCode < desc.elems && LastLeaf(f, desc.elems, maxCode)
    ensures Forcing(desc, opt, static_, f, opt, static_, f, maxCode)
  {
    assert LeafSet(f, desc.elems) - LeafSet(f, desc.elems) == {};
    SumEmpty(StaticLens(desc), desc.elems);
  }

  lemma OneForced(desc: Desc, opt0: int, static0: int, f0: seq<nat>, opt: int, static_: int, f: seq<nat>, x: nat)
    requires desc.elems <= |f0| && desc.elems <= |f| && x < desc.elems
    requires ForcedLens(desc, opt0, static0, f0, opt, static_, f) && f0[x] == 0 && f[x] == 0
    ensures ForcedLens(desc, opt0, static0, f0, opt - 1, static_ - desc.StaticLen(x), f[x := 1])
  {
    var n := desc.elems;
    var forced := LeafSet(f, n) - LeafSet(f0, n);
    LeafSetUpdate(f, n, x, 1);
    assert LeafSet(f[x := 1], n) - LeafSet(f0, n) == forced + {x};
    TotalAdd(forced, StaticLens(desc), x);
  }

  lemma FreeCode(f: seq<nat>, n: nat, maxCode: int)
    requires 3 <= n <= |f| && LastLeaf(f, n, maxCode) && |LeafSet(f, n)| < 2
    ensures f[if maxCode < 2 then maxCode + 1 else 0] == 0
  {
    if maxCode >= 2 && f[0] != 0 {
      SetsGrow({0, maxCode}, LeafSet(f, n));
    }
  }

  lemma StillForced(f0: seq<nat>, f: seq<nat>, n: nat, maxCode: int)
    requires n <= |f0| && 3 <= n <= |f| && LastLeaf(f, n, maxCode) && |LeafSet(f, n)| < 2 && Forced(f0, f, n)
    requires f[if maxCode < 2 then maxCode + 1 else 0] == 0
    ensures var code := if maxCode < 2 then maxCode + 1 else 0;
            && f0[code] == 0 && code !in LeafSet(f, n)
            && LeafSet(f[code := 1], n) == LeafSet(f, n) + {code}
            && Forced(f0, f[code := 1], n)
            && LastLeaf(f[code := 1], n, if maxCode < 2 then code else maxCode)
  {
    var code := if maxCode < 2 then maxCode + 1 else 0;
    LeafSetUpdate(f, n, code, 1);
    assert |LeafSet(f[code := 1], n)| == |LeafSet(f, n)| + 1;
    hide LeafSet;
  }

  lemma ForcingLast(desc: Desc, opt0: int, static0: int, f0: seq<nat>, opt: int, static_: int, f: seq<nat>, maxCode: int)
    requires desc.elems <= |f0| && Forcing(desc, opt0, static0, f0, opt, static_, f, maxCode)
    ensures 3 <= desc.elems <= |f| && LastLeaf(f, desc.elems, maxCode)
  {
  }

  /** The code that is forced next is free. */
  lemma ForceStep(desc: Desc, opt0: int, static0: int, f0: seq<nat>,
                  opt: int, static_: int, f: seq<nat>, maxCode: int, code: int)
    requires desc.elems <= |f0|
    requires Forcing(desc, opt0, static0, f0, opt, static_, f, maxCode)
    requires |LeafSet(f, desc.elems)| < 2 && code == if maxCode < 2 then maxCode + 1 else 0
    ensures 0 <= code < desc.elems && code !in LeafSet(f, desc.elems)
    ensures LeafSet(f[code := 1], desc.elems) == LeafSet(f, desc.elems) + {code}
    ensures Forcing(desc, opt0, static0, f0, opt - 1, static_ - desc.StaticLen(code), f[code := 1],
                    if maxCode < 2 then code else maxCode)
  {
    FreeCode(f, desc.elems, maxCode);
    StillForced(f0, f, desc.elems, maxCode);
    hide LeafSet, Forced, LastLeaf, ForcedLens;
    OneForced(desc, opt0, static0, f0, opt, static_, f, code);
  }

  /** The symbols there are after codes have been forced: two at least. */
  function ForcedSet(s: set<nat>): set<nat>
  {
    if |s| >= 2 then s else if 1 in s then {1, 2} else if s == {} || 0 in s then {0, 1} else s + {0}
  }

  /** So code 2 is forced exactly if 1 is the only symbol. */
  lemma TwoForced(s: set<nat>)
    ensures 2 in ForcedSet(s) - s <==> s == {1}
  {
    if |s| < 2 && 1 in s {
      assert |s - {1}| == |s| - 1;
    }
  }

  lemma ForcedSetStep(f: seq<nat>, n: nat, maxCode: int, code: nat)
    requires 3 <= n <= |f| && LastLeaf(f, n, maxCode) && |LeafSet(f, n)| < 2
    requires code == if maxCode < 2 then maxCode + 1 else 0
    ensures ForcedSet(LeafSet(f, n) + {code}) == ForcedSet(LeafSet(f, n))
  {
    hide LeafSet, LastLeaf, ForcedSet;
    FewLeaves(f, n, maxCode);
    if maxCode < 0 {
      NoneForced();
    } else {
      ForcedSingle(maxCode, code);
    }
  }

  lemma NoneForced()
    ensures ForcedSet({} + {0}) == ForcedSet({})
  {
    assert {} + {0} == {0};
  }

  lemma ForcedSingle(x: nat, y: nat)
    requires y == if x < 2 then x + 1 else 0
    ensures ForcedSet({x} + {y}) == ForcedSet({x})
  {
    assert |{x}| == 1 && |{x} + {y}| == 2;
    assert {x} + {y} == {x, y};
  }

  lemma FewLeaves(f: seq<nat>, n: nat, maxCode: int)
    requires n <= |f| && LastLeaf(f, n, maxCode) && |LeafSet(f, n)| < 2
    ensures LeafSet(f, n) == if maxCode < 0 then {} else {maxCode as nat}
  {
    var s := LeafSet(f, n);
    if maxCode >= 0 {
      assert |s - {maxCode as nat}| == |s| - 1;
    }
  }

  lemma EnoughLeaves(desc: Desc, opt0: int, static0: int, f0: seq<nat>,
                     opt: int, static_: int, f: seq<nat>, maxCode: int)
    requires desc.elems <= |f0|
    requires Forcing(desc, opt0, static0, f0, opt, static_, f, maxCode)
    requires |LeafSet(f, desc.elems)| >= 2
    ensures 0 <= maxCode < desc.elems
  {
    var y :| y in LeafSet(f, desc.elems);
  }
}
