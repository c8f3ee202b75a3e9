/** The code lengths of a finished tree: depths cut off at the maximum, what
    they sum to, and the repair of the counts when some were cut off. */
module CodeLengths {
  import opened Bits
  import opened Sums
  import opened Huffman
  import opened Heaps
  import opened Merging
  import opened WorstCase
  import opened PrefixCode
  import opened Trees

  /** Lengths of the nodes from the root down to merge j. */
  function LensFrom(elems: nat, merges: seq<Merge>, top: nat, j: nat): (len: seq<nat>)
    requires j <= |merges| && forall k :: 0 <= k < |merges| ==> merges[k].n < elems + k && merges[k].m < elems + k
    ensures |len| == elems + |merges|
    decreases |merges| - j
  {
    if j == |merges| then seq(elems + |merges|, _ => 0)
    else
      var below := LensFrom(elems, merges, top, j + 1);
      var l := if below[elems + j] < top then below[elems + j] + 1 else top;
      below[merges[j].n := l][merges[j].m := l]
  }

  /** Different merges have different sons. */
  lemma SonsDiffer(leaves: set<nat>, elems: nat, merges: seq<Merge>, j: nat, k: nat)
    requires ValidRun(leaves, elems, merges) && j < k < |merges|
    ensures merges[j].n != merges[k].n && merges[j].n != merges[k].m
    ensures merges[j].m != merges[k].n && merges[j].m != merges[k].m
  {
    hide Live;
    MergedIsGone(leaves, elems, merges, j, k, merges[j].n);
    MergedIsGone(leaves, elems, merges, j, k, merges[j].m);
    LiveStep(leaves, elems, merges, k);
  }

  lemma SonsSmall(leaves: set<nat>, elems: nat, merges: seq<Merge>)
    requires ValidRun(leaves, elems, merges)
    ensures forall k :: 0 <= k < |merges| ==>
              merges[k].n < elems + k && merges[k].m < elems + k && merges[k].n != merges[k].m
  {
    forall k | 0 <= k < |merges|
      ensures merges[k].n < elems + k && merges[k].m < elems + k && merges[k].n != merges[k].m
    {
      LiveStep(leaves, elems, merges, k);
    }
  }

  /** What a list of node lengths says about merges j and up. */
  ghost predicate LengthsFrom(elems: nat, merges: seq<Merge>, len: seq<nat>, top: nat, j: nat)
    requires |len| == elems + |merges|
    requires forall k :: 0 <= k < |merges| ==> merges[k].n < elems + k && merges[k].m < elems + k
  {
    && (merges != [] ==> len[|len| - 1] == 0)
    && (forall i :: 0 <= i < |len| ==> len[i] <= top)
    && forall k :: j <= k < |merges| ==>
         len[merges[k].n] == len[merges[k].m] == (if len[elems + k] < top then len[elems + k] + 1 else top)
  }

  lemma {:induction false} LensFromRight(leaves: set<nat>, elems: nat, merges: seq<Merge>, top: nat, j: nat)
    requires ValidRun(leaves, elems, merges) && j <= |merges|
    requires forall k :: 0 <= k < |merges| ==> merges[k].n < elems + k && merges[k].m < elems + k
    ensures LengthsFrom(elems, merges, LensFrom(elems, merges, top, j), top, j)
    decreases |merges| - j
  {
    if j < |merges| {
      LensFromRight(leaves, elems, merges, top, j + 1);
      var below := LensFrom(elems, merges, top, j + 1);
      var len := LensFrom(elems, merges, top, j);
      SonsSmall(leaves, elems, merges);
      forall k | j < k < |merges|
        ensures len[merges[k].n] == below[merges[k].n] && len[merges[k].m] == below[merges[k].m]
        ensures len[elems + k] == below[elems + k]
      {
        SonsDiffer(leaves, elems, merges, j, k);
      }
    }
  }

  /** The lengths of all nodes of a tree. */
  ghost function TreeLens(leaves: set<nat>, elems: nat, merges: seq<Merge>, top: nat): (len: seq<nat>)
    requires ValidRun(leaves, elems, merges) && merges != []
    ensures |len| == elems + |merges| && Lengths(elems, merges, len, top)
    ensures forall i :: 0 <= i < |len| ==> len[i] <= top
  {
    SonsSmall(leaves, elems, merges);
    LensFromRight(leaves, elems, merges, top, 0);
    LensFrom(elems, merges, top, 0)
  }

  // ----- counting lengths and adding up sizes -----

  function Indicator(l: seq<nat>, n: nat, b: nat): (s: seq<nat>)
    requires n <= |l|
    ensures |s| == n && forall i :: 0 <= i < n ==> s[i] == if l[i] == b then 1 else 0
  {
    seq(n, i requires 0 <= i < n => if l[i] == b then 1 else 0)
  }

  /** What each symbol adds to the size of the block with these lengths. */
  function OptCosts(desc: Desc, f: seq<nat>, l: seq<nat>): (s: seq<nat>)
    requires desc.elems <= |f| && desc.elems <= |l|
    ensures |s| == desc.elems
    ensures forall i :: 0 <= i < desc.elems ==> s[i] == f[i] * (l[i] + desc.XBits(i))
  {
    seq(desc.elems, i requires 0 <= i < desc.elems => f[i] * (l[i] + desc.XBits(i)))
  }

  /** The same for the fixed code, if there is one. */
  function StaticCosts(desc: Desc, f: seq<nat>): (s: seq<nat>)
    requires desc.elems <= |f|
    ensures |s| == desc.elems
    ensures forall i :: 0 <= i < desc.elems ==>
      s[i] == if desc.staticLens.Some? then f[i] * (desc.StaticLen(i) + desc.XBits(i)) else 0
  {
    seq(desc.elems, i requires 0 <= i < desc.elems =>
      if desc.staticLens.Some? then f[i] * (desc.StaticLen(i) + desc.XBits(i)) else 0)
  }

  /** The counts tell how many symbols of s have each length. */
  ghost predicate Counted(counts: seq<nat>, s: set<nat>, l: seq<nat>, n: nat)
    requires n <= |l|
  {
    && |counts| == MAX_BITS + 1 && counts[0] == 0
    && forall b :: 1 <= b <= MAX_BITS ==> counts[b] == Total(s, Indicator(l, n, b))
  }

  lemma CountOne(counts: seq<nat>, s: set<nat>, l: seq<nat>, n: nat, x: nat)
    requires n <= |l| && Counted(counts, s, l, n) && x < n && x !in s && 1 <= l[x] <= MAX_BITS
    ensures Counted(counts[l[x] := counts[l[x]] + 1], s + {x}, l, n)
  {
    forall b | 1 <= b <= MAX_BITS
      ensures Total(s + {x}, Indicator(l, n, b)) == Total(s, Indicator(l, n, b)) + (if l[x] == b then 1 else 0)
    {
      TotalAdd(s, Indicator(l, n, b), x);
    }
  }

  lemma CountNone(counts: seq<nat>, l: seq<nat>, n: nat)
    requires n <= |l| && |counts| == MAX_BITS + 1 && forall b :: 0 <= b <= MAX_BITS ==> counts[b] == 0
    ensures Counted(counts, {}, l, n)
  {
    forall b | 1 <= b <= MAX_BITS
      ensures Total({}, Indicator(l, n, b)) == 0
    {
      SumEmpty(Indicator(l, n, b), n);
    }
  }

  // ----- the first pass -----

  /** The node at a position of the heap array. */
  function NodeAt(merges: seq<Merge>, p: nat): nat
    requires HEAP_SIZE - 2 * |merges| <= p < HEAP_SIZE
  {
    var k := (HEAP_SIZE - 1 - p) / 2;
    if p % 2 == 0 then merges[k].n else merges[k].m
  }

  /** All nodes below position p have their length, the others still know their father. */
  ghost predicate AssignedTo(dl: seq<nat>, elems: nat, merges: seq<Merge>, len: seq<nat>, p: int)
  {
    && |len| == elems + |merges| <= |dl| && merges != []
    && dl[|len| - 1] == len[|len| - 1]
    && forall k :: 0 <= k < |merges| ==>
         && merges[k].n < |len| && merges[k].m < |len|
         && dl[merges[k].n] == (if HEAP_SIZE - 1 - 2 * k < p then len[merges[k].n] else elems + k)
         && dl[merges[k].m] == (if HEAP_SIZE - 2 - 2 * k < p then len[merges[k].m] else elems + k)
  }

  /** The leaves at positions below p. */
  ghost predicate LeavesTo(done: set<nat>, leaves: set<nat>, merges: seq<Merge>, p: int)
  {
    && done <= leaves
    && forall k :: 0 <= k < |merges| ==>
         && (merges[k].n in leaves ==> (merges[k].n in done <==> HEAP_SIZE - 1 - 2 * k < p))
         && (merges[k].m in leaves ==> (merges[k].m in done <==> HEAP_SIZE - 2 - 2 * k < p))
  }

  /** How many nodes at positions from start to p were cut off. */
  function Overflow(elems: nat, merges: seq<Merge>, len: seq<nat>, top: nat, p: nat): nat
    requires |len| == elems + |merges| && 2 * |merges| < HEAP_SIZE && HEAP_SIZE - 2 * |merges| <= p <= HEAP_SIZE
  {
    if p == HEAP_SIZE - 2 * |merges| then 0
    else Overflow(elems, merges, len, top, p - 1) + (if len[elems + (HEAP_SIZE - p) / 2] == top then 1 else 0)
  }

  /** Each cut-off inner node cuts off its two sons. */
  lemma {:induction false} OverflowIsClipped(elems: nat, merges: seq<Merge>, len: seq<nat>, top: nat, j: nat)
    requires |len| == elems + |merges| && 2 * |merges| < HEAP_SIZE && j <= |merges|
    ensures Overflow(elems, merges, len, top, HEAP_SIZE - 2 * j) == 2 * Clipped(elems, len, top, j)
    decreases |merges| - j
  {
    if j < |merges| {
      OverflowIsClipped(elems, merges, len, top, j + 1);
      var p := HEAP_SIZE - 2 * j;
      assert (HEAP_SIZE - p) / 2 == j && (HEAP_SIZE - (p - 1)) / 2 == j;
    }
  }

  /** The father of the node at position p already has its length. */
  lemma FatherAssigned(leaves: set<nat>, elems: nat, merges: seq<Merge>, dl: seq<nat>, len: seq<nat>, top: nat, p: nat)
    requires ValidRun(leaves, elems, merges) && |leaves| == |merges| + 1 && 2 * |merges| < HEAP_SIZE
    requires HEAP_SIZE - 2 * |merges| <= p < HEAP_SIZE
    requires AssignedTo(dl, elems, merges, len, p) && Lengths(elems, merges, len, top)
    ensures var n, k := NodeAt(merges, p), (HEAP_SIZE - 1 - p) / 2;
            && n < |dl| && elems + k < |len| <= |dl| && dl[n] == elems + k && dl[elems + k] == len[elems + k]
            && len[n] == (if len[elems + k] < top then len[elems + k] + 1 else top)
  {
    hide Live;
    var k := (HEAP_SIZE - 1 - p) / 2;
    if k < |merges| - 1 {
      var i := HasFather(leaves, elems, merges, elems + k);
    }
  }

  /** Giving the node at position p its length disturbs no other. */
  lemma AssignOne(leaves: set<nat>, elems: nat, merges: seq<Merge>, dl: seq<nat>, len: seq<nat>, p: nat)
    requires ValidRun(leaves, elems, merges) && 2 * |merges| < HEAP_SIZE
    requires HEAP_SIZE - 2 * |merges| <= p < HEAP_SIZE
    requires AssignedTo(dl, elems, merges, len, p)
    ensures var n := NodeAt(merges, p);
            n < |len| && AssignedTo(dl[n := len[n]], elems, merges, len, p + 1)
  {
    hide Live;
    var k0 := (HEAP_SIZE - 1 - p) / 2;
    SonsSmall(leaves, elems, merges);
    forall k | 0 <= k < |merges| && k != k0
      ensures merges[k].n != merges[k0].n && merges[k].n != merges[k0].m
      ensures merges[k].m != merges[k0].n && merges[k].m != merges[k0].m
    {
      if k < k0 {
        SonsDiffer(leaves, elems, merges, k, k0);
      } else {
        SonsDiffer(leaves, elems, merges, k0, k);
      }
    }
  }

  lemma LeafReached(leaves: set<nat>, elems: nat, merges: seq<Merge>, done: set<nat>, p: nat)
    requires ValidRun(leaves, elems, merges) && 2 * |merges| < HEAP_SIZE
    requires HEAP_SIZE - 2 * |merges| <= p < HEAP_SIZE && LeavesTo(done, leaves, merges, p)
    ensures var n := NodeAt(merges, p);
            && (n in leaves ==> n !in done && LeavesTo(done + {n}, leaves, merges, p + 1))
            && (n !in leaves ==> LeavesTo(done, leaves, merges, p + 1))
  {
    hide Live;
    var k0 := (HEAP_SIZE - 1 - p) / 2;
    SonsSmall(leaves, elems, merges);
    forall k | 0 <= k < |merges| && k != k0
      ensures merges[k].n != merges[k0].n && merges[k].n != merges[k0].m
      ensures merges[k].m != merges[k0].n && merges[k].m != merges[k0].m
    {
      if k < k0 {
        SonsDiffer(leaves, elems, merges, k, k0);
      } else {
        SonsDiffer(leaves, elems, merges, k0, k);
      }
    }
  }

  lemma AllLeavesReached(leaves: set<nat>, elems: nat, merges: seq<Merge>, done: set<nat>)
    requires ValidRun(leaves, elems, merges) && |leaves| == |merges| + 1 && merges != []
    requires LeavesTo(done, leaves, merges, HEAP_SIZE)
    ensures done == leaves
  {
    forall x | x in leaves
      ensures x in done
    {
      var i := HasFather(leaves, elems, merges, x);
    }
  }

  lemma NodeHere(h: seq<nat>, merges: seq<Merge>, p: nat)
    requires LaidOut(h, merges) && HEAP_SIZE - 2 * |merges| <= p < HEAP_SIZE
    ensures h[p] == NodeAt(merges, p)
  {
  }

  /** A node is a leaf exactly if it is not beyond the largest code. */
  lemma LeafOrNode(leaves: set<nat>, elems: nat, merges: seq<Merge>, f: seq<nat>, maxCode: int, n: nat, p: nat)
    requires ValidRun(leaves, elems, merges) && elems <= |f| && leaves == LeafSet(f, elems)
    requires LastLeaf(f, elems, maxCode)
    requires HEAP_SIZE - 2 * |merges| <= p < HEAP_SIZE && n == NodeAt(merges, p)
    ensures n in leaves <==> n <= maxCode
    ensures n in leaves || elems <= n
  {
    hide Live;
    var k := (HEAP_SIZE - 1 - p) / 2;
    LiveStep(leaves, elems, merges, k);
    LiveLeaves(leaves, elems, merges, k);
  }

  /** The state before the first pass, and after the root has got length 0. */
  lemma StartPass(leaves: set<nat>, elems: nat, merges: seq<Merge>, dl: seq<nat>, len: seq<nat>, top: nat)
    requires ValidRun(leaves, elems, merges) && 2 * |merges| < HEAP_SIZE && merges != []
    requires Lengths(elems, merges, len, top) && Fathers(dl, elems, merges) && |len| <= |dl|
    ensures AssignedTo(dl[elems + |merges| - 1 := 0], elems, merges, len, HEAP_SIZE - 2 * |merges|)
    ensures LeavesTo({}, leaves, merges, HEAP_SIZE - 2 * |merges|)
  {
    hide Live;
    SonsSmall(leaves, elems, merges);
  }

  lemma EndPass(leaves: set<nat>, elems: nat, merges: seq<Merge>, dl: seq<nat>, len: seq<nat>, top: nat, done: set<nat>)
    requires ValidRun(leaves, elems, merges) && |leaves| == |merges| + 1
    requires 2 * |merges| < HEAP_SIZE && Lengths(elems, merges, len, top)
    requires AssignedTo(dl, elems, merges, len, HEAP_SIZE) && LeavesTo(done, leaves, merges, HEAP_SIZE)
    ensures done == leaves
    ensures forall x :: x in leaves ==> x < elems <= |dl| && dl[x] == len[x]
    ensures Overflow(elems, merges, len, top, HEAP_SIZE) == 2 * Clipped(elems, len, top, 0)
  {
    hide Live;
    AllLeavesReached(leaves, elems, merges, done);
    OverflowIsClipped(elems, merges, len, top, 0);
    forall x | x in leaves
      ensures x < elems <= |dl| && dl[x] == len[x]
    {
      var i := HasFather(leaves, elems, merges, x);
    }
  }

  lemma OverflowStep(elems: nat, merges: seq<Merge>, len: seq<nat>, top: nat, p: nat)
    requires |len| == elems + |merges| && 2 * |merges| < HEAP_SIZE && HEAP_SIZE - 2 * |merges| <= p < HEAP_SIZE
    ensures Overflow(elems, merges, len, top, HEAP_SIZE - 2 * |merges|) == 0
    ensures Overflow(elems, merges, len, top, p + 1)
         == Overflow(elems, merges, len, top, p) + (if len[elems + (HEAP_SIZE - 1 - p) / 2] == top then 1 else 0)
  {
  }

  // ----- counts of lengths -----

  /** The Kraft sum of the counts, scaled to strings of length k. */
  function UsedOf(c: seq<nat>, k: nat): nat
    requires k < |c|
  {
    if k == 0 then 0 else 2 * UsedOf(c, k - 1) + c[k]
  }

  /** How many symbols have a length of at most k. */
  function SumCounts(c: seq<nat>, k: nat): nat
    requires k < |c|
  {
    if k == 0 then 0 else SumCounts(c, k - 1) + c[k]
  }

  lemma {:induction false} CountsSame(c: seq<nat>, d: seq<nat>, k: nat)
    requires k < |c| && k < |d| && forall i :: 1 <= i <= k ==> c[i] == d[i]
    ensures UsedOf(c, k) == UsedOf(d, k) && SumCounts(c, k) == SumCounts(d, k)
  {
    if k > 0 {
      CountsSame(c, d, k - 1);
    }
  }

  /** One symbol more of length b. */
  lemma {:induction false} CountsAdd(c: seq<nat>, b: nat, k: nat)
    requires 1 <= b <= k < |c|
    ensures UsedOf(c[b := c[b] + 1], k) == UsedOf(c, k) + Pow2(k - b)
    ensures SumCounts(c[b := c[b] + 1], k) == SumCounts(c, k) + 1
  {
    if b == k {
      CountsSame(c, c[b := c[b] + 1], k - 1);
    } else {
      CountsAdd(c, b, k - 1);
    }
  }

  /** One leaf of length b moved down together with one cut-off leaf of length top. */
  function Repaired(c: seq<nat>, b: nat, top: nat): (r: seq<nat>)
    requires 1 <= b < top < |c| && c[b] > 0 && c[top] + (if b + 1 == top then 2 else 0) > 0
    ensures |r| == |c|
  {
    var c1 := c[b := c[b] - 1];
    var c2 := c1[b + 1 := c1[b + 1] + 2];
    c2[top := c2[top] - 1]
  }

  /** A repair step lowers the Kraft sum by one and loses no leaf. */
  lemma RepairStep(c: seq<nat>, b: nat, top: nat)
    requires 1 <= b < top < |c| && c[b] > 0 && c[top] > 0
    ensures UsedOf(Repaired(c, b, top), top) + 1 == UsedOf(c, top)
    ensures SumCounts(Repaired(c, b, top), top) == SumCounts(c, top)
  {
    hide UsedOf, SumCounts, Pow2;
    var c1 := c[b := c[b] - 1];
    var c2 := c1[b + 1 := c1[b + 1] + 1];
    var c3 := c2[b + 1 := c2[b + 1] + 1];
    var r := Repaired(c, b, top);
    CountsAdd(c1, b, top);
    assert c1[b := c1[b] + 1] == c;
    CountsAdd(c1, b + 1, top);
    CountsAdd(c2, b + 1, top);
    CountsAdd(r, top, top);
    assert r[top := r[top] + 1] == c3;
    NextPower(top - b);
  }

  lemma NextPower(n: nat)
    requires n > 0
    ensures Pow2(n) == 2 * Pow2(n - 1) && Pow2(0) == 1
  {
  }

  lemma {:induction false} NothingUsed(c: seq<nat>, k: nat)
    requires k < |c| && forall i :: 1 <= i <= k ==> c[i] == 0
    ensures UsedOf(c, k) == 0 && SumCounts(c, k) == 0
  {
    if k > 0 {
      NothingUsed(c, k - 1);
    }
  }

  /** While the Kraft sum is too large and symbols are few, some length can grow. */
  lemma SomeShorter(c: seq<nat>, top: nat) returns (b: nat)
    requires 1 <= top < |c| && UsedOf(c, top) > Pow2(top) > SumCounts(c, top)
    ensures 1 <= b < top && c[b] > 0
  {
    if forall i :: 1 <= i < top ==> c[i] == 0 {
      NothingUsed(c, top - 1);
      assert false;
    } else {
      b :| 1 <= b < top && c[b] > 0;
    }
  }

  // ----- counts and sets -----

  function Ones(n: nat): (s: seq<nat>)
    ensures |s| == n && forall i :: 0 <= i < n ==> s[i] == 1
  {
    seq(n, _ => 1)
  }

  lemma {:induction false} SizeIsSum(s: set<nat>, n: nat)
    requires forall x :: x in s ==> x < n
    ensures Total(s, Ones(n)) == |s|
    decreases s
  {
    if s == {} {
      SumEmpty(Ones(n), n);
    } else {
      var x :| x in s;
      TotalRemove(s, Ones(n), x);
      SizeIsSum(s - {x}, n);
    }
  }

  /** The counts of the symbols of s below n. */
  ghost predicate CountedTo(c: seq<nat>, s: set<nat>, l: seq<nat>, top: nat, n: nat)
    requires n <= |l|
  {
    && top < |c|
    && forall b :: 1 <= b <= top ==> c[b] == Sum(s, Indicator(l, |l|, b), n)
  }

  /** Counting by length loses nothing: neither symbols nor Kraft sum. */
  lemma {:induction false} CountsOfSet(c: seq<nat>, s: set<nat>, l: seq<nat>, top: nat, n: nat)
    requires n <= |l| && CountedTo(c, s, l, top, n)
    requires forall x: nat :: x in s && x < n ==> 1 <= l[x] <= top
    ensures UsedOf(c, top) == Sum(s, Shares(l, top), n)
    ensures SumCounts(c, top) == Sum(s, Ones(|l|), n)
    decreases n
  {
    if n == 0 {
      NothingUsed(c, top);
    } else if n - 1 in s {
      var b := l[n - 1];
      assert c[b] == Sum(s, Indicator(l, |l|, b), n) > 0;
      var d := c[b := c[b] - 1];
      CountsOfSet(d, s, l, top, n - 1);
      CountsAdd(d, b, top);
      assert d[b := d[b] + 1] == c;
    } else {
      CountsOfSet(c, s, l, top, n - 1);
    }
  }

  lemma CountsOfLeaves(c: seq<nat>, s: set<nat>, l: seq<nat>, n: nat, top: nat)
    requires n <= |l| && Counted(c, s, l, n) && top <= MAX_BITS
    requires forall x :: x in s ==> x < n && 1 <= l[x] <= top
    ensures UsedOf(c, top) == Total(s, Shares(l[..n], top))
    ensures SumCounts(c, top) == |s|
  {
    var l' := l[..n];
    forall b | 1 <= b <= top
      ensures c[b] == Sum(s, Indicator(l', n, b), n)
    {
      assert Indicator(l', n, b) == Indicator(l, n, b);
    }
    CountsOfSet(c, s, l', top, n);
    SizeIsSum(s, n);
  }

  /** More symbols have the maximum length than inner nodes were cut off, if any were. */
  lemma {:induction false} EnoughCutOff(leaves: set<nat>, elems: nat, merges: seq<Merge>, len: seq<nat>, top: nat, j: nat)
    requires ValidRun(leaves, elems, merges) && Lengths(elems, merges, len, top) && j <= |merges|
    requires top > 0 && forall i :: 0 <= i < |len| ==> len[i] <= top
    ensures Clipped(elems, len, top, j) > 0 ==>
      Total(Live(leaves, elems, merges, j), Indicator(len, |len|, top)) > Clipped(elems, len, top, j)
    decreases |merges| - j
  {
    hide Live, Total;
    if j < |merges| {
      EnoughCutOff(leaves, elems, merges, len, top, j + 1);
      TotalStep(leaves, elems, merges, Indicator(len, |len|, top), j);
      LiveStep(leaves, elems, merges, j);
      TotalRemove(Live(leaves, elems, merges, j + 1), Indicator(len, |len|, top), elems + j);
    }
  }

  lemma LeafLengths(leaves: set<nat>, elems: nat, merges: seq<Merge>, len: seq<nat>, top: nat)
    requires ValidRun(leaves, elems, merges) && |leaves| == |merges| + 1 && Lengths(elems, merges, len, top)
    requires top > 0
    ensures forall x :: x in leaves ==> x < elems && 1 <= len[x] <= top
  {
    hide Live;
    forall x | x in leaves
      ensures x < elems && 1 <= len[x] <= top
    {
      var i := HasFather(leaves, elems, merges, x);
    }
  }

  lemma FrontShares(len: seq<nat>, n: nat, top: nat)
    requires n <= |len|
    ensures Shares(len, top)[..n] == Shares(len[..n], top)
    ensures forall b :: Indicator(len, |len|, b)[..n] == Indicator(len, n, b)
  {
  }

  lemma KraftOfLeaves(leaves: set<nat>, elems: nat, merges: seq<Merge>, len: seq<nat>, top: nat)
    requires ValidRun(leaves, elems, merges) && |leaves| == |merges| + 1
    requires Lengths(elems, merges, len, top) && 0 < top
    requires forall i :: 0 <= i < |len| ==> len[i] <= top
    ensures Total(leaves, Shares(len[..elems], top)) == Pow2(top) + Clipped(elems, len, top, 0)
    ensures Clipped(elems, len, top, 0) > 0 ==> Total(leaves, Indicator(len, elems, top)) > Clipped(elems, len, top, 0)
  {
    KraftOfRun(leaves, elems, merges, len, top, 0);
    EnoughCutOff(leaves, elems, merges, len, top, 0);
    assert Live(leaves, elems, merges, 0) == leaves;
    hide Live, Clipped, Sum;
    FrontShares(len, elems, top);
    var f, g := Shares(len[..elems], top), Shares(len, top);
    assert f[..elems] == f == g[..elems];
    TotalOfLeaves(leaves, f, g, elems, |len|);
    var i, j := Indicator(len, elems, top), Indicator(len, |len|, top);
    assert i[..elems] == i == j[..elems];
    TotalOfLeaves(leaves, i, j, elems, |len|);
  }

  /** The counts after the first pass: the Kraft sum is too large by the number
      of cut-off inner nodes, which is half the overflow. */
  lemma FirstPassCounts(leaves: set<nat>, elems: nat, merges: seq<Merge>, len: seq<nat>, top: nat, c: seq<nat>)
    requires ValidRun(leaves, elems, merges) && |leaves| == |merges| + 1
    requires Lengths(elems, merges, len, top) && 0 < top <= MAX_BITS
    requires forall i :: 0 <= i < |len| ==> len[i] <= top
    requires Counted(c, leaves, len, elems)
    ensures UsedOf(c, top) == Pow2(top) + Clipped(elems, len, top, 0)
    ensures SumCounts(c, top) == |leaves|
    ensures Clipped(elems, len, top, 0) > 0 ==> c[top] > Clipped(elems, len, top, 0)
    ensures forall b :: top < b <= MAX_BITS ==> c[b] == 0
  {
    LeafLengths(leaves, elems, merges, len, top);
    NoneLonger(leaves, elems, len, top, c);
    KraftOfLeaves(leaves, elems, merges, len, top);
    CountsOfLeaves(c, leaves, len, elems, top);
  }

  lemma NoneLonger(s: set<nat>, n: nat, l: seq<nat>, top: nat, c: seq<nat>)
    requires n <= |l| && Counted(c, s, l, n) && forall x :: x in s ==> x < n && l[x] <= top
    ensures forall b :: top < b <= MAX_BITS ==> c[b] == 0
  {
    forall b | top < b <= MAX_BITS
      ensures c[b] == 0
    {
      SumZero(s, Indicator(l, n, b), n);
    }
  }

  lemma {:induction false} SumZero(s: set<nat>, f: seq<nat>, n: nat)
    requires n <= |f| && forall x: nat :: x in s && x < n ==> f[x] == 0
    ensures Sum(s, f, n) == 0
  {
    if n > 0 {
      SumZero(s, f, n - 1);
    }
  }

  // ----- giving the repaired lengths back to the symbols -----

  /** The leaves at positions h and above. */
  ghost predicate LeavesFrom(done: set<nat>, leaves: set<nat>, merges: seq<Merge>, h: int)
  {
    && done <= leaves
    && forall k :: 0 <= k < |merges| ==>
         && (merges[k].n in leaves ==> (merges[k].n in done <==> HEAP_SIZE - 1 - 2 * k >= h))
         && (merges[k].m in leaves ==> (merges[k].m in done <==> HEAP_SIZE - 2 - 2 * k >= h))
  }

  lemma LeafReachedDown(leaves: set<nat>, elems: nat, merges: seq<Merge>, done: set<nat>, h: nat)
    requires ValidRun(leaves, elems, merges) && 2 * |merges| < HEAP_SIZE
    requires HEAP_SIZE - 2 * |merges| <= h < HEAP_SIZE && LeavesFrom(done, leaves, merges, h + 1)
    ensures var n := NodeAt(merges, h);
            && (n in leaves ==> n !in done && LeavesFrom(done + {n}, leaves, merges, h))
            && (n !in leaves ==> LeavesFrom(done, leaves, merges, h))
  {
    hide Live;
    var k0 := (HEAP_SIZE - 1 - h) / 2;
    SonsSmall(leaves, elems, merges);
    forall k | 0 <= k < |merges| && k != k0
      ensures merges[k].n != merges[k0].n && merges[k].n != merges[k0].m
      ensures merges[k].m != merges[k0].n && merges[k].m != merges[k0].m
    {
      if k < k0 {
        SonsDiffer(leaves, elems, merges, k, k0);
      } else {
        SonsDiffer(leaves, elems, merges, k0, k);
      }
    }
  }

  /** While leaves are missing there are positions left to look at. */
  lemma MoreLeaves(leaves: set<nat>, elems: nat, merges: seq<Merge>, done: set<nat>, h: nat)
    requires ValidRun(leaves, elems, merges) && |leaves| == |merges| + 1 && merges != [] && 2 * |merges| < HEAP_SIZE
    requires LeavesFrom(done, leaves, merges, h) && |done| < |leaves|
    ensures h > HEAP_SIZE - 2 * |merges|
  {
    var x: nat :| x in leaves - done by {
      assert |leaves - done| == |leaves| - |done| > 0;
    }
    var i := HasFather(leaves, elems, merges, x);
  }

  lemma NoneDone(leaves: set<nat>, merges: seq<Merge>)
    ensures LeavesFrom({}, leaves, merges, HEAP_SIZE)
  {
  }

  lemma AllDone(done: set<nat>, leaves: set<nat>, merges: seq<Merge>, h: int)
    requires LeavesFrom(done, leaves, merges, h) && |done| == |leaves|
    ensures done == leaves
  {
    assert |leaves - done| == |leaves| - |done|;
  }

  /** Part way through: the leaves done so far have the lengths above `bits` as
      often as they should, and length `bits` all but n times. */
  ghost predicate Dealt(c: seq<nat>, done: set<nat>, l: seq<nat>, elems: nat, bits: nat, n: nat)
    requires elems <= |l|
  {
    && |c| == MAX_BITS + 1 && bits <= MAX_BITS && n <= c[bits] && c[0] == 0
    && (forall x :: x in done ==> x < elems && 1 <= l[x] <= MAX_BITS)
    && Counted(Remaining(c, bits, n), done, l, elems)
  }

  /** Of the counts c, the part above `bits` and c[bits] - n of length `bits`. */
  function Remaining(c: seq<nat>, bits: nat, n: nat): (r: seq<nat>)
    requires bits < |c| && n <= c[bits]
    ensures |r| == |c|
  {
    seq(|c|, b requires 0 <= b < |c| => if b > bits then c[b] else if b == bits then c[b] - n else 0)
  }

  lemma CountedSame(c: seq<nat>, s: set<nat>, l: seq<nat>, l': seq<nat>, n: nat)
    requires n <= |l| && n <= |l'| && Counted(c, s, l, n)
    requires forall x: nat :: x in s && x < n ==> l'[x] == l[x]
    ensures Counted(c, s, l', n)
  {
    forall b | 1 <= b <= MAX_BITS
      ensures Total(s, Indicator(l', n, b)) == Total(s, Indicator(l, n, b))
    {
      SumSame(s, Indicator(l', n, b), s, Indicator(l, n, b), n);
    }
  }

  /** One more leaf gets length `bits`. */
  lemma DealOne(c: seq<nat>, done: set<nat>, l: seq<nat>, elems: nat, bits: nat, n: nat, x: nat)
    requires elems <= |l| && Dealt(c, done, l, elems, bits, n) && n > 0 && bits > 0
    requires x < elems && x !in done
    ensures Dealt(c, done + {x}, l[x := bits], elems, bits, n - 1)
  {
    hide Total;
    var r := Remaining(c, bits, n);
    CountedSame(r, done, l, l[x := bits], elems);
    CountOne(r, done, l[x := bits], elems, x);
    assert Remaining(c, bits, n - 1) == r[bits := r[bits] + 1];
  }

  lemma NextLength(c: seq<nat>, done: set<nat>, l: seq<nat>, elems: nat, bits: nat)
    requires elems <= |l| && Dealt(c, done, l, elems, bits, 0) && bits > 0
    ensures Dealt(c, done, l, elems, bits - 1, c[bits - 1])
  {
    assert Remaining(c, bits, 0) == Remaining(c, bits - 1, c[bits - 1]);
  }

  lemma StartDealing(c: seq<nat>, l: seq<nat>, elems: nat, top: nat)
    requires elems <= |l| && |c| == MAX_BITS + 1 && 0 < top <= MAX_BITS && c[0] == 0
    requires forall b :: top < b <= MAX_BITS ==> c[b] == 0
    ensures Dealt(c, {}, l, elems, top, c[top])
  {
    CountNone(Remaining(c, top, c[top]), l, elems);
  }

  /** If a length is still to be dealt there is a leaf left to give it to. */
  lemma LeavesLeft(c: seq<nat>, done: set<nat>, l: seq<nat>, elems: nat, bits: nat, n: nat, top: nat)
    requires elems <= |l| && Dealt(c, done, l, elems, bits, n) && 0 < bits <= top <= MAX_BITS
    requires forall b :: top < b <= MAX_BITS ==> c[b] == 0
    ensures |done| + n <= SumCounts(c, top)
    ensures bits == 1 && n == 0 ==> |done| == SumCounts(c, top)
  {
    var r := Remaining(c, bits, n);
    CountsOfLeaves(r, done, l, elems, MAX_BITS);
    CountsCapped(c, top, MAX_BITS);
    CountsDiffer(c, bits, n, MAX_BITS);
  }

  lemma {:induction false} CountsCapped(c: seq<nat>, top: nat, k: nat)
    requires top <= k < |c| && forall b :: top < b <= k ==> c[b] == 0
    ensures SumCounts(c, k) == SumCounts(c, top)
  {
    if k > top {
      CountsCapped(c, top, k - 1);
    }
  }

  lemma {:induction false} CountsDiffer(c: seq<nat>, bits: nat, n: nat, k: nat)
    requires 0 < bits < |c| && n <= c[bits] && k < |c|
    ensures SumCounts(Remaining(c, bits, n), k) + (if bits <= k then n else 0) <= SumCounts(c, k)
    ensures bits == 1 && n == 0 ==> SumCounts(Remaining(c, bits, n), k) == SumCounts(c, k)
  {
    if k > 0 {
      CountsDiffer(c, bits, n, k - 1);
    }
  }

  /** Changing one symbol's length changes the size by its frequency each bit. */
  lemma CostChange(desc: Desc, f: seq<nat>, leaves: set<nat>, l: seq<nat>, x: nat, b: nat)
    requires desc.elems <= |f| && desc.elems <= |l| && x in leaves && x < desc.elems
    ensures Total(leaves, OptCosts(desc, f, l[x := b]))
         == Total(leaves, OptCosts(desc, f, l)) + (b - l[x]) * f[x]
  {
    var g, h := OptCosts(desc, f, l), OptCosts(desc, f, l[x := b]);
    TotalRemove(leaves, g, x);
    TotalRemove(leaves, h, x);
    SumSame(leaves - {x}, g, leaves - {x}, h, desc.elems);
    var e := desc.XBits(x);
    assert f[x] * (b + e) - f[x] * (l[x] + e) == (b - l[x]) * f[x];
  }

  // ----- what the finished lengths mean -----

  /** The lengths of a complete code for the leaves, with their counts. */
  ghost predicate CompleteLengths(c: seq<nat>, leaves: set<nat>, l: seq<nat>, elems: nat, top: nat)
    requires elems <= |l|
  {
    && 1 <= top <= MAX_BITS && Counted(c, leaves, l, elems)
    && UsedOf(c, top) == Pow2(top)
    && (forall b :: top < b <= MAX_BITS ==> c[b] == 0)
    && forall x :: x in leaves ==> x < elems && 1 <= l[x] <= top
  }

  /** Dealt-out lengths have the counts they were dealt from. */
  lemma DealtComplete(c: seq<nat>, leaves: set<nat>, l: seq<nat>, elems: nat, top: nat)
    requires elems <= |l| && Dealt(c, leaves, l, elems, 0, 0) && 1 <= top <= MAX_BITS
    requires UsedOf(c, top) == Pow2(top) && forall b :: top < b <= MAX_BITS ==> c[b] == 0
    ensures CompleteLengths(c, leaves, l, elems, top)
  {
    assert Remaining(c, 0, 0) == c;
    forall x | x in leaves
      ensures l[x] <= top
    {
      if l[x] > top {
        TotalRemove(leaves, Indicator(l, elems, l[x]), x);
      }
    }
  }

  lemma {:induction false} CountIsSum(l: seq<nat>, leaves: set<nat>, elems: nat, n: nat, b: nat)
    requires n <= elems <= |l| && b > 0
    requires forall x: nat :: x < n && x !in leaves ==> l[x] == 0
    ensures Count(l[..n], b) == Sum(leaves, Indicator(l, elems, b), n)
  {
    if n > 0 {
      CountIsSum(l, leaves, elems, n - 1, b);
      assert l[..n][..n - 1] == l[..n - 1];
    }
  }

  lemma {:induction false} SumStops(s: set<nat>, f: seq<nat>, m: nat, n: nat)
    requires m <= n <= |f| && forall x :: x in s ==> x < m
    ensures Sum(s, f, n) == Sum(s, f, m)
  {
    if n > m {
      SumStops(s, f, m, n - 1);
    }
  }

  lemma {:induction false} UsedIsUsedOf(c: seq<nat>, lens: seq<nat>, k: nat)
    requires k < |c| && forall b :: 1 <= b <= k ==> c[b] == Count(lens, b)
    ensures UsedOf(c, k) == Used(lens, k)
  {
    if k > 0 {
      UsedIsUsedOf(c, lens, k - 1);
    }
  }

  lemma {:induction false} UsedOfScales(c: seq<nat>, top: nat, k: nat)
    requires top <= k < |c| && UsedOf(c, top) == Pow2(top) && forall b :: top < b <= k ==> c[b] == 0
    ensures UsedOf(c, k) == Pow2(k)
  {
    if k > top {
      UsedOfScales(c, top, k - 1);
    }
  }

  /** The lengths up to the largest code are those of a complete prefix code,
      and the counts are theirs. */
  lemma LengthsComplete(c: seq<nat>, leaves: set<nat>, l: seq<nat>, elems: nat, top: nat, maxCode: nat)
    requires elems <= |l| && CompleteLengths(c, leaves, l, elems, top) && maxCode < elems
    requires forall x :: x in leaves ==> x <= maxCode
    requires forall x: nat :: x < elems && x !in leaves ==> l[x] == 0
    ensures forall b :: 1 <= b <= MAX_BITS ==> c[b] == Count(l[..maxCode + 1], b)
    ensures Complete(l[..maxCode + 1])
  {
    var lens := l[..maxCode + 1];
    forall b | 1 <= b <= MAX_BITS
      ensures c[b] == Count(lens, b)
    {
      CountIsSum(l, leaves, elems, maxCode + 1, b);
      SumStops(leaves, Indicator(l, elems, b), maxCode + 1, elems);
    }
    UsedIsUsedOf(c, lens, MAX_BITS);
    UsedOfScales(c, top, MAX_BITS);
    forall n | 0 <= n < |lens|
      ensures lens[n] <= MAX_BITS
    {
      assert lens[n] == l[n];
    }
  }

  /** Two symbols of a complete code have one bit each. */
  lemma TwoSymbols(c: seq<nat>, leaves: set<nat>, l: seq<nat>, elems: nat, top: nat, x: nat)
    requires elems <= |l| && CompleteLengths(c, leaves, l, elems, top) && |leaves| == 2 && x in leaves
    ensures l[x] == 1
  {
    CountsOfLeaves(c, leaves, l, elems, top);
    hide Total, UsedOf, SumCounts, Counted;
    TwoShares(leaves, l[..elems], top, x);
  }

  lemma OtherOne(s: set<nat>, x: nat) returns (y: nat)
    requires |s| == 2 && x in s
    ensures y in s && y != x && s - {x} - {y} == {}
  {
    y :| y in s - {x} by {
      assert |s - {x}| == 1;
    }
    assert |s - {x} - {y}| == 0;
  }

  lemma TwoShares(leaves: set<nat>, l: seq<nat>, top: nat, x: nat)
    requires |leaves| == 2 && x in leaves && forall z :: z in leaves ==> z < |l| && 1 <= l[z] <= top
    requires Total(leaves, Shares(l, top)) == Pow2(top)
    ensures l[x] == 1
  {
    hide Total, Pow2;
    var y := OtherOne(leaves, x);
    TotalOfTwo(leaves, Shares(l, top), x, y);
    if l[x] > 1 {
      TooSmall(l[x], l[y], top);
    }
  }

  lemma TotalOfTwo(s: set<nat>, f: seq<nat>, x: nat, y: nat)
    requires x in s && y in s && x != y && s - {x} - {y} == {} && x < |f| && y < |f|
    ensures Total(s, f) == f[x] + f[y]
  {
    TotalRemove(s, f, x);
    TotalRemove(s - {x}, f, y);
    SumEmpty(f, |f|);
  }

  lemma TooSmall(a: nat, b: nat, top: nat)
    requires 1 < a <= top && 1 <= b <= top
    ensures Pow2(top - a) + Pow2(top - b) < Pow2(top)
  {
    Pow2Monotone(top - a, top - 2);
    Pow2Monotone(top - b, top - 1);
  }

  // ----- optimality -----

  /** No prefix code for the leaves gives a smaller sum of frequency times length,
      and none with the same sum has a shorter longest codeword. */
  ghost predicate Optimal(leaves: set<nat>, f: seq<nat>, l: seq<nat>)
    requires |f| == |l|
  {
    forall c: seq<seq<bool>> :: |c| == |f| && IsPrefixCode(leaves, c) ==>
      && Total(leaves, Products(f, l)) <= Total(leaves, Products(f, Sizes(c)))
      && (Total(leaves, Products(f, l)) == Total(leaves, Products(f, Sizes(c))) ==> ReachesAsFar(leaves, c, l))
  }

  /** For every length some codeword is as long. */
  ghost predicate ReachesAsFar(leaves: set<nat>, c: seq<seq<bool>>, l: seq<nat>)
    requires |c| == |l|
  {
    forall x: nat :: x in leaves && x < |l| ==> SomeAsLong(leaves, c, l[x])
  }

  ghost predicate SomeAsLong(leaves: set<nat>, c: seq<seq<bool>>, n: nat)
  {
    exists y: nat :: y in leaves && y < |c| && n <= |c[y]|
  }

  lemma {:induction false} LongestWord(leaves: set<nat>, c: seq<seq<bool>>, n: nat) returns (longest: nat)
    requires n <= |c|
    ensures forall x: nat :: x < n ==> |c[x]| <= longest
  {
    if n == 0 {
      longest := 0;
    } else {
      longest := LongestWord(leaves, c, n - 1);
      if |c[n - 1]| > longest {
        longest := |c[n - 1]|;
      }
    }
  }

  /** A greedy run over symbols with these frequencies. */
  ghost predicate RunOf(leaves: set<nat>, elems: nat, f: seq<nat>, merges: seq<Merge>)
  {
    && |leaves| == |merges| + 1 && merges != [] && ValidRun(leaves, elems, merges)
    && exists w: seq<nat> :: elems <= |w| && w[..elems] == f && GreedyRun(leaves, elems, merges, w)
  }

  /** How many inner nodes the tree has at length top, or below that, where a
      symbol would be too long. */
  ghost function CutOff(leaves: set<nat>, elems: nat, merges: seq<Merge>, top: nat): nat
    requires ValidRun(leaves, elems, merges) && merges != []
  {
    Clipped(elems, TreeLens(leaves, elems, merges, top), top, 0)
  }

  /** No length of the tree has to be cut off. */
  ghost predicate Uncut(leaves: set<nat>, elems: nat, f: seq<nat>, merges: seq<Merge>, top: nat)
  {
    RunOf(leaves, elems, f, merges) && CutOff(leaves, elems, merges, top) == 0
  }

  /** A length that is counted is some symbol's. */
  lemma SomeLongest(c: seq<nat>, leaves: set<nat>, l: seq<nat>, elems: nat, top: nat)
    requires elems <= |l| && CompleteLengths(c, leaves, l, elems, top) && c[top] > 0
    ensures exists x :: x in leaves && x < elems && l[x] == top
  {
    if forall x :: x in leaves ==> l[x] != top {
      SumZero(leaves, Indicator(l, elems, top), elems);
    }
  }

  /** If nothing was cut off the lengths are optimal. */
  lemma UncutIsOptimal(leaves: set<nat>, elems: nat, merges: seq<Merge>, w: seq<nat>, len: seq<nat>, top: nat)
    requires GreedyRun(leaves, elems, merges, w) && |leaves| == |merges| + 1
    requires Lengths(elems, merges, len, top) && forall i :: 0 <= i < |len| ==> len[i] <= top
    requires Clipped(elems, len, top, 0) == 0
    ensures Optimal(leaves, w[..elems], len[..elems])
  {
    hide Total, TieBroken, Greedy, ValidRun, Clipped, ReachesAsFar, Products;
    forall c: seq<seq<bool>> | |c| == elems && IsPrefixCode(leaves, c)
      ensures Total(leaves, Products(w[..elems], len[..elems])) <= Total(leaves, Products(w[..elems], Sizes(c)))
      ensures Total(leaves, Products(w[..elems], len[..elems])) == Total(leaves, Products(w[..elems], Sizes(c))) ==>
        ReachesAsFar(leaves, c, len[..elems])
    {
      NoBetterCode(leaves, elems, merges, w, len, top, c);
    }
  }

  lemma NoBetterCode(leaves: set<nat>, elems: nat, merges: seq<Merge>, w: seq<nat>, len: seq<nat>, top: nat, c: seq<seq<bool>>)
    requires GreedyRun(leaves, elems, merges, w) && |leaves| == |merges| + 1
    requires Lengths(elems, merges, len, top) && forall i :: 0 <= i < |len| ==> len[i] <= top
    requires Clipped(elems, len, top, 0) == 0 && |c| == elems && IsPrefixCode(leaves, c)
    ensures Total(leaves, Products(w[..elems], len[..elems])) <= Total(leaves, Products(w[..elems], Sizes(c)))
    ensures Total(leaves, Products(w[..elems], len[..elems])) == Total(leaves, Products(w[..elems], Sizes(c))) ==>
      ReachesAsFar(leaves, c, len[..elems])
  {
    hide Total, Greedy, TieBroken, ValidRun, Clipped, SomeAsLong;
    NotClipped(elems, len, top, 0);
    var c' := c + seq(|merges|, _ => []);
    assert IsPrefixCode(leaves, c');
    var most := LongestWord(leaves, c', |c'|);
    HuffmanIsOptimal(leaves, elems, merges, w, len, top, c', most);
    FrontCost(leaves, elems, w, len);
    FrontCost(leaves, elems, w, Sizes(c'));
    assert Sizes(c')[..elems] == Sizes(c);
    if Total(leaves, Products(w, len)) == Total(leaves, Products(w, Sizes(c'))) {
      forall x: nat | x in leaves && x < elems
        ensures SomeAsLong(leaves, c, len[x])
      {
        AsLong(leaves, elems, merges, w, len, top, c, c', x);
      }
    }
  }

  lemma AsLong(leaves: set<nat>, elems: nat, merges: seq<Merge>, w: seq<nat>, len: seq<nat>, top: nat,
               c: seq<seq<bool>>, c': seq<seq<bool>>, x: nat)
    requires GreedyRun(leaves, elems, merges, w) && |leaves| == |merges| + 1
    requires Lengths(elems, merges, len, top) && forall i :: elems <= i < |len| ==> len[i] < top
    requires |c| == elems && |c'| == |w| && c <= c' && IsPrefixCode(leaves, c') && x in leaves
    requires Total(leaves, Products(w, Sizes(c'))) <= Total(leaves, Products(w, len))
    ensures SomeAsLong(leaves, c, len[x])
  {
    hide Total, Greedy, TieBroken, ValidRun;
    if !SomeAsLong(leaves, c, len[x]) {
      assert forall y :: y in leaves ==> c'[y] == c[y] && |c[y]| < len[x];
      WorstCaseLeast(leaves, elems, merges, w, len, top, c', len[x] - 1);
      assert false;
    }
  }

  /** Only the symbols cost anything. */
  lemma FrontCost(leaves: set<nat>, elems: nat, w: seq<nat>, l: seq<nat>)
    requires |w| == |l| && elems <= |w| && forall x :: x in leaves ==> x < elems
    ensures Total(leaves, Products(w[..elems], l[..elems])) == Total(leaves, Products(w, l))
  {
    assert Products(w[..elems], l[..elems]) == Products(w, l)[..elems];
    TotalOfLeaves(leaves, Products(w[..elems], l[..elems]), Products(w, l), elems, |w|);
  }

  lemma {:induction false} NotClipped(elems: nat, len: seq<nat>, top: nat, j: nat)
    requires elems + j <= |len| && Clipped(elems, len, top, j) == 0
    requires forall i :: 0 <= i < |len| ==> len[i] <= top
    ensures forall i :: elems + j <= i < |len| ==> len[i] < top
    decreases |len| - j
  {
    if elems + j < |len| {
      NotClipped(elems, len, top, j + 1);
    }
  }

  /** What the first pass establishes when nothing was cut off, and what the
      repair starts from otherwise. */
  lemma FirstPass(leaves: set<nat>, elems: nat, merges: seq<Merge>, len: seq<nat>, top: nat,
                  c: seq<nat>, l: seq<nat>, w: seq<nat>)
    requires GreedyRun(leaves, elems, merges, w) && |leaves| == |merges| + 1
    requires Lengths(elems, merges, len, top) && 0 < top <= MAX_BITS
    requires forall i :: 0 <= i < |len| ==> len[i] <= top
    requires Counted(c, leaves, len, elems) && elems <= |l|
    requires forall x :: x in leaves ==> x < elems && l[x] == len[x]
    ensures UsedOf(c, top) == Pow2(top) + Clipped(elems, len, top, 0)
    ensures SumCounts(c, top) == |leaves| && c[0] == 0
    ensures Clipped(elems, len, top, 0) > 0 ==> c[top] > Clipped(elems, len, top, 0)
    ensures forall b :: top < b <= MAX_BITS ==> c[b] == 0
    ensures Clipped(elems, len, top, 0) == 0 ==> CompleteLengths(c, leaves, l, elems, top)
    ensures Clipped(elems, len, top, 0) == 0 ==> Optimal(leaves, w[..elems], l[..elems])
  {
    hide ValidRun, Greedy, TieBroken, Clipped, Optimal, UsedOf, SumCounts, Total;
    FirstPassCounts(leaves, elems, merges, len, top, c);
    LeafLengths(leaves, elems, merges, len, top);
    CountedSame(c, leaves, len, l, elems);
    if Clipped(elems, len, top, 0) == 0 {
      UncutIsOptimal(leaves, elems, merges, w, len, top);
      SameLengthsOptimal(leaves, w[..elems], len[..elems], l[..elems]);
    }
  }

  lemma SameLengthsOptimal(leaves: set<nat>, f: seq<nat>, l: seq<nat>, l': seq<nat>)
    requires |f| == |l| == |l'| && Optimal(leaves, f, l)
    requires forall x: nat :: x in leaves && x < |l| ==> l'[x] == l[x]
    ensures Optimal(leaves, f, l')
  {
    SumSame(leaves, Products(f, l), leaves, Products(f, l'), |f|);
    assert Total(leaves, Products(f, l')) == Total(leaves, Products(f, l));
    hide Total, Products, SomeAsLong;
    forall c: seq<seq<bool>> | |c| == |f| && ReachesAsFar(leaves, c, l)
      ensures ReachesAsFar(leaves, c, l')
    {
    }
  }

  lemma SameCosts(desc: Desc, f: seq<nat>, leaves: set<nat>, l: seq<nat>, l': seq<nat>)
    requires desc.elems <= |f| && desc.elems <= |l| && desc.elems <= |l'|
    requires forall x: nat :: x in leaves && x < desc.elems ==> l'[x] == l[x]
    ensures Total(leaves, OptCosts(desc, f, l)) == Total(leaves, OptCosts(desc, f, l'))
  {
    SumSame(leaves, OptCosts(desc, f, l), leaves, OptCosts(desc, f, l'), desc.elems);
  }

  // ----- the tree as a whole -----

  /** The lengths `build_tree` gives for frequencies f0. */
  ghost predicate GoodLengths(desc: Desc, f0: seq<nat>, dl: seq<nat>, maxCode: int)
    requires desc.elems <= |f0|
  {
    && 0 <= maxCode < desc.elems <= |dl| && dl[maxCode] > 0
    && Complete(dl[..maxCode + 1])
    && (forall n :: 0 <= n < desc.elems ==> dl[n] <= desc.maxLength)
    && (forall n :: maxCode < n < desc.elems ==> dl[n] == 0)
    && (forall n :: 0 <= n < desc.elems && f0[n] != 0 ==> n <= maxCode && dl[n] > 0)
  }

  /** The outcome of `build_tree`: good lengths, and their codes. */
  ghost predicate Built(desc: Desc, f0: seq<nat>, fc: seq<nat>, dl: seq<nat>, maxCode: int)
    requires desc.elems <= |f0|
  {
    && GoodLengths(desc, f0, dl, maxCode)
    && forall n :: 0 <= n <= maxCode && dl[n] != 0 ==> CodeSet(fc, dl[..maxCode + 1], n)
  }

  /** The frequencies have been completed and the tree exists; symbols that do
      not occur have length 0. */
  ghost predicate Planted(desc: Desc, opt0: int, static0: int, f0: seq<nat>,
                          opt: int, static_: int, f: seq<nat>, dl: seq<nat>, maxCode: int)
    requires |f0| == desc.elems
  {
    && |f| == desc.elems <= |dl|
    && Forcing(desc, opt0, static0, f0, opt, static_, f, maxCode)
    && |LeafSet(f, desc.elems)| >= 2 && 0 <= maxCode
    && forall x: nat :: x < desc.elems && f[x] == 0 ==> dl[x] == 0
  }

  lemma FewForced(desc: Desc, opt0: int, static0: int, f0: seq<nat>, opt: int, static_: int, f: seq<nat>, maxCode: int)
    requires desc.elems <= |f0| == |f| && Forcing(desc, opt0, static0, f0, opt, static_, f, maxCode)
    requires |LeafSet(f, desc.elems)| >= 2
    ensures Total(LeafSet(f, desc.elems), f) <= Total(LeafSet(f0, desc.elems), f0) + 2
    ensures forall x: nat :: x < desc.elems && x !in LeafSet(f, desc.elems) ==> f0[x] == 0
  {
    var s, s0 := LeafSet(f, desc.elems), LeafSet(f0, desc.elems);
    var forced := s - s0;
    assert s == s0 + forced;
    SumSplit(s0, forced, f, |f|);
    SumSame(s0, f, s0, f0, |f|);
    SumSame(forced, f, forced, Ones(|f|), |f|);
    SizeIsSum(forced, |f|);
    assert |s| == |s0| + |forced|;
  }

  lemma FrontLeaves(f: seq<nat>, n: nat)
    requires n <= |f|
    ensures LeafSet(f[..n], n) == LeafSet(f, n)
  {
  }

  lemma PlantedNow(desc: Desc, opt0: int, static0: int, f0: seq<nat>,
                   opt: int, static_: int, f: seq<nat>, dl: seq<nat>, maxCode: int)
    requires desc.elems <= |f0| == |f| && desc.elems <= |dl| && 0 <= maxCode
    requires Forcing(desc, opt0, static0, f0, opt, static_, f, maxCode) && |LeafSet(f, desc.elems)| >= 2
    requires forall x: nat :: x < desc.elems && x !in LeafSet(f, desc.elems) ==> dl[x] == 0
    ensures Planted(desc, opt0, static0, f0[..desc.elems], opt, static_, f[..desc.elems], dl, maxCode)
  {
    FrontLeaves(f, desc.elems);
    FrontLeaves(f0, desc.elems);
  }

  lemma StillPlanted(desc: Desc, opt0: int, static0: int, f0: seq<nat>, opt: int, static_: int, f: seq<nat>,
                     dl: seq<nat>, dl': seq<nat>, maxCode: int)
    requires |f0| == |f| == desc.elems && |dl'| == |dl|
    requires Planted(desc, opt0, static0, f0, opt, static_, f, dl, maxCode)
    requires forall x: nat :: x < desc.elems && x < |dl| && x !in LeafSet(f, desc.elems) ==> dl'[x] == dl[x]
    ensures Planted(desc, opt0, static0, f0, opt, static_, f, dl', maxCode)
  {
  }

  lemma FrontFacts(desc: Desc, opt0: int, static0: int, f0: seq<nat>, opt: int, static_: int, f: seq<nat>,
                   fc: seq<nat>, dl: seq<nat>, maxCode: int)
    requires |f0| == |f| == desc.elems <= |fc| && f == fc[..desc.elems]
    requires Planted(desc, opt0, static0, f0, opt, static_, f, dl, maxCode)
    ensures LeafSet(f, desc.elems) == LeafSet(fc, desc.elems) && LastLeaf(fc, desc.elems, maxCode)
    ensures |LeafSet(f0, desc.elems)| >= 2 ==> f == f0
  {
    FrontLeaves(fc, desc.elems);
    var s, s0 := LeafSet(f, desc.elems), LeafSet(f0, desc.elems);
    assert |s - s0| == |s| - |s0|;
  }

  lemma FrontCosts(desc: Desc, f: seq<nat>, g: seq<nat>, l: seq<nat>)
    requires desc.elems <= |f| && desc.elems <= |g| && desc.elems <= |l| && f[..desc.elems] == g[..desc.elems]
    ensures OptCosts(desc, f, l) == OptCosts(desc, g, l) && StaticCosts(desc, f) == StaticCosts(desc, g)
  {
    assert forall y :: 0 <= y < desc.elems ==> f[y] == f[..desc.elems][y] == g[..desc.elems][y] == g[y];
  }

  /** The sizes for the forced frequencies, less what forcing took off, are the
      sizes for the original frequencies. */
  lemma FinalSizes(desc: Desc, opt0: int, static0: int, f0: seq<nat>, opt: int, static_: int, f: seq<nat>,
                   l: seq<nat>, maxCode: int, c: seq<nat>)
    requires desc.Valid() && |f0| == |f| == desc.elems <= |l|
    requires Planted(desc, opt0, static0, f0, opt, static_, f, l, maxCode)
    requires CompleteLengths(c, LeafSet(f, desc.elems), l, desc.elems, desc.maxLength)
    ensures var s, s0 := LeafSet(f, desc.elems), LeafSet(f0, desc.elems);
            && opt + Total(s, OptCosts(desc, f, l)) == opt0 + Total(s0, OptCosts(desc, f0, l))
            && static_ + Total(s, StaticCosts(desc, f)) == static0 + Total(s0, StaticCosts(desc, f0))
  {
    var n, s, s0 := desc.elems, LeafSet(f, desc.elems), LeafSet(f0, desc.elems);
    var forced := s - s0;
    assert s == s0 + forced;
    SameForced(desc, opt0, static0, f0, opt, static_, f, l, maxCode, c);
    SumSplit(s0, forced, OptCosts(desc, f, l), n);
    SumSplit(s0, forced, StaticCosts(desc, f), n);
    SumSame(s0, OptCosts(desc, f, l), s0, OptCosts(desc, f0, l), n);
    SumSame(s0, StaticCosts(desc, f), s0, StaticCosts(desc, f0), n);
    SumSame(forced, OptCosts(desc, f, l), forced, Ones(n), n);
    SumSame(forced, StaticCosts(desc, f), forced, StaticLens(desc), n);
    SizeIsSum(forced, n);
    hide LeafSet, OptCosts, StaticCosts, CompleteLengths, StaticLens, Sum;
  }

  /** What single symbols cost: those that occur as before, forced ones one bit. */
  lemma SameForced(desc: Desc, opt0: int, static0: int, f0: seq<nat>, opt: int, static_: int, f: seq<nat>,
                   l: seq<nat>, maxCode: int, c: seq<nat>)
    requires desc.Valid() && |f0| == |f| == desc.elems <= |l|
    requires Planted(desc, opt0, static0, f0, opt, static_, f, l, maxCode)
    requires CompleteLengths(c, LeafSet(f, desc.elems), l, desc.elems, desc.maxLength)
    ensures forall x: nat :: x in LeafSet(f0, desc.elems) ==>
      OptCosts(desc, f, l)[x] == OptCosts(desc, f0, l)[x] && StaticCosts(desc, f)[x] == StaticCosts(desc, f0)[x]
    ensures forall x: nat :: x in LeafSet(f, desc.elems) - LeafSet(f0, desc.elems) ==>
      OptCosts(desc, f, l)[x] == Ones(desc.elems)[x] && StaticCosts(desc, f)[x] == StaticLens(desc)[x]
  {
    forall x: nat | x in LeafSet(f, desc.elems) - LeafSet(f0, desc.elems)
      ensures OptCosts(desc, f, l)[x] == 1 && StaticCosts(desc, f)[x] == StaticLens(desc)[x]
    {
      TwoSymbols(c, LeafSet(f, desc.elems), l, desc.elems, desc.maxLength, x);
      assert x == 0 || x == 1 || x == 2;
    }
    hide CompleteLengths;
  }

  lemma CodesReady(desc: Desc, opt0: int, static0: int, f0: seq<nat>, opt: int, static_: int, f: seq<nat>,
                   l: seq<nat>, maxCode: int, c: seq<nat>)
    requires desc.Valid() && |f0| == |f| == desc.elems <= |l|
    requires Planted(desc, opt0, static0, f0, opt, static_, f, l, maxCode)
    requires CompleteLengths(c, LeafSet(f, desc.elems), l, desc.elems, desc.maxLength)
    ensures 0 <= maxCode < desc.elems && |c| == MAX_BITS + 1 && c[0] == 0
    ensures forall b :: 1 <= b <= MAX_BITS ==> c[b] == Count(l[..maxCode + 1], b)
    ensures forall n :: 0 <= n <= maxCode ==> l[n] <= MAX_BITS
    ensures GoodLengths(desc, f0, l, maxCode)
  {
    LengthsComplete(c, LeafSet(f, desc.elems), l, desc.elems, desc.maxLength, maxCode);
    hide Complete;
  }
}
