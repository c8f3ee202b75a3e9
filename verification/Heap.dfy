/** The array heap of `pqdownheap`: keys are frequencies, with subtree depths
    breaking ties. */
module Heaps {

  const L_CODES := 286
  const HEAP_SIZE := 573

  /** n comes no later than m. */
  predicate Smaller(f: seq<nat>, d: seq<nat>, n: nat, m: nat)
    requires |f| <= |d| && n < |f| && m < |f|
  {
    f[n] < f[m] || (f[n] == f[m] && d[n] <= d[m])
  }

  ghost predicate InBounds(h: seq<nat>, len: nat, bound: nat)
  {
    len < |h| && forall j :: 1 <= j <= len ==> h[j] < bound
  }

  /** Father j / 2 comes no later than son j, for all fathers from k on. */
  ghost predicate HeapFrom(f: seq<nat>, d: seq<nat>, h: seq<nat>, len: nat, k: nat)
    requires |f| <= |d| && InBounds(h, len, |f|)
  {
    forall j :: 2 <= j <= len && k <= j / 2 ==> Smaller(f, d, h[j / 2], h[j])
  }

  /** The same, leaving out the sons of the node at `hole`; these come no earlier
      than their grandfather. */
  ghost predicate HeapAround(f: seq<nat>, d: seq<nat>, h: seq<nat>, len: nat, k: nat, hole: nat)
    requires |f| <= |d| && InBounds(h, len, |f|) && 1 <= k
  {
    && (forall j :: 2 <= j <= len && k <= j / 2 && j / 2 != hole ==> Smaller(f, d, h[j / 2], h[j]))
    && (forall j :: 2 <= j <= len && j / 2 == hole && k <= hole / 2 ==> Smaller(f, d, h[hole / 2], h[j]))
  }

  /** The nodes in the heap. */
  function Nodes(h: seq<nat>, len: nat): multiset<nat>
    requires len < |h|
  {
    multiset(h[1..len + 1])
  }

  lemma NodesUpdate(h: seq<nat>, len: nat, i: nat, v: nat)
    requires 1 <= i <= len < |h|
    ensures Nodes(h[i := v], len) == Nodes(h, len) - multiset{h[i]} + multiset{v}
  {
    var s := h[1..len + 1];
    assert h[i := v][1..len + 1] == s[i - 1 := v];
    assert s == s[..i - 1] + [s[i - 1]] + s[i..];
    assert s[i - 1 := v] == s[..i - 1] + [v] + s[i..];
  }

  lemma NodesIn(h: seq<nat>, len: nat, i: nat)
    requires 1 <= i <= len < |h|
    ensures h[i] in Nodes(h, len)
  {
    assert h[1..len + 1][i - 1] == h[i];
  }

  lemma NodesSwap(h: seq<nat>, len: nat, i: nat, j: nat)
    requires 1 <= i < j <= len < |h|
    ensures Nodes(h[i := h[j]][j := h[i]], len) == Nodes(h, len)
  {
    NodesUpdate(h, len, i, h[j]);
    NodesUpdate(h[i := h[j]], len, j, h[i]);
    NodesIn(h, len, i);
    NodesIn(h, len, j);
    NodesIn(h[i := h[j]], len, j);
  }

  /** The root of a heap comes first. */
  lemma {:induction false} RootFirst(f: seq<nat>, d: seq<nat>, h: seq<nat>, len: nat, j: nat)
    requires |f| <= |d| && InBounds(h, len, |f|) && HeapFrom(f, d, h, len, 1) && 1 <= j <= len
    ensures Smaller(f, d, h[1], h[j])
  {
    if j > 1 {
      RootFirst(f, d, h, len, j / 2);
    }
  }

  /** j is the son of k to compare with: the only one, or the one that comes first. */
  ghost predicate FirstSon(f: seq<nat>, d: seq<nat>, h: seq<nat>, len: nat, k: nat, j: nat)
    requires |f| <= |d| && InBounds(h, len, |f|)
  {
    && 1 <= k && j / 2 == k && j <= len
    && forall i :: 2 <= i <= len && i / 2 == k ==> Smaller(f, d, h[j], h[i])
  }

  /** Exchanging the sinking node with its first son moves the hole down. */
  lemma SinkStep(f: seq<nat>, d: seq<nat>, h: seq<nat>, len: nat, k0: nat, k: nat, j: nat)
    requires |f| <= |d| && InBounds(h, len, |f|) && 1 <= k0 <= k && HeapAround(f, d, h, len, k0, k)
    requires FirstSon(f, d, h, len, k, j) && !Smaller(f, d, h[k], h[j])
    ensures var h' := h[k := h[j]][j := h[k]];
            && InBounds(h', len, |f|) && HeapAround(f, d, h', len, k0, j)
            && Nodes(h', len) == Nodes(h, len)
  {
    NodesSwap(h, len, k, j);
    hide Nodes;
    var h' := h[k := h[j]][j := h[k]];
    forall i | 2 <= i <= len && k0 <= i / 2 && i / 2 != j
      ensures Smaller(f, d, h'[i / 2], h'[i])
    {
      if i == k {
        assert Smaller(f, d, h[k / 2], h[j]);
      }
    }
  }

  lemma SinkDone(f: seq<nat>, d: seq<nat>, h: seq<nat>, len: nat, k0: nat, k: nat)
    requires |f| <= |d| && InBounds(h, len, |f|) && 1 <= k0 <= k <= len && HeapAround(f, d, h, len, k0, k)
    requires forall i :: 2 <= i <= len && i / 2 == k ==> Smaller(f, d, h[k], h[i])
    ensures HeapFrom(f, d, h, len, k0)
  {
  }

  /** Sinks heap[k0] until neither son comes before it. */
  method PqDownHeap(freq: array<nat>, depth: array<nat>, heap: array<nat>, heapLen: nat, k0: nat)
    requires heap != freq && heap != depth && freq.Length <= depth.Length
    requires InBounds(heap[..], heapLen, freq.Length) && 1 <= k0 <= heapLen
    requires HeapFrom(freq[..], depth[..], heap[..], heapLen, k0 + 1)
    modifies heap
    ensures InBounds(heap[..], heapLen, freq.Length)
    ensures HeapFrom(freq[..], depth[..], heap[..], heapLen, k0)
    ensures Nodes(heap[..], heapLen) == old(Nodes(heap[..], heapLen))
    ensures forall p :: heapLen < p < heap.Length ==> heap[p] == old(heap[p])
  {
    hide Nodes, Smaller, HeapFrom, HeapAround;
    ghost var f, d, h := freq[..], depth[..], heap[..];
    var v := heap[k0];
    var k := k0;
    var j := 2 * k;
    StartSink(f, d, h, heapLen, k0);
    while j <= heapLen
      invariant k0 <= k <= heapLen && j == 2 * k
      invariant |h| == heap.Length && h[k] == v && forall p :: 0 <= p < |h| && p != k ==> heap[p] == h[p]
      invariant InBounds(h, heapLen, freq.Length)
      invariant HeapAround(f, d, h, heapLen, k0, k)
      invariant Nodes(h, heapLen) == old(Nodes(heap[..], heapLen))
      invariant forall p :: heapLen < p < |h| ==> h[p] == old(heap[p])
    {
      if j < heapLen && SmallerNode(freq, depth, heap[j + 1], heap[j]) {
        j := j + 1;
      }
      PickSon(f, d, h, heapLen, k, j);
      if SmallerNode(freq, depth, v, heap[j]) {
        NoSonBefore(f, d, h, heapLen, k, j);
        break;
      }
      heap[k] := heap[j];
      SinkStep(f, d, h, heapLen, k0, k, j);
      h := h[k := h[j]][j := v];
      k := j;
      j := 2 * j;
    }
    heap[k] := v;
    assert heap[..] == h;
    SinkDone(f, d, h, heapLen, k0, k);
  }

  lemma StartSink(f: seq<nat>, d: seq<nat>, h: seq<nat>, len: nat, k0: nat)
    requires |f| <= |d| && InBounds(h, len, |f|) && 1 <= k0 <= len && HeapFrom(f, d, h, len, k0 + 1)
    ensures HeapAround(f, d, h, len, k0, k0)
  {
  }

  lemma PickSon(f: seq<nat>, d: seq<nat>, h: seq<nat>, len: nat, k: nat, j: nat)
    requires |f| <= |d| && InBounds(h, len, |f|) && 1 <= k && 2 * k <= len
    requires j == if 2 * k < len && Smaller(f, d, h[2 * k + 1], h[2 * k]) then 2 * k + 1 else 2 * k
    ensures FirstSon(f, d, h, len, k, j)
  {
  }

  lemma NoSonBefore(f: seq<nat>, d: seq<nat>, h: seq<nat>, len: nat, k: nat, j: nat)
    requires |f| <= |d| && InBounds(h, len, |f|) && FirstSon(f, d, h, len, k, j) && k <= len
    requires Smaller(f, d, h[k], h[j])
    ensures forall i :: 2 <= i <= len && i / 2 == k ==> Smaller(f, d, h[k], h[i])
  {
  }

  predicate SmallerNode(freq: array<nat>, depth: array<nat>, n: nat, m: nat)
    requires freq.Length <= depth.Length && n < freq.Length && m < freq.Length
    reads freq, depth
    ensures SmallerNode(freq, depth, n, m) == Smaller(freq[..], depth[..], n, m)
  {
    freq[n] < freq[m] || (freq[n] == freq[m] && depth[n] <= depth[m])
  }

  // ----- removing the root -----

  lemma MovedToRoot(f: seq<nat>, d: seq<nat>, h: seq<nat>, len: nat)
    requires |f| <= |d| && InBounds(h, len, |f|) && HeapFrom(f, d, h, len, 1) && 2 <= len
    ensures var h' := h[1 := h[len]];
            && InBounds(h', len - 1, |f|) && HeapFrom(f, d, h', len - 1, 2)
            && Nodes(h', len - 1) == Nodes(h, len) - multiset{h[1]}
            && h[1] in Nodes(h, len)
  {
    DropRoot(h, len);
    hide Nodes, Smaller;
    var h' := h[1 := h[len]];
    forall j | 2 <= j <= len - 1 && 2 <= j / 2
      ensures Smaller(f, d, h'[j / 2], h'[j])
    {
      assert Smaller(f, d, h[j / 2], h[j]);
    }
  }

  lemma NodesLast(h: seq<nat>, len: nat)
    requires 1 <= len < |h|
    ensures Nodes(h, len) == Nodes(h, len - 1) + multiset{h[len]}
  {
    assert h[1..len + 1] == h[1..len] + [h[len]];
  }

  lemma DropRoot(h: seq<nat>, len: nat)
    requires 2 <= len < |h|
    ensures Nodes(h[1 := h[len]], len - 1) == Nodes(h, len) - multiset{h[1]}
    ensures h[1] in Nodes(h, len)
  {
    hide Nodes;
    NodesUpdate(h, len, 1, h[len]);
    NodesIn(h, len, 1);
    var h' := h[1 := h[len]];
    NodesLast(h', len);
    assert Nodes(h', len - 1) == Nodes(h', len) - multiset{h[len]};
  }

  lemma RootFirstAll(f: seq<nat>, d: seq<nat>, h: seq<nat>, len: nat)
    requires |f| <= |d| && InBounds(h, len, |f|) && HeapFrom(f, d, h, len, 1) && 1 <= len
    ensures forall x :: x in Nodes(h, len) ==> x < |f| && Smaller(f, d, h[1], x)
  {
    forall x | x in Nodes(h, len)
      ensures x < |f| && Smaller(f, d, h[1], x)
    {
      var i :| 0 <= i < len && h[1..len + 1][i] == x;
      RootFirst(f, d, h, len, i + 1);
    }
  }

  /** A node that is not in the heap may get any key. */
  lemma OutsideKeys(f: seq<nat>, d: seq<nat>, f': seq<nat>, d': seq<nat>, h: seq<nat>, len: nat, k: nat, x: nat)
    requires |f| <= |d| && InBounds(h, len, |f|) && HeapFrom(f, d, h, len, k) && 1 <= k
    requires |f'| == |f| && |d'| == |d|
    requires forall y :: 0 <= y < |f| && y != x ==> f'[y] == f[y] && d'[y] == d[y]
    requires x !in Nodes(h, len)
    ensures HeapFrom(f', d', h, len, k)
  {
    forall j | 1 <= j <= len
      ensures h[j] != x
    {
      NodesIn(h, len, j);
    }
  }
}
