/** `build_tree`: the initial heap, the forced codes, the merging of the two
    least frequent nodes, and the code lengths. */
module TreeBuilder {
  import opened Bits
  import opened Sums
  import opened Huffman
  import opened Heaps
  import opened Trees
  import opened Merging
  import opened HeapLayout
  import opened CodeLengths
  import opened PrefixCode

  class Builder {
    const heap: array<nat>
    const depth: array<nat>
    const blCount: array<nat>
    var heapLen: nat
    var heapMax: nat
    var optLen: int
    var staticLen: int

    ghost predicate Valid()
    {
      && heap.Length == HEAP_SIZE && depth.Length == HEAP_SIZE && blCount.Length == MAX_BITS + 1
      && heap != depth && heap != blCount && depth != blCount
    }

    /** The tree uses other arrays than the heap. */
    ghost predicate Apart(t: Tree)
    {
      && t.fc.Length <= HEAP_SIZE
      && heap != t.fc && heap != t.dl && depth != t.fc && depth != t.dl && blCount != t.fc && blCount != t.dl
    }

    constructor ()
      ensures Valid() && fresh(heap) && fresh(depth) && fresh(blCount)
      ensures forall i :: 0 <= i < blCount.Length ==> blCount[i] == 0
    {
      heap := new nat[HEAP_SIZE];
      depth := new nat[HEAP_SIZE];
      blCount := new nat[MAX_BITS + 1](_ => 0);
      heapLen, heapMax, optLen, staticLen := 0, 0, 0, 0;
    }

    /** The heap holds exactly the nodes of s, which are at the bottom of the tree. */
    ghost predicate Holds(s: set<nat>, bound: nat)
      reads `heapLen, heap, depth
    {
      && (forall x :: x in s ==> x < depth.Length && depth[x] == 0)
      && heapLen < heap.Length && heapLen == |s|
      && Nodes(heap[..], heapLen) == multiset(s)
      && InBounds(heap[..], heapLen, bound)
    }

    lemma HowMany(s: set<nat>, bound: nat)
      requires Holds(s, bound)
      ensures heapLen == |s|
    {
      hide Nodes, InBounds;
    }

    /** Appends a leaf, in no particular order. */
    method Append(x: nat, ghost s: set<nat>, ghost bound: nat)
      requires Valid() && Holds(s, bound) && x !in s && x < bound <= HEAP_SIZE && heapLen + 1 < HEAP_SIZE
      modifies this`heapLen, heap, depth
      ensures Holds(s + {x}, bound)
    {
      ghost var h := heap[..][heapLen + 1 := x];
      NodesSnoc(heap[..], heapLen, x);
      SetSnoc(s, x);
      heapLen := heapLen + 1;
      heap[heapLen] := x;
      depth[x] := 0;
      assert heap[..] == h;
    }

    /** A symbol that occurs becomes a leaf; any other has no code. */
    method CollectOne(t: Tree, n: nat)
      requires Valid() && t.Valid() && Apart(t) && n < t.desc.elems
      requires Holds(LeafSet(t.fc[..], n), t.desc.elems) && heapLen <= n
      requires t.maxCode < n && LastLeaf(t.fc[..], n, t.maxCode)
      modifies this`heapLen, heap, depth, t`maxCode, t.dl
      ensures Holds(LeafSet(t.fc[..], n + 1), t.desc.elems) && heapLen <= n + 1
      ensures t.maxCode <= n && LastLeaf(t.fc[..], n + 1, t.maxCode)
      ensures forall x :: 0 <= x < t.dl.Length ==> t.dl[x] == if x == n && t.fc[n] == 0 then 0 else old(t.dl[x])
    {
      hide Nodes, LeafSet, InBounds;
      ghost var f := t.fc[..];
      LeafSetSnoc(f, n);
      if t.fc[n] != 0 {
        Append(n, LeafSet(f, n), t.desc.elems);
        t.maxCode := n;
      } else {
        t.dl[n] := 0;
      }
    }

    method CollectLeaves(t: Tree)
      requires Valid() && t.Valid() && Apart(t)
      modifies this, heap, depth, t, t.dl
      ensures Holds(LeafSet(t.fc[..], t.desc.elems), t.desc.elems)
      ensures heapMax == HEAP_SIZE && optLen == old(optLen) && staticLen == old(staticLen)
      ensures -1 <= t.maxCode < t.desc.elems && LastLeaf(t.fc[..], t.desc.elems, t.maxCode)
      ensures forall x :: 0 <= x < t.desc.elems && t.fc[x] == 0 ==> t.dl[x] == 0
    {
      hide Nodes, LeafSet, InBounds;
      heapLen := 0;
      heapMax := HEAP_SIZE;
      t.maxCode := -1;
      var n := 0;
      ghost var f := t.fc[..];
      NoLeaves(f, heap[..], t.desc.elems);
      while n < t.desc.elems
        invariant 0 <= n <= t.desc.elems && heapMax == HEAP_SIZE
        invariant Holds(LeafSet(f, n), t.desc.elems) && heapLen <= n
        invariant optLen == old(optLen) && staticLen == old(staticLen)
        invariant t.maxCode < n && LastLeaf(f, n, t.maxCode)
        invariant forall x :: 0 <= x < n && f[x] == 0 ==> t.dl[x] == 0
      {
        CollectOne(t, n);
        n := n + 1;
      }
    }

    /** Makes sure that there are two codes. */
    method ForceTwo(t: Tree)
      requires Valid() && t.Valid() && Apart(t)
      requires Holds(LeafSet(t.fc[..], t.desc.elems), t.desc.elems)
      requires LastLeaf(t.fc[..], t.desc.elems, t.maxCode)
      modifies this`heapLen, this`optLen, this`staticLen, heap, depth, t, t.fc
      ensures Holds(LeafSet(t.fc[..], t.desc.elems), t.desc.elems) && heapLen >= 2
      ensures 0 <= t.maxCode < t.desc.elems
      ensures Forcing(t.desc, old(optLen), old(staticLen), old(t.fc[..]), optLen, staticLen, t.fc[..], t.maxCode)
      ensures LeafSet(t.fc[..], t.desc.elems) == ForcedSet(LeafSet(old(t.fc[..]), t.desc.elems))
    {
      hide Nodes, LeafSet, Forcing;
      ghost var elems, f0 := t.desc.elems, t.fc[..];
      NothingForced(t.desc, optLen, staticLen, f0, t.maxCode);
      while heapLen < 2
        invariant Holds(LeafSet(t.fc[..], elems), elems)
        invariant Forcing(t.desc, old(optLen), old(staticLen), f0, optLen, staticLen, t.fc[..], t.maxCode)
        invariant ForcedSet(LeafSet(t.fc[..], elems)) == ForcedSet(LeafSet(f0, elems))
        decreases 2 - heapLen
      {
        ForceOne(t, f0, old(optLen), old(staticLen));
      }
      EnoughLeaves(t.desc, old(optLen), old(staticLen), f0, optLen, staticLen, t.fc[..], t.maxCode);
    }

    method ForceOne(t: Tree, ghost f0: seq<nat>, ghost opt0: int, ghost static0: int)
      requires Valid() && t.Valid() && Apart(t) && heapLen < 2 && t.desc.elems <= |f0|
      requires Holds(LeafSet(t.fc[..], t.desc.elems), t.desc.elems)
      requires Forcing(t.desc, opt0, static0, f0, optLen, staticLen, t.fc[..], t.maxCode)
      modifies this`heapLen, this`optLen, this`staticLen, heap, depth, t, t.fc
      ensures heapLen == old(heapLen) + 1
      ensures Holds(LeafSet(t.fc[..], t.desc.elems), t.desc.elems)
      ensures Forcing(t.desc, opt0, static0, f0, optLen, staticLen, t.fc[..], t.maxCode)
      ensures ForcedSet(LeafSet(t.fc[..], t.desc.elems)) == old(ForcedSet(LeafSet(t.fc[..], t.desc.elems)))
    {
      hide Nodes, LeafSet, Forcing, ForcedSet, LastLeaf, InBounds, Builder.Holds;
      ghost var f := t.fc[..];
      HowMany(LeafSet(f, t.desc.elems), t.desc.elems);
      ForcingLast(t.desc, opt0, static0, f0, optLen, staticLen, f, t.maxCode);
      var code := if t.maxCode < 2 then t.maxCode + 1 else 0;
      ForcedSetStep(f, t.desc.elems, t.maxCode, code);
      ForceStep(t.desc, opt0, static0, f0, optLen, staticLen, f, t.maxCode, code);
      if t.maxCode < 2 {
        t.maxCode := code;
      }
      Append(code, LeafSet(f, t.desc.elems), t.desc.elems);
      t.fc[code] := 1;
      assert t.fc[..] == f[code := 1];
      optLen := optLen - 1;
      staticLen := staticLen - t.desc.StaticLen(code);
    }

    /** PQREMOVE: takes the first node out of the heap. */
    method PqRemove(t: Tree) returns (top: nat)
      requires Valid() && t.Valid() && Apart(t) && 2 <= heapLen
      requires InBounds(heap[..], heapLen, t.fc.Length)
      requires HeapFrom(t.fc[..], depth[..], heap[..], heapLen, 1)
      modifies this`heapLen, heap
      ensures heapLen == old(heapLen) - 1 && top == old(heap[1])
      ensures InBounds(heap[..], heapLen, t.fc.Length)
      ensures HeapFrom(t.fc[..], depth[..], heap[..], heapLen, 1)
      ensures Nodes(heap[..], heapLen) == old(Nodes(heap[..], heapLen)) - multiset{top}
      ensures top in old(Nodes(heap[..], heapLen))
      ensures forall x :: x in old(Nodes(heap[..], heapLen)) ==>
        x < t.fc.Length && top < t.fc.Length && Smaller(t.fc[..], depth[..], top, x)
      ensures forall p :: old(heapLen) < p < heap.Length ==> heap[p] == old(heap[p])
    {
      hide Nodes, HeapFrom;
      ghost var f, d, h := t.fc[..], depth[..], heap[..];
      RootFirstAll(f, d, h, heapLen);
      MovedToRoot(f, d, h, heapLen);
      top := heap[1];
      heap[1] := heap[heapLen];
      heapLen := heapLen - 1;
      assert heap[..] == h[1 := h[heapLen + 1]];
      PqDownHeap(t.fc, depth, heap, heapLen, 1);
    }

    /** Establishes the heap order bottom up. */
    method Heapify(t: Tree)
      requires Valid() && t.Valid() && Apart(t) && 2 <= heapLen
      requires InBounds(heap[..], heapLen, t.fc.Length)
      modifies heap
      ensures InBounds(heap[..], heapLen, t.fc.Length)
      ensures HeapFrom(t.fc[..], depth[..], heap[..], heapLen, 1)
      ensures Nodes(heap[..], heapLen) == old(Nodes(heap[..], heapLen))
    {
      hide Nodes;
      var n := heapLen / 2;
      while n >= 1
        invariant 0 <= n <= heapLen
        invariant InBounds(heap[..], heapLen, t.fc.Length)
        invariant HeapFrom(t.fc[..], depth[..], heap[..], heapLen, n + 1)
        invariant Nodes(heap[..], heapLen) == old(Nodes(heap[..], heapLen))
      {
        PqDownHeap(t.fc, depth, heap, heapLen, n);
        n := n - 1;
      }
    }

    /** The heap and the tree after some merges. */
    ghost predicate Merged(t: Tree, leaves: set<nat>, merges: seq<Merge>)
      requires Valid() && t.Valid() && Apart(t)
      reads this, heap, depth, t.fc, t.dl
    {
      && |merges| < |leaves| <= t.desc.elems
      && GreedyRun(leaves, t.desc.elems, merges, t.fc[..t.desc.elems + |merges|])
      && HoldsLive(t.fc[..], depth[..], heap[..], heapLen, leaves, t.desc.elems, merges)
      && heapMax == HEAP_SIZE - 2 * |merges|
      && LaidOut(heap[..], merges) && Fathers(t.dl[..], t.desc.elems, merges)
    }

    /** Takes out the least frequent node n; the next least frequent, m, stays. */
    method TakeTwo(t: Tree, ghost leaves: set<nat>, ghost merges: seq<Merge>, ghost w: seq<nat>) returns (n: nat, m: nat)
      requires Valid() && t.Valid() && Apart(t) && heapLen >= 2
      requires HoldsLive(t.fc[..], depth[..], heap[..], heapLen, leaves, t.desc.elems, merges)
      requires GreedyRun(leaves, t.desc.elems, merges, w) && |w| <= t.fc.Length && w == t.fc[..|w|]
      modifies this`heapLen, heap
      ensures heapLen == old(heapLen) - 1 && forall p :: old(heapLen) < p < heap.Length ==> heap[p] == old(heap[p])
      ensures Taken(t.fc[..], depth[..], heap[..], heapLen, leaves, t.desc.elems, merges, w, n, m)
    {
      hide Nodes, HeapFrom, Live, GreedyRun;
      ghost var h0, len0 := heap[..], heapLen;
      n := PqRemove(t);
      m := heap[1];
      PickTwo(t.fc[..], depth[..], h0, len0, heap[..], heapLen, leaves, t.desc.elems, merges, w, n);
    }

    /** Stores the two below the nodes merged before. */
    method StorePair(n: nat, m: nat)
      requires Valid() && 2 <= heapMax <= HEAP_SIZE
      modifies this`heapMax, heap
      ensures heapMax == old(heapMax) - 2 && heap[..] == old(heap[..])[heapMax + 1 := n][heapMax := m]
    {
      heapMax := heapMax - 1;
      heap[heapMax] := n;
      heapMax := heapMax - 1;
      heap[heapMax] := m;
    }

    method MakeNode(t: Tree, node: nat, n: nat, m: nat)
      requires Valid() && t.Valid() && Apart(t) && node < t.fc.Length && n < t.fc.Length && m < t.fc.Length
      requires t.fc[n] + t.fc[m] < U16
      modifies depth, t.fc, t.dl
      ensures t.fc[..] == old(t.fc[..])[node := old(t.fc[n] + t.fc[m])]
      ensures t.dl[..] == old(t.dl[..])[n := node][m := node]
      ensures forall p :: 0 <= p < depth.Length && p != node ==> depth[p] == old(depth[p])
      ensures depth[node] == ((if old(depth[n]) >= old(depth[m]) then old(depth[n]) else old(depth[m])) + 1) % 256
    {
      t.fc[node] := (t.fc[n] + t.fc[m]) % U16;
      depth[node] := ((if depth[n] >= depth[m] then depth[n] else depth[m]) + 1) % 256;
      t.dl[n] := node;
      t.dl[m] := node;
    }

    /** Puts the new node into the heap. */
    method InsertNode(t: Tree, node: nat)
      requires Valid() && t.Valid() && Apart(t) && 1 <= heapLen < heap.Length && node < t.fc.Length
      requires InBounds(heap[..][1 := node], heapLen, t.fc.Length)
      requires HeapFrom(t.fc[..], depth[..], heap[..][1 := node], heapLen, 2)
      modifies heap
      ensures InBounds(heap[..], heapLen, t.fc.Length) && HeapFrom(t.fc[..], depth[..], heap[..], heapLen, 1)
      ensures Nodes(heap[..], heapLen) == old(Nodes(heap[..][1 := node], heapLen))
      ensures forall p :: heapLen < p < heap.Length ==> heap[p] == old(heap[p])
    {
      hide Nodes, HeapFrom;
      ghost var h := heap[..][1 := node];
      heap[1] := node;
      assert heap[..] == h;
      PqDownHeap(t.fc, depth, heap, heapLen, 1);
    }

    /** Makes the two least frequent nodes the sons of a new one. */
    method MergeOne(t: Tree, node: nat, ghost leaves: set<nat>, ghost merges: seq<Merge>) returns (ghost more: seq<Merge>)
      requires Valid() && t.Valid() && Apart(t) && Merged(t, leaves, merges) && heapLen >= 2
      requires node == t.desc.elems + |merges|
      requires Total(leaves, t.fc[..]) < U16
      modifies this`heapLen, this`heapMax, heap, depth, t.fc, t.dl
      ensures Merged(t, leaves, more) && |more| == |merges| + 1
      ensures forall x :: 0 <= x < t.fc.Length && x != node ==> t.fc[x] == old(t.fc[x])
      ensures forall x :: 0 <= x < t.dl.Length && x !in leaves && x < t.desc.elems ==> t.dl[x] == old(t.dl[x])
    {
      hide Nodes, HeapFrom, Live, GreedyRun, Total, InBounds, Fathers, LaidOut, Taken, DepthsKept, Smaller;
      ghost var f, d, w, h0 := t.fc[..], depth[..], t.fc[..node], heap[..];
      var n, m := TakeTwo(t, leaves, merges, w);
      ghost var h1 := heap[..];
      SumFits(f, d, h1, heapLen, leaves, t.desc.elems, merges, w, n, m);
      StorePair(n, m);
      MakeNode(t, node, n, m);
      NewDepth(f, d, depth[..], h1, heapLen, leaves, t.desc.elems, merges, w, n, m);
      more := merges + [Merge(n, m)];
      NewRoot(f, d, t.fc[..], depth[..], h1, heapLen, heap[..], leaves, t.desc.elems, merges, w, n, m);
      InsertNode(t, node);
      assert t.fc[..node + 1] == w + [w[n] + w[m]];
      StillLaidOut(h0, heap[..], merges, n, m);
      StillFathers(f, d, h1, heapLen, leaves, t.desc.elems, merges, w, old(t.dl[..]), n, m);
    }

    /** The finished tree: its merges, laid out in the heap array with the root first. */
    ghost predicate TreeBuilt(t: Tree, leaves: set<nat>, merges: seq<Merge>)
      requires Valid() && t.Valid() && Apart(t)
      reads this, heap, t.fc, t.dl
    {
      && |merges| + 1 == |leaves| && 2 <= |leaves| <= t.desc.elems
      && GreedyRun(leaves, t.desc.elems, merges, t.fc[..t.desc.elems + |merges|])
      && heapMax == HEAP_SIZE - 2 * |merges| - 1
      && heap[heapMax] == t.desc.elems + |merges| - 1
      && LaidOut(heap[..], merges) && Fathers(t.dl[..], t.desc.elems, merges)
    }

    /** Combines nodes until one is left. */
    method MergeAll(t: Tree, ghost leaves: set<nat>) returns (ghost merges: seq<Merge>)
      requires Valid() && t.Valid() && Apart(t) && heapLen >= 2 && heapMax == HEAP_SIZE
      requires leaves == LeafSet(t.fc[..], t.desc.elems) && Holds(leaves, t.desc.elems)
      requires Total(leaves, t.fc[..]) < U16
      modifies this`heapLen, this`heapMax, heap, depth, t.fc, t.dl
      ensures TreeBuilt(t, leaves, merges)
      ensures Descending(t.fc[..], heap[..], heapMax) && FathersFirst(t.dl[..], heap[..], heapMax)
      ensures t.desc.elems + |merges| <= t.fc.Length && forall x :: t.desc.elems <= x < t.desc.elems + |merges| ==> t.fc[x] < U16
      ensures t.fc[..t.desc.elems] == old(t.fc[..t.desc.elems])
      ensures forall x :: 0 <= x < t.desc.elems && x !in leaves ==> t.dl[x] == old(t.dl[x])
    {
      hide Nodes, HeapFrom, Live, GreedyRun, Total, LeafSet, Descending, FathersFirst;
      ghost var f0 := t.fc[..];
      Heapify(t);
      merges := [];
      FirstState(t.fc[..], depth[..], heap[..], heapLen, leaves, t.desc.elems);
      var node := t.desc.elems;
      while heapLen >= 2
        invariant Merged(t, leaves, merges) && node == t.desc.elems + |merges|
        invariant heapLen == |leaves| - |merges| >= 1
        invariant t.fc[..t.desc.elems] == f0[..t.desc.elems]
        invariant Total(leaves, t.fc[..]) < U16
        invariant forall x :: 0 <= x < t.desc.elems && x !in leaves ==> t.dl[x] == old(t.dl[x])
        decreases heapLen
      {
        merges := MergeOne(t, node, leaves, merges);
        node := node + 1;
        assert t.fc[..t.desc.elems] == f0[..t.desc.elems];
        SameTotal(leaves, f0, t.fc[..], t.desc.elems);
      }
      ghost var h := heap[..];
      RootLeft(t.fc[..], depth[..], h, heapLen, leaves, t.desc.elems, merges, t.fc[..t.desc.elems + |merges|]);
      heapMax := heapMax - 1;
      heap[heapMax] := heap[1];
      RootStored(h, heap[..], merges);
      WellLaidOut(leaves, t.desc.elems, merges, t.fc[..], t.dl[..], heap[..], heapMax);
    }

    /** The sizes that the symbols of `done` account for. */
    ghost predicate Sized(t: Tree, f: seq<nat>, len: seq<nat>, done: set<nat>, opt0: int, static0: int)
      requires t.desc.elems <= |f| && t.desc.elems <= |len|
      reads this
    {
      && optLen == opt0 + Total(done, OptCosts(t.desc, f, len))
      && staticLen == static0 + Total(done, StaticCosts(t.desc, f))
    }

    method ClearCounts(ghost len: seq<nat>, ghost n: nat)
      requires Valid() && n <= |len|
      modifies blCount
      ensures Counted(blCount[..], {}, len, n)
    {
      var bits := 0;
      while bits <= MAX_BITS
        invariant bits <= MAX_BITS + 1 && forall b :: 0 <= b < bits ==> blCount[b] == 0
      {
        blCount[bits] := 0;
        bits := bits + 1;
      }
      CountNone(blCount[..], len, n);
    }

    /** Gives the node at heap position h its length; `over` says whether it was cut off. */
    method SetLength(t: Tree, h: nat, ghost leaves: set<nat>, ghost merges: seq<Merge>, ghost len: seq<nat>)
      returns (n: nat, bits: nat, over: nat)
      requires Valid() && t.Valid() && Apart(t) && LaidOut(heap[..], merges)
      requires ValidRun(leaves, t.desc.elems, merges) && |leaves| == |merges| + 1
      requires HEAP_SIZE - 2 * |merges| <= h < HEAP_SIZE
      requires |len| == t.desc.elems + |merges| && Lengths(t.desc.elems, merges, len, t.desc.maxLength)
      requires forall i :: 0 <= i < |len| ==> len[i] <= t.desc.maxLength
      requires AssignedTo(t.dl[..], t.desc.elems, merges, len, h)
      modifies t.dl
      ensures n == NodeAt(merges, h) && n < |len| && bits == len[n]
      ensures AssignedTo(t.dl[..], t.desc.elems, merges, len, h + 1)
      ensures n < t.dl.Length && t.dl[..] == old(t.dl[..])[n := bits]
      ensures over == if len[t.desc.elems + (HEAP_SIZE - 1 - h) / 2] == t.desc.maxLength then 1 else 0
    {
      hide Live, AssignedTo, Lengths, ValidRun, NodeAt;
      NodeHere(heap[..], merges, h);
      FatherAssigned(leaves, t.desc.elems, merges, t.dl[..], len, t.desc.maxLength, h);
      AssignOne(leaves, t.desc.elems, merges, t.dl[..], len, h);
      n := heap[h];
      bits := t.dl[t.dl[n]] + 1;
      over := 0;
      if bits > t.desc.maxLength {
        bits := t.desc.maxLength;
        over := 1;
      }
      t.dl[n] := bits;
      assert t.dl[..] == old(t.dl[..])[n := len[n]];
    }

    /** Counts a leaf and adds up what it costs. */
    method Tally(t: Tree, n: nat, bits: nat, ghost len: seq<nat>, ghost done: set<nat>, ghost opt0: int, ghost static0: int)
      requires Valid() && t.Valid() && Apart(t) && n < t.desc.elems <= |len| && n !in done
      requires bits == len[n] && 1 <= bits <= MAX_BITS
      requires Counted(blCount[..], done, len, t.desc.elems)
      requires Sized(t, t.fc[..], len, done, opt0, static0)
      modifies this`optLen, this`staticLen, blCount
      ensures Counted(blCount[..], done + {n}, len, t.desc.elems)
      ensures Sized(t, t.fc[..], len, done + {n}, opt0, static0)
    {
      hide Counted, Total;
      CountOne(blCount[..], done, len, t.desc.elems, n);
      TotalAdd(done, OptCosts(t.desc, t.fc[..], len), n);
      TotalAdd(done, StaticCosts(t.desc, t.fc[..]), n);
      blCount[bits] := blCount[bits] + 1;
      assert blCount[..] == old(blCount[..])[bits := old(blCount[bits]) + 1];
      var xbits := 0;
      if n >= t.desc.extraBase {
        xbits := t.desc.extraBits[n - t.desc.extraBase];
      }
      var f := t.fc[n];
      optLen := optLen + f * (bits + xbits);
      if t.desc.staticLens.Some? {
        staticLen := staticLen + f * (t.desc.staticLens.value[n] + xbits);
      }
    }

    method AssignNode(t: Tree, h: nat, ghost leaves: set<nat>, ghost merges: seq<Merge>, ghost len: seq<nat>,
                      ghost done: set<nat>, ghost opt0: int, ghost static0: int)
      returns (over: nat, ghost more: set<nat>)
      requires Valid() && t.Valid() && Apart(t) && LaidOut(heap[..], merges)
      requires ValidRun(leaves, t.desc.elems, merges) && |leaves| == |merges| + 1
      requires leaves == LeafSet(t.fc[..], t.desc.elems) && LastLeaf(t.fc[..], t.desc.elems, t.maxCode)
      requires HEAP_SIZE - 2 * |merges| <= h < HEAP_SIZE
      requires |len| == t.desc.elems + |merges| && Lengths(t.desc.elems, merges, len, t.desc.maxLength)
      requires forall i :: 0 <= i < |len| ==> len[i] <= t.desc.maxLength
      requires AssignedTo(t.dl[..], t.desc.elems, merges, len, h) && LeavesTo(done, leaves, merges, h)
      requires Counted(blCount[..], done, len, t.desc.elems)
      requires Sized(t, t.fc[..], len, done, opt0, static0)
      modifies this`optLen, this`staticLen, blCount, t.dl
      ensures AssignedTo(t.dl[..], t.desc.elems, merges, len, h + 1) && LeavesTo(more, leaves, merges, h + 1)
      ensures Counted(blCount[..], more, len, t.desc.elems)
      ensures Sized(t, t.fc[..], len, more, opt0, static0)
      ensures over == if len[t.desc.elems + (HEAP_SIZE - 1 - h) / 2] == t.desc.maxLength then 1 else 0
      ensures forall x :: 0 <= x < t.desc.elems && x !in leaves ==> t.dl[x] == old(t.dl[x])
    {
      hide Live, AssignedTo, Lengths, ValidRun, LeafSet, Counted, LeavesTo, LastLeaf, NodeAt, Sized, Total;
      more := done;
      LeafOrNode(leaves, t.desc.elems, merges, t.fc[..], t.maxCode, NodeAt(merges, h), h);
      LeafReached(leaves, t.desc.elems, merges, done, h);
      LeafLengths(leaves, t.desc.elems, merges, len, t.desc.maxLength);
      var n, bits;
      n, bits, over := SetLength(t, h, leaves, merges, len);
      if n > t.maxCode {
        return;
      }
      Tally(t, n, bits, len, done, opt0, static0);
      more := done + {n};
    }

    /** First pass of `gen_bitlen`: every node one longer than its father, unless
        that is too long. */
    method AssignLengths(t: Tree, ghost leaves: set<nat>, ghost merges: seq<Merge>, ghost len: seq<nat>)
      returns (overflow: nat)
      requires Valid() && t.Valid() && Apart(t) && TreeBuilt(t, leaves, merges)
      requires leaves == LeafSet(t.fc[..], t.desc.elems) && LastLeaf(t.fc[..], t.desc.elems, t.maxCode)
      requires |len| == t.desc.elems + |merges| && Lengths(t.desc.elems, merges, len, t.desc.maxLength)
      requires forall i :: 0 <= i < |len| ==> len[i] <= t.desc.maxLength
      modifies this`optLen, this`staticLen, blCount, t.dl
      ensures forall x :: x in leaves ==> x < t.desc.elems && t.dl[x] == len[x]
      ensures forall x :: 0 <= x < t.desc.elems && x !in leaves ==> t.dl[x] == old(t.dl[x])
      ensures Counted(blCount[..], leaves, len, t.desc.elems)
      ensures Sized(t, t.fc[..], len, leaves, old(optLen), old(staticLen))
      ensures overflow == 2 * Clipped(t.desc.elems, len, t.desc.maxLength, 0)
    {
      hide LeafSet, Live, Total, Counted, AssignedTo, LeavesTo, Overflow, Lengths, Clipped, Sized, LastLeaf;
      ghost var f, elems, top := t.fc[..], t.desc.elems, t.desc.maxLength;
      ClearCounts(len, elems);
      StartPass(leaves, elems, merges, t.dl[..], len, top);
      NothingSized(t, f, len);
      var root := heap[heapMax];
      t.dl[root] := 0;
      assert t.dl[..] == old(t.dl[..])[root := 0];
      overflow := 0;
      ghost var done: set<nat> := {};
      var h := heapMax + 1;
      OverflowStep(elems, merges, len, top, h);
      while h < HEAP_SIZE
        invariant HEAP_SIZE - 2 * |merges| <= h <= HEAP_SIZE
        invariant AssignedTo(t.dl[..], elems, merges, len, h) && LeavesTo(done, leaves, merges, h)
        invariant forall x :: 0 <= x < elems && x !in leaves ==> t.dl[x] == old(t.dl[x])
        invariant Counted(blCount[..], done, len, elems)
        invariant Sized(t, f, len, done, old(optLen), old(staticLen))
        invariant overflow == Overflow(elems, merges, len, top, h)
      {
        OverflowStep(elems, merges, len, top, h);
        var over;
        over, done := AssignNode(t, h, leaves, merges, len, done, old(optLen), old(staticLen));
        overflow := overflow + over;
        h := h + 1;
      }
      EndPass(leaves, elems, merges, t.dl[..], len, top, done);
    }

    lemma NothingSized(t: Tree, f: seq<nat>, len: seq<nat>)
      requires t.desc.elems <= |f| && t.desc.elems <= |len|
      ensures Sized(t, f, len, {}, optLen, staticLen)
    {
      SumEmpty(OptCosts(t.desc, f, len), t.desc.elems);
      SumEmpty(StaticCosts(t.desc, f), t.desc.elems);
    }

    /** Moves leaves down until the counts are those of a complete code. */
    method RepairCounts(maxLength: nat, overflow0: nat)
      requires Valid() && 1 <= maxLength <= MAX_BITS && overflow0 % 2 == 0 && overflow0 > 0
      requires UsedOf(blCount[..], maxLength) == Pow2(maxLength) + overflow0 / 2
      requires blCount[maxLength] > overflow0 / 2 && SumCounts(blCount[..], maxLength) < Pow2(maxLength)
      modifies blCount
      ensures UsedOf(blCount[..], maxLength) == Pow2(maxLength) && blCount[maxLength] > 0
      ensures SumCounts(blCount[..], maxLength) == old(SumCounts(blCount[..], maxLength))
      ensures forall b :: (b == 0 || maxLength < b <= MAX_BITS) ==> blCount[b] == old(blCount[b])
    {
      hide UsedOf, SumCounts, Pow2;
      var overflow: int := overflow0;
      while overflow > 0
        invariant overflow % 2 == 0 && overflow >= 0
        invariant UsedOf(blCount[..], maxLength) == Pow2(maxLength) + overflow / 2
        invariant blCount[maxLength] > overflow / 2
        invariant SumCounts(blCount[..], maxLength) == old(SumCounts(blCount[..], maxLength))
        invariant forall b :: (b == 0 || maxLength < b <= MAX_BITS) ==> blCount[b] == old(blCount[b])
      {
        ghost var c := blCount[..];
        ghost var some := SomeShorter(c, maxLength);
        var bits := maxLength - 1;
        while blCount[bits] == 0
          invariant some <= bits < maxLength
          decreases bits
        {
          bits := bits - 1;
        }
        RepairStep(c, bits, maxLength);
        blCount[bits] := blCount[bits] - 1;
        blCount[bits + 1] := blCount[bits + 1] + 2;
        blCount[maxLength] := blCount[maxLength] - 1;
        assert blCount[..] == Repaired(c, bits, maxLength);
        overflow := overflow - 2;
      }
    }

    /** Gives length `bits` to as many leaves, from position h downwards, as have
        that length. */
    method DealLength(t: Tree, bits: nat, h0: nat, ghost leaves: set<nat>, ghost merges: seq<Merge>, ghost done0: set<nat>)
      returns (h: nat, ghost done: set<nat>)
      requires Valid() && t.Valid() && Apart(t) && LaidOut(heap[..], merges) && merges != [] && 2 * |merges| < HEAP_SIZE
      requires ValidRun(leaves, t.desc.elems, merges) && |leaves| == |merges| + 1
      requires leaves == LeafSet(t.fc[..], t.desc.elems) && LastLeaf(t.fc[..], t.desc.elems, t.maxCode)
      requires SumCounts(blCount[..], t.desc.maxLength) == |leaves|
      requires forall b :: t.desc.maxLength < b <= MAX_BITS ==> blCount[b] == 0
      requires 0 < bits <= t.desc.maxLength && HEAP_SIZE - 2 * |merges| <= h0 <= HEAP_SIZE
      requires LeavesFrom(done0, leaves, merges, h0)
      requires Dealt(blCount[..], done0, t.dl[..], t.desc.elems, bits, blCount[bits])
      modifies this`optLen, t.dl
      ensures HEAP_SIZE - 2 * |merges| <= h <= HEAP_SIZE && LeavesFrom(done, leaves, merges, h)
      ensures Dealt(blCount[..], done, t.dl[..], t.desc.elems, bits, 0)
      ensures forall x :: 0 <= x < t.desc.elems && x !in leaves ==> t.dl[x] == old(t.dl[x])
      ensures optLen - Total(leaves, OptCosts(t.desc, t.fc[..], t.dl[..]))
           == old(optLen - Total(leaves, OptCosts(t.desc, t.fc[..], t.dl[..])))
    {
      hide LeafSet, LastLeaf, Live, ValidRun, Total, LaidOut, Dealt, LeavesFrom, SumCounts, OptCosts, NodeAt;
      ghost var elems := t.desc.elems;
      h, done := h0, done0;
      var n := blCount[bits];
      while n != 0
        invariant HEAP_SIZE - 2 * |merges| <= h <= HEAP_SIZE && LeavesFrom(done, leaves, merges, h)
        invariant n >= 0 && Dealt(blCount[..], done, t.dl[..], elems, bits, n)
        invariant forall x :: 0 <= x < elems && x !in leaves ==> t.dl[x] == old(t.dl[x])
        invariant optLen - Total(leaves, OptCosts(t.desc, t.fc[..], t.dl[..]))
               == old(optLen - Total(leaves, OptCosts(t.desc, t.fc[..], t.dl[..])))
        decreases h
      {
        LeavesLeft(blCount[..], done, t.dl[..], elems, bits, n, t.desc.maxLength);
        MoreLeaves(leaves, elems, merges, done, h);
        h := h - 1;
        var m := heap[h];
        NodeHere(heap[..], merges, h);
        LeafOrNode(leaves, elems, merges, t.fc[..], t.maxCode, m, h);
        LeafReachedDown(leaves, elems, merges, done, h);
        if m > t.maxCode {
          continue;
        }
        DealOne(blCount[..], done, t.dl[..], elems, bits, n, m);
        DealTo(t, m, bits, leaves);
        done := done + {m};
        n := n - 1;
      }
    }

    method DealTo(t: Tree, m: nat, bits: nat, ghost leaves: set<nat>)
      requires t.Valid() && m < t.desc.elems && m in leaves
      modifies this`optLen, t.dl
      ensures t.dl[..] == old(t.dl[..])[m := bits]
      ensures optLen - Total(leaves, OptCosts(t.desc, t.fc[..], t.dl[..]))
           == old(optLen - Total(leaves, OptCosts(t.desc, t.fc[..], t.dl[..])))
    {
      hide Total, OptCosts;
      CostChange(t.desc, t.fc[..], leaves, t.dl[..], m, bits);
      ghost var dl := t.dl[..][m := bits];
      if t.dl[m] != bits {
        optLen := optLen + (bits - t.dl[m]) * t.fc[m];
        t.dl[m] := bits;
      }
      assert t.dl[..] == dl;
    }

    /** Deals out the repaired lengths, the longest to the least frequent leaves. */
    method Reassign(t: Tree, ghost leaves: set<nat>, ghost merges: seq<Merge>)
      requires Valid() && t.Valid() && Apart(t) && LaidOut(heap[..], merges) && merges != [] && 2 * |merges| < HEAP_SIZE
      requires ValidRun(leaves, t.desc.elems, merges) && |leaves| == |merges| + 1
      requires leaves == LeafSet(t.fc[..], t.desc.elems) && LastLeaf(t.fc[..], t.desc.elems, t.maxCode)
      requires SumCounts(blCount[..], t.desc.maxLength) == |leaves| && blCount[0] == 0
      requires forall b :: t.desc.maxLength < b <= MAX_BITS ==> blCount[b] == 0
      modifies this`optLen, t.dl
      ensures Dealt(blCount[..], leaves, t.dl[..], t.desc.elems, 0, 0)
      ensures forall x :: 0 <= x < t.desc.elems && x !in leaves ==> t.dl[x] == old(t.dl[x])
      ensures optLen - Total(leaves, OptCosts(t.desc, t.fc[..], t.dl[..]))
           == old(optLen - Total(leaves, OptCosts(t.desc, t.fc[..], t.dl[..])))
    {
      hide LeafSet, LastLeaf, Live, ValidRun, Total, LaidOut, Dealt, LeavesFrom, SumCounts, OptCosts, NodeAt;
      ghost var c, elems := blCount[..], t.desc.elems;
      ghost var done: set<nat> := {};
      var h := HEAP_SIZE;
      var bits := t.desc.maxLength;
      StartDealing(c, t.dl[..], elems, bits);
      NoneDone(leaves, merges);
      while bits != 0
        invariant 0 <= bits <= t.desc.maxLength && HEAP_SIZE - 2 * |merges| <= h <= HEAP_SIZE
        invariant LeavesFrom(done, leaves, merges, h)
        invariant Dealt(c, done, t.dl[..], elems, bits, c[bits])
        invariant bits == 0 ==> done == leaves
        invariant forall x :: 0 <= x < elems && x !in leaves ==> t.dl[x] == old(t.dl[x])
        invariant optLen - Total(leaves, OptCosts(t.desc, t.fc[..], t.dl[..]))
               == old(optLen - Total(leaves, OptCosts(t.desc, t.fc[..], t.dl[..])))
      {
        h, done := DealLength(t, bits, h, leaves, merges, done);
        LeavesLeft(c, done, t.dl[..], elems, bits, 0, t.desc.maxLength);
        NextLength(c, done, t.dl[..], elems, bits);
        if bits == 1 {
          AllDone(done, leaves, merges, h);
        }
        bits := bits - 1;
      }
    }

    /** The first half: the lengths that the tree gives, cut off where they are too
        long, and what their counts are then. */
    method FirstLengths(t: Tree, ghost leaves: set<nat>, ghost merges: seq<Merge>) returns (overflow: nat)
      requires Valid() && t.Valid() && Apart(t) && TreeBuilt(t, leaves, merges)
      requires leaves == LeafSet(t.fc[..], t.desc.elems) && LastLeaf(t.fc[..], t.desc.elems, t.maxCode)
      modifies this`optLen, this`staticLen, blCount, t.dl
      ensures Sized(t, t.fc[..], t.dl[..], leaves, old(optLen), old(staticLen))
      ensures forall x :: 0 <= x < t.desc.elems && x !in leaves ==> t.dl[x] == old(t.dl[x])
      ensures LaidOut(heap[..], merges) && merges != [] && ValidRun(leaves, t.desc.elems, merges)
      ensures overflow == 2 * CutOff(leaves, t.desc.elems, merges, t.desc.maxLength)
      ensures UsedOf(blCount[..], t.desc.maxLength) == Pow2(t.desc.maxLength) + overflow / 2
      ensures SumCounts(blCount[..], t.desc.maxLength) == |leaves| && blCount[0] == 0
      ensures overflow > 0 ==> blCount[t.desc.maxLength] > overflow / 2
      ensures forall b :: t.desc.maxLength < b <= MAX_BITS ==> blCount[b] == 0
      ensures overflow == 0 ==> CompleteLengths(blCount[..], leaves, t.dl[..], t.desc.elems, t.desc.maxLength)
      ensures overflow == 0 ==> Optimal(leaves, t.fc[..t.desc.elems], t.dl[..t.desc.elems])
    {
      hide LeafSet, LastLeaf, Live, Total, Counted, Optimal, CompleteLengths, OptCosts, StaticCosts, Lengths,
        Greedy, Weighted, ValidRun, Clipped, UsedOf, SumCounts, Pow2, TreeLens, Fathers, Sum;
      ghost var elems, top := t.desc.elems, t.desc.maxLength;
      ghost var w := t.fc[..elems + |merges|];
      ghost var len := TreeLens(leaves, elems, merges, top);
      overflow := AssignLengths(t, leaves, merges, len);
      FirstPass(leaves, elems, merges, len, top, blCount[..], t.dl[..], w);
      SameCosts(t.desc, t.fc[..], leaves, len, t.dl[..]);
      assert w[..elems] == t.fc[..elems];
    }

    /** The second half, for when some node was cut off. */
    method RepairLengths(t: Tree, overflow: nat, ghost leaves: set<nat>, ghost merges: seq<Merge>)
      requires Valid() && t.Valid() && Apart(t) && LaidOut(heap[..], merges) && merges != []
      requires ValidRun(leaves, t.desc.elems, merges) && |leaves| == |merges| + 1 <= t.desc.elems
      requires leaves == LeafSet(t.fc[..], t.desc.elems) && LastLeaf(t.fc[..], t.desc.elems, t.maxCode)
      requires overflow > 0 && overflow % 2 == 0 && UsedOf(blCount[..], t.desc.maxLength) == Pow2(t.desc.maxLength) + overflow / 2
      requires SumCounts(blCount[..], t.desc.maxLength) == |leaves| && blCount[0] == 0
      requires blCount[t.desc.maxLength] > overflow / 2 && forall b :: t.desc.maxLength < b <= MAX_BITS ==> blCount[b] == 0
      modifies this`optLen, blCount, t.dl
      ensures CompleteLengths(blCount[..], leaves, t.dl[..], t.desc.elems, t.desc.maxLength)
      ensures exists x :: x in leaves && x < t.desc.elems && t.dl[x] == t.desc.maxLength
      ensures forall x :: 0 <= x < t.desc.elems && x !in leaves ==> t.dl[x] == old(t.dl[x])
      ensures optLen - Total(leaves, OptCosts(t.desc, t.fc[..], t.dl[..]))
           == old(optLen - Total(leaves, OptCosts(t.desc, t.fc[..], t.dl[..])))
    {
      hide LeafSet, LastLeaf, Live, Total, CompleteLengths, OptCosts, ValidRun, UsedOf, SumCounts, Pow2, Dealt, Sum;
      assert |leaves| < Pow2(t.desc.maxLength) by { Pow2Values(); }
      RepairCounts(t.desc.maxLength, overflow);
      Reassign(t, leaves, merges);
      DealtComplete(blCount[..], leaves, t.dl[..], t.desc.elems, t.desc.maxLength);
      SomeLongest(blCount[..], leaves, t.dl[..], t.desc.elems, t.desc.maxLength);
    }

    /** `gen_bitlen`: lengths of a complete code for the leaves. `overflow` counts
        the sons of inner nodes that were cut off; without it the lengths are
        optimal, with it some symbol has the maximum length. */
    method GenBitlen(t: Tree, ghost leaves: set<nat>, ghost merges: seq<Merge>) returns (overflow: nat)
      requires Valid() && t.Valid() && Apart(t) && TreeBuilt(t, leaves, merges)
      requires leaves == LeafSet(t.fc[..], t.desc.elems) && LastLeaf(t.fc[..], t.desc.elems, t.maxCode)
      modifies this`optLen, this`staticLen, blCount, t.dl
      ensures CompleteLengths(blCount[..], leaves, t.dl[..], t.desc.elems, t.desc.maxLength)
      ensures Sized(t, t.fc[..], t.dl[..], leaves, old(optLen), old(staticLen))
      ensures forall x :: 0 <= x < t.desc.elems && x !in leaves ==> t.dl[x] == old(t.dl[x])
      ensures ValidRun(leaves, t.desc.elems, merges) && merges != []
      ensures overflow == 2 * CutOff(leaves, t.desc.elems, merges, t.desc.maxLength)
      ensures overflow == 0 ==> Optimal(leaves, t.fc[..t.desc.elems], t.dl[..t.desc.elems])
      ensures overflow > 0 ==> exists x :: x in leaves && x < t.desc.elems && t.dl[x] == t.desc.maxLength
    {
      hide LeafSet, LastLeaf, Total, Optimal, CompleteLengths, OptCosts, StaticCosts, ValidRun, GreedyRun, CutOff, UsedOf, SumCounts, Pow2, Fathers;
      overflow := FirstLengths(t, leaves, merges);
      if overflow > 0 {
        RepairLengths(t, overflow, leaves, merges);
      }
    }

    /** Everything up to the finished tree. */
    method GrowTree(t: Tree) returns (ghost merges: seq<Merge>)
      requires Valid() && t.Valid() && Apart(t)
      requires Total(LeafSet(t.fc[..], t.desc.elems), t.fc[..]) + 2 < U16
      modifies this, heap, depth, t, t.fc, t.dl
      ensures TreeBuilt(t, LeafSet(t.fc[..], t.desc.elems), merges)
      ensures Planted(t.desc, old(optLen), old(staticLen), old(t.fc[..t.desc.elems]),
                      optLen, staticLen, t.fc[..t.desc.elems], t.dl[..], t.maxCode)
    {
      hide LeafSet, LastLeaf, Total, Nodes, Forcing, GreedyRun, Planted;
      ghost var f0 := t.fc[..];
      CollectLeaves(t);
      ForceTwo(t);
      ghost var f := t.fc[..];
      ghost var leaves := LeafSet(f, t.desc.elems);
      FewForced(t.desc, old(optLen), old(staticLen), f0, optLen, staticLen, f, t.maxCode);
      merges := MergeAll(t, leaves);
      SameTotal(leaves, f, t.fc[..], t.desc.elems);
      PlantedNow(t.desc, old(optLen), old(staticLen), f0, optLen, staticLen, f, t.dl[..], t.maxCode);
    }

    /** Turns the lengths into codes. */
    method FinishTree(t: Tree, ghost f0: seq<nat>, ghost opt0: int, ghost static0: int, ghost opt1: int, ghost static1: int,
                      ghost f: seq<nat>)
      requires Valid() && t.Valid() && Apart(t) && |f| == |f0| == t.desc.elems
      requires Planted(t.desc, opt0, static0, f0, opt1, static1, f, t.dl[..], t.maxCode)
      requires CompleteLengths(blCount[..], LeafSet(f, t.desc.elems), t.dl[..], t.desc.elems, t.desc.maxLength)
      requires Sized(t, f, t.dl[..], LeafSet(f, t.desc.elems), opt1, static1)
      modifies t.fc
      ensures Built(t.desc, f0, t.fc[..], t.dl[..], t.maxCode)
      ensures Sized(t, f0, t.dl[..], LeafSet(f0, t.desc.elems), opt0, static0)
    {
      hide LeafSet, Planted, CompleteLengths, GoodLengths, OptCosts, StaticCosts, CodeSet, Count, Complete, Total;
      CodesReady(t.desc, opt0, static0, f0, opt1, static1, f, t.dl[..], t.maxCode, blCount[..]);
      FinalSizes(t.desc, opt0, static0, f0, opt1, static1, f, t.dl[..], t.maxCode, blCount[..]);
      GenCodes(t.fc, t.dl, blCount, t.maxCode);
    }

    /** `build_tree`: from frequencies to a complete prefix code, keeping track of
        the size of the block. The code is optimal if the tree had no length to be
        cut off, in particular if no symbol has the maximum length. */
    method BuildTree(t: Tree) returns (ghost merges: seq<Merge>)
      requires Valid() && t.Valid() && Apart(t)
      requires Total(LeafSet(t.fc[..], t.desc.elems), t.fc[..]) + 2 < U16
      modifies this, heap, depth, blCount, t, t.fc, t.dl
      ensures Built(t.desc, old(t.fc[..t.desc.elems]), t.fc[..], t.dl[..], t.maxCode)
      ensures Sized(t, old(t.fc[..t.desc.elems]), t.dl[..], LeafSet(old(t.fc[..t.desc.elems]), t.desc.elems),
                    old(optLen), old(staticLen))
      ensures Grown(t.desc, old(t.fc[..t.desc.elems]), t.dl[..], merges)
    {
      hide LeafSet, LastLeaf, Total, Planted, CompleteLengths, Optimal, GreedyRun, Built, OptCosts, StaticCosts, LaidOut, Fathers,
        CutOff, ValidRun, Grown;
      ghost var opt0, static0, f0 := optLen, staticLen, t.fc[..t.desc.elems];
      merges := GrowTree(t);
      ghost var opt1, static1, f := optLen, staticLen, t.fc[..t.desc.elems];
      FrontFacts(t.desc, opt0, static0, f0, opt1, static1, f, t.fc[..], t.dl[..], t.maxCode);
      ghost var dl := t.dl[..];
      ghost var w := t.fc[..t.desc.elems + |merges|];
      var overflow := GenBitlen(t, LeafSet(f, t.desc.elems), merges);
      assert w[..t.desc.elems] == f;
      OneSymbol(t.desc, opt0, static0, f0, opt1, static1, f, dl, t.dl[..], t.maxCode, blCount[..]);
      GrownNow(t.desc, f0, f, w, t.dl[..], merges, overflow);
      FrontCosts(t.desc, f, t.fc[..], t.dl[..]);
      StillPlanted(t.desc, opt0, static0, f0, opt1, static1, f, dl, t.dl[..], t.maxCode);
      FinishTree(t, f0, opt0, static0, opt1, static1, f);
    }
  }

  /** How the code came about. A single symbol has one bit. If at least two symbols
      occur, by a greedy run; if that had no length to be cut off the code is
      optimal, and so it is if no symbol has the maximum length. */
  ghost predicate Grown(desc: Desc, f0: seq<nat>, dl: seq<nat>, merges: seq<Merge>)
    requires |f0| == desc.elems <= |dl|
  {
    var leaves := LeafSet(f0, desc.elems);
    && (|leaves| == 1 ==> forall x :: x in leaves ==> dl[x] == 1)
    && (|leaves| >= 2 ==>
      && RunOf(leaves, desc.elems, f0, merges)
      && (Uncut(leaves, desc.elems, f0, merges, desc.maxLength) ==> Optimal(leaves, f0, dl[..desc.elems]))
      && ((forall x :: x in leaves ==> dl[x] < desc.maxLength) ==> Optimal(leaves, f0, dl[..desc.elems])))
  }

  /** If only one symbol occurs another is forced. */
  lemma OneSymbol(desc: Desc, opt0: int, static0: int, f0: seq<nat>, opt: int, static_: int, f: seq<nat>,
                  dl0: seq<nat>, dl: seq<nat>, maxCode: int, c: seq<nat>)
    requires |f0| == |f| == desc.elems <= |dl| && Planted(desc, opt0, static0, f0, opt, static_, f, dl0, maxCode)
    requires CompleteLengths(c, LeafSet(f, desc.elems), dl, desc.elems, desc.maxLength)
    ensures var leaves := LeafSet(f0, desc.elems);
            |leaves| == 1 ==> forall x :: x in leaves ==> dl[x] == 1
  {
    hide CompleteLengths;
    var leaves, leaves0 := LeafSet(f, desc.elems), LeafSet(f0, desc.elems);
    if |leaves0| == 1 {
      assert f != f0;
      forall x | x in leaves0
        ensures dl[x] == 1
      {
        assert x in leaves && |leaves| == 2;
        TwoSymbols(c, leaves, dl, desc.elems, desc.maxLength, x);
      }
    }
  }

  lemma GrownNow(desc: Desc, f0: seq<nat>, f: seq<nat>, w: seq<nat>, dl: seq<nat>, merges: seq<Merge>, overflow: nat)
    requires |f0| == |f| == desc.elems <= |dl| && desc.elems <= |w| && w[..desc.elems] == f
    requires |LeafSet(f0, desc.elems)| >= 2 ==> f == f0
    requires |LeafSet(f0, desc.elems)| == 1 ==> forall x :: x in LeafSet(f0, desc.elems) ==> dl[x] == 1
    requires var leaves := LeafSet(f, desc.elems);
             && GreedyRun(leaves, desc.elems, merges, w) && |leaves| == |merges| + 1
             && ValidRun(leaves, desc.elems, merges) && merges != []
             && overflow == 2 * CutOff(leaves, desc.elems, merges, desc.maxLength)
             && (overflow == 0 ==> Optimal(leaves, f, dl[..desc.elems]))
             && (overflow > 0 ==> exists x :: x in leaves && x < desc.elems && dl[x] == desc.maxLength)
    ensures Grown(desc, f0, dl, merges)
  {
    hide GreedyRun, ValidRun, CutOff, Optimal, LeafSet;
    if |LeafSet(f0, desc.elems)| >= 2 {
      assert f == f0;
    }
  }
}
