/** What a search along a hash chain comes across: all recent strings with the
    same key, the latest first. */
module ChainSearch {
  import opened Bits
  import opened Tokens
  import opened Hashing
  import opened Chains
  import opened Streams

  const TOO_FAR := 4096

  type u32 = n: nat | n < U32

  /** The difference of two unsigned 32-bit numbers. */
  function Sub32(a: nat, b: nat): (r: nat)
    ensures r < U32
  {
    (a - b) % U32
  }

  /** How hard to search. That what is sent can be read back does not depend on it. */
  datatype Level = Level(maxChainLength: u32, maxLazyMatch: u32, goodMatch: u32, niceMatch: u32)

  /** The strings tried: the chain from q, down to the limit, k links at most. */
  function Chain(prev: seq<Pos>, q: nat, limit: nat, k: nat): (r: seq<nat>)
    requires |prev| == WSIZE
    decreases q
  {
    var next := prev[q % WSIZE];
    if next <= limit || next >= q || Sub32(k, 1) == 0 then [q] else [q] + Chain(prev, next, limit, Sub32(k, 1))
  }

  lemma ChainStep(prev: seq<Pos>, q: nat, limit: nat, k: nat)
    requires |prev| == WSIZE
    ensures var next, c := prev[q % WSIZE], Chain(prev, q, limit, k);
            && c != [] && c[0] == q
            && c[1..] == if next <= limit || next >= q || Sub32(k, 1) == 0 then [] else Chain(prev, next, limit, Sub32(k, 1))
  {
  }

  /** No match of the string at p with the one `dist` before it is longer. */
  ghost predicate Beaten(w: seq<byte>, p: nat, dist: nat, len: nat)
  {
    forall n :: len < n <= MAX_MATCH ==> !MatchAt(w, p, dist, n)
  }

  ghost predicate AllBeaten(w: seq<byte>, p: nat, qs: seq<nat>, len: nat)
  {
    forall i :: 0 <= i < |qs| ==> qs[i] < p && Beaten(w, p, p - qs[i], len)
  }

  /** The first strings of the chain have been tried. */
  ghost predicate Tried(w: seq<byte>, p: nat, chain: seq<nat>, tried: seq<nat>, rest: seq<nat>, len: nat)
  {
    chain == tried + rest && AllBeaten(w, p, tried, len)
  }

  lemma NoneTried(w: seq<byte>, p: nat, chain: seq<nat>, len: nat)
    ensures Tried(w, p, chain, [], chain, len)
  {
  }

  lemma OneMoreTried(w: seq<byte>, p: nat, chain: seq<nat>, tried: seq<nat>, rest: seq<nat>, len: nat, len': nat)
    requires rest != [] && Tried(w, p, chain, tried, rest, len)
    requires len <= len' && rest[0] < p && Beaten(w, p, p - rest[0], len')
    ensures Tried(w, p, chain, tried + [rest[0]], rest[1..], len')
    ensures rest[1..] == [] ==> AllBeaten(w, p, chain, len')
  {
    forall i | 0 <= i < |tried|
      ensures tried[i] < p && Beaten(w, p, p - tried[i], len')
    {
      assert Beaten(w, p, p - tried[i], len);
    }
    hide Beaten;
  }

  lemma TriedSoFar(w: seq<byte>, p: nat, chain: seq<nat>, tried: seq<nat>, rest: seq<nat>, len: nat)
    requires Tried(w, p, chain, tried, rest, len)
    ensures AllBeaten(w, p, tried, len) && (rest != [] && rest[1..] == [] ==> tried + [rest[0]] == chain)
  {
  }

  /** The match starts at the latest of the strings tried that have one so long. */
  ghost predicate Nearest(w: seq<byte>, p: nat, qs: seq<nat>, at: nat, len: nat)
    requires len > 0
  {
    forall i :: 0 <= i < |qs| && qs[i] > at ==> qs[i] < p && Beaten(w, p, p - qs[i], len - 1)
  }

  /** A longer match than before: all strings tried before have none so long. */
  lemma NewNearest(w: seq<byte>, p: nat, tried: seq<nat>, q: nat, len: nat, len': nat)
    requires AllBeaten(w, p, tried, len) && len < len'
    ensures Nearest(w, p, tried + [q], q, len')
  {
    forall i | 0 <= i < |tried|
      ensures tried[i] < p && Beaten(w, p, p - tried[i], len' - 1)
    {
      assert Beaten(w, p, p - tried[i], len);
    }
    hide Beaten;
  }

  /** No longer match: the string is further away. */
  lemma StillNearest(w: seq<byte>, p: nat, tried: seq<nat>, q: nat, at: nat, len: nat)
    requires len > 0 && Nearest(w, p, tried, at, len) && q <= at
    ensures Nearest(w, p, tried + [q], at, len)
  {
    hide Beaten;
  }

  /** Strings on the same chain that agree in two bytes agree in three. */
  lemma SameThird(w: seq<byte>, q: nat, p: nat)
    requires p + 2 < |w| && q != 0 && Earlier(w, q, p) && w[q] == w[p] && w[q + 1] == w[p + 1]
    ensures w[q + 2] == w[p + 2]
  {
    ThirdByte(w[p], w[p + 1], w[q + 2], w[p + 2]);
  }

  /** Following a link stays on the chain of the current string. */
  lemma NextLink(w: seq<byte>, head: seq<Pos>, prev: seq<Pos>, q: nat, p: nat)
    requires Chained(w, head, prev, p + 1) && p < WINDOW_SIZE && p + 2 < |w|
    requires q != 0 && Earlier(w, q, p) && p - q <= MAX_DIST
    ensures q < p && |prev| == WSIZE && Earlier(w, prev[q % WSIZE], p)
    ensures prev[q % WSIZE] < q || prev[q % WSIZE] == 0
  {
    hide Key;
    assert Latest(w, prev[q % WSIZE], q);
  }

  // ----- the chain misses nothing -----

  /** How many strings from lo on and before hi have the key h. */
  ghost function CountKeys(w: seq<byte>, lo: nat, hi: nat, h: nat): nat
    requires hi + 2 <= |w|
    decreases hi
  {
    if hi <= lo then 0 else CountKeys(w, lo, hi - 1, h) + (if Key(w, hi - 1) == h then 1 else 0)
  }

  lemma {:induction false} CountSplits(w: seq<byte>, lo: nat, mid: nat, hi: nat, h: nat)
    requires lo <= mid <= hi && hi + 2 <= |w|
    ensures CountKeys(w, lo, hi, h) == CountKeys(w, lo, mid, h) + CountKeys(w, mid, hi, h)
    decreases hi
  {
    hide Key;
    if mid < hi {
      CountSplits(w, lo, mid, hi - 1, h);
    }
  }

  /** How many strings are tried: with 0 the counter wraps around. */
  function TriesOf(k: nat): nat
  {
    if k == 0 then U32 else k
  }

  /** A string with the same key, not too far away and with few enough such strings
      in between, is on the chain. */
  lemma {:induction false} ChainHas(w: seq<byte>, head: seq<Pos>, prev: seq<Pos>, n: nat, p: nat, h: nat, limit: nat, k: nat, q: nat)
    requires Chained(w, head, prev, n) && p <= n && p + 2 < |w| && h < n && n <= limit + WSIZE && k < U32
    requires h != 0 && Latest(w, h, p) && 0 < q < p && (q == h || q > limit) && Key(w, q) == Key(w, p)
    requires CountKeys(w, q + 1, p, Key(w, p)) < TriesOf(k)
    ensures q in Chain(prev, h, limit, k)
    decreases h
  {
    hide Key, Chain, Chained, CountKeys;
    ChainedSizes(w, head, prev, n);
    ChainStep(prev, h, limit, k);
    var c := Chain(prev, h, limit, k);
    if q != h {
      LinkLatest(w, head, prev, n, h);
      var next := prev[h % WSIZE];
      CountSplits(w, q + 1, h, p, Key(w, p));
      OneAt(w, h, p, Key(w, p));
      ChainHas(w, head, prev, n, h, next, limit, Sub32(k, 1), q);
      assert q in c[1..];
    }
    assert c[0] == h;
  }

  lemma ChainedSizes(w: seq<byte>, head: seq<Pos>, prev: seq<Pos>, n: nat)
    requires Chained(w, head, prev, n)
    ensures |prev| == WSIZE && n + 2 <= |w|
  {
  }

  lemma LinkLatest(w: seq<byte>, head: seq<Pos>, prev: seq<Pos>, n: nat, h: nat)
    requires Chained(w, head, prev, n) && h < n <= h + WSIZE && h + 2 < |w|
    ensures |prev| == WSIZE && Latest(w, prev[h % WSIZE], h)
  {
    hide Latest;
  }

  lemma {:induction false} OneAt(w: seq<byte>, h: nat, p: nat, key: nat)
    requires h < p && p + 2 <= |w| && Key(w, h) == key
    ensures CountKeys(w, h, p, key) >= 1
    decreases p
  {
    hide Key;
    if h < p - 1 {
      OneAt(w, h, p - 1, key);
    }
  }
}
