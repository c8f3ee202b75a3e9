/** The hash chains over the window: `head` holds the latest position of every
    key, `prev` links each of the last WSIZE positions to the one before it with
    the same key, and 0 ends a chain. */
module Chains {
  import opened Bits
  import opened Config
  import opened Tokens
  import opened Hashing

  const WSIZE := 0x8000
  const WINDOW_SIZE := 2 * WSIZE
  const MIN_LOOKAHEAD := MAX_MATCH + MIN_MATCH + 1
  const MAX_DIST := WSIZE - MIN_LOOKAHEAD

  /** A window index, kept in 16 bits. */
  type Pos = n: nat | n < 0x10000

  /** The key of the string at p. */
  function Key(w: seq<byte>, p: nat): (r: nat)
    requires p + 2 < |w|
    ensures r < HASH_SIZE
  {
    Hash3(w[p], w[p + 1], w[p + 2])
  }

  /** A position on the chain of p's key, or the end of the chain. */
  ghost predicate Earlier(w: seq<byte>, q: nat, p: nat)
    requires p + 2 < |w|
  {
    q == 0 || (q < p && Key(w, q) == Key(w, p))
  }

  /** No string behind q and before p has the key h. */
  ghost predicate NoneBetween(w: seq<byte>, q: nat, p: nat, h: nat)
    requires p + 2 <= |w|
  {
    forall r :: q < r < p ==> Key(w, r) != h
  }

  /** The chain of key h starts at the latest inserted string with that key, or is
      empty if there is none but maybe that at 0. */
  ghost predicate HeadOk(w: seq<byte>, q: nat, h: nat, n: nat)
    requires n + 2 <= |w|
  {
    && (q == 0 || (q < n && Key(w, q) == h))
    && NoneBetween(w, q, n, h)
  }

  /** The latest position before p with the same key, or the end of the chain. */
  ghost predicate Latest(w: seq<byte>, q: nat, p: nat)
    requires p + 2 < |w|
  {
    Earlier(w, q, p) && NoneBetween(w, q, p, Key(w, p))
  }

  /** All positions below n have been inserted: each links to the latest before it
      with the same key. */
  ghost predicate Chained(w: seq<byte>, head: seq<Pos>, prev: seq<Pos>, n: nat)
  {
    && n + 2 <= |w| && |head| == HASH_SIZE && |prev| == WSIZE
    && (forall h :: 0 <= h < HASH_SIZE ==> HeadOk(w, head[h], h, n))
    && (forall p :: 0 <= p < n && n - WSIZE <= p ==> Latest(w, prev[p % WSIZE], p))
  }

  lemma PlacesDiffer(p: nat, n: nat)
    requires p < n < p + WSIZE
    ensures p % WSIZE != n % WSIZE
  {
  }

  /** `INSERT_STRING` keeps the chains. */
  lemma Inserted(w: seq<byte>, head: seq<Pos>, prev: seq<Pos>, n: Pos)
    requires Chained(w, head, prev, n) && n + 2 < |w|
    ensures Chained(w, head[Key(w, n) := n], prev[n % WSIZE := head[Key(w, n)]], n + 1)
    ensures HeadOk(w, head[Key(w, n)], Key(w, n), n)
  {
    hide Key;
    var k := Key(w, n);
    var head', prev' := head[k := n], prev[n % WSIZE := head[k]];
    forall p | 0 <= p < n + 1 && n + 1 - WSIZE <= p
      ensures Latest(w, prev'[p % WSIZE], p)
    {
      if p < n {
        PlacesDiffer(p, n);
        assert Latest(w, prev[p % WSIZE], p);
      } else {
        assert HeadOk(w, head[k], k, n);
      }
    }
    forall h | 0 <= h < HASH_SIZE
      ensures HeadOk(w, head'[h], h, n + 1)
    {
      assert HeadOk(w, head[h], h, n);
    }
  }

  /** What becomes of a position when the upper half of the window moves down. */
  function Slid(q: Pos): Pos
  {
    if q >= WSIZE then q - WSIZE else 0
  }

  /** The window, in so far as the n inserted strings reach into it, has moved down. */
  ghost predicate MovedDown(w: seq<byte>, w': seq<byte>, n: nat)
  {
    && |w'| == |w| && WSIZE <= n && n + 2 <= |w|
    && forall i :: WSIZE <= i < n + 2 ==> w'[i - WSIZE] == w[i]
  }

  /** Moving the window down keeps the chains, less what has become too old. */
  lemma SlideKeeps(w: seq<byte>, head: seq<Pos>, prev: seq<Pos>, n: nat,
                   w': seq<byte>, head': seq<Pos>, prev': seq<Pos>)
    requires Chained(w, head, prev, n) && MovedDown(w, w', n)
    requires |head'| == |head| && forall h :: 0 <= h < HASH_SIZE ==> head'[h] == Slid(head[h])
    requires |prev'| == |prev| && forall i :: 0 <= i < WSIZE ==> prev'[i] == Slid(prev[i])
    ensures Chained(w', head', prev', n - WSIZE)
  {
    forall h | 0 <= h < HASH_SIZE
      ensures HeadOk(w', head'[h], h, n - WSIZE)
    {
      assert HeadOk(w, head[h], h, n);
      if head[h] >= WSIZE {
        KeyMoves(w, w', n, head[h]);
      }
      GapMoves(w, w', n, head[h], n, h);
    }
    forall p | 0 <= p < n - WSIZE && n - WSIZE - WSIZE <= p
      ensures Latest(w', prev'[p % WSIZE], p)
    {
      var q := prev[(p + WSIZE) % WSIZE];
      assert (p + WSIZE) % WSIZE == p % WSIZE;
      assert Latest(w, q, p + WSIZE);
      KeyMoves(w, w', n, p + WSIZE);
      if q >= WSIZE {
        KeyMoves(w, w', n, q);
      }
      GapMoves(w, w', n, q, p + WSIZE, Key(w, p + WSIZE));
    }
  }

  /** Where no string had a key none has it afterwards. */
  lemma GapMoves(w: seq<byte>, w': seq<byte>, n: nat, q: Pos, p: nat, h: nat)
    requires MovedDown(w, w', n) && WSIZE <= p <= n && NoneBetween(w, q, p, h)
    ensures NoneBetween(w', Slid(q), p - WSIZE, h)
  {
    hide Key;
    forall r | Slid(q) < r < p - WSIZE
      ensures Key(w', r) != h
    {
      KeyMoves(w, w', n, r + WSIZE);
      assert q < r + WSIZE < p;
    }
  }

  lemma KeyMoves(w: seq<byte>, w': seq<byte>, n: nat, p: nat)
    requires MovedDown(w, w', n) && WSIZE <= p < n
    ensures Key(w', p - WSIZE) == Key(w, p)
  {
  }

  /** The chains do not depend on bytes behind the last string. */
  lemma ChainsKept(w: seq<byte>, w': seq<byte>, head: seq<Pos>, prev: seq<Pos>, n: nat)
    requires Chained(w, head, prev, n) && |w'| == |w|
    requires n > 0 ==> w'[..n + 2] == w[..n + 2]
    ensures Chained(w', head, prev, n)
  {
    if n > 0 {
      forall p | 0 <= p < n
        ensures Key(w', p) == Key(w, p)
      {
        assert w'[p] == w'[..n + 2][p] && w'[p + 1] == w'[..n + 2][p + 1] && w'[p + 2] == w'[..n + 2][p + 2];
      }
      forall h | 0 <= h < HASH_SIZE
        ensures HeadOk(w', head[h], h, n)
      {
        assert HeadOk(w, head[h], h, n);
      }
      forall p | 0 <= p < n && n - WSIZE <= p
        ensures Latest(w', prev[p % WSIZE], p)
      {
        assert Latest(w, prev[p % WSIZE], p);
      }
    } else {
      forall h | 0 <= h < HASH_SIZE
        ensures HeadOk(w', head[h], h, 0)
      {
        assert HeadOk(w, head[h], h, 0);
      }
    }
  }

  /** The loops of `fill_window` over one of the two tables. */
  method SlideTable(a: array<Pos>)
    modifies a
    ensures forall i :: 0 <= i < a.Length ==> a[i] == Slid(old(a[i]))
  {
    var n := 0;
    while n < a.Length
      invariant 0 <= n <= a.Length
      invariant forall i :: 0 <= i < n ==> a[i] == Slid(old(a[i]))
      invariant forall i :: n <= i < a.Length ==> a[i] == old(a[i])
    {
      var m := a[n];
      a[n] := if m >= WSIZE then m - WSIZE else 0;
      n := n + 1;
    }
  }
}
