/** What `deflate` makes of the input, told by the input alone: the search at each
    position, and the tokens that follow from what the searches find. */
module LazyParse {
  import opened Bits
  import opened Tokens
  import opened Hashing
  import opened Chains
  import opened ChainSearch
  import opened Streams

  // ----- one search -----

  /** A string that the search at pos has to try: it has the same key, it is near
      enough, and there are few enough such strings in between. The first string
      of each half of the window is never tried. */
  ghost predicate Candidate(data: seq<byte>, pos: nat, q: nat, k: nat)
  {
    && pos + 2 < |data| && q < pos && q % WSIZE != 0 && Key(data, q) == Key(data, pos)
    && CountKeys(data, q + 1, pos, Key(data, pos)) < TriesOf(k)
    && pos - q <= MAX_DIST && (pos - q == MAX_DIST ==> CountKeys(data, q + 1, pos, Key(data, pos)) == 0)
  }

  /** The index a chain must stay above. */
  function Limit(p: nat): nat
  {
    if p > MAX_DIST then p - MAX_DIST else 0
  }

  /** How many links are followed when a match of length `before` is known. */
  function TriesAt(level: Level, before: nat): u32
  {
    if before >= level.goodMatch then level.maxChainLength / 4 else level.maxChainLength
  }

  /** What a search finds; it counts if it is longer than what is known, and long enough. */
  datatype Turn = Turn(len: nat, dist: nat)

  /** No string that has to be tried has a longer match, than what is known or what is
      found; but for matches of three bytes that are too far away. */
  ghost predicate Longest(data: seq<byte>, pos: nat, before: nat, len: nat, k: nat)
  {
    forall q: nat :: q < pos && Candidate(data, pos, q, k) ==> NoLonger(data, pos, pos - q, before, len)
  }

  ghost predicate NoLonger(data: seq<byte>, pos: nat, dist: nat, before: nat, len: nat)
  {
    forall n: nat :: n <= MAX_MATCH && MatchAt(data, pos, dist, n) ==>
      n <= before || n <= len || (n == MIN_MATCH && dist > TOO_FAR)
  }

  /** The search stops early at a match that is nice enough. */
  predicate Nice(before: nat, len: nat, level: Level)
  {
    len > before && len >= level.niceMatch
  }

  /** A match of three bytes that is too far away is ignored, and with it a nearer one
      that it came in place of: if three bytes are nice enough, or all there are. */
  predicate Ignored(left: int, before: nat, len: nat, level: Level)
  {
    before < MIN_MATCH && len == MIN_MATCH - 1 && (level.niceMatch <= MIN_MATCH || left == MIN_MATCH)
  }

  /** The result of the search at pos, with a match of length `before` known. */
  ghost predicate Searched(data: seq<byte>, pos: nat, before: nat, t: Turn, level: Level)
  {
    && t.len <= MAX_MATCH
    && (t.len > before && t.len >= MIN_MATCH ==>
         MatchAt(data, pos, t.dist, t.len) && t.dist <= MAX_DIST && (t.len == MIN_MATCH ==> t.dist <= TOO_FAR))
    && (before >= level.maxLazyMatch ==> t.len == MIN_MATCH - 1)
    && (before < level.maxLazyMatch ==>
         Nice(before, t.len, level) || Ignored(|data| - pos, before, t.len, level)
         || Longest(data, pos, before, t.len, TriesAt(level, before)))
  }

  lemma LatestIsEarlier(w: seq<byte>, h: nat, p: nat)
    requires p + 2 < |w| && Latest(w, h, p)
    ensures Earlier(w, h, p)
  {
  }

  // ----- the window shows the end of the input -----

  ghost predicate Shows(w: seq<byte>, n: nat, base: nat, data: seq<byte>)
  {
    n <= |w| && base + n == |data| && w[..n] == data[base..]
  }

  lemma ByteShown(w: seq<byte>, n: nat, base: nat, data: seq<byte>, i: nat)
    requires Shows(w, n, base, data) && i < n
    ensures w[i] == data[base + i]
  {
    assert w[..n][i] == data[base..][i];
  }

  lemma KeyShown(w: seq<byte>, n: nat, base: nat, data: seq<byte>, i: nat)
    requires Shows(w, n, base, data) && i + 2 < n
    ensures Key(w, i) == Key(data, base + i)
  {
    ByteShown(w, n, base, data, i);
    ByteShown(w, n, base, data, i + 1);
    ByteShown(w, n, base, data, i + 2);
  }

  lemma {:induction false} CountShown(w: seq<byte>, n: nat, base: nat, data: seq<byte>, lo: nat, hi: nat, h: nat)
    requires Shows(w, n, base, data) && hi + 2 <= n
    ensures CountKeys(w, lo, hi, h) == CountKeys(data, base + lo, base + hi, h)
    decreases hi
  {
    hide Key, Shows;
    if lo < hi {
      CountShown(w, n, base, data, lo, hi - 1, h);
      KeyShown(w, n, base, data, hi - 1);
    }
  }

  lemma MatchShown(w: seq<byte>, n: nat, base: nat, data: seq<byte>, p: nat, dist: nat, len: nat)
    requires Shows(w, n, base, data) && dist <= p && p + len <= n && MatchAt(data, base + p, dist, len)
    ensures MatchAt(w, p, dist, len)
  {
    forall i | p <= i < p + len
      ensures w[i] == w[i - dist]
    {
      ByteShown(w, n, base, data, i);
      ByteShown(w, n, base, data, i - dist);
    }
  }

  /** The window at a search: what it shows, the chains, and where it lies. */
  ghost predicate Ready(w: seq<byte>, n: nat, base: nat, data: seq<byte>, head: seq<Pos>, prev: seq<Pos>, p: nat, h: nat)
  {
    && Shows(w, n, base, data) && Chained(w, head, prev, p + 1) && p < n && p + 2 < |w| && Latest(w, h, p) && p < WINDOW_SIZE
    && base % WSIZE == 0 && (base > 0 ==> p >= MAX_DIST)
  }

  /** A string that has to be tried lies in the window, and the head of the chain
      is no earlier. */
  lemma CandidateShown(w: seq<byte>, n: nat, base: nat, data: seq<byte>, head: seq<Pos>, prev: seq<Pos>, p: nat, h: nat, q: nat, k: nat)
    requires Ready(w, n, base, data, head, prev, p, h) && Candidate(data, base + p, q, k)
    ensures base < q < base + p && p + 2 < n && Key(w, q - base) == Key(w, p)
    ensures CountKeys(w, q - base + 1, p, Key(w, p)) == CountKeys(data, q + 1, base + p, Key(data, base + p))
    ensures h != 0 && h >= q - base
  {
    hide Key, Chained, CountKeys;
    assert q >= base;
    assert q != base;
    KeyShown(w, n, base, data, q - base);
    KeyShown(w, n, base, data, p);
    CountShown(w, n, base, data, q - base + 1, p, Key(w, p));
  }

  /** And is on the chain. */
  lemma CandidateTried(w: seq<byte>, n: nat, base: nat, data: seq<byte>, head: seq<Pos>, prev: seq<Pos>, p: nat, h: nat, q: nat, k: u32)
    requires Ready(w, n, base, data, head, prev, p, h) && Candidate(data, base + p, q, k) && p - h <= MAX_DIST
    ensures q > base && q - base in Chain(prev, h, Limit(p), k)
  {
    hide Key, Chained, CountKeys, Chain;
    CandidateShown(w, n, base, data, head, prev, p, h, q, k);
    var limit := Limit(p);
    if q - base != h && q - base <= limit {
      OneAt(w, h, p, Key(w, p));
      CountSplits(w, q - base + 1, h, p, Key(w, p));
      assert false;
    }
    ChainHas(w, head, prev, p + 1, p, h, limit, k, q - base);
  }

  /** A match in the window, cut to the lookahead, is a match in the input. */
  lemma WindowMatch(w: seq<byte>, strstart: nat, lookahead: nat, base: nat, data: seq<byte>, dist: nat, len: nat, cut: nat)
    requires strstart + lookahead <= |w| && base + strstart + lookahead == |data| && w[..strstart + lookahead] == data[base..]
    requires MatchAt(w, strstart, dist, len) && cut <= len && cut <= lookahead
    ensures MatchAt(data, base + strstart, dist, cut)
  {
    forall i | base + strstart <= i < base + strstart + cut
      ensures data[i] == data[i - dist]
    {
      var j := i - base;
      assert data[base..][j] == w[..strstart + lookahead][j] == w[j];
      assert data[base..][j - dist] == w[..strstart + lookahead][j - dist] == w[j - dist];
    }
  }

  /** Nothing has to be tried if the chain is empty or starts too far away. */
  lemma NoneToTry(w: seq<byte>, n: nat, base: nat, data: seq<byte>, head: seq<Pos>, prev: seq<Pos>, p: nat, h: nat,
                  before: nat, dist: nat, level: Level)
    requires Ready(w, n, base, data, head, prev, p, h) && (h == 0 || p - h > MAX_DIST || before >= level.maxLazyMatch)
    ensures Searched(data, base + p, before, Turn(MIN_MATCH - 1, dist), level)
  {
    hide Ready, Candidate;
    var k, pos := TriesAt(level, before), base + p;
    if before < level.maxLazyMatch {
      forall q: nat | q < pos
        ensures !Candidate(data, pos, q, k)
      {
        if Candidate(data, pos, q, k) {
          CandidateShown(w, n, base, data, head, prev, p, h, q, k);
          CandidateNear(data, pos, q, k);
        }
      }
    }
  }

  lemma CandidateNear(data: seq<byte>, pos: nat, q: nat, k: nat)
    requires Candidate(data, pos, q, k)
    ensures q < pos <= q + MAX_DIST
  {
  }

  /** What `longest_match` has found, before it is cut to what is left. */
  ghost predicate BestOf(w: seq<byte>, p: nat, chain: seq<nat>, before: nat, best: nat, at: nat, level: Level)
  {
    && before <= best <= MAX_MATCH
    && (best > before ==> MIN_MATCH <= best && at < p <= at + MAX_DIST && MatchAt(w, p, p - at, best))
    && (!Nice(before, best, level) ==> AllBeaten(w, p, chain, best))
    && (best > before && !Nice(before, best, level) ==> Nearest(w, p, chain, at, best))
  }

  /** Cut to what is left, and ignored if it is three bytes too far away. */
  function CutTo(best: nat, left: nat, dist: nat): nat
  {
    var len := if best > left then left else best;
    if len == MIN_MATCH && dist > TOO_FAR then len - 1 else len
  }

  /** A string that was tried has no longer match in the input, either. */
  lemma TriedInData(w: seq<byte>, n: nat, base: nat, data: seq<byte>, p: nat, q: nat, chain: seq<nat>,
                    before: nat, best: nat, at: nat, dist: nat, level: Level)
    requires Shows(w, n, base, data) && p < n && q < p && q in chain && BestOf(w, p, chain, before, best, at, level)
    requires !Nice(before, best, level) && (best > before ==> dist == p - at)
    requires !Ignored(n - p, before, CutTo(best, n - p, dist), level)
    ensures NoLonger(data, base + p, p - q, before, CutTo(best, n - p, dist))
  {
    hide MatchAt, Shows;
    var i :| 0 <= i < |chain| && chain[i] == q;
    var pos, d := base + p, p - q;
    forall m: nat | m <= MAX_MATCH && MatchAt(data, pos, d, m)
      ensures m <= before || m <= CutTo(best, n - p, dist) || (m == MIN_MATCH && d > TOO_FAR)
    {
      LeftInData(w, n, base, data, p, p - q, m);
      MatchShown(w, n, base, data, p, p - q, m);
      assert Beaten(w, p, p - chain[i], best);
      if best > before && q > at {
        assert Beaten(w, p, p - chain[i], best - 1);
      }
    }
  }

  lemma LeftInData(w: seq<byte>, n: nat, base: nat, data: seq<byte>, p: nat, dist: nat, m: nat)
    requires Shows(w, n, base, data) && MatchAt(data, base + p, dist, m)
    ensures p + m <= n
  {
  }

  /** The search finds what it should. */
  lemma SearchResult(w: seq<byte>, n: nat, base: nat, data: seq<byte>, head: seq<Pos>, prev: seq<Pos>, p: nat, h: nat,
                     before: nat, best: nat, at: nat, dist: nat, level: Level)
    requires Ready(w, n, base, data, head, prev, p, h) && p - h <= MAX_DIST && before < level.maxLazyMatch
    requires BestOf(w, p, Chain(prev, h, Limit(p), TriesAt(level, before)), before, best, at, level)
    requires best > before ==> dist == p - at
    ensures Searched(data, base + p, before, Turn(CutTo(best, n - p, dist), dist), level)
  {
    hide Candidate, Chain, Chained, Latest, MatchAt, NoLonger, AllBeaten, Nearest;
    var len, k, pos := CutTo(best, n - p, dist), TriesAt(level, before), base + p;
    ChainedSizes(w, head, prev, p + 1);
    if best > before {
      WindowMatch(w, p, n - p, base, data, dist, best, if best > n - p then n - p else best);
    }
    if !Nice(before, best, level) && !Ignored(n - p, before, len, level) {
      forall q: nat | q < pos && Candidate(data, pos, q, k)
        ensures NoLonger(data, pos, pos - q, before, len)
      {
        CandidateTried(w, n, base, data, head, prev, p, h, q, k);
        CandidateNear(data, base + p, q, k);
        TriedInData(w, n, base, data, p, q - base, Chain(prev, h, Limit(p), k), before, best, at, dist, level);
      }
    } else if Nice(before, best, level) && !Nice(before, len, level) {
      AllThatIsLeft(w, n, base, data, p, before, best, dist, k, level);
    }
  }

  /** A nice match that is cut is as long as can be. */
  lemma AllThatIsLeft(w: seq<byte>, n: nat, base: nat, data: seq<byte>, p: nat, before: nat, best: nat, dist: nat, k: nat, level: Level)
    requires Shows(w, n, base, data) && p < n && best >= MIN_MATCH
    requires Nice(before, best, level) && !Nice(before, CutTo(best, n - p, dist), level)
    ensures Ignored(n - p, before, CutTo(best, n - p, dist), level) || Longest(data, base + p, before, CutTo(best, n - p, dist), k)
  {
    hide Candidate;
    var len, pos := CutTo(best, n - p, dist), base + p;
    if !Ignored(n - p, before, len, level) {
      forall q: nat | q < pos && Candidate(data, pos, q, k)
        ensures NoLonger(data, pos, pos - q, before, len)
      {
        CandidateNear(data, base + p, q, k);
        var d := pos - q;
        forall m: nat | m <= MAX_MATCH && MatchAt(data, pos, d, m)
          ensures m <= before || m <= len
        {
          LeftInData(w, n, base, data, p, d, m);
        }
      }
    }
  }

  // ----- the tokens that follow -----

  /** Part way through the input: the tokens so far, where the next search is, whether
      the byte before is still to be told, and what the last search has found. */
  datatype Parse = Parse(toks: seq<Token>, pos: nat, available: bool, turn: Turn)

  function Start(): Parse
  {
    Parse([], 0, false, Turn(MIN_MATCH - 1, 0))
  }

  function LiteralBefore(data: seq<byte>, pos: nat): Token
  {
    Literal(if 0 < pos <= |data| then data[pos - 1] else 0)
  }

  /** A match is used if the search behind it finds none that is longer; otherwise the
      byte before becomes a literal. */
  function Next(data: seq<byte>, p: Parse, t: Turn): Parse
  {
    if p.turn.len >= MIN_MATCH && t.len <= p.turn.len then
      Parse(p.toks + [Match(p.turn.len, p.turn.dist)], p.pos + p.turn.len - 1, false, Turn(MIN_MATCH - 1, 0))
    else
      Parse(p.toks + (if p.available then [LiteralBefore(data, p.pos)] else []), p.pos + 1, true, t)
  }

  function ParseOf(data: seq<byte>, turns: seq<Turn>): (p: Parse)
  {
    if turns == [] then Start() else Next(data, ParseOf(data, turns[..|turns| - 1]), turns[|turns| - 1])
  }

  /** The tokens at the end. */
  function AllTokens(data: seq<byte>, p: Parse): seq<Token>
  {
    p.toks + if p.available then [LiteralBefore(data, p.pos)] else []
  }

  /** Search i has found what it should, with enough of the input to look at. */
  ghost predicate TurnOk(data: seq<byte>, turns: seq<Turn>, i: nat, level: Level, eof: bool)
    requires i < |turns|
  {
    var p := ParseOf(data, turns[..i]);
    && p.pos < |data| && (eof || p.pos + MIN_LOOKAHEAD <= |data|)
    && Searched(data, p.pos, p.turn.len, turns[i], level)
  }

  ghost predicate TurnsOk(data: seq<byte>, turns: seq<Turn>, level: Level, eof: bool)
  {
    forall i :: 0 <= i < |turns| ==> TurnOk(data, turns, i, level, eof)
  }

  lemma OneMoreTurn(data: seq<byte>, turns: seq<Turn>, t: Turn, level: Level, eof: bool)
    requires TurnsOk(data, turns, level, eof)
    requires var p := ParseOf(data, turns);
             p.pos < |data| && (eof || p.pos + MIN_LOOKAHEAD <= |data|) && Searched(data, p.pos, p.turn.len, t, level)
    ensures TurnsOk(data, turns + [t], level, eof)
    ensures ParseOf(data, turns + [t]) == Next(data, ParseOf(data, turns), t)
  {
    hide Searched, Next;
    var turns' := turns + [t];
    assert turns'[..|turns|] == turns;
    forall i | 0 <= i < |turns'|
      ensures TurnOk(data, turns', i, level, eof)
    {
      if i < |turns| {
        assert TurnOk(data, turns, i, level, eof);
        assert turns'[..i] == turns[..i];
      }
    }
  }

  // ----- more input changes nothing -----

  lemma {:induction false} CountGrows(data: seq<byte>, data': seq<byte>, lo: nat, hi: nat, h: nat)
    requires data <= data' && hi + 2 <= |data|
    ensures CountKeys(data', lo, hi, h) == CountKeys(data, lo, hi, h)
    decreases hi
  {
    if lo < hi {
      CountGrows(data, data', lo, hi - 1, h);
    }
  }

  lemma CandidateGrows(data: seq<byte>, data': seq<byte>, pos: nat, q: nat, k: nat)
    requires data <= data' && pos + 2 < |data| && Candidate(data', pos, q, k)
    ensures Candidate(data, pos, q, k)
  {
    hide CountKeys;
    CountGrows(data, data', q + 1, pos, Key(data, pos));
  }

  lemma NoLongerGrows(data: seq<byte>, data': seq<byte>, pos: nat, dist: nat, before: nat, len: nat)
    requires data <= data' && pos + MAX_MATCH <= |data| && NoLonger(data, pos, dist, before, len)
    ensures NoLonger(data', pos, dist, before, len)
  {
    forall n: nat | n <= MAX_MATCH && MatchAt(data', pos, dist, n)
      ensures n <= before || n <= len || (n == MIN_MATCH && dist > TOO_FAR)
    {
      assert MatchAt(data, pos, dist, n);
    }
  }

  lemma SearchedGrows(data: seq<byte>, data': seq<byte>, pos: nat, before: nat, t: Turn, level: Level)
    requires data <= data' && pos + MIN_LOOKAHEAD <= |data| && Searched(data, pos, before, t, level)
    ensures Searched(data', pos, before, t, level)
  {
    hide Candidate, NoLonger;
    var k := TriesAt(level, before);
    if Longest(data, pos, before, t.len, k) {
      forall q: nat | q < pos && Candidate(data', pos, q, k)
        ensures NoLonger(data', pos, pos - q, before, t.len)
      {
        CandidateGrows(data, data', pos, q, k);
        NoLongerGrows(data, data', pos, pos - q, before, t.len);
      }
    }
  }

  lemma {:induction false} ParseGrows(data: seq<byte>, data': seq<byte>, turns: seq<Turn>)
    requires data <= data' && ParseOf(data, turns).pos <= |data|
    ensures ParseOf(data', turns) == ParseOf(data, turns)
  {
    if turns != [] {
      ParseGrows(data, data', turns[..|turns| - 1]);
    }
  }

  lemma TurnsGrow(data: seq<byte>, data': seq<byte>, turns: seq<Turn>, level: Level, eof: bool)
    requires data <= data' && TurnsOk(data, turns, level, false) && ParseOf(data, turns).pos <= |data|
    ensures TurnsOk(data', turns, level, eof) && ParseOf(data', turns) == ParseOf(data, turns)
  {
    hide Searched, ParseOf;
    ParseGrows(data, data', turns);
    forall i | 0 <= i < |turns|
      ensures TurnOk(data', turns, i, level, eof)
    {
      assert TurnOk(data, turns, i, level, false);
      var p := ParseOf(data, turns[..i]);
      ParseGrows(data, data', turns[..i]);
      SearchedGrows(data, data', p.pos, p.turn.len, turns[i], level);
    }
  }

  lemma TurnsAtEnd(data: seq<byte>, turns: seq<Turn>, level: Level)
    requires TurnsOk(data, turns, level, false)
    ensures TurnsOk(data, turns, level, true)
  {
    hide Searched, ParseOf;
    forall i | 0 <= i < |turns|
      ensures TurnOk(data, turns, i, level, true)
    {
      assert TurnOk(data, turns, i, level, false);
    }
  }

  /** The tokens follow from searches over the whole input, each of which has found
      what it should. */
  ghost predicate LazilyParsed(data: seq<byte>, toks: seq<Token>, turns: seq<Turn>, level: Level)
  {
    && TurnsOk(data, turns, level, true)
    && ParseOf(data, turns).pos == |data| && toks == AllTokens(data, ParseOf(data, turns))
  }
}
