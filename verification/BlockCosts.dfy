/** The size of a block body, added up over symbol frequencies as gzip.c does. */
module BlockCosts {
  import opened Bits
  import opened Sums
  import opened PrefixCode
  import opened Inflate
  import opened Tokens
  import opened RunLength
  import opened Blocks
  import opened Trees
  import opened CodeLengths
  import opened Histogram
  import opened TokenBuffers
  import opened TreeSender
  import opened CodeTables

  const L_ELEMS := 286
  const L_DESC: Desc := Desc(286, 15, LENGTH_EXTRA, 257, Some(FIXED_LITERAL_LENGTHS))
  const D_DESC: Desc := Desc(30, 15, DIST_EXTRA, 0, Some(FIXED_DISTANCE_LENGTHS))

  lemma DescsValid()
    ensures L_DESC.Valid() && D_DESC.Valid()
    ensures L_DESC.elems == L_ELEMS && D_DESC.elems == D_CODES
    ensures L_DESC.maxLength == D_DESC.maxLength == MAX_BITS
    ensures L_DESC.staticLens.Some? && D_DESC.staticLens.Some?
  {
    LiteralDescValid();
    DistanceDescValid();
    hide FIXED_LITERAL_LENGTHS, FIXED_DISTANCE_LENGTHS, LENGTH_EXTRA, DIST_EXTRA, Desc.Valid;
  }

  lemma LiteralDescValid()
    ensures L_DESC.Valid()
  {
    hide FIXED_LITERAL_LENGTHS, FIXED_DISTANCE_LENGTHS, DIST_EXTRA;
    FixedLength(0);
    assert Pow2(15) == 32768 by { Pow2Values(); }
  }

  lemma DistExtraIs()
    ensures |DIST_EXTRA| == 30 && DIST_EXTRA[0] == DIST_EXTRA[1] == DIST_EXTRA[2] == 0
  {
    hide FIXED_LITERAL_LENGTHS, FIXED_DISTANCE_LENGTHS, LENGTH_EXTRA;
  }

  lemma DistanceDescValid()
    ensures D_DESC.Valid()
  {
    hide FIXED_LITERAL_LENGTHS, FIXED_DISTANCE_LENGTHS, LENGTH_EXTRA, DIST_EXTRA;
    FixedLength(0);
    DistExtraIs();
    assert Pow2(15) == 32768 by { Pow2Values(); }
  }

  /** The literal/length symbols of tokens. */
  function LitNumbers(toks: seq<Token>): (xs: seq<nat>)
    requires AllEncodable(toks)
    ensures |xs| == |toks| && forall i :: 0 <= i < |xs| ==> xs[i] == LitSymbol(toks[i]) < L_ELEMS
  {
    seq(|toks|, i requires 0 <= i < |toks| => LitSymbol(toks[i]))
  }

  /** The distance symbols of the matches among them. */
  function DistNumbers(toks: seq<Token>): (xs: seq<nat>)
    requires AllEncodable(toks)
    ensures |xs| <= |toks| && Below(xs, D_CODES)
  {
    if toks == [] then []
    else
      var t := toks[|toks| - 1];
      DistNumbers(toks[..|toks| - 1]) + (if t.Match? then [DistSymbol(t)] else [])
  }

  /** All symbols of a block, with the end. */
  function BlockNumbers(toks: seq<Token>): (xs: seq<nat>)
    requires AllEncodable(toks)
    ensures Below(xs, L_ELEMS) && |xs| == |toks| + 1
  {
    LitNumbers(toks) + [END_BLOCK]
  }

  lemma ExtraBits(c: nat)
    requires c < L_ELEMS
    ensures L_DESC.XBits(c) == if c <= END_BLOCK then 0 else LengthExtra(c - 257)
    ensures c < D_CODES ==> D_DESC.XBits(c) == DistExtra(c)
  {
  }

  lemma TokenCost(t: Token, l: seq<nat>, d: seq<nat>, m: nat, k: nat)
    requires Encodable(t) && L_ELEMS <= |l| && D_CODES <= |d| && m <= |l| && k <= |d|
    requires Codes(l[..m], d[..k], t)
    ensures |TokenBits(l[..m], d[..k], t)|
         == CostsOf(L_DESC, l)[LitSymbol(t)] + (if t.Match? then CostsOf(D_DESC, d)[DistSymbol(t)] else 0)
  {
    hide LengthCode, DistCode, Code, MsbBits, LengthExtra, DistExtra, ToBits, L_DESC, D_DESC, Desc.Valid, Desc.XBits;
    DescsValid();
    ExtraBits(LitSymbol(t));
    if t.Match? {
      ExtraBits(DistSymbol(t));
    }
  }

  /** The bits of the tokens are as many as their symbols cost. */
  lemma {:induction false} TokensCost(toks: seq<Token>, l: seq<nat>, d: seq<nat>, m: nat, k: nat)
    requires L_ELEMS <= |l| && D_CODES <= |d| && m <= |l| && k <= |d|
    requires CodesAll(l[..m], d[..k], toks)
    ensures AllEncodable(toks)
    ensures |TokensBits(l[..m], d[..k], toks)|
         == Cost(LitNumbers(toks), CostsOf(L_DESC, l)) + Cost(DistNumbers(toks), CostsOf(D_DESC, d))
  {
    hide LitSymbol, DistSymbol, TokenBits, Codes, Encodable, CostsOf;
    if toks != [] {
      var init, t := toks[..|toks| - 1], toks[|toks| - 1];
      assert forall i :: 0 <= i < |init| ==> init[i] == toks[i];
      TokensCost(init, l, d, m, k);
      TokenCost(t, l, d, m, k);
      assert LitNumbers(toks)[..|toks| - 1] == LitNumbers(init);
      CostSnoc(DistNumbers(init), if t.Match? then [DistSymbol(t)] else [], CostsOf(D_DESC, d));
    }
  }

  lemma CostSnoc(xs: seq<nat>, ys: seq<nat>, cost: seq<nat>)
    requires Below(xs, |cost|) && Below(ys, |cost|) && |ys| <= 1
    ensures Below(xs + ys, |cost|)
    ensures Cost(xs + ys, cost) == Cost(xs, cost) + (if ys == [] then 0 else cost[ys[0]])
  {
    if ys == [] {
      assert xs + ys == xs;
    } else {
      assert (xs + ys)[..|xs|] == xs;
    }
  }

  /** The exact size of a block body. */
  lemma BodyCost(toks: seq<Token>, l: seq<nat>, d: seq<nat>, m: nat, k: nat)
    requires L_ELEMS <= |l| && D_CODES <= |d| && m <= |l| && k <= |d|
    requires CodesAll(l[..m], d[..k], toks)
    ensures AllEncodable(toks)
    ensures |BodyBits(l[..m], d[..k], toks)|
         == Cost(BlockNumbers(toks), CostsOf(L_DESC, l)) + Cost(DistNumbers(toks), CostsOf(D_DESC, d))
  {
    hide LitSymbol, DistSymbol, TokenBits, Codes, Encodable, TokensBits, LitNumbers, DistNumbers;
    TokensCost(toks, l, d, m, k);
    ExtraBits(END_BLOCK);
    assert BlockNumbers(toks)[..|toks|] == LitNumbers(toks);
  }

  /** The fixed codes: the costs are those of the static tree. */
  lemma FixedCosts()
    ensures CostsOf(L_DESC, FIXED_LITERAL_LENGTHS) == StaticCostsOf(L_DESC)
    ensures CostsOf(D_DESC, FIXED_DISTANCE_LENGTHS) == StaticCostsOf(D_DESC)
  {
    hide FIXED_LITERAL_LENGTHS, FIXED_DISTANCE_LENGTHS;
    FixedLength(0);
  }

  /** The fixed codes have every symbol. */
  lemma FixedHasAll(toks: seq<Token>)
    requires AllEncodable(toks)
    ensures CodesAll(FIXED_LITERAL_LENGTHS, FIXED_DISTANCE_LENGTHS, toks)
  {
    hide FIXED_LITERAL_LENGTHS, FIXED_DISTANCE_LENGTHS, LitSymbol, DistSymbol;
    FixedLength(END_BLOCK);
    forall i | 0 <= i < |toks|
      ensures Encodable(toks[i]) && Codes(FIXED_LITERAL_LENGTHS, FIXED_DISTANCE_LENGTHS, toks[i])
    {
      FixedLength(LitSymbol(toks[i]));
      if toks[i].Match? {
        FixedLength(DistSymbol(toks[i]));
      }
    }
  }

  lemma {:induction false} DistNumberIn(toks: seq<Token>, i: nat)
    requires AllEncodable(toks) && i < |toks| && toks[i].Match?
    ensures Count(DistNumbers(toks), DistSymbol(toks[i])) > 0
  {
    hide DistSymbol;
    var init, t := toks[..|toks| - 1], toks[|toks| - 1];
    CountAppend(DistNumbers(init), if t.Match? then [DistSymbol(t)] else [], DistSymbol(toks[i]));
    if i < |init| {
      DistNumberIn(init, i);
    } else {
      CountPositive([DistSymbol(t)], 0);
    }
  }

  /** Codes built for the block's frequencies have every symbol it needs. */
  lemma BuiltHasAll(toks: seq<Token>, lf: seq<nat>, ll: seq<nat>, lmax: int, df: seq<nat>, dl: seq<nat>, dmax: int)
    requires AllEncodable(toks) && |lf| == L_ELEMS && |df| == D_CODES
    requires Frequencies(lf, BlockNumbers(toks), L_ELEMS) && Frequencies(df, DistNumbers(toks), D_CODES)
    requires GoodLengths(L_DESC, lf, ll, lmax) && GoodLengths(D_DESC, df, dl, dmax)
    ensures lmax >= END_BLOCK && CodesAll(ll[..lmax + 1], dl[..dmax + 1], toks)
  {
    hide LitSymbol, DistSymbol, DistNumbers, Complete, Count;
    var xs := BlockNumbers(toks);
    CountPositive(xs, |toks|);
    forall i | 0 <= i < |toks|
      ensures Encodable(toks[i]) && Codes(ll[..lmax + 1], dl[..dmax + 1], toks[i])
    {
      CountPositive(xs, i);
      assert xs[i] == LitSymbol(toks[i]);
      if toks[i].Match? {
        DistNumberIn(toks, i);
      }
    }
  }
}
