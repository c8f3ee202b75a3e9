/** What the optimality of the two trees means for a block: its tokens take no more
    bits than with any other codes that a reader could use. */
module LeastBodies {
  import opened Bits
  import opened Sums
  import opened PrefixCode
  import opened Inflate
  import opened Tokens
  import opened Huffman
  import opened Heaps
  import opened Trees
  import opened CodeLengths
  import opened TreeBuilder
  import opened Histogram
  import opened LeastCodes
  import opened TokenBuffers
  import opened CodeTables
  import opened BlockCosts

  /** Whatever other codes have the symbols of these tokens, the bits are not fewer. */
  ghost predicate LeastBody(lit: seq<nat>, dist: seq<nat>, toks: seq<Token>)
    requires CodesAll(lit, dist, toks)
  {
    forall lit': seq<nat>, dist': seq<nat> ::
      |lit'| <= 286 && |dist'| <= 30 && Decodable(lit') && Decodable(dist') && CodesAll(lit', dist', toks) ==>
        |BodyBits(lit, dist, toks)| <= |BodyBits(lit', dist', toks)|
  }

  /** No symbol has the maximum length. */
  ghost predicate Short(lens: seq<nat>)
  {
    forall n :: 0 <= n < |lens| ==> lens[n] < MAX_BITS
  }

  ghost predicate LeastIfShort(lit: seq<nat>, dist: seq<nat>, toks: seq<Token>)
  {
    CodesAll(lit, dist, toks) && (Short(lit) && Short(dist) ==> LeastBody(lit, dist, toks))
  }

  // ----- both trees -----

  lemma {:induction false} DistancesCoded(toks: seq<Token>, lit: seq<nat>, dist: seq<nat>)
    requires CodesAll(lit, dist, toks) && AllEncodable(toks)
    ensures forall e :: e in DistNumbers(toks) ==> e < |dist| && dist[e] > 0
  {
    hide LitSymbol, DistSymbol;
    if toks != [] {
      var init := toks[..|toks| - 1];
      assert forall i :: 0 <= i < |init| ==> init[i] == toks[i];
      DistancesCoded(init, lit, dist);
    }
  }

  /** Symbols that occur have a code. */
  lemma AllCoded(toks: seq<Token>, lit: seq<nat>, dist: seq<nat>, lf: seq<nat>, df: seq<nat>)
    requires CodesAll(lit, dist, toks) && AllEncodable(toks) && |lf| == L_ELEMS && |df| == D_CODES
    requires Frequencies(lf, BlockNumbers(toks), L_ELEMS) && Frequencies(df, DistNumbers(toks), D_CODES)
    ensures forall x :: x in LeafSet(lf, L_ELEMS) ==> x < |lit| && lit[x] > 0
    ensures forall x :: x in LeafSet(df, D_CODES) ==> x < |dist| && dist[x] > 0
  {
    hide LitSymbol, DistSymbol, DistNumbers;
    DistancesCoded(toks, lit, dist);
    forall x | x in LeafSet(lf, L_ELEMS)
      ensures x < |lit| && lit[x] > 0
    {
      var i := CountFound(BlockNumbers(toks), x);
      if i < |toks| {
        assert BlockNumbers(toks)[i] == LitNumbers(toks)[i];
        assert Codes(lit, dist, toks[i]);
      }
    }
    forall x | x in LeafSet(df, D_CODES)
      ensures x < |dist| && dist[x] > 0
    {
      var i := CountFound(DistNumbers(toks), x);
      assert DistNumbers(toks)[i] in DistNumbers(toks);
    }
  }

  /** Trees grown for the symbols of the tokens, with no symbol of maximum length. */
  lemma BodyIsLeast(toks: seq<Token>, lf: seq<nat>, ldl: seq<nat>, lmax: int, lmerges: seq<Merge>,
                    df: seq<nat>, ddl: seq<nat>, dmax: int, dmerges: seq<Merge>)
    requires AllEncodable(toks) && |lf| == L_ELEMS && |df| == D_CODES
    requires Frequencies(lf, BlockNumbers(toks), L_ELEMS) && Frequencies(df, DistNumbers(toks), D_CODES)
    requires L_DESC.elems == L_ELEMS && D_DESC.elems == D_CODES && L_DESC.maxLength == D_DESC.maxLength == MAX_BITS
    requires GoodLengths(L_DESC, lf, ldl, lmax) && GoodLengths(D_DESC, df, ddl, dmax)
    requires Grown(L_DESC, lf, ldl, lmerges) && Grown(D_DESC, df, ddl, dmerges)
    requires Short(ldl[..lmax + 1]) && Short(ddl[..dmax + 1]) && CodesAll(ldl[..lmax + 1], ddl[..dmax + 1], toks)
    ensures LeastBody(ldl[..lmax + 1], ddl[..dmax + 1], toks)
  {
    hide L_DESC, D_DESC, AllEncodable, Frequencies, BlockNumbers, DistNumbers, Grown, CodesAll, BodyBits, Decodable, CostsOf, Cost, Complete;
    NumbersBelowThese(toks);
    ShortLeaves(L_DESC, lf, ldl, lmax);
    ShortLeaves(D_DESC, df, ddl, dmax);
    BodyCost(toks, ldl, ddl, lmax + 1, dmax + 1);
    forall lit': seq<nat>, dist': seq<nat> |
      |lit'| <= 286 && |dist'| <= 30 && Decodable(lit') && Decodable(dist') && CodesAll(lit', dist', toks)
      ensures |BodyBits(ldl[..lmax + 1], ddl[..dmax + 1], toks)| <= |BodyBits(lit', dist', toks)|
    {
      var l, d := Padded(lit', L_ELEMS), Padded(dist', D_CODES);
      AllCoded(toks, lit', dist', lf, df);
      PaddedCodes(lit', L_ELEMS, LeafSet(lf, L_ELEMS));
      PaddedCodes(dist', D_CODES, LeafSet(df, D_CODES));
      NoBetterCosts(L_DESC, lf, ldl, lmerges, l, BlockNumbers(toks));
      NoBetterCosts(D_DESC, df, ddl, dmerges, d, DistNumbers(toks));
      BodyCost(toks, l, d, |lit'|, |dist'|);
    }
  }

  lemma NumbersBelowThese(toks: seq<Token>)
    requires AllEncodable(toks)
    ensures Below(BlockNumbers(toks), L_ELEMS) && Below(DistNumbers(toks), D_CODES)
  {
  }

  lemma ShortLeaves(desc: Desc, f: seq<nat>, dl: seq<nat>, maxCode: int)
    requires |f| == desc.elems && GoodLengths(desc, f, dl, maxCode) && Short(dl[..maxCode + 1]) && desc.maxLength == MAX_BITS
    ensures forall x :: x in LeafSet(f, desc.elems) ==> dl[x] < desc.maxLength
  {
    hide Complete;
    forall x | x in LeafSet(f, desc.elems)
      ensures dl[x] < MAX_BITS
    {
      assert dl[..maxCode + 1][x] == dl[x];
    }
  }

  lemma PaddedCodes(lens: seq<nat>, n: nat, leaves: set<nat>)
    requires |lens| <= n && Decodable(lens) && forall x :: x in leaves ==> x < |lens| && lens[x] > 0
    ensures Decodable(Padded(lens, n)) && forall x :: x in leaves ==> x < n && Padded(lens, n)[x] > 0
  {
    hide Decodable;
    PaddedDecodable(lens, n);
    forall x | x in leaves
      ensures Padded(lens, n)[x] > 0
    {
      assert Padded(lens, n)[..|lens|][x] == lens[x];
    }
  }
}
