/** Literals and matches, what they stand for, and the bits of a block that is
    coded with given literal/length and distance codes. */
module Tokens {
  import opened Bits
  import opened PrefixCode
  import opened Inflate

  const MIN_MATCH := 3
  const MAX_MATCH := 258

  datatype Token = Literal(b: byte) | Match(len: nat, dist: nat)

  predicate Encodable(t: Token)
  {
    t.Match? ==> MIN_MATCH <= t.len <= MAX_MATCH && 0 < t.dist <= 32768
  }

  /** Every token is encodable and refers only to what is there before it. */
  predicate ValidTokens(toks: seq<Token>, n: nat)
  {
    toks == [] ||
    (var t := toks[|toks| - 1];
     ValidTokens(toks[..|toks| - 1], n) && Encodable(t)
     && (t.Match? ==> t.dist <= n + TokensLength(toks[..|toks| - 1])))
  }

  /** How many bytes the tokens stand for. */
  function TokensLength(toks: seq<Token>): nat
  {
    if toks == [] then 0
    else TokensLength(toks[..|toks| - 1]) + (if toks[|toks| - 1].Literal? then 1 else toks[|toks| - 1].len)
  }

  function ExpandOne(out: seq<byte>, t: Token): (r: seq<byte>)
    requires t.Match? ==> 0 < t.dist <= |out|
  {
    if t.Literal? then out + [t.b] else CopyMatch(out, t.len, t.dist)
  }

  /** The bytes after the tokens have been carried out on `out`. */
  function Expand(out: seq<byte>, toks: seq<Token>): (r: seq<byte>)
    requires ValidTokens(toks, |out|)
    ensures |r| == |out| + TokensLength(toks)
  {
    if toks == [] then out
    else ExpandOne(Expand(out, toks[..|toks| - 1]), toks[|toks| - 1])
  }

  // ----- which symbol a length or distance belongs to -----

  /** The first code, c or above, whose range reaches past v. */
  function FindCode(bases: seq<nat>, extras: seq<nat>, v: nat, c: nat): (r: nat)
    requires c <= |bases| == |extras|
    ensures c <= r <= |bases|
    ensures r < |bases| ==> v < bases[r] + Pow2(extras[r])
    ensures forall i :: c <= i < r ==> v >= bases[i] + Pow2(extras[i])
    decreases |bases| - c
  {
    if c == |bases| || v < bases[c] + Pow2(extras[c]) then c else FindCode(bases, extras, v, c + 1)
  }

  /** Length 258 has a code of its own although code 27 reaches it too. */
  function LengthCode(len: nat): nat
    requires MIN_MATCH <= len <= MAX_MATCH
  {
    if len == MAX_MATCH then 28 else FindCode(LENGTH_BASE, LENGTH_EXTRA, len, 0)
  }

  function DistCode(dist: nat): nat
    requires 0 < dist <= 32768
  {
    FindCode(DIST_BASE, DIST_EXTRA, dist, 0)
  }

  /** Each table entry starts where the one before ends. */
  predicate Contiguous(bases: seq<nat>, extras: seq<nat>, n: nat)
  {
    n <= |bases| == |extras|
    && forall c :: 0 <= c < n - 1 ==> bases[c + 1] == bases[c] + Pow2(extras[c])
  }

  lemma TablesContiguous()
    ensures Contiguous(LENGTH_BASE, LENGTH_EXTRA, 28)
    ensures Contiguous(DIST_BASE, DIST_EXTRA, 30)
  {
    LengthsContiguous();
    DistsContiguous();
  }

  lemma LengthsContiguous()
    ensures Contiguous(LENGTH_BASE, LENGTH_EXTRA, 28)
  {
    SmallPowers();
    hide Pow2;
  }

  lemma DistsContiguous()
    ensures Contiguous(DIST_BASE, DIST_EXTRA, 30)
  {
    SmallPowers();
    hide Pow2;
  }

  lemma SmallPowers()
    ensures Pow2(0) == 1 && Pow2(1) == 2 && Pow2(2) == 4 && Pow2(3) == 8 && Pow2(4) == 16
    ensures Pow2(5) == 32 && Pow2(6) == 64 && Pow2(7) == 128 && Pow2(8) == 256 && Pow2(9) == 512
    ensures Pow2(10) == 1024 && Pow2(11) == 2048 && Pow2(12) == 4096 && Pow2(13) == 8192
  {
  }

  lemma LengthCodeRange(len: nat)
    requires MIN_MATCH <= len <= MAX_MATCH
    ensures LengthCode(len) < 29
    ensures LengthBase(LengthCode(len)) <= len < LengthBase(LengthCode(len)) + Pow2(LengthExtra(LengthCode(len)))
  {
    TablesContiguous();
    assert LENGTH_BASE[0] == 3 && LENGTH_BASE[27] == 227 && LENGTH_BASE[28] == 258;
    assert LENGTH_EXTRA[27] == 5 && LENGTH_EXTRA[28] == 0;
    SmallPowers();
    if len < MAX_MATCH {
      var c := LengthCode(len);
      if c > 0 {
        assert len >= LENGTH_BASE[c - 1] + Pow2(LENGTH_EXTRA[c - 1]);
      }
    }
  }

  lemma DistCodeRange(dist: nat)
    requires 0 < dist <= 32768
    ensures DistCode(dist) < 30
    ensures DistBase(DistCode(dist)) <= dist < DistBase(DistCode(dist)) + Pow2(DistExtra(DistCode(dist)))
  {
    TablesContiguous();
    assert DIST_BASE[0] == 1 && DIST_BASE[29] == 24577 && DIST_EXTRA[29] == 13;
    SmallPowers();
    var c := DistCode(dist);
    if c > 0 {
      assert dist >= DIST_BASE[c - 1] + Pow2(DIST_EXTRA[c - 1]);
    }
  }

  // ----- the bits of a coded block -----

  /** The literal/length symbol of a token. */
  function LitSymbol(t: Token): (r: nat)
    requires Encodable(t)
    ensures r < 286 && r != END_BLOCK
  {
    if t.Literal? then t.b
    else
      LengthCodeRange(t.len);
      257 + LengthCode(t.len)
  }

  /** The distance symbol of a match. */
  function DistSymbol(t: Token): (r: nat)
    requires Encodable(t) && t.Match?
    ensures r < 30
  {
    DistCodeRange(t.dist);
    DistCode(t.dist)
  }

  /** A code has a codeword for every symbol a token needs. */
  predicate Codes(litLens: seq<nat>, distLens: seq<nat>, t: Token)
    requires Encodable(t)
  {
    && LitSymbol(t) < |litLens| && litLens[LitSymbol(t)] > 0
    && (t.Match? ==> DistSymbol(t) < |distLens| && distLens[DistSymbol(t)] > 0)
  }

  predicate CodesAll(litLens: seq<nat>, distLens: seq<nat>, toks: seq<Token>)
  {
    && END_BLOCK < |litLens| && litLens[END_BLOCK] > 0
    && forall i :: 0 <= i < |toks| ==> Encodable(toks[i]) && Codes(litLens, distLens, toks[i])
  }

  function LengthExtraBits(t: Token): seq<bool>
    requires Encodable(t) && t.Match?
  {
    LengthCodeRange(t.len);
    var c := LengthCode(t.len);
    ToBits(t.len - LengthBase(c), LengthExtra(c))
  }

  function DistExtraBits(t: Token): seq<bool>
    requires Encodable(t) && t.Match?
  {
    DistCodeRange(t.dist);
    var c := DistCode(t.dist);
    ToBits(t.dist - DistBase(c), DistExtra(c))
  }

  function TokenBits(litLens: seq<nat>, distLens: seq<nat>, t: Token): seq<bool>
    requires Encodable(t) && Codes(litLens, distLens, t)
  {
    if t.Literal? then CodeWord(litLens, t.b)
    else CodeWord(litLens, LitSymbol(t)) + LengthExtraBits(t)
         + CodeWord(distLens, DistSymbol(t)) + DistExtraBits(t)
  }

  function TokensBits(litLens: seq<nat>, distLens: seq<nat>, toks: seq<Token>): seq<bool>
    requires CodesAll(litLens, distLens, toks)
  {
    if toks == [] then []
    else TokensBits(litLens, distLens, toks[..|toks| - 1]) + TokenBits(litLens, distLens, toks[|toks| - 1])
  }

  /** A whole coded block body. */
  function BodyBits(litLens: seq<nat>, distLens: seq<nat>, toks: seq<Token>): seq<bool>
    requires CodesAll(litLens, distLens, toks)
  {
    TokensBits(litLens, distLens, toks) + CodeWord(litLens, END_BLOCK)
  }

  // ----- decoding gives the tokens' expansion -----

  ghost predicate Decodable(lens: seq<nat>)
  {
    Bounded(lens) && Used(lens, MAX_BITS) <= Pow2(MAX_BITS)
  }

  lemma ReadBack(bits: seq<bool>, pos: nat, v: nat, n: nat)
    requires At(bits, pos, ToBits(v, n)) && v < Pow2(n)
    ensures ReadBits(bits, pos, n) == Some((v, pos + n))
  {
    FromToBits(v, n);
  }

  lemma DecodesMatch(litLens: seq<nat>, distLens: seq<nat>, t: Token, bits: seq<bool>, pos: nat)
    requires Decodable(litLens) && Decodable(distLens)
    requires t.Match? && Encodable(t) && Codes(litLens, distLens, t)
    requires At(bits, pos, TokenBits(litLens, distLens, t))
    ensures var p := pos + litLens[LitSymbol(t)];
            && DecodeSymbol(litLens, bits, pos) == Some((LitSymbol(t), p))
            && DecodeMatch(distLens, bits, p, LitSymbol(t))
               == Some((t.len, t.dist, pos + |TokenBits(litLens, distLens, t)|))
  {
    hide CodeWord, ToBits, FromBits, Pow2, DecodeSymbol, LengthBase, LengthExtra, DistBase, DistExtra, LengthCode, DistCode;
    var a, b, c, d := CodeWord(litLens, LitSymbol(t)), LengthExtraBits(t), CodeWord(distLens, DistSymbol(t)), DistExtraBits(t);
    AtAppend(bits, pos, a + b + c, d);
    AtAppend(bits, pos, a + b, c);
    AtAppend(bits, pos, a, b);
    LengthCodeRange(t.len);
    DistCodeRange(t.dist);
    DecodeEncoded(litLens, LitSymbol(t), bits, pos);
    ReadBack(bits, pos + |a|, t.len - LengthBase(LengthCode(t.len)), |b|);
    DecodeEncoded(distLens, DistSymbol(t), bits, pos + |a| + |b|);
    ReadBack(bits, pos + |a| + |b| + |c|, t.dist - DistBase(DistCode(t.dist)), |d|);
  }

  /** Decoding one token's bits carries out the token and goes on behind it. */
  lemma DecodesToken(litLens: seq<nat>, distLens: seq<nat>, t: Token, bits: seq<bool>, pos: nat, out: seq<byte>)
    requires Decodable(litLens) && Decodable(distLens)
    requires Encodable(t) && Codes(litLens, distLens, t) && (t.Match? ==> t.dist <= |out|)
    requires At(bits, pos, TokenBits(litLens, distLens, t))
    ensures DecodeCodes(litLens, distLens, bits, pos, out)
         == DecodeCodes(litLens, distLens, bits, pos + |TokenBits(litLens, distLens, t)|, ExpandOne(out, t))
  {
    hide CodeWord, DecodeSymbol, DecodeMatch, LengthExtraBits, DistExtraBits, LengthCode, DistCode;
    if t.Literal? {
      DecodeEncoded(litLens, t.b, bits, pos);
    } else {
      DecodesMatch(litLens, distLens, t, bits, pos);
    }
  }

  /** Decoding a run of tokens, from any point before them. */
  lemma {:induction false} DecodesTokens(litLens: seq<nat>, distLens: seq<nat>, toks: seq<Token>,
                                         bits: seq<bool>, pos: nat, out: seq<byte>)
    requires Decodable(litLens) && Decodable(distLens)
    requires CodesAll(litLens, distLens, toks) && ValidTokens(toks, |out|)
    requires At(bits, pos, TokensBits(litLens, distLens, toks))
    ensures DecodeCodes(litLens, distLens, bits, pos, out)
         == DecodeCodes(litLens, distLens, bits, pos + |TokensBits(litLens, distLens, toks)|, Expand(out, toks))
  {
    hide TokenBits, DecodeCodes, ExpandOne, Codes;
    if toks != [] {
      var init, t := toks[..|toks| - 1], toks[|toks| - 1];
      AtAppend(bits, pos, TokensBits(litLens, distLens, init), TokenBits(litLens, distLens, t));
      DecodesTokens(litLens, distLens, init, bits, pos, out);
      DecodesToken(litLens, distLens, t, bits, pos + |TokensBits(litLens, distLens, init)|, Expand(out, init));
    }
  }

  /** A coded block body decodes to the expansion of its tokens. */
  lemma DecodesBody(litLens: seq<nat>, distLens: seq<nat>, toks: seq<Token>,
                    bits: seq<bool>, pos: nat, out: seq<byte>)
    requires Decodable(litLens) && Decodable(distLens)
    requires CodesAll(litLens, distLens, toks) && ValidTokens(toks, |out|)
    requires At(bits, pos, BodyBits(litLens, distLens, toks))
    ensures DecodeCodes(litLens, distLens, bits, pos, out)
         == Some((pos + |BodyBits(litLens, distLens, toks)|, Expand(out, toks)))
  {
    hide TokensBits, Expand, CodeWord, DecodeSymbol, Codes, ValidTokens;
    AtAppend(bits, pos, TokensBits(litLens, distLens, toks), CodeWord(litLens, END_BLOCK));
    DecodesTokens(litLens, distLens, toks, bits, pos, out);
    DecodeEncoded(litLens, END_BLOCK, bits, pos + |TokensBits(litLens, distLens, toks)|);
  }
}
