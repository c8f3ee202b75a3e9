/** A sequence of blocks: what has been sent so far decodes to the output so far,
    whatever comes after it. And tokens tell a stretch of the input. */
module Streams {
  import opened Bits
  import opened BitWriters
  import opened PrefixCode
  import opened Inflate
  import opened Tokens
  import opened Blocks
  import opened TokenBuffers
  import opened BlockWriters
  import opened Chains

  /** Decoding what comes after `start`, whatever is sent next, comes to the end of
      what is sent already with this output. */
  ghost predicate Resumes(start: seq<bool>, sent: seq<bool>, out: seq<byte>)
  {
    && start <= sent
    && forall more: seq<bool> :: InflateBlocks(sent + more, |start|, []) == InflateBlocks(sent + more, |sent|, out)
  }

  lemma ResumesAtStart(sent: seq<bool>)
    ensures Resumes(sent, sent, [])
  {
  }

  lemma BlockInPlace(before: seq<bool>, bits: seq<bool>, more: seq<bool>)
    ensures At(before + bits + more, |before|, bits)
  {
  }

  /** A block that is not the last moves the decoder on. */
  lemma ResumesNext(start: seq<bool>, before: seq<bool>, after: seq<bool>, out: seq<byte>, blk: Block)
    requires Resumes(start, before, out) && Flushed(before, after, blk, false, |out|)
    ensures Resumes(start, after, BlockOutput(blk, out))
  {
    hide InflateBlock, BlockBits, GoodBlock, BlockOutput, At;
    var bits := BlockBits(blk, false, |out|, |before|);
    forall more: seq<bool>
      ensures InflateBlocks(after + more, |start|, []) == InflateBlocks(after + more, |after|, BlockOutput(blk, out))
    {
      assert after + more == before + (bits + more);
      BlockInPlace(before, bits, more);
      ReadsBlock(blk, false, after + more, |before|, out);
    }
  }

  /** Decoding ends in the last byte sent, whatever comes after it. */
  ghost predicate Ended(start: seq<bool>, sent: seq<bool>, out: seq<byte>)
  {
    && start <= sent && |sent| % 8 == 0
    && exists pos: nat :: |sent| - 8 < pos <= |sent| && EndsAt(start, sent, out, pos)
  }

  ghost predicate EndsAt(start: seq<bool>, sent: seq<bool>, out: seq<byte>, pos: nat)
    requires start <= sent
  {
    forall more: seq<bool> :: InflateBlocks(sent + more, |start|, []) == Some((pos, out))
  }

  /** The last block ends the decoding, in the last byte sent. */
  lemma Finishes(start: seq<bool>, before: seq<bool>, after: seq<bool>, out: seq<byte>, blk: Block)
    requires Resumes(start, before, out) && Flushed(before, after, blk, true, |out|)
    ensures Ended(start, after, BlockOutput(blk, out))
  {
    hide InflateBlock, BlockBits, GoodBlock, BlockOutput, At, Padding;
    var bits := BlockBits(blk, true, |out|, |before|);
    var pad := Padding(|before + bits|);
    PaddingAligns(|before + bits|);
    forall more: seq<bool>
      ensures InflateBlocks(after + more, |start|, []) == Some((|before| + |bits|, BlockOutput(blk, out)))
    {
      assert after + more == before + (bits + (pad + more)) == before + bits + (pad + more);
      BlockInPlace(before, bits, pad + more);
      ReadsBlock(blk, true, after + more, |before|, out);
    }
    assert EndsAt(start, after, BlockOutput(blk, out), |before| + |bits|);
  }

  // ----- what has been sent, block by block -----

  /** One block sent, and the tokens it was made of. */
  datatype Sending = Sending(before: seq<bool>, after: seq<bool>, blk: Block, dyn: Block, offered: bool, toks: seq<Token>, eof: bool, from: nat)

  /** The block stands for these tokens in the cheapest form; the bytes as they are
      are on offer unless it is long; and it ends where one had to be flushed. */
  ghost predicate GoodSending(s: Sending)
  {
    && Flushed(s.before, s.after, s.blk, s.eof, s.from)
    && Cheapest(s.blk, s.dyn, s.toks, s.offered, TokensLength(s.toks), s.from)
    && (!s.offered ==> TokensLength(s.toks) > MAX_DIST)
    && NoneDue(s.toks, |s.toks| - 1) && (s.eof || Due(s.toks))
  }

  /** With the last of these tokens the block had to be flushed. */
  ghost predicate Due(toks: seq<Token>)
  {
    toks != [] && AllEncodable(toks) && MustFlush(toks, TokensLength(toks[..|toks| - 1]) + 1)
  }

  /** None of the first n tokens was one to flush the block. */
  ghost predicate NoneDue(toks: seq<Token>, n: int)
  {
    forall k :: 0 < k <= n && k <= |toks| ==> !Due(toks[..k])
  }

  lemma OneMoreNotDue(toks: seq<Token>, t: Token)
    requires NoneDue(toks, |toks|)
    ensures NoneDue(toks + [t], |toks|)
    ensures !Due(toks + [t]) ==> NoneDue(toks + [t], |toks| + 1)
  {
    hide Due;
    forall k | 0 < k <= |toks|
      ensures (toks + [t])[..k] == toks[..k]
    {
    }
    assert (toks + [t])[..|toks| + 1] == toks + [t];
  }

  /** From `start` on, what is sent are these blocks. */
  ghost predicate Trail(start: seq<bool>, sent: seq<bool>, ss: seq<Sending>)
    decreases |ss|
  {
    if |ss| == 0 then sent == start
    else
      var n := |ss| - 1;
      ss[n].after == sent && GoodSending(ss[n]) && Trail(start, ss[n].before, ss[..n])
  }

  /** The tokens of all blocks. */
  function TrailToks(ss: seq<Sending>): seq<Token>
  {
    if ss == [] then [] else TrailToks(ss[..|ss| - 1]) + ss[|ss| - 1].toks
  }

  lemma TrailGrows(start: seq<bool>, sent: seq<bool>, ss: seq<Sending>, s: Sending)
    requires Trail(start, sent, ss) && GoodSending(s) && s.before == sent
    ensures Trail(start, s.after, ss + [s]) && TrailToks(ss + [s]) == TrailToks(ss) + s.toks
  {
    hide GoodSending;
    assert (ss + [s])[..|ss|] == ss;
  }

  // ----- tokens tell the input -----

  /** The tokens, after the first `from` bytes, stand for the bytes up to `upto`. */
  ghost predicate Told(data: seq<byte>, from: nat, upto: nat, toks: seq<Token>)
  {
    && from <= upto <= |data|
    && ValidTokens(toks, from) && Expand(data[..from], toks) == data[..upto]
  }

  /** `len` bytes at pos are the same as those `dist` before them. */
  ghost predicate MatchAt(data: seq<byte>, pos: nat, dist: nat, len: nat)
  {
    && 0 < dist <= pos && pos + len <= |data|
    && forall i :: pos <= i < pos + len ==> data[i] == data[i - dist]
  }

  lemma ToldNothing(data: seq<byte>, from: nat)
    requires from <= |data|
    ensures Told(data, from, from, [])
  {
  }

  lemma ToldLiteral(data: seq<byte>, from: nat, upto: nat, toks: seq<Token>)
    requires Told(data, from, upto, toks) && upto < |data|
    ensures Told(data, from, upto + 1, toks + [Literal(data[upto])])
  {
    assert (toks + [Literal(data[upto])])[..|toks|] == toks;
  }

  /** Copying a match byte by byte, even onto itself, gives what is there. */
  lemma {:induction false} CopyIsData(data: seq<byte>, pos: nat, dist: nat, len: nat)
    requires MatchAt(data, pos, dist, len)
    ensures CopyMatch(data[..pos], len, dist) == data[..pos + len]
    decreases len
  {
    if len > 0 {
      assert data[..pos] + [data[..pos][pos - dist]] == data[..pos + 1];
      CopyIsData(data, pos + 1, dist, len - 1);
    }
  }

  lemma ToldMatch(data: seq<byte>, from: nat, upto: nat, toks: seq<Token>, len: nat, dist: nat)
    requires Told(data, from, upto, toks) && MatchAt(data, upto, dist, len)
    requires MIN_MATCH <= len <= MAX_MATCH && dist <= 32768
    ensures Told(data, from, upto + len, toks + [Match(len, dist)])
  {
    assert (toks + [Match(len, dist)])[..|toks|] == toks;
    CopyIsData(data, upto, dist, len);
  }

  lemma ToldGrows(data: seq<byte>, data': seq<byte>, from: nat, upto: nat, toks: seq<Token>)
    requires Told(data, from, upto, toks) && data <= data'
    ensures Told(data', from, upto, toks)
  {
    assert data'[..from] == data[..from] && data'[..upto] == data[..upto];
  }

  /** What a flushed block decodes to. */
  lemma BlockTells(data: seq<byte>, from: nat, upto: nat, toks: seq<Token>, blk: Block,
                   window: seq<byte>, base: nat, start: int, storedLen: nat)
    requires Told(data, from, upto, toks) && GoodBlock(blk, from) && Holds(blk, toks, start, storedLen, window)
    requires base + start == from && upto == from + storedLen
    requires start >= 0 ==> start + storedLen <= |window| && window[..start + storedLen] == data[base..upto]
    ensures BlockOutput(blk, data[..from]) == data[..upto]
  {
    hide Expand, ValidTokens;
    if blk.Stored? {
      assert window[start..start + storedLen] == window[..start + storedLen][start..] == data[from..upto];
    }
  }
}
