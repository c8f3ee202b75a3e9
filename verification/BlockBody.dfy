/** `compress_block`: sends the buffered tokens with a pair of codes. */
module BlockBody {
  import opened Bits
  import opened Config
  import opened BitWriters
  import opened PrefixCode
  import opened Inflate
  import opened Tokens
  import opened Blocks
  import opened TokenBuffers
  import opened CodeTables
  import opened TreeSender

  /** The arrays of a tree carry this code. */
  ghost predicate Carries(code: seq<nat>, len: seq<nat>, lens: seq<nat>)
  {
    && Bounded(lens)
    && forall c :: 0 <= c < |lens| && c < |len| && lens[c] != 0 ==>
         len[c] == lens[c] && CodeSet(code, lens, c)
  }

  /** `SEND_CODE` with the code in `lens`. */
  method SendSymbol(w: BitWriter, code: array<nat>, len: array<nat>, c: nat, ghost lens: seq<nat>)
    requires w.Valid() && Carries(code[..], len[..], lens) && c < |lens| && c < len.Length && lens[c] > 0
    modifies w, w.outbuf
    ensures w.Valid() && w.Sent() == old(w.Sent()) + CodeWord(lens, c)
  {
    hide CodeWord, ToBits, Pow2;
    assert CodeSet(code[..], lens, c);
    w.SendBits(code[c], len[c]);
  }

  /** `D_CODE` */
  function DCode(distCode: seq<nat>, dist: nat): nat
    requires |distCode| == 512 && dist < 32768
  {
    if dist < 256 then distCode[dist] else distCode[256 + dist / 128]
  }

  lemma DCodeIs(tables: CodeTables, dist: nat)
    requires tables.Sizes() && tables.DistsReady() && dist < 32768
    ensures DCode(tables.distCode[..], dist) == DistCode(dist + 1)
  {
    hide DistCode;
  }

  /** The length symbol of a match and its extra bits. */
  method SendLength(w: BitWriter, tables: CodeTables, lCode: array<nat>, lLen: array<nat>, lc0: byte,
                    ghost t: Token, ghost lens: seq<nat>)
    requires w.Valid() && tables.Valid() && t.Match? && Encodable(t) && lc0 == t.len - MIN_MATCH
    requires 286 <= lLen.Length && Carries(lCode[..], lLen[..], lens) && LitSymbol(t) < |lens| && lens[LitSymbol(t)] > 0
    modifies w, w.outbuf
    ensures w.Valid() && w.Sent() == old(w.Sent()) + CodeWord(lens, LitSymbol(t)) + LengthExtraBits(t)
  {
    hide CodeWord, ToBits, Pow2, Carries, CodeTables.Valid, LitSymbol, LengthExtraBits, BitWriter.Sent;
    LengthParts(tables, t);
    var lc: int := lc0;
    var code := tables.lengthCode[lc];
    SendSymbol(w, lCode, lLen, code + 256 + 1, lens);
    var extra := LENGTH_EXTRA[code];
    if extra != 0 {
      lc := lc - tables.baseLength[code];
      w.SendBits(lc, extra);
    } else {
      assert w.Sent() == w.Sent() + LengthExtraBits(t);
    }
  }

  /** The length symbol and extra bits of a match, from the tables. */
  lemma LengthParts(tables: CodeTables, t: Token)
    requires tables.Valid() && t.Match? && Encodable(t)
    ensures tables.lengthCode.Length == 256 && tables.baseLength.Length == 29
    ensures var code := tables.lengthCode[t.len - MIN_MATCH];
            && code < 29 && LitSymbol(t) == code + 256 + 1 && LENGTH_EXTRA[code] <= 5
            && (LENGTH_EXTRA[code] == 0 ==> LengthExtraBits(t) == [])
            && (LENGTH_EXTRA[code] != 0 ==>
                 && var lc := t.len - MIN_MATCH - tables.baseLength[code];
                    0 <= lc < Pow2(LENGTH_EXTRA[code]) && LengthExtraBits(t) == ToBits(lc, LENGTH_EXTRA[code]))
  {
    hide ToBits, Pow2, LengthCode, DistCode;
    LengthCodeRange(t.len);
    assert LENGTH_EXTRA[28] == 0;
  }

  /** The distance symbol of a match and its extra bits. */
  method SendDistance(w: BitWriter, tables: CodeTables, dCode: array<nat>, dLen: array<nat>, dist0: nat,
                      ghost t: Token, ghost lens: seq<nat>)
    requires w.Valid() && tables.Valid() && t.Match? && Encodable(t) && dist0 == t.dist - 1
    requires 30 <= dLen.Length && Carries(dCode[..], dLen[..], lens) && DistSymbol(t) < |lens| && lens[DistSymbol(t)] > 0
    modifies w, w.outbuf
    ensures w.Valid() && w.Sent() == old(w.Sent()) + CodeWord(lens, DistSymbol(t)) + DistExtraBits(t)
  {
    hide CodeWord, ToBits, Pow2, Carries, CodeTables.Valid, DistSymbol, DistExtraBits, BitWriter.Sent, DCode;
    DistParts(tables, t);
    var dist: int := dist0;
    var code := DCode(tables.distCode[..], dist);
    SendSymbol(w, dCode, dLen, code, lens);
    var extra := DIST_EXTRA[code];
    if extra != 0 {
      dist := dist - tables.baseDist[code];
      w.SendBits(dist, extra);
    } else {
      assert w.Sent() == w.Sent() + DistExtraBits(t);
    }
  }

  /** The distance symbol and extra bits of a match, from the tables. */
  lemma DistParts(tables: CodeTables, t: Token)
    requires tables.Valid() && t.Match? && Encodable(t)
    ensures tables.distCode.Length == 512 && tables.baseDist.Length == 30
    ensures var code := DCode(tables.distCode[..], t.dist - 1);
            && code < 30 && DistSymbol(t) == code && DIST_EXTRA[code] <= 13
            && (DIST_EXTRA[code] == 0 ==> DistExtraBits(t) == [])
            && (DIST_EXTRA[code] != 0 ==>
                 && var dist := t.dist - 1 - tables.baseDist[code];
                    0 <= dist < Pow2(DIST_EXTRA[code]) && DistExtraBits(t) == ToBits(dist, DIST_EXTRA[code]))
  {
    hide ToBits, Pow2, LengthCode, DistCode, DCode;
    DistCodeRange(t.dist);
    DCodeIs(tables, t.dist - 1);
    ExtraFits(DistCode(t.dist));
  }

  lemma ExtraFits(c: nat)
    requires c < 30
    ensures DIST_EXTRA[c] <= 13
  {
  }

  // ----- reading the flags back -----

  /** Every flag byte is in the buffer, the last one perhaps not full. */
  ghost predicate FlagsSaved(toks: seq<Token>, flagBuf: seq<nat>)
  {
    forall k :: 0 <= k && 8 * k < |toks| ==> k < |flagBuf| && flagBuf[k] == FlagByte(toks, k)
  }

  /** At token lx: `fx` bytes have been fetched, and `flag` holds what is left of the last. */
  ghost predicate FlagAt(toks: seq<Token>, lx: nat, fx: nat, flag: nat)
  {
    && lx <= |toks| && fx == (lx + 7) / 8
    && (lx % 8 != 0 ==> flag == FromBits(FlagBits(toks)[lx..if 8 * fx <= |toks| then 8 * fx else |toks|]))
  }

  /** After the next byte has been fetched if one is due, the lowest bit tells what
      token lx is. */
  lemma FlagTells(toks: seq<Token>, flagBuf: seq<nat>, lx: nat, fx: nat, flag: nat)
    requires FlagsSaved(toks, flagBuf) && FlagAt(toks, lx, fx, flag) && lx < |toks|
    ensures lx % 8 == 0 ==> fx < |flagBuf|
    ensures var flag' := if lx % 8 == 0 then flagBuf[fx] else flag;
            var fx' := if lx % 8 == 0 then fx + 1 else fx;
            && (flag' % 2 == 1 <==> toks[lx].Match?)
            && FlagAt(toks, lx + 1, fx', flag' / 2)
  {
    hide FromBits;
    if lx % 8 == 0 {
      assert 8 * fx == lx;
    }
    var fx' := if lx % 8 == 0 then fx + 1 else fx;
    var s := FlagBits(toks)[lx..if 8 * fx' <= |toks| then 8 * fx' else |toks|];
    assert s != [];
    assert s[1..] == FlagBits(toks)[lx + 1..if 8 * fx' <= |toks| then 8 * fx' else |toks|];
    LowFlag(s);
  }

  lemma LowFlag(s: seq<bool>)
    requires s != []
    ensures FromBits(s) % 2 == (if s[0] then 1 else 0) && FromBits(s) / 2 == FromBits(s[1..])
  {
  }

  lemma TokensBitsNext(litLens: seq<nat>, distLens: seq<nat>, toks: seq<Token>, i: nat)
    requires CodesAll(litLens, distLens, toks) && i < |toks|
    ensures CodesAll(litLens, distLens, toks[..i]) && CodesAll(litLens, distLens, toks[..i + 1])
    ensures TokensBits(litLens, distLens, toks[..i + 1])
         == TokensBits(litLens, distLens, toks[..i]) + TokenBits(litLens, distLens, toks[i])
  {
    assert toks[..i + 1][..i] == toks[..i];
    hide TokenBits, Codes, Encodable;
  }

  lemma MatchesNext(toks: seq<Token>, i: nat)
    requires i < |toks|
    ensures Matches(toks[..i + 1]) == Matches(toks[..i]) + (if toks[i].Match? then 1 else 0)
  {
    assert toks[..i + 1][..i] == toks[..i];
  }

  /** Sends one token from the buffers. */
  method SendToken(w: BitWriter, tables: CodeTables, lCode: array<nat>, lLen: array<nat>, dCode: array<nat>, dLen: array<nat>,
                   lc: byte, isMatch: bool, dist: nat, ghost t: Token, ghost litLens: seq<nat>, ghost distLens: seq<nat>)
    requires w.Valid() && tables.Valid() && Encodable(t) && isMatch == t.Match? && lc == StoredByte(t)
    requires t.Match? ==> dist == t.dist - 1
    requires 286 <= lLen.Length && Carries(lCode[..], lLen[..], litLens)
    requires 30 <= dLen.Length && Carries(dCode[..], dLen[..], distLens)
    requires Codes(litLens, distLens, t)
    modifies w, w.outbuf
    ensures w.Valid() && w.Sent() == old(w.Sent()) + TokenBits(litLens, distLens, t)
  {
    hide CodeWord, Carries, LengthCode, DistCode, LengthExtraBits, DistExtraBits;
    if !isMatch {
      SendSymbol(w, lCode, lLen, lc, litLens);
    } else {
      ghost var sent := w.Sent();
      SendLength(w, tables, lCode, lLen, lc, t, litLens);
      assert dCode[..] == old(dCode[..]) && dLen[..] == old(dLen[..]);
      SendDistance(w, tables, dCode, dLen, dist, t, distLens);
      Grouped(sent, CodeWord(litLens, LitSymbol(t)), LengthExtraBits(t), CodeWord(distLens, DistSymbol(t)), DistExtraBits(t));
    }
  }

  lemma Grouped(s: seq<bool>, a: seq<bool>, b: seq<bool>, c: seq<bool>, d: seq<bool>)
    ensures s + a + b + c + d == s + (a + b + c + d)
  {
  }

  /** Token lx of the buffers: `dx`, `fx` and `flag` move on as `compress_block`
      moves them. */
  method SendNext(w: BitWriter, tables: CodeTables, tb: TokenBuffer,
                  lCode: array<nat>, lLen: array<nat>, dCode: array<nat>, dLen: array<nat>,
                  lx: nat, dx0: nat, fx0: nat, flag0: nat,
                  ghost toks: seq<Token>, ghost litLens: seq<nat>, ghost distLens: seq<nat>)
    returns (dx: nat, fx: nat, flag: nat)
    requires w.Valid() && tables.Valid() && lx < |toks|
    requires Buffered(toks, tb.lBuf[..], tb.dBuf[..]) && FlagsSaved(toks, tb.flagBuf[..])
    requires 286 <= lLen.Length && Carries(lCode[..], lLen[..], litLens)
    requires 30 <= dLen.Length && Carries(dCode[..], dLen[..], distLens)
    requires CodesAll(litLens, distLens, toks)
    requires FlagAt(toks, lx, fx0, flag0) && dx0 == Matches(toks[..lx])
    modifies w, w.outbuf
    ensures w.Valid() && Encodable(toks[lx]) && Codes(litLens, distLens, toks[lx])
    ensures w.Sent() == old(w.Sent()) + TokenBits(litLens, distLens, toks[lx])
    ensures FlagAt(toks, lx + 1, fx, flag) && dx == Matches(toks[..lx + 1])
  {
    hide Carries, TokenBits, FlagsSaved, FlagAt, Matches, StoredByte, Codes, Encodable;
    ghost var t := toks[lx];
    FlagTells(toks, tb.flagBuf[..], lx, fx0, flag0);
    MatchesNext(toks, lx);
    assert Slot(toks, lx, tb.lBuf[..], tb.dBuf[..]) && Encodable(toks[lx]);
    dx, fx, flag := dx0, fx0, flag0;
    if lx % 8 == 0 {
      flag := tb.flagBuf[fx];
      fx := fx + 1;
    }
    var lc := tb.lBuf[lx];
    var isMatch := flag % 2 != 0;
    var dist := 0;
    if isMatch {
      dist := tb.dBuf[dx];
      dx := dx + 1;
    }
    SendToken(w, tables, lCode, lLen, dCode, dLen, lc, isMatch, dist, t, litLens, distLens);
    flag := flag / 2;
  }

  /** `compress_block`: all tokens, then the end of the block. */
  method CompressBlock(w: BitWriter, tables: CodeTables, tb: TokenBuffer,
                       lCode: array<nat>, lLen: array<nat>, dCode: array<nat>, dLen: array<nat>,
                       ghost litLens: seq<nat>, ghost distLens: seq<nat>)
    requires w.Valid() && tables.Valid() && w.outbuf != tb.lBuf
    requires tb.lastLit == |tb.toks| && Buffered(tb.toks, tb.lBuf[..], tb.dBuf[..]) && FlagsSaved(tb.toks, tb.flagBuf[..])
    requires 286 <= lLen.Length && Carries(lCode[..], lLen[..], litLens)
    requires 30 <= dLen.Length && Carries(dCode[..], dLen[..], distLens)
    requires CodesAll(litLens, distLens, tb.toks)
    modifies w, w.outbuf
    ensures w.Valid() && w.Sent() == old(w.Sent()) + BodyBits(litLens, distLens, tb.toks)
  {
    hide Carries, TokensBits, TokenBits, CodeWord, FlagsSaved, FlagAt, Matches, Codes, Encodable, Buffered, CodesAll;
    hide CodeTables.Valid;
    ghost var toks, sent := tb.toks, w.Sent();
    StartBody(litLens, distLens, toks, sent);
    var lx, dx, fx, flag := 0, 0, 0, 0;
    while lx < tb.lastLit
      invariant 0 <= lx <= |toks| && FlagAt(toks, lx, fx, flag) && dx == Matches(toks[..lx])
      invariant w.Valid() && CodesAll(litLens, distLens, toks[..lx])
      invariant w.Sent() == sent + TokensBits(litLens, distLens, toks[..lx])
    {
      TokensBitsNext(litLens, distLens, toks, lx);
      dx, fx, flag := SendNext(w, tables, tb, lCode, lLen, dCode, dLen, lx, dx, fx, flag, toks, litLens, distLens);
      Regrouped(sent, TokensBits(litLens, distLens, toks[..lx]), TokenBits(litLens, distLens, toks[lx]));
      lx := lx + 1;
    }
    assert toks[..lx] == toks;
    EndHasCode(litLens, distLens, toks);
    Regrouped(sent, TokensBits(litLens, distLens, toks), CodeWord(litLens, END_BLOCK));
    SendSymbol(w, lCode, lLen, END_BLOCK, litLens);
  }

  lemma Regrouped(s: seq<bool>, a: seq<bool>, b: seq<bool>)
    ensures s + a + b == s + (a + b)
  {
  }

  lemma EndHasCode(litLens: seq<nat>, distLens: seq<nat>, toks: seq<Token>)
    requires CodesAll(litLens, distLens, toks)
    ensures END_BLOCK < |litLens| && litLens[END_BLOCK] > 0
  {
  }

  lemma StartBody(litLens: seq<nat>, distLens: seq<nat>, toks: seq<Token>, sent: seq<bool>)
    requires CodesAll(litLens, distLens, toks)
    ensures CodesAll(litLens, distLens, toks[..0]) && sent + TokensBits(litLens, distLens, toks[..0]) == sent
    ensures Matches(toks[..0]) == 0 && FlagAt(toks, 0, 0, 0)
  {
    assert toks[..0] == [] && sent + [] == sent;
  }
}
