/** `init_block`, `ct_tally` and `flush_block`: tokens are collected and their
    symbols counted; a full block is written in the smallest of three forms. */
module BlockWriters {
  import opened Bits
  import opened Config
  import opened BitWriters
  import opened Sums
  import opened PrefixCode
  import opened Inflate
  import opened Tokens
  import opened RunLength
  import opened Blocks
  import opened Huffman
  import opened Heaps
  import opened Trees
  import opened CodeLengths
  import opened TreeBuilder
  import opened Histogram
  import opened TokenBuffers
  import opened TreeSender
  import opened CodeTables
  import opened BlockBody
  import opened BlockCosts
  import opened LeastBodies

  class BlockWriter {
    const w: BitWriter
    const b: Builder
    const l: Tree
    const d: Tree
    const bl: Tree
    const tb: TokenBuffer
    const tables: CodeTables
    ghost const Repr: set<object>

    ghost function TreeArrays(): set<object>
    {
      {l.fc, l.dl, d.fc, d.dl, bl.fc, bl.dl, b.heap, b.depth, b.blCount}
    }

    ghost function TableArrays(): set<object>
    {
      {tables.lengthCode, tables.distCode, tables.baseLength, tables.baseDist,
       tables.staticLCode, tables.staticLLen, tables.staticDCode, tables.staticDLen}
    }

    /** What is changed while a block is planned. */
    ghost function Work(): set<object>
    {
      {b, l, d, bl} + TreeArrays()
    }

    /** How the parts are put together; nothing of this ever changes. */
    ghost predicate Wired()
    {
      && Separate(b, l, d, bl)
      && l.desc == L_DESC && d.desc == D_DESC && bl.desc == BL_DESC
      && w.outbuf != tb.lBuf
      && {tb.dBuf, tb.flagBuf} !! TreeArrays()
      && TableArrays() !! TreeArrays() && TableArrays() !! {tb.dBuf, tb.flagBuf}
      && Repr == {this, w, w.outbuf} + TreeParts(b, l, d, bl) + TableParts(tb, tables)
    }

    /** The symbol frequencies are those of the tokens so far and the block's end. */
    ghost predicate Counting()
      requires l.fc.Length >= L_ELEMS && d.fc.Length >= D_CODES && bl.fc.Length >= BL_CODES
      reads tb, l.fc, d.fc, bl.fc, b
    {
      && AllEncodable(tb.toks)
      && Frequencies(l.fc[..], BlockNumbers(tb.toks), L_ELEMS)
      && Frequencies(d.fc[..], DistNumbers(tb.toks), D_CODES)
      && (forall c :: 0 <= c < BL_CODES ==> bl.fc[c] == 0)
      && b.optLen == 0 && b.staticLen == 0
    }

    ghost predicate Valid()
      reads this, Repr
    {
      && Wired() && w.Valid() && tb.Valid() && tables.Valid()
      && l.fc.Length >= L_ELEMS && d.fc.Length >= D_CODES && bl.fc.Length >= BL_CODES
      && Counting()
    }

    /** All bits sent so far. */
    ghost function Output(): seq<bool>
      requires Valid()
      reads this, Repr
    {
      w.Sent()
    }

    /** The bits sent make whole bytes, and all of them are put. */
    ghost predicate Whole()
      requires Valid()
      reads this, Repr
    {
      w.biValid == 0 && w.Sent() == BytesToBits(w.Bytes())
    }

    /** Puts the parts together and starts the first block. */
    constructor (w: BitWriter, b: Builder, l: Tree, d: Tree, bl: Tree, tb: TokenBuffer, tables: CodeTables)
      requires w.Valid() && tb.Valid() && tables.Valid()
      requires Separate(b, l, d, bl) && l.desc == L_DESC && d.desc == D_DESC && bl.desc == BL_DESC
      requires w.outbuf !in TableParts(tb, tables)
      requires TreeParts(b, l, d, bl) !! TableParts(tb, tables)
      requires {tables.lengthCode, tables.distCode, tables.baseLength, tables.baseDist,
                tables.staticLCode, tables.staticLLen, tables.staticDCode, tables.staticDLen} !! {tb.dBuf, tb.flagBuf}
      modifies TreeParts(b, l, d, bl), TableParts(tb, tables)
      ensures Valid() && this.w == w && this.tb == tb && tb.toks == []
      ensures Repr == {this, w, w.outbuf} + TreeParts(b, l, d, bl) + TableParts(tb, tables)
    {
      hide L_DESC, D_DESC, BL_DESC, CodeTables.Valid, BitWriter.Valid, BlockWriter.Counting, Separate;
      this.w, this.b, this.l, this.d, this.bl, this.tb, this.tables := w, b, l, d, bl, tb, tables;
      Repr := {this, w, w.outbuf} + TreeParts(b, l, d, bl) + TableParts(tb, tables);
      new;
      InitBlock();
    }

    /** `init_block` */
    method InitBlock()
      requires Wired() && tb.lBuf.Length == INBUFSIZ && tb.dBuf.Length == DIST_BUFSIZE && tb.flagBuf.Length == LIT_BUFSIZE / 8
      requires tb.dBuf != tb.flagBuf
      modifies l.fc, d.fc, bl.fc, b, tb
      ensures tb.Valid() && tb.toks == []
      ensures l.fc.Length >= L_ELEMS && d.fc.Length >= D_CODES && bl.fc.Length >= BL_CODES && Counting()
    {
      hide TokenBuffer.Valid, Frequencies, AllEncodable, DistNumbers, BlockNumbers, L_DESC, D_DESC, BL_DESC;
      DescsValid();
      BlDescIs();
      ZeroFreq(l.fc, L_ELEMS);
      ZeroFreq(d.fc, D_CODES);
      ZeroFreq(bl.fc, BL_CODES);
      l.fc[END_BLOCK] := 1;
      b.optLen := 0;
      b.staticLen := 0;
      tb.Clear();
      NoTokens(l.fc[..], d.fc[..]);
    }

    /** What `ct_tally` counts on. */
    ghost predicate TallyApart()
    {
      && this in Repr && w in Repr && tb in Repr && b in Repr
      && {tb.dBuf, tb.flagBuf, l.fc, d.fc, bl.fc} <= Repr && tb.lBuf in Repr && w.outbuf in Repr
      && w.outbuf != tb.lBuf && l.fc != d.fc && bl.fc != l.fc && bl.fc != d.fc
      && {tb.dBuf, tb.flagBuf} !! {l.fc, d.fc, bl.fc}
      && TableArrays() !! {l.fc, d.fc} && TableArrays() !! {tb.dBuf, tb.flagBuf} && TableArrays() <= Repr
    }

    lemma TallyParts()
      requires Wired()
      ensures TallyApart()
    {
      hide L_DESC, D_DESC, BL_DESC;
    }

    /** `ct_tally`: takes in a literal (dist 0) or a match of length lc + 3. The
        result says that the block must be flushed now. */
    method CtTally(dist: nat, lc: byte, inLength: int) returns (flush: bool)
      requires Valid() && tb.lastLit < LIT_BUFSIZE - 1 && dist <= 32768
      modifies Repr
      ensures Valid() && Output() == old(Output())
      ensures tb.toks == old(tb.toks) + [if dist == 0 then Literal(lc) else Match(lc + MIN_MATCH, dist)]
      ensures flush <==> MustFlush(tb.toks, inLength)
      ensures !flush ==> tb.lastLit < LIT_BUFSIZE - 1
    {
      hide BlockWriter.Wired, CodeTables.Valid, TokenBuffer.Valid, BitWriter.Valid, BitWriter.Sent,
        Frequencies, AllEncodable, DistNumbers, BlockNumbers, L_DESC, D_DESC, BL_DESC, Estimate, Matches;
      TallyParts();
      ghost var t := if dist == 0 then Literal(lc) else Match(lc + MIN_MATCH, dist);
      TokenFits(tb.toks, t);
      tb.Store(dist, lc, t);
      CountToken(l.fc, d.fc, tables, dist, lc, t, old(tb.toks));
      LastLitSmall();
      HowMany();
      if tb.lastLit % 0x1000 == 0 {
        var outLength := UpperBound(d.fc, tb.lastLit, tb.toks);
        if tb.lastDist < tb.lastLit / 2 && outLength < inLength / 2 {
          return true;
        }
      }
      return tb.lastLit == LIT_BUFSIZE - 1 || tb.lastDist == DIST_BUFSIZE;
    }

    lemma HasSymbols()
      requires Valid()
      ensures AllEncodable(tb.toks)
    {
      hide BlockWriter.Wired, AllEncodable;
    }

    lemma HowMany()
      requires tb.Valid()
      ensures tb.lastLit == |tb.toks| && tb.lastDist == Matches(tb.toks)
    {
    }

    /** The three codes are built, the sizes are known. */
    ghost predicate Planned(k: nat)
      reads b, l, l.fc, l.dl, d, d.fc, d.dl, bl.fc, bl.dl, tb
    {
      Plan(tb.toks, l.fc[..], l.dl[..], l.maxCode, d.fc[..], d.dl[..], d.maxCode, bl.fc[..], bl.dl[..], k,
           b.optLen, b.staticLen)
    }

    /** The block with these codes. */
    ghost function PlannedBlock(k: nat): (blk: Block)
      requires Planned(k)
      reads b, l, l.fc, l.dl, d, d.fc, d.dl, bl.fc, bl.dl, tb
    {
      Dynamic(l.dl[..l.maxCode + 1], d.dl[..d.maxCode + 1], bl.dl[..BL_CODES], k, tb.toks)
    }

    /** Builds the literal and the distance tree. */
    method BuildBoth()
      requires Separate(b, l, d, bl) && l.desc == L_DESC && d.desc == D_DESC && L_ELEMS <= l.fc.Length && D_CODES <= d.fc.Length
      requires AllEncodable(tb.toks) && |tb.toks| < LIT_BUFSIZE && b.optLen == 0 && b.staticLen == 0
      requires Frequencies(l.fc[..], BlockNumbers(tb.toks), L_ELEMS) && Frequencies(d.fc[..], DistNumbers(tb.toks), D_CODES)
      modifies b, b.heap, b.depth, b.blCount, l, l.fc, l.dl, d, d.fc, d.dl
      ensures BothBuilt(tb.toks, l.fc[..], l.dl[..], l.maxCode, d.fc[..], d.dl[..], d.maxCode)
      ensures b.optLen == Cost(BlockNumbers(tb.toks), CostsOf(L_DESC, l.dl[..])) + Cost(DistNumbers(tb.toks), CostsOf(D_DESC, d.dl[..]))
      ensures b.staticLen == Cost(BlockNumbers(tb.toks), StaticCostsOf(L_DESC)) + Cost(DistNumbers(tb.toks), StaticCostsOf(D_DESC))
    {
      hide L_DESC, D_DESC, BL_DESC, AllEncodable, Frequencies, BlockNumbers, DistNumbers, Built, Grown, Total, LeafSet, OptCosts, StaticCosts, Cost;
      DescsValid();
      ghost var toks, lf, df := tb.toks, l.fc[..L_ELEMS], d.fc[..D_CODES];
      NumbersBelow(toks);
      FrontCounted(l.fc[..], lf, BlockNumbers(toks), L_ELEMS);
      FrontCounted(d.fc[..], df, DistNumbers(toks), D_CODES);
      ghost var lmerges := b.BuildTree(l);
      OptCostIsCost(L_DESC, lf, l.dl[..], BlockNumbers(toks));
      StaticCostIsCost(L_DESC, lf, BlockNumbers(toks));
      assert d.fc[..] == old(d.fc[..]);
      ghost var dmerges := b.BuildTree(d);
      OptCostIsCost(D_DESC, df, d.dl[..], DistNumbers(toks));
      StaticCostIsCost(D_DESC, df, DistNumbers(toks));
      BothReady(toks, lf, l.fc[..], l.dl[..], l.maxCode, lmerges, df, d.fc[..], d.dl[..], d.maxCode, dmerges);
    }

    /** Builds the code length tree for the two trees that are built. */
    method PlanHeader() returns (maxBlindex: int)
      requires Separate(b, l, d, bl) && bl.desc == BL_DESC
      requires L_ELEMS < l.dl.Length && D_CODES < d.dl.Length && BL_CODES <= bl.fc.Length == bl.dl.Length
      requires forall c :: 0 <= c < BL_CODES ==> bl.fc[c] == 0
      requires BothBuilt(tb.toks, l.fc[..], l.dl[..], l.maxCode, d.fc[..], d.dl[..], d.maxCode) && AllEncodable(tb.toks)
      requires b.optLen == Cost(BlockNumbers(tb.toks), CostsOf(L_DESC, l.dl[..])) + Cost(DistNumbers(tb.toks), CostsOf(D_DESC, d.dl[..]))
      requires b.staticLen == Cost(BlockNumbers(tb.toks), StaticCostsOf(L_DESC)) + Cost(DistNumbers(tb.toks), StaticCostsOf(D_DESC))
      modifies b, b.heap, b.depth, b.blCount, l.dl, d.dl, bl, bl.fc, bl.dl
      ensures 3 <= maxBlindex < BL_CODES && Planned(maxBlindex + 1)
    {
      hide L_DESC, D_DESC, BL_DESC, AllEncodable, BlockNumbers, DistNumbers, Cost, BothBuilt, LeastHeader, Order,
        Complete, Covered, HasCodes, CodesSet, TreesBits, Syms, CostsOf, StaticCostsOf, Plan;
      ghost var ldl, ddl := l.dl[..], d.dl[..];
      BothSendable(tb.toks, l.fc[..], ldl, l.maxCode, d.fc[..], ddl, d.maxCode);
      ghost var opt, static_ := b.optLen, b.staticLen;
      maxBlindex := BuildBlTree(b, l, d, bl);
      PlanReady(tb.toks, l.fc[..], ldl, l.maxCode, d.fc[..], ddl, d.maxCode, bl.fc[..], bl.dl[..], maxBlindex + 1, opt, static_);
    }

    /** Everything that is decided before a block is written. */
    method PlanBlock() returns (maxBlindex: int)
      requires Separate(b, l, d, bl) && l.desc == L_DESC && d.desc == D_DESC && bl.desc == BL_DESC
      requires L_ELEMS <= l.fc.Length && D_CODES <= d.fc.Length && BL_CODES <= bl.fc.Length
      requires Counting() && |tb.toks| < LIT_BUFSIZE
      modifies Work()
      ensures 3 <= maxBlindex < BL_CODES && Planned(maxBlindex + 1)
    {
      hide L_DESC, D_DESC, BL_DESC, AllEncodable, Frequencies, BlockNumbers, DistNumbers, Cost, BothBuilt,
        CostsOf, StaticCostsOf, Plan;
      DescsValid();
      TreeRoom(l, d);
      BuildBoth();
      maxBlindex := PlanHeader();
    }

    /** The block type and the final flag. */
    method SendKind(kind: nat, eof: bool)
      requires w.Valid() && kind < 3
      modifies w, w.outbuf
      ensures w.Valid() && w.Sent() == old(w.Sent()) + ToBits(2 * kind + (if eof then 1 else 0), 3)
    {
      hide ToBits;
      assert Pow2(3) == 8 by { SmallPowers(); }
      w.SendBits(2 * kind + (if eof then 1 else 0), 3);
    }

    method WriteStored(buf: array<byte>, start: nat, storedLen: nat, eof: bool, ghost n: nat)
      requires w.Valid() && buf != w.outbuf && start + storedLen <= buf.Length && storedLen < 0x10000
      modifies w, w.outbuf
      ensures w.Valid() && Emitted(old(w.Sent()), w.Sent(), Stored(buf[start..start + storedLen]), eof, n)
    {
      hide ToBits, BytesToBits, Padding, BitWriter.Sent;
      ghost var sent, data := w.Sent(), buf[start..start + storedLen];
      SendKind(0, eof);
      w.CopyBlock(buf, start, storedLen);
      Joined5(sent, ToBits(if eof then 1 else 0, 3), Padding(|sent| + 3), ToBits(|data|, 16), ToBits(0xffff - |data|, 16), BytesToBits(data));
    }

    method WriteFixed(eof: bool, ghost n: nat)
      requires w.Valid() && tables.Valid() && w.outbuf != tb.lBuf
      requires tb.lastLit == |tb.toks| && Buffered(tb.toks, tb.lBuf[..], tb.dBuf[..]) && FlagsSaved(tb.toks, tb.flagBuf[..])
      requires CodesAll(FIXED_LITERAL_LENGTHS, FIXED_DISTANCE_LENGTHS, tb.toks) && ValidTokens(tb.toks, n)
      modifies w, w.outbuf
      ensures w.Valid() && Emitted(old(w.Sent()), w.Sent(), Fixed(tb.toks), eof, n)
      ensures |w.Sent()| == |old(w.Sent())| + 3 + |BodyBits(FIXED_LITERAL_LENGTHS, FIXED_DISTANCE_LENGTHS, tb.toks)|
    {
      hide ToBits, BodyBits, Buffered, FlagsSaved, CodesAll, ValidTokens, CodesSet, CodeSet, FIXED_LITERAL_LENGTHS, FIXED_DISTANCE_LENGTHS,
        BitWriter.Sent, Bounded;
      FixedCarried(tables);
      ghost var sent := w.Sent();
      Regrouped(sent, ToBits(2 + (if eof then 1 else 0), 3), BodyBits(FIXED_LITERAL_LENGTHS, FIXED_DISTANCE_LENGTHS, tb.toks));
      SendKind(1, eof);
      CompressBlock(w, tables, tb, tables.staticLCode, tables.staticLLen, tables.staticDCode, tables.staticDLen,
                    FIXED_LITERAL_LENGTHS, FIXED_DISTANCE_LENGTHS);
    }

    method WriteDynamic(maxBlindex: nat, eof: bool, ghost dyn: Block, ghost n: nat)
      requires Planned(maxBlindex + 1) && dyn == PlannedBlock(maxBlindex + 1)
      requires w.Valid() && tables.Valid() && w.outbuf != tb.lBuf
      requires tb.lastLit == |tb.toks| && Buffered(tb.toks, tb.lBuf[..], tb.dBuf[..]) && FlagsSaved(tb.toks, tb.flagBuf[..])
      requires ValidTokens(tb.toks, n)
      modifies w, w.outbuf
      ensures w.Valid() && |w.Sent()| == |old(w.Sent())| + 3 + b.optLen
      ensures Emitted(old(w.Sent()), w.Sent(), dyn, eof, n)
    {
      hide ToBits, BodyBits, TreesBits, Buffered, FlagsSaved, CodesAll, ValidTokens, CodesSet, Carries, Covered, HasCodes, Complete, Syms,
        BitWriter.Sent, CodeTables.Valid, WellMade;
      ghost var sent, lit, dist, code := w.Sent(), SentLens(l), SentLens(d), bl.dl[..BL_CODES];
      TreesSendable(lit, dist, code, maxBlindex + 1);
      Joined3(sent, ToBits(4 + (if eof then 1 else 0), 3), TreesBits(lit, dist, code, maxBlindex + 1), BodyBits(lit, dist, tb.toks));
      SendKind(2, eof);
      SendAllTrees(w, l, d, bl, l.maxCode + 1, d.maxCode + 1, maxBlindex + 1);
      CompressBlock(w, tables, tb, l.fc, l.dl, d.fc, d.dl, lit, dist);
    }

    /** Writes the block in the form that takes the fewest bytes; bit alignment is
        not counted in. Both predicted sizes are exact. */
    method EncodeBlock(buf: array<byte>, start: int, storedLen: nat, eof: bool, maxBlindex: nat, ghost n: nat)
      returns (ghost blk: Block, ghost dyn: Block)
      requires w.Valid() && tables.Valid() && w.outbuf != tb.lBuf && buf != w.outbuf && Planned(maxBlindex + 1)
      requires tb.lastLit == |tb.toks| && Buffered(tb.toks, tb.lBuf[..], tb.dBuf[..]) && FlagsSaved(tb.toks, tb.flagBuf[..])
      requires ValidTokens(tb.toks, n)
      requires start >= 0 ==> start + storedLen <= buf.Length && storedLen < 0x10000
      modifies w, w.outbuf
      ensures w.Valid() && Emitted(old(w.Sent()), w.Sent(), blk, eof, n)
      ensures Holds(blk, tb.toks, start, storedLen, buf[..])
      ensures blk.Fixed? ==> |w.Sent()| == |old(w.Sent())| + 3 + b.staticLen
      ensures blk.Dynamic? ==> |w.Sent()| == |old(w.Sent())| + 3 + b.optLen
      ensures blk.Stored? <==> start >= 0 && storedLen + 4 <= BytesFor(if b.staticLen <= b.optLen then b.staticLen else b.optLen)
      ensures blk.Dynamic? ==> BytesFor(b.optLen) < BytesFor(b.staticLen)
      ensures blk.Fixed? ==> BytesFor(b.staticLen) <= BytesFor(b.optLen)
      ensures Cheapest(blk, dyn, tb.toks, start >= 0, storedLen, n)
    {
      hide BodyBits, TreesBits, Buffered, FlagsSaved, CodesAll, ValidTokens, CodesSet, Carries, GoodTrees,
        FIXED_LITERAL_LENGTHS, FIXED_DISTANCE_LENGTHS, BitWriter.Sent, CodeTables.Valid, Emitted, WellMade;
      dyn := PlannedBlock(maxBlindex + 1);
      var optLenb := (b.optLen + 3 + 7) / 8;
      var staticLenb := (b.staticLen + 3 + 7) / 8;
      if staticLenb <= optLenb {
        optLenb := staticLenb;
      }
      if storedLen + 4 <= optLenb && start >= 0 {
        assert buf[..][start..start + storedLen] == buf[start..start + storedLen];
        WriteStored(buf, start, storedLen, eof, n);
        blk := Stored(buf[..][start..start + storedLen]);
      } else if staticLenb == optLenb {
        WriteFixed(eof, n);
        blk := Fixed(tb.toks);
      } else {
        WriteDynamic(maxBlindex, eof, dyn, n);
        blk := dyn;
      }
    }

    /** What `flush_block` counts on. */
    ghost predicate FlushApart()
    {
      && Separate(b, l, d, bl) && l.desc == L_DESC && d.desc == D_DESC && bl.desc == BL_DESC
      && Work() <= Repr && {this, w, tb, b, w.outbuf, tb.flagBuf, l.fc, d.fc, bl.fc} <= Repr
      && w.outbuf != tb.lBuf && w.outbuf !in Work() && {tb, tb.lBuf, tb.dBuf, tb.flagBuf, w} !! Work()
      && tb.flagBuf !in {l.fc, d.fc, bl.fc}
      && TablesApart(Work()) && TablesApart({tb, tb.flagBuf, w, w.outbuf, b, l.fc, d.fc, bl.fc})
    }

    ghost predicate TablesApart(s: set<object>)
    {
      && tables.lengthCode !in s && tables.distCode !in s && tables.baseLength !in s && tables.baseDist !in s
      && tables.staticLCode !in s && tables.staticLLen !in s && tables.staticDCode !in s && tables.staticDLen !in s
    }

    lemma FlushParts()
      requires Wired()
      ensures FlushApart()
    {
      hide L_DESC, D_DESC, BL_DESC, Separate, BlockWriter.Work, BlockWriter.TablesApart;
      WorkParts();
      TablesAreApart();
      assert w.outbuf != tb.lBuf;
    }

    lemma WorkParts()
      requires Wired()
      ensures Work() <= Repr && {this, w, tb, b, w.outbuf, tb.flagBuf, l.fc, d.fc, bl.fc} <= Repr
      ensures w.outbuf !in Work() && {tb, tb.lBuf, tb.dBuf, tb.flagBuf, w} !! Work()
      ensures tb.flagBuf !in {l.fc, d.fc, bl.fc}
    {
      hide L_DESC, D_DESC, BL_DESC, Separate;
    }

    lemma TablesAreApart()
      requires Wired()
      ensures TablesApart(Work()) && TablesApart({tb, tb.flagBuf, w, w.outbuf, b, l.fc, d.fc, bl.fc})
    {
      hide L_DESC, D_DESC, BL_DESC, Separate;
    }

    /** `flush_block`: the tokens so far become one block; `start` is where its
        bytes are in the window, or less than 0 if they are no longer all there. */
    method FlushBlock(buf: array<byte>, start: int, storedLen: nat, eof: bool, ghost n: nat)
      returns (ghost blk: Block, ghost dyn: Block)
      requires Valid() && buf !in Repr && ValidTokens(tb.toks, n)
      requires start >= 0 ==> start + storedLen <= buf.Length && storedLen < 0x10000
      modifies Repr
      ensures Valid() && tb.toks == []
      ensures Holds(blk, old(tb.toks), start, storedLen, buf[..])
      ensures Cheapest(blk, dyn, old(tb.toks), start >= 0, storedLen, n)
      ensures Flushed(old(Output()), Output(), blk, eof, n)
      ensures eof ==> Whole()
    {
      hide BlockWriter.Wired, CodeTables.Valid, TokenBuffer.Valid, BitWriter.Sent, BlockWriter.Counting, Separate, Emitted, Holds, Cheapest,
        L_DESC, D_DESC, BL_DESC, Padding, BytesToBits, BlockWriter.Work;
      FlushParts();
      TokensIn();
      blk, dyn := EmitBlock(buf, start, storedLen, eof, n);
      ghost var after := w.Sent();
      EndBlock(eof);
      EmittedFlushed(old(w.Sent()), after, blk, eof, n);
    }

    /** Starts the next block, or fills up the last byte. */
    method EndBlock(eof: bool)
      requires Wired() && FlushApart() && w.Valid() && tables.Valid()
      requires tb.lBuf.Length == INBUFSIZ && tb.dBuf.Length == DIST_BUFSIZE && tb.flagBuf.Length == LIT_BUFSIZE / 8 && tb.dBuf != tb.flagBuf
      modifies l.fc, d.fc, bl.fc, b, tb, w, w.outbuf
      ensures Valid() && tb.toks == []
      ensures w.Sent() == if eof then old(w.Sent()) + Padding(|old(w.Sent())|) else old(w.Sent())
      ensures eof ==> w.biValid == 0 && w.Sent() == BytesToBits(w.Bytes())
    {
      hide BlockWriter.Wired, CodeTables.Valid, TokenBuffer.Valid, BlockWriter.Counting, Separate,
        L_DESC, D_DESC, BL_DESC, Padding, BytesToBits, BlockWriter.Work, BitWriter.Sent;
      InitBlock();
      if eof {
        w.BiWindup();
      }
    }

    /** Plans and writes the block that the buffers hold. */
    method EmitBlock(buf: array<byte>, start: int, storedLen: nat, eof: bool, ghost n: nat)
      returns (ghost blk: Block, ghost dyn: Block)
      requires FlushApart() && w.Valid() && tables.Valid() && tb.Valid() && buf !in Repr && ValidTokens(tb.toks, n)
      requires l.fc.Length >= L_ELEMS && d.fc.Length >= D_CODES && bl.fc.Length >= BL_CODES && Counting()
      requires start >= 0 ==> start + storedLen <= buf.Length && storedLen < 0x10000
      modifies w, w.outbuf, tb.flagBuf, Work()
      ensures w.Valid() && tables.Valid()
      ensures Emitted(old(w.Sent()), w.Sent(), blk, eof, n)
      ensures Holds(blk, tb.toks, start, storedLen, buf[..]) && Cheapest(blk, dyn, tb.toks, start >= 0, storedLen, n)
    {
      hide Cheapest, CodeTables.Valid, BitWriter.Sent, BlockWriter.Counting,
        L_DESC, D_DESC, BL_DESC, Separate, Plan, Emitted, Buffered, FlagsSaved, Flagged, Holds, ValidTokens, BlockWriter.Work;
      LastFlagsSaved(tb.toks, tb.flagBuf[..], tb.lastFlags, tb.flags, tb.flagBit);
      tb.flagBuf[tb.lastFlags] := tb.flags;
      assert tb.flagBuf[..] == old(tb.flagBuf[..])[tb.lastFlags := tb.flags];
      var maxBlindex := PlanBlock();
      blk, dyn := EncodeBlock(buf, start, storedLen, eof, maxBlindex, n);
    }

    lemma TokensIn()
      requires tb.Valid()
      ensures tb.lBuf.Length == INBUFSIZ && tb.dBuf.Length == DIST_BUFSIZE && tb.flagBuf.Length == LIT_BUFSIZE / 8 && tb.dBuf != tb.flagBuf
    {
      hide Buffered, Flagged;
    }

    /** All bytes put so far. */
    ghost function PutBytes(): seq<byte>
      requires Valid()
      reads this, Repr
    {
      w.Bytes()
    }

    /** The header's last two bytes, which leave the buffer misaligned. */
    method PutFlags(v: nat)
      requires Valid() && Whole()
      modifies Repr
      ensures Valid() && Whole() && tb.toks == old(tb.toks)
      ensures PutBytes() == old(PutBytes()) + [v % 256, v / 256 % 256]
    {
      hide BlockWriter.Wired, CodeTables.Valid, TokenBuffer.Valid, BlockWriter.Counting, BlockWriter.Work, Separate, L_DESC, D_DESC, BL_DESC, BytesToBits;
      FlushParts();
      w.Put16(v);
      w.FlushOutbufIf32BitOptimized();
      NoBitsLeft();
    }

    /** The two numbers after the last block; then everything is written. */
    method PutTrailer(crc: nat, size: nat)
      requires Valid() && Whole()
      modifies Repr
      ensures Valid() && PutBytes() == old(PutBytes()) + LittleEndian32(crc) + LittleEndian32(size)
      ensures w.written == PutBytes()
    {
      hide BlockWriter.Wired, CodeTables.Valid, TokenBuffer.Valid, BlockWriter.Counting, BlockWriter.Work, Separate, L_DESC, D_DESC, BL_DESC, BytesToBits;
      FlushParts();
      w.Put32(crc);
      w.Put32(size);
      w.FlushOutbuf();
    }

    lemma WholeOutput()
      requires Valid() && Whole()
      ensures Output() == BytesToBits(PutBytes())
    {
      hide BytesToBits, BlockWriter.Valid;
    }

    lemma NoBitsLeft()
      requires w.Valid() && w.biValid == 0
      ensures w.Sent() == BytesToBits(w.Bytes())
    {
      assert ToBits(w.biBuf, 0) == [];
    }

    lemma NothingBuffered()
      requires Valid() && tb.toks == []
      ensures tb.lastLit == 0
    {
      hide BlockWriter.Wired, CodeTables.Valid, BitWriter.Valid, BlockWriter.Counting;
    }

    lemma LastLitSmall()
      requires tb.Valid()
      ensures tb.lastLit < LIT_BUFSIZE
    {
    }
  }

  /** A block has been added to the bits sent. */
  ghost predicate Emitted(before: seq<bool>, after: seq<bool>, blk: Block, eof: bool, n: nat)
  {
    GoodBlock(blk, n) && after == before + BlockBits(blk, eof, n, |before|)
  }

  /** A block has been added, and after the last one zero bits up to a whole byte. */
  ghost predicate Flushed(before: seq<bool>, after: seq<bool>, blk: Block, eof: bool, n: nat)
  {
    && GoodBlock(blk, n)
    && var all := before + BlockBits(blk, eof, n, |before|);
       after == if eof then all + Padding(|all|) else all
  }

  /** The last flag byte need not be full. */
  lemma LastFlagsSaved(toks: seq<Token>, flagBuf: seq<nat>, lastFlags: nat, flags: nat, flagBit: nat)
    requires Flagged(toks, flagBuf, lastFlags, flags, flagBit) && |toks| / 8 < |flagBuf|
    ensures lastFlags < |flagBuf| && FlagsSaved(toks, flagBuf[lastFlags := flags])
  {
    hide FlagBits, FromBits;
    assert FlagBits(toks)[8 * lastFlags..|toks|] == FlagBits(toks)[8 * lastFlags..];
    assert forall k :: 0 <= k && 8 * k < |toks| ==> k <= lastFlags;
  }

  lemma EmittedFlushed(before: seq<bool>, after: seq<bool>, blk: Block, eof: bool, n: nat)
    requires Emitted(before, after, blk, eof, n)
    ensures Flushed(before, if eof then after + Padding(|after|) else after, blk, eof, n)
  {
    hide GoodBlock, BlockBits, Padding;
  }

  /** A block holds the bytes of the window or the tokens. */
  ghost predicate Holds(blk: Block, toks: seq<Token>, start: int, storedLen: nat, window: seq<byte>)
  {
    if blk.Stored? then 0 <= start && start + storedLen <= |window| && blk.data == window[start..start + storedLen]
    else blk.toks == toks
  }

  /** With the codes that have been built, or the fixed ones, or as it is: the form
      that takes the fewest bytes, header and all, not counting bit alignment. Bytes
      as they are must be on offer, and take four more for their number. */
  ghost predicate Cheapest(blk: Block, dyn: Block, toks: seq<Token>, offered: bool, storedLen: nat, n: nat)
  {
    && dyn.Dynamic? && dyn.toks == toks && GoodBlock(dyn, n) && WellMade(dyn.litLens, dyn.distLens, dyn.codeLens, dyn.k, toks)
    && CodesAll(FIXED_LITERAL_LENGTHS, FIXED_DISTANCE_LENGTHS, toks)
    && var own := BytesFor(|TreesBits(dyn.litLens, dyn.distLens, dyn.codeLens, dyn.k)| + |BodyBits(dyn.litLens, dyn.distLens, toks)|);
       var fixed := BytesFor(|BodyBits(FIXED_LITERAL_LENGTHS, FIXED_DISTANCE_LENGTHS, toks)|);
       if offered && storedLen + 4 <= fixed && storedLen + 4 <= own then blk.Stored?
       else blk == if fixed <= own then Fixed(toks) else dyn
  }

  /** The bytes it takes to send a block body of so many bits with its header. */
  function BytesFor(bits: int): (r: int)
    ensures 8 * r - 8 < bits + 3 <= 8 * r
  {
    (bits + 3 + 7) / 8
  }

  /** Both trees of a block are built and have every symbol it needs. */
  ghost predicate BothBuilt(toks: seq<Token>, lfc: seq<nat>, ldl: seq<nat>, lmax: int, dfc: seq<nat>, ddl: seq<nat>, dmax: int)
  {
    && 256 <= lmax < L_ELEMS <= |ldl| && 0 <= dmax < D_CODES <= |ddl| && ldl[lmax] > 0 && ddl[dmax] > 0
    && Complete(ldl[..lmax + 1]) && Complete(ddl[..dmax + 1]) && ldl[END_BLOCK] > 0
    && Carries(lfc, ldl, ldl[..lmax + 1]) && Carries(dfc, ddl, ddl[..dmax + 1])
    && CodesAll(ldl[..lmax + 1], ddl[..dmax + 1], toks) && LeastIfShort(ldl[..lmax + 1], ddl[..dmax + 1], toks)
  }

  lemma TreeRoom(l: Tree, d: Tree)
    requires l.Valid() && d.Valid() && l.desc.elems == L_ELEMS && d.desc.elems == D_CODES
    ensures L_ELEMS < l.dl.Length && D_CODES < d.dl.Length
  {
  }

  lemma BothSendable(toks: seq<Token>, lfc: seq<nat>, ldl: seq<nat>, lmax: int, dfc: seq<nat>, ddl: seq<nat>, dmax: int)
    requires BothBuilt(toks, lfc, ldl, lmax, dfc, ddl, dmax)
    ensures 256 <= lmax < L_ELEMS <= |ldl| && 0 <= dmax < D_CODES <= |ddl|
    ensures Bounded(ldl[..lmax + 1]) && Bounded(ddl[..dmax + 1]) && ldl[END_BLOCK] > 0
  {
    hide CodesAll, Carries;
  }

  /** The guard lies behind the lengths that are sent. */
  lemma GuardKeeps(code: seq<nat>, dl: seq<nat>, maxCode: int)
    requires 0 <= maxCode < |dl| - 1 && Carries(code, dl, dl[..maxCode + 1])
    ensures dl[maxCode + 1 := GUARD][..maxCode + 1] == dl[..maxCode + 1]
    ensures Carries(code, dl[maxCode + 1 := GUARD], dl[..maxCode + 1])
  {
    hide CodeSet, Bounded;
  }

  /** The three codes of a block: they have every symbol that is needed, and the
      two sizes are exactly those of the block body, with its own codes and their
      header, and with the fixed codes. */
  ghost predicate Plan(toks: seq<Token>, lfc: seq<nat>, ldl: seq<nat>, lmax: int, dfc: seq<nat>, ddl: seq<nat>, dmax: int,
                       blfc: seq<nat>, bldl: seq<nat>, k: nat, opt: int, static_: int)
  {
    && 256 <= lmax < L_ELEMS < |ldl| && 0 <= dmax < D_CODES < |ddl| && BL_CODES <= |bldl|
    && ldl[lmax + 1] == GUARD && ddl[dmax + 1] == GUARD
    && GoodTrees(ldl[..lmax + 1], ddl[..dmax + 1], bldl[..BL_CODES], k)
    && CodesSet(blfc, bldl[..BL_CODES])
    && Carries(lfc, ldl, ldl[..lmax + 1]) && Carries(dfc, ddl, ddl[..dmax + 1])
    && CodesAll(ldl[..lmax + 1], ddl[..dmax + 1], toks) && WellMade(ldl[..lmax + 1], ddl[..dmax + 1], bldl[..BL_CODES], k, toks)
    && CodesAll(FIXED_LITERAL_LENGTHS, FIXED_DISTANCE_LENGTHS, toks)
    && opt == |TreesBits(ldl[..lmax + 1], ddl[..dmax + 1], bldl[..BL_CODES], k)|
              + |BodyBits(ldl[..lmax + 1], ddl[..dmax + 1], toks)|
    && static_ == |BodyBits(FIXED_LITERAL_LENGTHS, FIXED_DISTANCE_LENGTHS, toks)|
  }

  /** The codes are as good as they can be, unless some code has the maximum length,
      and no length is sent that need not be. */
  ghost predicate WellMade(lit: seq<nat>, dist: seq<nat>, code: seq<nat>, k: nat, toks: seq<Token>)
  {
    && LeastIfShort(lit, dist, toks) && LeastHeader(code, lit, dist)
    && lit != [] && lit[|lit| - 1] > 0 && dist != [] && dist[|dist| - 1] > 0
    && (k == 4 || (4 < k <= |code| == BL_CODES && code[Order(k - 1)] > 0))
  }

  /** Both sizes are the sizes of the body in the two pairs of codes. */
  lemma BothSizes(toks: seq<Token>, lfc: seq<nat>, ldl: seq<nat>, lmax: int, dfc: seq<nat>, ddl: seq<nat>, dmax: int)
    requires BothBuilt(toks, lfc, ldl, lmax, dfc, ddl, dmax) && AllEncodable(toks)
    ensures 256 <= lmax < L_ELEMS <= |ldl| && 0 <= dmax < D_CODES <= |ddl|
    ensures var lit, dist := ldl[..lmax + 1], ddl[..dmax + 1];
            && CodesAll(lit, dist, toks) && LeastIfShort(lit, dist, toks) && lit[|lit| - 1] > 0 && dist[|dist| - 1] > 0
            && Complete(lit) && Complete(dist) && lit[END_BLOCK] > 0
            && Carries(lfc, ldl, lit) && Carries(dfc, ddl, dist)
            && |BodyBits(lit, dist, toks)|
               == Cost(BlockNumbers(toks), CostsOf(L_DESC, ldl)) + Cost(DistNumbers(toks), CostsOf(D_DESC, ddl))
    ensures CodesAll(FIXED_LITERAL_LENGTHS, FIXED_DISTANCE_LENGTHS, toks)
    ensures |BodyBits(FIXED_LITERAL_LENGTHS, FIXED_DISTANCE_LENGTHS, toks)|
         == Cost(BlockNumbers(toks), StaticCostsOf(L_DESC)) + Cost(DistNumbers(toks), StaticCostsOf(D_DESC))
  {
    hide CodesAll, Carries, BlockNumbers, DistNumbers, Cost, CostsOf, StaticCostsOf, BodyBits, Complete,
      FIXED_LITERAL_LENGTHS, FIXED_DISTANCE_LENGTHS, L_DESC, D_DESC, AllEncodable;
    BodyCost(toks, ldl, ddl, lmax + 1, dmax + 1);
    FixedHasAll(toks);
    FixedCosts();
    FixedLength(0);
    assert FIXED_LITERAL_LENGTHS[..288] == FIXED_LITERAL_LENGTHS && FIXED_DISTANCE_LENGTHS[..32] == FIXED_DISTANCE_LENGTHS;
    BodyCost(toks, FIXED_LITERAL_LENGTHS, FIXED_DISTANCE_LENGTHS, 288, 32);
  }

  /** The plan of a block, once the code length code is built too and the guards
      are in place. */
  lemma PlanReady(toks: seq<Token>, lfc: seq<nat>, ldl: seq<nat>, lmax: int, dfc: seq<nat>, ddl: seq<nat>, dmax: int,
                  blfc: seq<nat>, bldl: seq<nat>, k: nat, opt: int, static_: int)
    requires BothBuilt(toks, lfc, ldl, lmax, dfc, ddl, dmax) && AllEncodable(toks)
    requires L_ELEMS < |ldl| && D_CODES < |ddl| && BL_CODES <= |bldl|
    requires Covered(bldl[..BL_CODES], k) && Complete(bldl[..BL_CODES]) && CodesSet(blfc, bldl[..BL_CODES])
    requires HasCodes(bldl[..BL_CODES], Syms(ldl[..lmax + 1])) && HasCodes(bldl[..BL_CODES], Syms(ddl[..dmax + 1]))
    requires LeastHeader(bldl[..BL_CODES], ldl[..lmax + 1], ddl[..dmax + 1]) && (k == 4 || bldl[..BL_CODES][Order(k - 1)] > 0)
    requires opt == Cost(BlockNumbers(toks), CostsOf(L_DESC, ldl)) + Cost(DistNumbers(toks), CostsOf(D_DESC, ddl))
    requires static_ == Cost(BlockNumbers(toks), StaticCostsOf(L_DESC)) + Cost(DistNumbers(toks), StaticCostsOf(D_DESC))
    ensures Plan(toks, lfc, ldl[lmax + 1 := GUARD], lmax, dfc, ddl[dmax + 1 := GUARD], dmax, blfc, bldl, k,
                 opt + |TreesBits(ldl[..lmax + 1], ddl[..dmax + 1], bldl[..BL_CODES], k)|, static_)
  {
    hide CodesAll, Carries, BlockNumbers, DistNumbers, Cost, CostsOf, StaticCostsOf, BodyBits, TreesBits, Complete,
      FIXED_LITERAL_LENGTHS, FIXED_DISTANCE_LENGTHS, L_DESC, D_DESC, AllEncodable, BothBuilt, HasCodes, CodesSet, Syms, LeastHeader, LeastIfShort, Order;
    BothSizes(toks, lfc, ldl, lmax, dfc, ddl, dmax);
    GuardKeeps(lfc, ldl, lmax);
    GuardKeeps(dfc, ddl, dmax);
  }

  lemma BothReady(toks: seq<Token>, lf: seq<nat>, lfc: seq<nat>, ldl: seq<nat>, lmax: int, lmerges: seq<Merge>,
                  df: seq<nat>, dfc: seq<nat>, ddl: seq<nat>, dmax: int, dmerges: seq<Merge>)
    requires AllEncodable(toks) && |lf| == L_ELEMS && |df| == D_CODES && L_DESC.elems == L_ELEMS && D_DESC.elems == D_CODES
    requires Frequencies(lf, BlockNumbers(toks), L_ELEMS) && Frequencies(df, DistNumbers(toks), D_CODES)
    requires Built(L_DESC, lf, lfc, ldl, lmax) && Built(D_DESC, df, dfc, ddl, dmax)
    requires Grown(L_DESC, lf, ldl, lmerges) && Grown(D_DESC, df, ddl, dmerges)
    ensures BothBuilt(toks, lfc, ldl, lmax, dfc, ddl, dmax)
  {
    hide L_DESC, D_DESC, AllEncodable, Frequencies, BlockNumbers, DistNumbers, CodeSet, CodesAll, Grown, LeastIfShort;
    BuiltHasAll(toks, lf, ldl, lmax, df, ddl, dmax);
    EndHasCode(ldl[..lmax + 1], ddl[..dmax + 1], toks);
    BothLeast(toks, lf, ldl, lmax, lmerges, df, ddl, dmax, dmerges);
  }

  lemma BothLeast(toks: seq<Token>, lf: seq<nat>, ldl: seq<nat>, lmax: int, lmerges: seq<Merge>,
                  df: seq<nat>, ddl: seq<nat>, dmax: int, dmerges: seq<Merge>)
    requires AllEncodable(toks) && |lf| == L_ELEMS && |df| == D_CODES && L_DESC.elems == L_ELEMS && D_DESC.elems == D_CODES
    requires Frequencies(lf, BlockNumbers(toks), L_ELEMS) && Frequencies(df, DistNumbers(toks), D_CODES)
    requires GoodLengths(L_DESC, lf, ldl, lmax) && GoodLengths(D_DESC, df, ddl, dmax)
    requires Grown(L_DESC, lf, ldl, lmerges) && Grown(D_DESC, df, ddl, dmerges)
    requires CodesAll(ldl[..lmax + 1], ddl[..dmax + 1], toks)
    ensures LeastIfShort(ldl[..lmax + 1], ddl[..dmax + 1], toks)
  {
    hide L_DESC, D_DESC, AllEncodable, Frequencies, BlockNumbers, DistNumbers, CodesAll, Grown, Complete, Short, LeastBody;
    DescsValid();
    if Short(ldl[..lmax + 1]) && Short(ddl[..dmax + 1]) {
      BodyIsLeast(toks, lf, ldl, lmax, lmerges, df, ddl, dmax, dmerges);
    }
  }

  lemma NumbersBelow(toks: seq<Token>)
    requires AllEncodable(toks)
    ensures Below(BlockNumbers(toks), L_ELEMS) && |BlockNumbers(toks)| == |toks| + 1
    ensures Below(DistNumbers(toks), D_CODES) && |DistNumbers(toks)| <= |toks|
  {
  }

  /** The frequencies on a tree's symbols, and what they add up to. */
  lemma FrontCounted(fc: seq<nat>, f: seq<nat>, xs: seq<nat>, n: nat)
    requires n <= |fc| && f == fc[..n] && Frequencies(fc, xs, n) && Below(xs, n)
    ensures Frequencies(f, xs, n) && Total(LeafSet(fc, n), fc) == |xs|
  {
    hide Count;
    FrequenciesTotal(fc, xs, n);
  }

  lemma Joined3(s: seq<bool>, a: seq<bool>, b: seq<bool>, c: seq<bool>)
    ensures s + a + b + c == s + (a + (b + c))
  {
  }

  lemma Joined5(s: seq<bool>, a: seq<bool>, b: seq<bool>, c: seq<bool>, d: seq<bool>, e: seq<bool>)
    ensures s + a + b + c + d + e == s + (a + (b + c + d + e))
  {
  }

  lemma FixedCarried(tables: CodeTables)
    requires tables.Valid()
    ensures 286 <= tables.staticLLen.Length && 30 <= tables.staticDLen.Length
    ensures Carries(tables.staticLCode[..], tables.staticLLen[..], FIXED_LITERAL_LENGTHS)
    ensures Carries(tables.staticDCode[..], tables.staticDLen[..], FIXED_DISTANCE_LENGTHS)
  {
    hide CodeSet, FIXED_LITERAL_LENGTHS, FIXED_DISTANCE_LENGTHS;
    FixedLength(0);
    forall n: nat | n < 32
      ensures FIXED_DISTANCE_LENGTHS[n] == 5
    {
      FixedLength(n);
    }
  }

  lemma TreesSendable(lit: seq<nat>, dist: seq<nat>, code: seq<nat>, k: nat)
    requires GoodTrees(lit, dist, code, k)
    ensures Bounded(lit) && Bounded(dist)
  {
  }

  lemma SymbolsOf(tables: CodeTables, t: Token)
    requires tables.Valid() && t.Match? && Encodable(t)
    ensures tables.lengthCode.Length == 256 && tables.distCode.Length == 512
    ensures LitSymbol(t) == tables.lengthCode[t.len - MIN_MATCH] + 256 + 1
    ensures DistSymbol(t) == DCode(tables.distCode[..], t.dist - 1)
  {
    hide CodeTables.Valid, LitSymbol, DistSymbol, DCode, ToBits, Pow2;
    LengthParts(tables, t);
    DistParts(tables, t);
  }

  lemma LiteralSymbol(t: Token)
    requires t.Literal?
    ensures Encodable(t) && LitSymbol(t) == t.b
  {
  }

  /** Counts the symbols of a token. */
  method CountToken(lFreq: array<nat>, dFreq: array<nat>, tables: CodeTables, dist: nat, lc: byte,
                    ghost t: Token, ghost toks: seq<Token>)
    requires tables.Valid() && dist <= 32768 && lFreq != dFreq
    requires t == if dist == 0 then Literal(lc) else Match(lc + MIN_MATCH, dist)
    requires lFreq.Length >= L_ELEMS && dFreq.Length >= D_CODES && AllEncodable(toks)
    requires Frequencies(lFreq[..], BlockNumbers(toks), L_ELEMS) && Frequencies(dFreq[..], DistNumbers(toks), D_CODES)
    modifies lFreq, dFreq
    ensures AllEncodable(toks + [t])
    ensures Frequencies(lFreq[..], BlockNumbers(toks + [t]), L_ELEMS)
    ensures Frequencies(dFreq[..], DistNumbers(toks + [t]), D_CODES)
  {
    hide Frequencies, AllEncodable, DistNumbers, BlockNumbers, LitSymbol, DistSymbol, CodeTables.Valid, DCode;
    TokenFits(toks, t);
    ghost var lf, df := lFreq[..], dFreq[..];
    OneMoreSymbol(lf, df, toks, t);
    if dist == 0 {
      LiteralSymbol(t);
      Bump(lFreq, lc);
    } else {
      SymbolsOf(tables, t);
      var c := tables.lengthCode[lc] + 256 + 1;
      var e := DCode(tables.distCode[..], dist - 1);
      Bump(lFreq, c);
      Bump(dFreq, e);
    }
  }

  method Bump(f: array<nat>, c: nat)
    requires c < f.Length
    modifies f
    ensures f[..] == old(f[..])[c := old(f[c]) + 1]
  {
    f[c] := f[c] + 1;
  }

  /** What a distance symbol is taken to cost: five bits and its extra bits. */
  function DistEstimates(): (s: seq<nat>)
    ensures |s| == D_CODES && forall c :: 0 <= c < D_CODES ==> s[c] == 5 + DIST_EXTRA[c]
  {
    seq(D_CODES, c requires 0 <= c < D_CODES => 5 + DIST_EXTRA[c])
  }

  /** The compressed length in bytes that tokens are taken to have: eight bits each,
      and what their distances cost. */
  ghost function Estimate(toks: seq<Token>): nat
    requires AllEncodable(toks)
  {
    (8 * |toks| + Cost(DistNumbers(toks), DistEstimates())) / 8
  }

  /** A buffer is full, or it is time to guess whether the block should end here:
      few matches, and yet less than half the input. */
  ghost predicate MustFlush(toks: seq<Token>, inLength: int)
    requires AllEncodable(toks)
  {
    || |toks| == LIT_BUFSIZE - 1 || Matches(toks) == DIST_BUFSIZE
    || (|toks| % 0x1000 == 0 && Matches(toks) < |toks| / 2 && Estimate(toks) < inLength / 2)
  }

  /** The loop over the distance frequencies. */
  method UpperBound(freq: array<nat>, lastLit: nat, ghost toks: seq<Token>) returns (outLength: nat)
    requires D_CODES <= freq.Length && lastLit == |toks|
    requires AllEncodable(toks) && Frequencies(freq[..], DistNumbers(toks), D_CODES)
    ensures outLength == Estimate(toks)
  {
    hide AllEncodable, DistNumbers, Frequencies, Cost, Sum, All, Products;
    NoSummand(freq[..D_CODES], DistEstimates());
    outLength := lastLit * 8;
    var dcode := 0;
    ghost var f := freq[..D_CODES];
    while dcode < D_CODES
      invariant 0 <= dcode <= D_CODES
      invariant outLength == lastLit * 8 + Sum(All(D_CODES), Products(f, DistEstimates()), dcode)
    {
      OneMoreSummand(f, DistEstimates(), dcode);
      outLength := outLength + freq[dcode] * (5 + DIST_EXTRA[dcode]);
      dcode := dcode + 1;
    }
    EstimateIsSum(freq[..], f, toks);
    outLength := outLength / 8;
  }

  lemma NoSummand(f: seq<nat>, cost: seq<nat>)
    requires |f| == |cost|
    ensures Sum(All(|f|), Products(f, cost), 0) == 0
  {
  }

  lemma OneMoreSummand(f: seq<nat>, cost: seq<nat>, k: nat)
    requires k < |f| == |cost|
    ensures Sum(All(|f|), Products(f, cost), k + 1) == Sum(All(|f|), Products(f, cost), k) + f[k] * cost[k]
  {
    hide All;
  }

  lemma EstimateIsSum(freq: seq<nat>, f: seq<nat>, toks: seq<Token>)
    requires AllEncodable(toks) && Frequencies(freq, DistNumbers(toks), D_CODES) && f == freq[..D_CODES]
    ensures Sum(All(D_CODES), Products(f, DistEstimates()), D_CODES) == Cost(DistNumbers(toks), DistEstimates())
  {
    hide AllEncodable, DistNumbers, Cost, All;
    var xs, cost := DistNumbers(toks), DistEstimates();
    CostIsSum(xs, cost);
    SumSame(All(D_CODES), Products(f, cost), All(D_CODES), Products(FreqOf(xs, D_CODES), cost), D_CODES);
  }

  lemma TokenFits(toks: seq<Token>, t: Token)
    requires AllEncodable(toks) && (t.Match? ==> MIN_MATCH <= t.len <= MAX_MATCH && 0 < t.dist <= 32768)
    ensures Encodable(t) && AllEncodable(toks + [t])
    ensures LitSymbol(t) < L_ELEMS && (t.Match? ==> DistSymbol(t) < D_CODES)
  {
    hide LitSymbol, DistSymbol;
  }

  lemma OneMoreSymbol(lf: seq<nat>, df: seq<nat>, toks: seq<Token>, t: Token)
    requires Encodable(t) && AllEncodable(toks) && AllEncodable(toks + [t])
    requires Frequencies(lf, BlockNumbers(toks), L_ELEMS) && Frequencies(df, DistNumbers(toks), D_CODES)
    ensures Frequencies(lf[LitSymbol(t) := lf[LitSymbol(t)] + 1], BlockNumbers(toks + [t]), L_ELEMS)
    ensures Frequencies(if t.Match? then df[DistSymbol(t) := df[DistSymbol(t)] + 1] else df,
                        DistNumbers(toks + [t]), D_CODES)
  {
    hide LitSymbol, DistSymbol, Count;
    var x := LitSymbol(t);
    assert LitNumbers(toks + [t]) == LitNumbers(toks) + [x];
    assert (toks + [t])[..|toks|] == toks;
    forall c | 0 <= c < L_ELEMS
      ensures Count(BlockNumbers(toks + [t]), c) == Count(BlockNumbers(toks), c) + (if c == x then 1 else 0)
    {
      CountSnoc(LitNumbers(toks) + [x], END_BLOCK, c);
      CountSnoc(LitNumbers(toks), x, c);
      CountSnoc(LitNumbers(toks), END_BLOCK, c);
    }
    if t.Match? {
      forall c | 0 <= c < D_CODES
        ensures Count(DistNumbers(toks + [t]), c) == Count(DistNumbers(toks), c) + (if c == DistSymbol(t) then 1 else 0)
      {
        CountSnoc(DistNumbers(toks), DistSymbol(t), c);
      }
    } else {
      assert DistNumbers(toks) + [] == DistNumbers(toks);
    }
  }

  ghost function TreeParts(b: Builder, l: Tree, d: Tree, bl: Tree): set<object>
  {
    {b, l, d, bl, l.fc, l.dl, d.fc, d.dl, bl.fc, bl.dl, b.heap, b.depth, b.blCount}
  }

  ghost function TableParts(tb: TokenBuffer, tables: CodeTables): set<object>
  {
    {tb, tb.lBuf, tb.dBuf, tb.flagBuf, tables, tables.lengthCode, tables.distCode, tables.baseLength, tables.baseDist,
     tables.staticLCode, tables.staticLLen, tables.staticDCode, tables.staticDLen}
  }

  method NewTrees() returns (b: Builder, l: Tree, d: Tree, bl: Tree)
    ensures fresh(TreeParts(b, l, d, bl)) && fresh(b.blCount)
    ensures Separate(b, l, d, bl) && l.desc == L_DESC && d.desc == D_DESC && bl.desc == BL_DESC
    ensures b.blCount.Length == MAX_BITS + 1 && forall i :: 0 <= i < b.blCount.Length ==> b.blCount[i] == 0
  {
    hide L_DESC, D_DESC, BL_DESC, Separate;
    DescsValid();
    BlDescValid();
    BlDescIs();
    b := new Builder();
    l := NewTree(L_DESC, HEAP_SIZE, b);
    d := NewTree(D_DESC, 2 * D_CODES + 1, b);
    bl := NewTree(BL_DESC, 2 * BL_CODES + 1, b);
    ApartFrom(b, l, d, bl);
  }

  method NewTree(desc: Desc, size: nat, b: Builder) returns (t: Tree)
    requires desc.Valid() && 2 * desc.elems < size <= HEAP_SIZE && b.Valid()
    ensures fresh(t) && fresh(t.fc) && fresh(t.dl) && t.Valid() && b.Apart(t) && t.desc == desc
  {
    t := new Tree(desc, size);
  }

  lemma ApartFrom(b: Builder, l: Tree, d: Tree, bl: Tree)
    requires b.Valid() && l.Valid() && d.Valid() && bl.Valid() && b.Apart(l) && b.Apart(d) && b.Apart(bl)
    requires l != d && l != bl && d != bl && {l.fc, l.dl} !! {d.fc, d.dl} && {l.fc, l.dl} !! {bl.fc, bl.dl} && {d.fc, d.dl} !! {bl.fc, bl.dl}
    ensures Separate(b, l, d, bl)
  {
  }

  method NewTables(blCount: array<nat>, ghost others: set<object>) returns (tb: TokenBuffer, tables: CodeTables)
    requires blCount.Length == MAX_BITS + 1 && forall i :: 0 <= i < blCount.Length ==> blCount[i] == 0
    modifies blCount
    ensures fresh(TableParts(tb, tables)) && TableParts(tb, tables) !! others
    ensures tb.Valid() && tables.Valid()
    ensures {tables.lengthCode, tables.distCode, tables.baseLength, tables.baseDist,
             tables.staticLCode, tables.staticLLen, tables.staticDCode, tables.staticDLen} !! {tb.dBuf, tb.flagBuf}
  {
    hide CodeTables.Valid;
    tables := new CodeTables(blCount);
    tb := new TokenBuffer();
  }

  /** `ct_init`, with everything it works on. */
  method NewBlockWriter(w: BitWriter) returns (bw: BlockWriter)
    requires w.Valid()
    ensures bw.Valid() && bw.w == w && bw.tb.toks == [] && fresh(bw)
    ensures forall o :: o in bw.Repr ==> o == w || o == w.outbuf || fresh(o)
    ensures w.Valid() && w.Sent() == old(w.Sent())
  {
    hide L_DESC, D_DESC, BL_DESC, CodeTables.Valid, TokenBuffer.Valid, BitWriter.Valid, BitWriter.Sent, BlockWriter.Valid, Separate, TreeParts, TableParts;
    var b, l, d, bl := NewTrees();
    ghost var others: set<object> := TreeParts(b, l, d, bl) + {w, w.outbuf};
    var tb, tables := NewTables(b.blCount, others);
    bw := new BlockWriter(w, b, l, d, bl, tb, tables);
  }

  method ZeroFreq(fc: array<nat>, n: nat)
    requires n <= fc.Length
    modifies fc
    ensures forall i :: 0 <= i < n ==> fc[i] == 0
  {
    var i := 0;
    while i < n
      invariant 0 <= i <= n && forall j :: 0 <= j < i ==> fc[j] == 0
    {
      fc[i] := 0;
      i := i + 1;
    }
  }

  lemma NoTokens(lf: seq<nat>, df: seq<nat>)
    requires L_ELEMS <= |lf| && D_CODES <= |df|
    requires forall c :: 0 <= c < L_ELEMS ==> lf[c] == if c == END_BLOCK then 1 else 0
    requires forall c :: 0 <= c < D_CODES ==> df[c] == 0
    ensures AllEncodable([]) && Frequencies(lf, BlockNumbers([]), L_ELEMS) && Frequencies(df, DistNumbers([]), D_CODES)
  {
    assert BlockNumbers([]) == [END_BLOCK] by {
      assert LitNumbers([]) == [];
    }
    assert DistNumbers([]) == [];
    CountOfOne(END_BLOCK);
    hide Count, BlockNumbers, DistNumbers;
  }

  lemma CountOfOne(x: nat)
    ensures forall c :: Count([x], c) == if c == x then 1 else 0
    ensures forall c :: Count([], c) == 0
  {
    forall c: nat
      ensures Count([x], c) == if c == x then 1 else 0
    {
      assert [x][..0] == [];
    }
  }
}
