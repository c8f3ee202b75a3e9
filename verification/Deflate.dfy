/** `deflate` with what it works on: the sliding window, the hash chains, the
    search for matches and their lazy evaluation. */
module Deflate {
  import opened Bits
  import opened Config
  import opened BitWriters
  import opened Inflate
  import opened Tokens
  import opened Hashing
  import opened Chains
  import opened ChainSearch
  import opened LazyParse
  import opened Blocks
  import opened Streams
  import opened Input
  import opened BlockWriters

  /** No match refers further back than the program searches. */
  predicate Near(toks: seq<Token>)
  {
    forall i :: 0 <= i < |toks| && toks[i].Match? ==> toks[i].dist <= MAX_DIST
  }

  class Deflater {
    const level: Level
    const bw: BlockWriter
    const src: Source
    const window: array<byte>   // 2 * WSIZE bytes, and slack for longest_match
    const prev: array<Pos>
    const head: array<Pos>
    var insH: nat               // hash key of the string to be inserted
    var prevLength: nat
    var strstart: nat           // start of the string to insert
    var matchStart: nat
    var lookahead: nat          // valid bytes ahead in the window
    var blockStart: int         // where the current block starts, negative after a slide
    var crc: nat
    var isize: nat
    var eofile: bool
    ghost var base: nat         // where the window starts in the input
    ghost var data: seq<byte>   // the input read so far
    ghost var begun: seq<bool>  // what was sent before the first block
    ghost var trail: seq<Sending> // the blocks sent since
    ghost var turns: seq<Turn>  // what the searches have found

    constructor (level: Level, bw: BlockWriter, src: Source)
      requires src !in bw.Repr
      ensures Sizes() && this.level == level && this.bw == bw && this.src == src
      ensures fresh(window) && fresh(prev) && fresh(head)
      ensures prevLength == strstart == matchStart == lookahead == insH == crc == isize == 0 && blockStart == 0 && !eofile
      ensures base == 0 && data == []
    {
      this.level, this.bw, this.src := level, bw, src;
      window := new byte[WINDOW_SIZE + MAX_MATCH];
      prev := new Pos[WSIZE];
      head := new Pos[HASH_SIZE];
      insH, prevLength, strstart, matchStart, lookahead := 0, 0, 0, 0, 0;
      blockStart, crc, isize, eofile := 0, 0, 0, false;
      base, data, begun, trail, turns := 0, [], [], [], [];
    }

    ghost predicate Sizes()
    {
      && window.Length == WINDOW_SIZE + MAX_MATCH && prev.Length == WSIZE && head.Length == HASH_SIZE
      && prev != head && {this, src, window, prev, head} !! bw.Repr
    }

    /** The window holds the end of the input read so far. */
    ghost predicate Content()
      requires Sizes()
      reads `strstart, `lookahead, `base, `data, `eofile, window
    {
      && strstart + lookahead <= WINDOW_SIZE && (eofile ==> strstart + lookahead <= WINDOW_SIZE - 2)
      && base + strstart + lookahead == |data|
      && window[..strstart + lookahead] == data[base..]
      && Placed()
    }

    /** The window starts with a half, and further back than matches reach. */
    ghost predicate Placed()
      reads `strstart, `base
    {
      base % WSIZE == 0 && (base > 0 ==> strstart >= MAX_DIST)
    }

    /** All strings before strstart are on their chains. */
    ghost predicate Linked()
      reads `strstart, window, prev, head
    {
      Chained(window[..], head[..], prev[..], strstart)
    }

    /** The key of the next string is begun. */
    ghost predicate Hashed()
      requires strstart + 1 < window.Length
      reads `insH, `strstart, window
    {
      Rolling(insH, window[strstart], window[strstart + 1])
    }

    // ----- reading -----

    /** The crc and the size are those of the input read so far. */
    ghost predicate Summed()
      reads `crc, `isize, `data
    {
      crc == UpdateCrc(U32 - 1, data) && isize == |data| % U32
    }

    /** `file_read`, to where the valid part of the window ends. */
    method FileRead(size: nat) returns (len: int)
      requires Sizes() && Content() && Summed() && !eofile
      requires 0 < size <= WINDOW_SIZE - strstart - lookahead
      modifies src, window, this`crc, this`isize, this`data
      ensures -1 <= len <= size && Summed()
      ensures data + src.rest == old(data) + old(src.rest)
      ensures len <= 0 ==> data == old(data) && window[..] == old(window[..])
      ensures len == -1 ==> src.failing
      ensures len == 0 ==> src.rest == []
      ensures len > 0 ==> |data| == |old(data)| + len && old(data) <= data
      ensures len > 0 ==> window[..strstart + lookahead + len] == data[base..]
      ensures window[..strstart + lookahead] == old(window[..strstart + lookahead])
    {
      hide Deflater.Summed, Deflater.Placed, HASH_SIZE;
      var start := strstart + lookahead;
      ghost var w, rest := window[..], src.rest;
      len := src.Read(window, start, size);
      if len <= 0 {
        return;
      }
      ghost var bytes := rest[..len];
      ReadBehind(w, window[..], start, bytes, base, data);
      TakeIn(start, bytes, len);
    }

    /** Counts the bytes just read. */
    method TakeIn(start: nat, ghost bytes: seq<byte>, len: nat)
      requires Summed() && start + len <= window.Length && bytes == window[start..start + len]
      modifies this`crc, this`isize, this`data
      ensures Summed() && data == old(data) + bytes
    {
      hide UpdateCrc, CrcByte;
      UpdateCrcAppend(U32 - 1, data, bytes);
      crc := CrcOf(crc, start, len);
      SizeAdds(|data|, len, isize);
      isize := (isize + len) % U32;
      data := data + bytes;
    }

    /** `updcrc` */
    method CrcOf(c0: nat, start: nat, len: nat) returns (c: nat)
      requires start + len <= window.Length
      ensures c == UpdateCrc(c0, window[start..start + len])
    {
      hide UpdateCrc, CrcByte;
      c := c0;
      var i := 0;
      ghost var w := window[..];
      CrcOfNone(c0);
      assert w[start..start] == [];
      while i < len
        invariant 0 <= i <= len && c == UpdateCrc(c0, w[start..start + i])
      {
        CrcOfOneMore(c0, w, start, start + i);
        c := CrcByte(c, window[start + i]);
        i := i + 1;
      }
    }

    // ----- fill_window -----

    /** Everything the window layer keeps. */
    ghost predicate Windowed()
      reads `strstart, `lookahead, `base, `data, `eofile, `crc, `isize, `matchStart, src, window, prev, head
    {
      && Sizes() && Content() && Linked() && Summed() && matchStart < U32
      && (eofile && !src.failing ==> src.rest == [])
    }

    /** The upper half of the window becomes the lower half. */
    method Slide()
      requires Sizes() && Content() && Linked() && matchStart < U32
      requires strstart >= WSIZE + MAX_DIST && lookahead >= 2
      modifies this`matchStart, this`strstart, this`blockStart, this`base, window, prev, head
      ensures Content() && Linked()
      ensures strstart == old(strstart) - WSIZE && blockStart == old(blockStart) - WSIZE && base == old(base) + WSIZE
      ensures matchStart == Sub32(old(matchStart), WSIZE)
    {
      hide Chained, HASH_SIZE;
      ghost var w, hd, links := window[..], head[..], prev[..];
      forall i | 0 <= i < WSIZE {
        window[i] := window[WSIZE + i];
      }
      HalfMoved(w, window[..], strstart, lookahead, base, data);
      matchStart := Sub32(matchStart, WSIZE);
      strstart := strstart - WSIZE;
      blockStart := blockStart - WSIZE;
      base := base + WSIZE;
      SlideTable(head);
      SlideTable(prev);
      SlideKeeps(w, hd, links, strstart + WSIZE, window[..], head[..], prev[..]);
    }

    /** How much room there is, after sliding if the window is almost full. */
    method MakeRoom() returns (more: nat, ghost moved: nat)
      requires Windowed() && !eofile && lookahead < MIN_LOOKAHEAD && (strstart > 0 ==> lookahead >= 2)
      modifies this`matchStart, this`strstart, this`blockStart, this`base, window, prev, head
      ensures Windowed() && moved in {0, WSIZE} && more == WINDOW_SIZE - lookahead - strstart >= 2
      ensures base == old(base) + moved && strstart == old(strstart) - moved && blockStart == old(blockStart) - moved
      ensures matchStart == Sub32(old(matchStart), moved) && (moved == 0 || moved < old(strstart))
    {
      hide Deflater.Linked, Deflater.Summed, HASH_SIZE;
      more := WINDOW_SIZE - lookahead - strstart;
      moved := 0;
      if strstart >= WSIZE + MAX_DIST {
        Slide();
        more := more + WSIZE;
        moved := WSIZE;
      }
    }

    /** `fill_window`: the history stays the same, apart from what is too old;
        there is room for at least two bytes, and either some are read or the end
        of the input is noticed. */
    method FillWindow() returns (ghost moved: nat)
      requires Windowed() && !eofile && lookahead < MIN_LOOKAHEAD && (strstart > 0 ==> lookahead >= 2)
      modifies this`matchStart, this`strstart, this`blockStart, this`base, this`lookahead, this`eofile, this`crc, this`isize, this`data
      modifies src, window, prev, head
      ensures Windowed() && moved in {0, WSIZE}
      ensures base == old(base) + moved && strstart == old(strstart) - moved && blockStart == old(blockStart) - moved
      ensures matchStart == Sub32(old(matchStart), moved) && (moved == 0 || moved < old(strstart))
      ensures eofile || lookahead > old(lookahead)
      ensures lookahead >= old(lookahead) && old(data) <= data && data + src.rest == old(data) + old(src.rest)
      ensures old(lookahead) >= 2 && old(Hashed()) ==> Hashed()
    {
      hide Deflater.Linked, Deflater.Summed, Deflater.Content, HASH_SIZE, Rolling;
      NextBytes();
      var more;
      more, moved := MakeRoom();
      if !eofile {
        ReadAhead(more);
      }
      NextBytes();
    }

    /** `fill_window_if_needed`: positions in the input stay what they are. */
    method FillWindowIfNeeded()
      requires Windowed() && (eofile || strstart == 0 || lookahead >= 2)
      modifies this`matchStart, this`strstart, this`blockStart, this`base, this`lookahead, this`eofile, this`crc, this`isize, this`data
      modifies src, window, prev, head
      ensures Windowed() && (lookahead >= MIN_LOOKAHEAD || eofile) && lookahead >= old(lookahead)
      ensures base + strstart == old(base + strstart) && base + blockStart == old(base + blockStart)
      ensures old(strstart) >= 1 ==> strstart >= 1 && Sub32(strstart - 1, matchStart) == old(Sub32(strstart - 1, matchStart))
      ensures old(strstart) == 0 ==> strstart == 0
      ensures old(data) <= data && data + src.rest == old(data) + old(src.rest)
      ensures old(eofile) ==> eofile && data == old(data)
      ensures old(strstart + 1 < window.Length && Hashed()) && (old(lookahead) >= 2 || old(eofile)) ==> Hashed()
    {
      hide Deflater.Linked, Deflater.Summed, Deflater.Placed, Deflater.Hashed, HASH_SIZE, Rolling, Sub32;
      while lookahead < MIN_LOOKAHEAD && !eofile
        invariant Windowed() && lookahead >= old(lookahead) && (eofile || strstart == 0 || lookahead >= 2)
        invariant base + strstart == old(base + strstart) && base + blockStart == old(base + blockStart)
        invariant old(strstart) >= 1 ==> strstart >= 1 && Sub32(strstart - 1, matchStart) == old(Sub32(strstart - 1, matchStart))
        invariant old(strstart) == 0 ==> strstart == 0
        invariant old(data) <= data && data + src.rest == old(data) + old(src.rest)
        invariant old(Hashed()) && (old(lookahead) >= 2 || old(eofile)) ==> Hashed()
        invariant old(eofile) ==> eofile && data == old(data)
        decreases !eofile, MIN_LOOKAHEAD - lookahead
      {
        ghost var start, from := strstart, matchStart;
        ghost var moved := FillWindow();
        if start >= 1 {
          SubMoved(start - 1, from, moved);
        }
      }
    }

    /** Reads behind the lookahead, or notices the end of the input. */
    method ReadAhead(more: nat)
      requires Windowed() && !eofile && 2 <= more == WINDOW_SIZE - lookahead - strstart && (strstart > 0 ==> lookahead >= 2)
      modifies this`lookahead, this`eofile, this`crc, this`isize, this`data, src, window
      ensures Windowed()
      ensures eofile || lookahead > old(lookahead)
      ensures lookahead >= old(lookahead) && old(data) <= data && data + src.rest == old(data) + old(src.rest)
    {
      hide Chained, HASH_SIZE, Deflater.Summed, Deflater.Placed;
      ghost var w := window[..];
      var n := FileRead(more);
      ghost var l := strstart + lookahead;
      FrontKept(w, window[..], l, strstart);
      ChainsKept(w, window[..], head[..], prev[..], strstart);
      if n == 0 || n == -1 {
        eofile := true;
      } else {
        lookahead := lookahead + n;
      }
    }

    /** The next two bytes of the window are the next two of the input. */
    lemma NextBytes()
      requires Sizes() && Content()
      ensures lookahead >= 2 ==>
        && base + strstart + 1 < |data|
        && window[strstart] == data[base + strstart] && window[strstart + 1] == data[base + strstart + 1]
      ensures strstart + lookahead <= WINDOW_SIZE && base + strstart + lookahead == |data|
    {
      if lookahead >= 2 {
        assert window[strstart] == window[..strstart + lookahead][strstart] == data[base..][strstart];
        assert window[strstart + 1] == window[..strstart + lookahead][strstart + 1] == data[base..][strstart + 1];
      }
    }

    // ----- longest_match -----

    /** One round of eight comparisons, stopped by the first difference. */
    method CompareEight(scan0: nat, match0: nat) returns (scan: nat, match_: nat, same: bool)
      requires match0 < scan0 && scan0 + 8 < window.Length && window[scan0] == window[match0]
      ensures scan0 < scan <= scan0 + 8 && scan - match_ == scan0 - match0
      ensures MatchAt(window[..], scan0, scan0 - match0, scan - scan0)
      ensures if same then scan == scan0 + 8 && window[scan] == window[match_] else window[scan] != window[match_]
    {
      scan, match_, same := scan0, match0, true;
      while same && scan < scan0 + 8
        invariant scan0 <= scan <= scan0 + 8 && scan - match_ == scan0 - match0
        invariant forall i :: scan0 < i < scan ==> window[i] == window[i - (scan0 - match0)]
        invariant scan0 < scan ==> same == (window[scan] == window[match_])
        invariant scan == scan0 ==> same
        decreases scan0 + 8 - scan
      {
        scan := scan + 1;
        match_ := match_ + 1;
        same := window[scan] == window[match_];
      }
    }

    /** The length of a match whose first three bytes are known to agree. */
    method Compare(curMatch: nat) returns (len: nat)
      requires curMatch < strstart && strstart + MAX_MATCH < window.Length
      requires MatchAt(window[..], strstart, strstart - curMatch, 3)
      ensures 3 <= len <= MAX_MATCH && MatchAt(window[..], strstart, strstart - curMatch, len)
      ensures len < MAX_MATCH ==> window[strstart + len] != window[curMatch + len]
    {
      hide MatchAt;
      var strend := strstart + MAX_MATCH;
      var scan, match_, same := strstart + 2, curMatch + 2, true;
      ghost var w, dist := window[..], strstart - curMatch;
      TwoFrom(w, strstart, dist);
      while same && scan < strend
        invariant strstart + 2 <= scan <= strend && scan - match_ == dist
        invariant (scan - strstart) % 8 == 2 || !same
        invariant MatchAt(w, strstart, dist, scan - strstart)
        invariant scan > strstart + 2 || same
        invariant same == (w[scan] == w[match_])
        decreases strend - scan
      {
        ghost var before := scan;
        scan, match_, same := CompareEight(scan, match_);
        LongerMatch(w, strstart, dist, before - strstart, scan - strstart);
      }
      len := MAX_MATCH - (strend - scan);
    }

    /** The quick tests at both ends of the match so far, and the comparison if
        they succeed; 0 if they do not. */
    method Candidate(curMatch: nat, bestLen: nat, scanEnd1: byte, scanEnd: byte) returns (len: nat)
      requires strstart + MAX_MATCH < window.Length && 1 <= bestLen <= MAX_MATCH
      requires curMatch != 0 && curMatch < strstart && Earlier(window[..], curMatch, strstart)
      requires scanEnd1 == window[strstart + bestLen - 1] && scanEnd == window[strstart + bestLen]
      ensures len != 0 ==> 3 <= len <= MAX_MATCH && MatchAt(window[..], strstart, strstart - curMatch, len)
      ensures Beaten(window[..], strstart, strstart - curMatch, if len > bestLen then len else bestLen)
    {
      if window[curMatch + bestLen] != scanEnd || window[curMatch + bestLen - 1] != scanEnd1
        || window[curMatch] != window[strstart] || window[curMatch + 1] != window[strstart + 1]
      {
        return 0;
      }
      SameThird(window[..], curMatch, strstart);
      len := Compare(curMatch);
    }

    /** One string of the chain: takes over its match if that is longer. */
    method TryMatch(curMatch: Pos, bestLen0: nat, scanEnd1_: byte, scanEnd_: byte)
      returns (bestLen: nat, scanEnd1: byte, scanEnd: byte, nice: bool)
      requires strstart + MAX_MATCH < window.Length && 1 <= bestLen0 <= MAX_MATCH
      requires 0 < curMatch < strstart <= curMatch + MAX_DIST && Earlier(window[..], curMatch, strstart)
      requires scanEnd1_ == window[strstart + bestLen0 - 1] && scanEnd_ == window[strstart + bestLen0]
      modifies this`matchStart
      ensures bestLen0 <= bestLen <= MAX_MATCH && Beaten(window[..], strstart, strstart - curMatch, bestLen)
      ensures if bestLen > bestLen0 then Found(bestLen) && matchStart == curMatch else matchStart == old(matchStart)
      ensures nice == (bestLen > bestLen0 && bestLen >= level.niceMatch)
      ensures !nice ==> scanEnd1 == window[strstart + bestLen - 1] && scanEnd == window[strstart + bestLen]
    {
      hide MatchAt, Earlier, Beaten;
      bestLen, scanEnd1, scanEnd, nice := bestLen0, scanEnd1_, scanEnd_, false;
      var len := Candidate(curMatch, bestLen, scanEnd1, scanEnd);
      if len > bestLen {
        matchStart := curMatch;
        bestLen := len;
        if len >= level.niceMatch {
          nice := true;
          return;
        }
        scanEnd1 := window[strstart + bestLen - 1];
        scanEnd := window[strstart + bestLen];
      }
    }

    /** With enough lookahead that is within the first WINDOW_SIZE bytes, and so
        within a window that has no others. */
    lemma LookaheadSuffices()
      requires lookahead >= MIN_LOOKAHEAD && strstart + lookahead <= WINDOW_SIZE
      ensures strstart + MAX_MATCH < WINDOW_SIZE
    {
    }

    /** `longest_match`: a match longer than prevLength, or prevLength. Unless it
        is nice enough to stop early, no string tried has a longer one, and none
        that is nearer has one as long. Of the window no more is read than MAX_MATCH + 1 bytes from strstart on. */
    method LongestMatch(hashHead: Pos) returns (bestLen: nat)
      requires strstart < WINDOW_SIZE && strstart + MAX_MATCH < window.Length && prev.Length == WSIZE
      requires 1 <= prevLength <= MAX_MATCH
      requires Chained(window[..], head[..], prev[..], strstart + 1)
      requires hashHead != 0 && Earlier(window[..], hashHead, strstart) && strstart - hashHead <= MAX_DIST
      modifies this`matchStart
      ensures prevLength <= bestLen <= MAX_MATCH
      ensures bestLen > prevLength ==> Found(bestLen)
      ensures bestLen == prevLength ==> matchStart == old(matchStart)
      ensures BestOf(window[..], strstart, Chain(prev[..], hashHead, Limit(strstart), TriesAt(level, prevLength)),
                     prevLength, bestLen, matchStart, level)
    {
      hide Chained, Key, Pow2, MatchAt, Earlier, HASH_SIZE, Beaten, Deflater.Found, Chain, AllBeaten, Tried, Nearest;
      var chainLength := level.maxChainLength;
      bestLen := prevLength;
      var limit := if strstart > MAX_DIST then strstart - MAX_DIST else 0;
      var scanEnd1 := window[strstart + bestLen - 1];
      var scanEnd := window[strstart + bestLen];
      if prevLength >= level.goodMatch {
        chainLength := chainLength / 4;
      }
      var curMatch: Pos := hashHead;
      ghost var w, hd, links, tried := window[..], head[..], prev[..], [];
      ghost var chain := Chain(links, curMatch, limit, chainLength);
      NoneTried(w, strstart, chain, bestLen);
      while true
        invariant prevLength <= bestLen <= MAX_MATCH && w == window[..] && links == prev[..]
        invariant 0 < curMatch && Earlier(w, curMatch, strstart) && strstart - curMatch <= MAX_DIST
        invariant scanEnd1 == w[strstart + bestLen - 1] && scanEnd == w[strstart + bestLen]
        invariant if bestLen > prevLength then Found(bestLen) else matchStart == old(matchStart)
        invariant Tried(w, strstart, chain, tried, Chain(links, curMatch, limit, chainLength), bestLen)
        invariant bestLen > prevLength ==> curMatch < matchStart && Nearest(w, strstart, tried, matchStart, bestLen)
        decreases curMatch
      {
        NextLink(w, hd, links, curMatch, strstart);
        ChainStep(links, curMatch, limit, chainLength);
        ghost var before := bestLen;
        var nice;
        bestLen, scanEnd1, scanEnd, nice := TryMatch(curMatch, bestLen, scanEnd1, scanEnd);
        OneMoreTried(w, strstart, chain, tried, Chain(links, curMatch, limit, chainLength), before, bestLen);
        TriedSoFar(w, strstart, chain, tried, Chain(links, curMatch, limit, chainLength), before);
        if bestLen > before {
          NewNearest(w, strstart, tried, curMatch, before, bestLen);
        } else if bestLen > prevLength {
          StillNearest(w, strstart, tried, curMatch, matchStart, bestLen);
        }
        tried := tried + [curMatch];
        if nice {
          break;
        }
        curMatch := prev[curMatch % WSIZE];
        if curMatch <= limit {
          break;
        }
        chainLength := Sub32(chainLength, 1);
        if chainLength == 0 {
          break;
        }
      }
      FoundBest(chain, bestLen);
    }

    /** What has been found, in other words. */
    lemma FoundBest(chain: seq<nat>, best: nat)
      requires prevLength <= best <= MAX_MATCH && (best > prevLength ==> Found(best))
      requires !Nice(prevLength, best, level) ==> AllBeaten(window[..], strstart, chain, best)
      requires best > prevLength && !Nice(prevLength, best, level) ==> Nearest(window[..], strstart, chain, matchStart, best)
      ensures BestOf(window[..], strstart, chain, prevLength, best, matchStart, level)
    {
      hide AllBeaten, Nearest, MatchAt;
    }

    // ----- the state between two steps -----

    /** The tokens so far stand for the input up to here, after what the blocks
        that are out already decode to; none refers further back than MAX_DIST. */
    ghost predicate Coding(upto: int)
      reads `base, `blockStart, `data, `begun, `trail, bw, bw.Repr
    {
      && bw.Valid() && Trail(begun, bw.Output(), trail) && 0 <= base + blockStart <= upto
      && Told(data, base + blockStart, upto, bw.tb.toks) && Near(bw.tb.toks) && NoneDue(bw.tb.toks, |bw.tb.toks| - 1)
      && Resumes(begun, bw.Output(), data[..base + blockStart])
    }

    /** All tokens so far. */
    ghost function Total(): seq<Token>
      reads `trail, bw.tb
    {
      TrailToks(trail) + bw.tb.toks
    }

    /** There is room for one more token, and no need to flush. */
    ghost predicate Room()
      reads bw.tb
    {
      bw.tb.lastLit < LIT_BUFSIZE - 1 && NoneDue(bw.tb.toks, |bw.tb.toks|)
    }

    /** The match found at the step before, which starts at `from`. */
    ghost predicate Pending(from: nat, len: nat)
      reads `strstart, `base, `data
    {
      && strstart >= 1 && Sub32(strstart - 1, from) <= MAX_DIST
      && MatchAt(data, base + strstart - 1, Sub32(strstart - 1, from), len)
    }

    /** The window whenever `deflate` looks at the next string. */
    ghost predicate Reading()
      reads this, src, window, prev, head
    {
      && Windowed() && (lookahead >= MIN_LOOKAHEAD || eofile)
      && (lookahead > 0 ==> Hashed())
    }

    /** The output then: a string may be available that no token stands for yet,
        and a match of it may be known. */
    ghost predicate Writing(available: bool, from: nat, length: nat)
      reads this, bw, bw.Repr, bw.tb
    {
      && Coding(base + strstart - (if available then 1 else 0)) && Room()
      && 1 <= length <= MAX_MATCH && (available ==> strstart >= 1)
      && (length >= MIN_MATCH ==> available && Pending(from, length))
    }

    /** `FLUSH_BLOCK` */
    method Flush(eof: bool)
      requires Sizes() && Content() && strstart < 0x10000 && Coding(base + strstart) && (eof || Due(bw.tb.toks))
      modifies this`trail, bw.Repr
      ensures bw.Valid() && bw.tb.toks == [] && Room() && Total() == old(Total()) && Trail(begun, bw.Output(), trail)
      ensures !eof ==> Resumes(begun, bw.Output(), data[..base + strstart])
      ensures eof ==> Ended(begun, bw.Output(), data[..base + strstart]) && bw.Whole()
    {
      hide BlockWriter.Valid, Deflater.Linked, Deflater.Summed, Resumes, Ended, BlockOutput, ValidTokens, Expand, BlockWriter.Output, Flushed, Holds,
        Trail, TrailToks, Due, Cheapest;
      ghost var from, sent := base + blockStart, bw.Output();
      ghost var toks := bw.tb.toks;
      var storedLen := strstart - blockStart;
      ghost var blk, dyn := bw.FlushBlock(window, blockStart, storedLen, eof, from);
      WindowTells(window[..], strstart, lookahead, base, data);
      FlushedTells(begun, sent, bw.Output(), data, from, base + strstart, toks, blk, eof, window[..], base, blockStart);
      bw.NothingBuffered();
      ghost var s := Sending(sent, bw.Output(), blk, dyn, blockStart >= 0, toks, eof, from);
      SendingGood(s, data, base + strstart);
      TrailGrows(begun, sent, trail, s);
      trail := trail + [s];
    }

    // ----- INSERT_STRING -----

    /** The string at strstart is on its chain, the key of the next one is begun. */
    ghost predicate Threaded()
      requires strstart + 2 < window.Length
      reads `strstart, `insH, window, prev, head
    {
      && Chained(window[..], head[..], prev[..], strstart + 1)
      && Rolling(insH, window[strstart + 1], window[strstart + 2])
    }

    /** `INSERT_STRING` */
    method InsertString(s: Pos) returns (matchHead: Pos)
      requires Sizes() && s + 2 < window.Length
      requires Chained(window[..], head[..], prev[..], s) && Rolling(insH, window[s], window[s + 1])
      modifies this`insH, prev, head
      ensures Chained(window[..], head[..], prev[..], s + 1) && Rolling(insH, window[s + 1], window[s + 2])
      ensures Latest(window[..], matchHead, s)
    {
      hide Chained, Rolling, HASH_SIZE, UpdateHash;
      Inserted(window[..], head[..], prev[..], s);
      RollingStep(insH, window[s], window[s + 1], window[s + 2]);
      insH := UpdateHash(insH, window[s + 2]);
      matchHead := head[insH];
      prev[s % WSIZE] := matchHead;
      head[insH] := s;
      assert head[..] == old(head[..])[insH := s];
      assert prev[..] == old(prev[..])[s % WSIZE := matchHead];
    }

    /** The strings of a match but the first two. */
    method InsertRest()
      requires Sizes() && 1 <= prevLength && strstart + prevLength < 0x10000 && Threaded()
      modifies this`strstart, this`prevLength, this`insH, prev, head
      ensures strstart == old(strstart) + old(prevLength) && Threaded()
    {
      hide Chained, Rolling, HASH_SIZE;
      while true
        invariant 1 <= prevLength && strstart + prevLength == old(strstart) + old(prevLength) && Threaded()
        decreases prevLength
      {
        strstart := strstart + 1;
        var _ := InsertString(strstart);
        prevLength := prevLength - 1;
        if prevLength == 0 {
          break;
        }
      }
    }

    // ----- the steps of deflate -----

    /** A match of this length has just been found at strstart. */
    ghost predicate JustFound(len: nat)
      reads `strstart, `matchStart, `base, `data
    {
      && Sub32(strstart, matchStart) <= MAX_DIST
      && MatchAt(data, base + strstart, Sub32(strstart, matchStart), len)
    }

    /** The window, ready for a search. */
    lemma WindowReady(h: nat)
      requires Sizes() && Content() && strstart < WINDOW_SIZE && lookahead > 0 && Threaded() && Latest(window[..], h, strstart)
      ensures Ready(window[..], strstart + lookahead, base, data, head[..], prev[..], strstart, h)
    {
      hide Chained, Rolling, Latest;
    }

    /** The search at one step; what it finds stays within the lookahead. */
    method FindMatch(hashHead: Pos) returns (matchLength: nat)
      requires Sizes() && Content() && strstart < WINDOW_SIZE && lookahead > 0 && Threaded()
      requires 1 <= prevLength <= MAX_MATCH && matchStart < U32
      requires hashHead != 0 && Latest(window[..], hashHead, strstart) && strstart - hashHead <= MAX_DIST
      requires prevLength < level.maxLazyMatch
      modifies this`matchStart
      ensures 1 <= matchLength <= MAX_MATCH && matchStart < U32
      ensures Searched(data, base + strstart, prevLength, Turn(matchLength, Sub32(strstart, matchStart)), level)
    {
      hide Chained, Rolling, HASH_SIZE, MatchAt, NoneBetween, AllBeaten, Chain, Nearest, Searched, BestOf, Ready, Key;
      LatestIsEarlier(window[..], hashHead, strstart);
      matchLength := LongestMatch(hashHead);
      ghost var bestLen := matchLength;
      if matchLength > lookahead {
        matchLength := lookahead;
      }
      assert bestLen > prevLength ==> Sub32(strstart, matchStart) == strstart - matchStart;
      if matchLength == MIN_MATCH && Sub32(strstart, matchStart) > TOO_FAR {
        matchLength := matchLength - 1;
      }
      WindowReady(hashHead);
      SearchResult(window[..], strstart + lookahead, base, data, head[..], prev[..], strstart, hashHead,
                   prevLength, bestLen, matchStart, Sub32(strstart, matchStart), level);
    }

    /** One more token; it has to tell the input from here to `upto`. */
    method Tally(dist: nat, lc: byte, ghost t: Token, ghost here: nat, ghost upto: nat) returns (flush: bool)
      requires Sizes() && Coding(here) && Room() && dist <= MAX_DIST
      requires t == if dist == 0 then Literal(lc) else Match(lc + MIN_MATCH, dist)
      requires here == base + strstart - 1 <= upto && Told(data, base + blockStart, upto, bw.tb.toks + [t])
      modifies bw.Repr
      ensures Coding(upto) && (if flush then Due(bw.tb.toks) else Room()) && Total() == old(Total()) + [t]
    {
      hide BlockWriter.Valid, BlockWriter.Output, Told, Resumes, Trail, TrailToks, MustFlush, NoneDue;
      ghost var toks := bw.tb.toks;
      OneMoreNotDue(toks, t);
      ToldLength(data, base + blockStart, here, toks);
      assert (toks + [t])[..|toks|] == toks;
      flush := bw.CtTally(dist, lc, strstart - blockStart);
      bw.HasSymbols();
    }

    /** Flushes the block if that is due. */
    method FlushIf(flush: bool)
      requires Sizes() && Content() && strstart < 0x10000 && Coding(base + strstart) && (if flush then Due(bw.tb.toks) else Room())
      modifies this`blockStart, this`trail, bw.Repr
      ensures Coding(base + strstart) && Room() && Total() == old(Total())
    {
      hide BlockWriter.Valid, BlockWriter.Output, Told, Resumes, Trail, TrailToks;
      if flush {
        Flush(false);
        blockStart := strstart;
        ToldNothing(data, base + strstart);
      }
    }

    /** No better match at this step: the one of the step before becomes a token. */
    method EmitMatch(prevMatch: nat)
      requires Sizes() && Content() && strstart + 2 < window.Length && Threaded()
      requires MIN_MATCH <= prevLength <= MAX_MATCH && Pending(prevMatch, prevLength)
      requires Coding(base + strstart - 1) && Room() && (lookahead >= MIN_LOOKAHEAD || eofile)
      modifies this`lookahead, this`prevLength, this`strstart, this`insH, this`blockStart, this`trail, prev, head, bw.Repr
      ensures strstart == old(strstart) + old(prevLength) - 1 && lookahead == old(lookahead) - (old(prevLength) - 1)
      ensures Content() && Linked() && Hashed() && Coding(base + strstart) && Room()
      ensures Total() == old(Total()) + [Match(old(prevLength), old(Sub32(strstart - 1, prevMatch)))]
    {
      hide Chained, Rolling, HASH_SIZE, MatchAt, BlockWriter.Valid, BlockWriter.Output, Told, Resumes, Trail, TrailToks;
      ghost var here, dist := base + strstart - 1, Sub32(strstart - 1, prevMatch);
      ToldMatch(data, base + blockStart, here, bw.tb.toks, prevLength, dist);
      MatchWithin(data, here, dist, prevLength);
      var flush := Tally(Sub32(strstart - 1, prevMatch), prevLength - MIN_MATCH, Match(prevLength, dist), here, here + prevLength);
      SkipMatch();
      FlushIf(flush);
    }

    /** Goes on behind the match, whose strings are put on their chains. */
    method SkipMatch()
      requires Sizes() && Content() && 1 <= strstart && strstart + 2 < window.Length && Threaded()
      requires MIN_MATCH <= prevLength <= lookahead + 1
      modifies this`lookahead, this`prevLength, this`strstart, this`insH, prev, head
      ensures strstart == old(strstart) + old(prevLength) - 1 && lookahead == old(lookahead) - (old(prevLength) - 1)
      ensures Content() && Linked() && strstart + 1 < window.Length && Hashed()
    {
      hide Chained, Rolling, HASH_SIZE;
      lookahead := lookahead - (prevLength - 1);
      prevLength := prevLength - 2;
      InsertRest();
      strstart := strstart + 1;
    }

    /** The string before this one becomes a literal. */
    method EmitLiteral()
      requires Sizes() && Content() && 1 <= strstart < 0x10000
      requires Coding(base + strstart - 1) && Room()
      modifies this`blockStart, this`trail, bw.Repr
      ensures Coding(base + strstart) && Room()
      ensures Total() == old(Total()) + [LiteralBefore(data, base + strstart)]
    {
      hide BlockWriter.Valid, BlockWriter.Output, Told, Resumes, Trail, TrailToks;
      ghost var here := base + strstart - 1;
      WindowByte(window[..], strstart, lookahead, base, data);
      ToldLiteral(data, base + blockStart, here, bw.tb.toks);
      var flush := Tally(0, window[strstart - 1], Literal(window[strstart - 1]), here, here + 1);
      FlushIf(flush);
    }

    /** The first half of a step: the string is put on its chain and searched for. */
    method Search(length: nat) returns (prevMatch: nat, matchLength: nat)
      requires Reading() && lookahead > 0 && 1 <= length <= MAX_MATCH
      modifies this`insH, this`prevLength, this`matchStart, prev, head
      ensures Sizes() && Content() && Threaded() && Summed() && matchStart < U32
      ensures prevLength == length && prevMatch == old(matchStart) && 1 <= matchLength <= MAX_MATCH
      ensures matchLength > length && matchLength >= MIN_MATCH ==> JustFound(matchLength)
      ensures Searched(data, base + strstart, length, Turn(matchLength, Sub32(strstart, matchStart)), level)
    {
      hide Chained, Rolling, HASH_SIZE, MatchAt, Deflater.Summed, Latest, Searched, Ready;
      var hashHead := InsertString(strstart);
      prevLength := length;
      prevMatch := matchStart;
      matchLength := MIN_MATCH - 1;
      if hashHead != 0 && prevLength < level.maxLazyMatch && strstart - hashHead <= MAX_DIST {
        matchLength := FindMatch(hashHead);
      } else {
        WindowReady(hashHead);
        NoneToTry(window[..], strstart + lookahead, base, data, head[..], prev[..], strstart, hashHead,
                  prevLength, Sub32(strstart, matchStart), level);
      }
      FoundCounts(length, matchLength);
    }

    lemma FoundCounts(length: nat, matchLength: nat)
      requires Searched(data, base + strstart, length, Turn(matchLength, Sub32(strstart, matchStart)), level)
      ensures matchLength > length && matchLength >= MIN_MATCH ==> JustFound(matchLength)
    {
      hide MatchAt, Longest;
    }

    /** This is how far the tokens have come. */
    ghost predicate At(p: Parse, available: bool, from: nat, length: nat)
      reads `base, `strstart, `trail, bw.tb
    {
      && p.toks == Total() && p.pos == base + strstart && p.available == available && p.turn.len == length
      && (length >= MIN_MATCH && strstart >= 1 ==> p.turn.dist == Sub32(strstart - 1, from))
    }

    /** What was found a step ago, if anything, is overtaken; if the byte before is still
        to be told it becomes a literal. */
    method GoOn(available: bool, prevMatch: nat, matchLength: nat, ghost p: Parse)
      requires Sizes() && Content() && lookahead > 0 && (lookahead >= MIN_LOOKAHEAD || eofile) && Threaded()
      requires 1 <= matchLength <= MAX_MATCH && Writing(available, prevMatch, prevLength)
      requires matchLength >= MIN_MATCH ==> JustFound(matchLength)
      requires At(p, available, prevMatch, prevLength) && (prevLength < MIN_MATCH || matchLength > prevLength)
      modifies this`lookahead, this`strstart, this`blockStart, this`trail, bw.Repr
      ensures Sizes() && Content() && Linked() && strstart + 1 < window.Length && Hashed()
      ensures At(Next(data, p, Turn(matchLength, old(Sub32(strstart, matchStart)))), true, matchStart, matchLength)
      ensures Writing(true, matchStart, matchLength) && strstart == old(strstart) + 1 && (lookahead >= 2 || eofile)
    {
      hide Chained, Rolling, HASH_SIZE, MatchAt, Deflater.Coding, Deflater.Total, Sub32, Deflater.Linked, Deflater.Hashed, Deflater.Threaded;
      if available {
        EmitLiteral();
      } else {
        NothingTold();
      }
      Advance();
    }

    /** On to the next string. */
    method Advance()
      requires Sizes() && Content() && lookahead > 0 && strstart + 2 < window.Length && Threaded()
      modifies this`strstart, this`lookahead
      ensures strstart == old(strstart) + 1 && lookahead == old(lookahead) - 1
      ensures Content() && Linked() && Hashed()
    {
      hide Chained, Rolling, HASH_SIZE;
      strstart := strstart + 1;
      lookahead := lookahead - 1;
    }

    lemma NothingTold()
      ensures Total() + [] == Total()
    {
    }

    /** The second half: what was found a step ago is used, or overtaken. */
    method Decide(available: bool, prevMatch: nat, matchLength: nat, ghost p: Parse) returns (available': bool, length': nat)
      requires Sizes() && Content() && lookahead > 0 && (lookahead >= MIN_LOOKAHEAD || eofile) && Threaded() && Summed()
      requires 1 <= matchLength <= MAX_MATCH && Writing(available, prevMatch, prevLength)
      requires matchLength > prevLength && matchLength >= MIN_MATCH ==> JustFound(matchLength)
      requires At(p, available, prevMatch, prevLength)
      modifies this`lookahead, this`prevLength, this`strstart, this`insH, this`blockStart, this`trail, prev, head, bw.Repr
      ensures Sizes() && Content() && Linked() && Summed() && strstart + 1 < window.Length && Hashed()
      ensures At(Next(data, p, Turn(matchLength, old(Sub32(strstart, matchStart)))), available', matchStart, length')
      ensures Writing(available', matchStart, length') && strstart > old(strstart) && (lookahead >= 2 || eofile)
    {
      hide Chained, Rolling, HASH_SIZE, MatchAt, Deflater.Summed, Deflater.Coding, Deflater.Total, Sub32;
      if prevLength >= MIN_MATCH && matchLength <= prevLength {
        EmitMatch(prevMatch);
        available', length' := false, MIN_MATCH - 1;
      } else {
        GoOn(available, prevMatch, matchLength, p);
        available', length' := true, matchLength;
      }
    }

    /** The tokens so far follow from what the searches have found, and each search has
        found what it should. */
    ghost predicate Parsing(available: bool, from: nat, length: nat)
      reads `turns, `data, `eofile, `base, `strstart, `trail, bw.tb
    {
      TurnsOk(data, turns, level, eofile) && At(ParseOf(data, turns), available, from, length)
    }

    /** More lookahead changes nothing of what is known. */
    method Refill(ghost available: bool, ghost length: nat)
      requires Windowed() && strstart + 1 < window.Length && Hashed() && Writing(available, matchStart, length) && (lookahead >= 2 || eofile)
      requires Parsing(available, matchStart, length) && strstart >= 1
      modifies this`matchStart, this`strstart, this`blockStart, this`base, this`lookahead, this`eofile, this`crc, this`isize, this`data
      modifies src, window, prev, head
      ensures Reading() && Writing(available, matchStart, length) && base + strstart == old(base + strstart)
      ensures Parsing(available, matchStart, length)
      ensures old(data) <= data && data + src.rest == old(data) + old(src.rest)
    {
      hide Deflater.Linked, HASH_SIZE, Rolling, MatchAt, Deflater.Summed, Deflater.Content, Sub32, Told, Resumes, BlockWriter.Valid, BlockWriter.Output,
        Trail, TrailToks, TurnsOk, ParseOf;
      ghost var eof := eofile;
      InputSeen();
      ghost var start, there, from := strstart, data, base + blockStart;
      FillWindowIfNeeded();
      if !eof {
        TurnsGrow(there, data, turns, level, eofile);
      }
      CodingGrows(there, data, from, base + strstart - (if available then 1 else 0), bw.tb.toks);
      if length >= MIN_MATCH {
        MatchGrows(there, data, base + strstart - 1, Sub32(strstart - 1, matchStart), length);
      }
    }

    lemma InputSeen()
      requires Windowed()
      ensures Sizes() && Content() && base + strstart + lookahead == |data|
    {
      hide Deflater.Linked, Deflater.Summed;
    }

    /** What one turn of the loop does before it looks for more input. */
    method TakeTurn(available: bool, length: nat) returns (available': bool, length': nat)
      requires Reading() && Writing(available, matchStart, length) && lookahead > 0 && Parsing(available, matchStart, length)
      modifies this`insH, this`prevLength, this`matchStart, this`lookahead, this`strstart, this`blockStart, this`trail, this`turns
      modifies prev, head, bw.Repr
      ensures Windowed() && strstart + 1 < window.Length && Hashed() && (lookahead >= 2 || eofile) && strstart > old(strstart)
      ensures Writing(available', matchStart, length') && Parsing(available', matchStart, length')
    {
      hide Deflater.Linked, HASH_SIZE, Rolling, MatchAt, Deflater.Summed, Deflater.Coding, Deflater.Content, Chained, Sub32,
        Searched, TurnsOk, Next, ParseOf, Deflater.Total, Deflater.Pending, Deflater.JustFound;
      InputSeen();
      ghost var p := ParseOf(data, turns);
      var prevMatch, matchLength := Search(length);
      ghost var t := Turn(matchLength, Sub32(strstart, matchStart));
      OneMoreTurn(data, turns, t, level, eofile);
      turns := turns + [t];
      available', length' := Decide(available, prevMatch, matchLength, p);
    }

    /** One turn of the loop in `deflate`. */
    method Step(available: bool, length: nat) returns (available': bool, length': nat)
      requires Reading() && Writing(available, matchStart, length) && lookahead > 0 && Parsing(available, matchStart, length)
      modifies this, src, window, prev, head, bw.Repr
      ensures Reading() && Writing(available', matchStart, length') && begun == old(begun)
      ensures Parsing(available', matchStart, length')
      ensures base + strstart > old(base + strstart)
      ensures old(data) <= data && data + src.rest == old(data) + old(src.rest)
    {
      hide Deflater.Linked, Deflater.Summed, Deflater.Content, HASH_SIZE, Rolling, Deflater.Hashed, Deflater.Writing, Deflater.Parsing;
      available', length' := TakeTurn(available, length);
      Refill(available', length');
    }

    /** `lm_init` */
    method LmInit()
      requires Sizes() && !eofile && strstart == lookahead == matchStart == insH == isize == base == 0 && data == []
      requires crc == U32 - 1 && blockStart == 0
      modifies this`matchStart, this`strstart, this`blockStart, this`base, this`lookahead, this`eofile, this`crc, this`isize, this`data, this`insH
      modifies src, window, prev, head
      ensures Reading() && base == strstart == 0 && blockStart == 0
      ensures data + src.rest == old(src.rest)
    {
      hide HASH_SIZE, Deflater.Linked, Deflater.Summed, Deflater.Content, Rolling;
      FirstRead();
      if lookahead == 0 {
        return;
      }
      FillWindowIfNeeded();
      StartHash();
    }

    /** The first read, into an empty window with no chains. */
    method FirstRead()
      requires Sizes() && !eofile && strstart == lookahead == matchStart == isize == base == 0 && data == [] && crc == U32 - 1
      modifies this`lookahead, this`eofile, this`crc, this`isize, this`data, src, window, head
      ensures Windowed() && (lookahead == 0 ==> eofile) && data + src.rest == old(src.rest)
    {
      hide HASH_SIZE, Chained;
      ClearHead(head);
      NothingRead(window[..], head[..], prev[..]);
      var n := FileRead(WINDOW_SIZE);
      NothingRead(window[..], head[..], prev[..]);
      if n == 0 || n == -1 {
        eofile := true;
        lookahead := 0;
      } else {
        lookahead := n;
      }
    }

    /** Begins the key of the first string. */
    method StartHash()
      requires Sizes() && strstart == 0
      modifies this`insH
      ensures Hashed()
    {
      hide UpdateHash, Low;
      RollingStart(insH, window[0], window[1]);
      insH := UpdateHash(insH, window[0]);
      insH := UpdateHash(insH, window[1]);
    }

    /** `deflate`: however the input is split up, what is sent decodes to it; and the
        tokens of the blocks sent are those of a lazy parse of it. */
    method Deflate()
      requires Reading() && bw.Valid() && bw.tb.toks == [] && base == strstart == 0 && blockStart == 0
      modifies this, src, window, prev, head, bw.Repr
      ensures Windowed() && eofile && data + src.rest == old(data + src.rest)
      ensures bw.Valid() && Ended(old(bw.Output()), bw.Output(), data) && bw.Whole()
      ensures Trail(old(bw.Output()), bw.Output(), trail) && LazilyParsed(data, TrailToks(trail), turns, level)
    {
      hide Deflater.Windowed, Deflater.Linked, HASH_SIZE, Rolling, MatchAt, Deflater.Summed, Deflater.Content, Told, Resumes, BlockWriter.Valid, BlockWriter.Output, Ended;
      Remaining();
      begun, trail, turns := bw.Output(), [], [];
      ResumesAtStart(begun);
      ToldNothing(data, 0);
      bw.NothingBuffered();
      var available, length: nat := false, MIN_MATCH - 1;
      while lookahead != 0
        invariant Reading() && Writing(available, matchStart, length) && begun == old(bw.Output())
        invariant Parsing(available, matchStart, length)
        invariant data + src.rest == old(data + src.rest)
        decreases |data| + |src.rest| - base - strstart
      {
        Remaining();
        available, length := Step(available, length);
        assert |data + src.rest| == |old(data + src.rest)|;
      }
      LastToken(available, length);
    }

    lemma Remaining()
      requires Reading()
      ensures Sizes() && base + strstart + lookahead == |data| && matchStart < U32
    {
      hide Deflater.Linked, Deflater.Summed;
    }

    /** At the end everything has been read, and is in the sums. */
    lemma Checked()
      requires Windowed() && eofile
      ensures Sizes() && crc < U32 && U32 - 1 - crc == Crc32(data) && isize == |data| % U32
      ensures !src.failing ==> src.rest == []
    {
      hide Deflater.Linked, UpdateCrc;
      CrcFits(U32 - 1, data);
    }

    /** The last literal, if there is one. */
    method LastLiteral(available: bool)
      requires Sizes() && Content() && strstart < 0x10000 && (available ==> 1 <= strstart)
      requires Coding(base + strstart - (if available then 1 else 0)) && Room()
      modifies bw.Repr
      ensures Coding(base + strstart)
      ensures Total() == old(Total()) + if available then [LiteralBefore(data, base + strstart)] else []
    {
      hide Told, Resumes, BlockWriter.Valid, BlockWriter.Output, Trail, TrailToks;
      if available {
        WindowByte(window[..], strstart, lookahead, base, data);
        ToldLiteral(data, base + blockStart, base + strstart - 1, bw.tb.toks);
        var _ := Tally(0, window[strstart - 1], Literal(window[strstart - 1]), base + strstart - 1, base + strstart);
      } else {
        assert Total() + [] == Total();
      }
    }

    /** The last literal, and the last block. */
    method LastToken(available: bool, ghost length: nat)
      requires Reading() && Writing(available, matchStart, length) && lookahead == 0
      requires Parsing(available, matchStart, length)
      modifies this`blockStart, this`trail, bw.Repr
      ensures bw.Valid() && bw.Whole() && Windowed() && eofile
      ensures Ended(begun, bw.Output(), data) && Trail(begun, bw.Output(), trail)
      ensures LazilyParsed(data, TrailToks(trail), turns, level)
    {
      hide Deflater.Linked, HASH_SIZE, Rolling, Deflater.Summed, Told, Resumes, BlockWriter.Valid, BlockWriter.Output, Ended,
        Trail, TrailToks, TurnsOk, ParseOf, Deflater.Coding, Deflater.Pending;
      ghost var p := ParseOf(data, turns);
      InputSeen();
      LastLiteral(available);
      CodingSeen(base + strstart);
      assert data[..base + strstart] == data;
      Flush(true);
      assert TrailToks(trail) + [] == TrailToks(trail);
    }

    lemma CodingSeen(upto: int)
      requires Coding(upto)
      ensures bw.Valid() && Trail(begun, bw.Output(), trail)
    {
      hide Told, Resumes, BlockWriter.Valid, BlockWriter.Output, Trail;
    }

    /** matchStart is where a match of this length starts. */
    ghost predicate Found(len: nat)
      reads `matchStart, `strstart, window
    {
      && MIN_MATCH <= len <= MAX_MATCH && matchStart < strstart <= matchStart + MAX_DIST
      && MatchAt(window[..], strstart, strstart - matchStart, len)
    }
  }

  lemma TwoFrom(w: seq<byte>, p: nat, dist: nat)
    requires MatchAt(w, p, dist, 3)
    ensures MatchAt(w, p, dist, 2) && w[p + 2] == w[p + 2 - dist]
  {
  }

  lemma LongerMatch(w: seq<byte>, p: nat, dist: nat, n: nat, m: nat)
    requires n <= m && MatchAt(w, p, dist, n) && MatchAt(w, p + n, dist, m - n)
    ensures MatchAt(w, p, dist, m)
  {
  }

  lemma MatchGrows(data: seq<byte>, data': seq<byte>, pos: nat, dist: nat, len: nat)
    requires MatchAt(data, pos, dist, len) && data <= data'
    ensures MatchAt(data', pos, dist, len)
  {
  }

  lemma CodingGrows(data: seq<byte>, data': seq<byte>, from: nat, upto: nat, toks: seq<Token>)
    requires Told(data, from, upto, toks) && data <= data'
    ensures Told(data', from, upto, toks) && data'[..from] == data[..from]
  {
    ToldGrows(data, data', from, upto, toks);
  }

  lemma MatchWithin(data: seq<byte>, pos: nat, dist: nat, len: nat)
    requires MatchAt(data, pos, dist, len)
    ensures 0 < dist <= pos && pos + len <= |data|
  {
  }

  lemma WindowByte(w: seq<byte>, strstart: nat, lookahead: nat, base: nat, data: seq<byte>)
    requires strstart + lookahead <= |w| && base + strstart + lookahead == |data| && w[..strstart + lookahead] == data[base..]
    requires 1 <= strstart
    ensures w[strstart - 1] == data[base + strstart - 1]
  {
    assert w[strstart - 1] == w[..strstart + lookahead][strstart - 1] == data[base..][strstart - 1];
  }

  lemma WindowTells(w: seq<byte>, strstart: nat, lookahead: nat, base: nat, data: seq<byte>)
    requires strstart + lookahead <= |w| && base + strstart + lookahead == |data| && w[..strstart + lookahead] == data[base..]
    ensures w[..strstart] == data[base..base + strstart]
  {
    assert w[..strstart] == w[..strstart + lookahead][..strstart];
  }

  /** A flushed block brings the decoder to the current position. */
  lemma FlushedTells(begun: seq<bool>, sent: seq<bool>, sent': seq<bool>, data: seq<byte>, from: nat, upto: nat,
                     toks: seq<Token>, blk: Block, eof: bool, window: seq<byte>, base: nat, start: int)
    requires Told(data, from, upto, toks) && Resumes(begun, sent, data[..from]) && Flushed(sent, sent', blk, eof, from)
    requires base <= upto && base + start == from && from <= upto && upto - base <= |window|
    requires Holds(blk, toks, start, upto - from, window) && window[..upto - base] == data[base..upto]
    ensures eof ==> Ended(begun, sent', data[..upto])
    ensures !eof ==> Resumes(begun, sent', data[..upto])
  {
    hide Told, Resumes, Holds, GoodBlock, BlockBits, BlockOutput, Ended, Padding;
    BlockTells(data, from, upto, toks, blk, window, base, start, upto - from);
    ToldWithin(data, from, upto, toks);
    if eof {
      Finishes(begun, sent, sent', data[..from], blk);
    } else {
      ResumesNext(begun, sent, sent', data[..from], blk);
    }
  }

  lemma SendingGood(s: Sending, data: seq<byte>, upto: nat)
    requires Flushed(s.before, s.after, s.blk, s.eof, s.from) && Told(data, s.from, upto, s.toks)
    requires Cheapest(s.blk, s.dyn, s.toks, s.offered, upto - s.from, s.from) && (!s.offered ==> upto - s.from > MAX_DIST)
    requires NoneDue(s.toks, |s.toks| - 1) && (s.eof || Due(s.toks))
    ensures GoodSending(s)
  {
    hide Flushed, Cheapest, Due, NoneDue;
    ToldLength(data, s.from, upto, s.toks);
  }

  lemma ToldLength(data: seq<byte>, from: nat, upto: nat, toks: seq<Token>)
    requires Told(data, from, upto, toks)
    ensures TokensLength(toks) == upto - from
  {
    assert |Expand(data[..from], toks)| == from + TokensLength(toks);
  }

  lemma ToldWithin(data: seq<byte>, from: nat, upto: nat, toks: seq<Token>)
    requires Told(data, from, upto, toks)
    ensures from <= upto <= |data|
  {
  }

  /** Moving both ends leaves the difference. */
  lemma SubMoved(a: nat, m: nat, moved: nat)
    requires moved <= a
    ensures Sub32(a - moved, Sub32(m, moved)) == Sub32(a, m)
  {
  }

  method ClearHead(head: array<Pos>)
    modifies head
    ensures forall h :: 0 <= h < head.Length ==> head[h] == 0
  {
    var h := 0;
    while h < head.Length
      invariant 0 <= h <= head.Length && forall j :: 0 <= j < h ==> head[j] == 0
    {
      head[h] := 0;
      h := h + 1;
    }
  }

  lemma NothingRead(w: seq<byte>, head: seq<Pos>, prev: seq<Pos>)
    requires 2 <= |w| && |head| == HASH_SIZE && |prev| == WSIZE && forall h :: 0 <= h < HASH_SIZE ==> head[h] == 0
    ensures Chained(w, head, prev, 0) && w[..0] == []
  {
  }

  /** What moving the upper half down does to the window's content. */
  lemma HalfMoved(w: seq<byte>, w': seq<byte>, strstart: nat, lookahead: nat, base: nat, data: seq<byte>)
    requires |w'| == |w| == WINDOW_SIZE + MAX_MATCH && WSIZE <= strstart && strstart + lookahead <= WINDOW_SIZE && 2 <= lookahead
    requires forall i :: 0 <= i < WSIZE ==> w'[i] == w[WSIZE + i]
    requires base + strstart + lookahead == |data| && w[..strstart + lookahead] == data[base..]
    ensures MovedDown(w, w', strstart)
    ensures w'[..strstart - WSIZE + lookahead] == data[base + WSIZE..]
  {
    forall i | 0 <= i < strstart - WSIZE + lookahead
      ensures w'[i] == data[base + WSIZE..][i]
    {
      assert w[..strstart + lookahead][WSIZE + i] == data[base..][WSIZE + i];
    }
  }

  lemma FrontKept(w: seq<byte>, w': seq<byte>, n: nat, strstart: nat)
    requires n <= |w| == |w'| && w'[..n] == w[..n]
    ensures strstart + 2 <= n ==> w'[..strstart + 2] == w[..strstart + 2]
  {
    if strstart + 2 <= n {
      assert w'[..strstart + 2] == w'[..n][..strstart + 2];
    }
  }

  lemma SizeAdds(n: nat, len: nat, isize: nat)
    requires isize == n % U32
    ensures (isize + len) % U32 == (n + len) % U32
  {
  }

  lemma CrcOfNone(c: nat)
    ensures UpdateCrc(c, []) == c
  {
  }

  lemma CrcOfOneMore(c: nat, w: seq<byte>, start: nat, i: nat)
    requires start <= i < |w|
    ensures UpdateCrc(c, w[start..i + 1]) == CrcByte(UpdateCrc(c, w[start..i]), w[i])
  {
    hide CrcByte;
    assert w[start..i + 1][..i - start] == w[start..i];
  }

  lemma ReadBehind(w: seq<byte>, w': seq<byte>, n: nat, bytes: seq<byte>, base: nat, data: seq<byte>)
    requires n + |bytes| <= |w| && w' == w[..n] + bytes + w[n + |bytes|..]
    requires base <= |data| && w[..n] == data[base..]
    ensures w'[..n] == w[..n] && w'[n..n + |bytes|] == bytes && w'[..n + |bytes|] == (data + bytes)[base..]
  {
  }
}
