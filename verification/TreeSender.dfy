/** `scan_tree`, `send_tree`, `build_bl_tree` and `send_all_trees`: code lengths
    are counted, then sent, in run-length form. */
module TreeSender {
  import opened Bits
  import opened BitWriters
  import opened Sums
  import opened Heaps
  import opened PrefixCode
  import opened Inflate
  import opened Tokens
  import opened RunLength
  import opened Blocks
  import opened Huffman
  import opened Trees
  import opened CodeLengths
  import opened TreeBuilder
  import opened Histogram
  import opened LeastCodes

  const BL_CODES := 19
  const EXTRA_BLBITS: seq<nat> := [0, 0, 0, 0, 0, 0, 0, 0, 0, 0, 0, 0, 0, 0, 0, 0, 2, 3, 7]
  const BL_DESC: Desc := Desc(19, 7, EXTRA_BLBITS, 0, None)

  const GUARD := 0xffff

  // ----- the symbols as numbers -----

  ghost predicate AllInRange(syms: seq<LenSym>)
  {
    forall i :: 0 <= i < |syms| ==> InRange(syms[i])
  }

  /** The code length symbols of a list of runs. */
  function SymNumbers(syms: seq<LenSym>): (xs: seq<nat>)
    requires AllInRange(syms)
    ensures |xs| == |syms| && forall i :: 0 <= i < |syms| ==> xs[i] == SymOf(syms[i]) < BL_CODES
  {
    seq(|syms|, i requires 0 <= i < |syms| => SymOf(syms[i]))
  }

  lemma NumbersAppend(a: seq<LenSym>, b: seq<LenSym>)
    requires AllInRange(a) && AllInRange(b)
    ensures AllInRange(a + b) && SymNumbers(a + b) == SymNumbers(a) + SymNumbers(b)
  {
  }

  /** Symbols are no more than the lengths they stand for. */
  lemma {:induction false} FewSymbols(acc: seq<nat>, syms: seq<LenSym>)
    requires AllInRange(syms) && Expandable(acc, syms)
    ensures |syms| <= |ExpandSyms(acc, syms)| - |acc|
    decreases |syms|
  {
    if syms != [] {
      FewSymbols(ExpandSym(acc, syms[0]), syms[1..]);
      assert InRange(syms[0]);
    }
  }

  lemma SymsInRange(lens: seq<nat>)
    requires Bounded(lens)
    ensures AllInRange(Syms(lens)) && |Syms(lens)| <= |lens|
  {
    SymsExpand(lens);
    FewSymbols([], Syms(lens));
  }

  // ----- scan_tree and send_tree share their control flow -----

  /** At index n of the scan: what is counted or sent so far, and the run that is
      under way. `next` is the entry at n. */
  ghost predicate Scanning(lens: seq<nat>, n: nat, prev: int, count: nat, next: nat,
                           maxCount: nat, minCount: nat, done: seq<LenSym>)
  {
    && n <= |lens| && count <= n && Bounded(lens)
    && (n == |lens| ==> count == 0)
    && next == (if n < |lens| then lens[n] else GUARD)
    && maxCount == MaxCount(prev, next) && minCount == MinCount(prev, next)
    && count < maxCount
    && (forall i :: n - count <= i < n < |lens| ==> lens[i] == lens[n])
    && AllInRange(done) && done + SymsFrom(lens, n, prev, count) == Syms(lens)
  }

  lemma StartScan(lens: seq<nat>)
    requires Bounded(lens) && lens != []
    ensures Scanning(lens, 0, -1, 0, lens[0], MaxCount(-1, lens[0]), MinCount(-1, lens[0]), [])
  {
    assert [] + Syms(lens) == Syms(lens);
  }

  /** The run goes on, or its symbols are due. */
  lemma ScanStep(lens: seq<nat>, n: nat, prev: int, count: nat, next: nat,
                 maxCount: nat, minCount: nat, done: seq<LenSym>)
    requires Scanning(lens, n, prev, count, next, maxCount, minCount, done) && n < |lens|
    ensures var next' := if n + 1 < |lens| then lens[n + 1] else GUARD;
            if count + 1 < maxCount && next == next'
            then Scanning(lens, n + 1, prev, count + 1, next', maxCount, minCount, done)
            else Scanning(lens, n + 1, next, 0, next', MaxCount(next, next'), MinCount(next, next'),
                          done + RunSyms(prev, next, count + 1))
  {
    hide RunSyms;
    if !(count + 1 < maxCount && lens[n] == NextLen(lens, n)) {
      RunInRange(prev, lens[n], count + 1);
      NumbersAppend(done, RunSyms(prev, lens[n], count + 1));
      assert done + (RunSyms(prev, lens[n], count + 1) + SymsFrom(lens, n + 1, lens[n], 0))
          == done + RunSyms(prev, lens[n], count + 1) + SymsFrom(lens, n + 1, lens[n], 0);
    }
  }

  lemma RunInRange(prev: int, cur: nat, count: nat)
    requires 0 < count <= MaxCount(prev, cur) && cur <= MAX_BITS
    ensures AllInRange(RunSyms(prev, cur, count))
  {
  }

  lemma ScanDone(lens: seq<nat>, prev: int, count: nat, next: nat, maxCount: nat, minCount: nat, done: seq<LenSym>)
    requires Scanning(lens, |lens|, prev, count, next, maxCount, minCount, done)
    ensures done == Syms(lens)
  {
  }

  // ----- counting -----

  /** The frequencies fc exceed fc0 by the occurrences of the symbols in done. */
  ghost predicate CountedIn(fc: seq<nat>, fc0: seq<nat>, done: seq<LenSym>)
  {
    && AllInRange(done) && |fc| == |fc0| && BL_CODES <= |fc|
    && (forall c :: 0 <= c < BL_CODES ==> fc[c] == fc0[c] + Count(SymNumbers(done), c))
    && forall c :: BL_CODES <= c < |fc| ==> fc[c] == fc0[c]
  }

  lemma CountMore(fc: seq<nat>, fc0: seq<nat>, done: seq<LenSym>, s: LenSym)
    requires CountedIn(fc, fc0, done) && InRange(s)
    ensures CountedIn(fc[SymOf(s) := fc[SymOf(s)] + 1], fc0, done + [s])
  {
    NumbersAppend(done, [s]);
    assert SymNumbers([s]) == [SymOf(s)];
    forall c | 0 <= c < BL_CODES
      ensures Count(SymNumbers(done + [s]), c) == Count(SymNumbers(done), c) + (if c == SymOf(s) then 1 else 0)
    {
      CountSnoc(SymNumbers(done), SymOf(s), c);
    }
  }

  lemma {:induction false} CountLens(fc: seq<nat>, fc0: seq<nat>, done: seq<LenSym>, v: nat, k: nat)
    requires CountedIn(fc, fc0, done) && v <= MAX_BITS
    ensures CountedIn(fc[v := fc[v] + k], fc0, done + seq(k, _ => Len(v)))
  {
    if k == 0 {
      assert fc[v := fc[v] + 0] == fc && done + seq(0, _ => Len(v)) == done;
    } else {
      CountLens(fc, fc0, done, v, k - 1);
      var f := fc[v := fc[v] + (k - 1)];
      CountMore(f, fc0, done + seq(k - 1, _ => Len(v)), Len(v));
      assert f[v := f[v] + 1] == fc[v := fc[v] + k];
      assert done + seq(k, _ => Len(v)) == done + seq(k - 1, _ => Len(v)) + [Len(v)];
    }
  }

  method CountRun(blFreq: array<nat>, prevlen: int, curlen: nat, count: nat, minCount: nat,
                  ghost fc0: seq<nat>, ghost done: seq<LenSym>)
    requires 0 < count <= MaxCount(prevlen, curlen) && minCount == MinCount(prevlen, curlen) && curlen <= MAX_BITS
    requires CountedIn(blFreq[..], fc0, done)
    modifies blFreq
    ensures CountedIn(blFreq[..], fc0, done + RunSyms(prevlen, curlen, count))
  {
    hide CountedIn;
    CountedSize(blFreq[..], fc0, done);
    ghost var fc := blFreq[..];
    if count < minCount {
      CountLens(fc, fc0, done, curlen, count);
      blFreq[curlen] := blFreq[curlen] + count;
      assert blFreq[..] == fc[curlen := fc[curlen] + count];
    } else if curlen != 0 {
      ghost var before := done;
      if curlen != prevlen {
        CountMore(fc, fc0, done, Len(curlen));
        blFreq[curlen] := blFreq[curlen] + 1;
        assert blFreq[..] == fc[curlen := fc[curlen] + 1];
        before := done + [Len(curlen)];
      }
      ghost var rep := Rep(if curlen != prevlen then count - 1 else count);
      CountMore(blFreq[..], fc0, before, rep);
      ghost var fc1 := blFreq[..];
      blFreq[16] := blFreq[16] + 1;
      assert blFreq[..] == fc1[16 := fc1[16] + 1];
      assert before + [rep] == done + RunSyms(prevlen, curlen, count);
    } else {
      CountMore(fc, fc0, done, Zeros(count));
      if count <= 10 {
        blFreq[17] := blFreq[17] + 1;
        assert blFreq[..] == fc[17 := fc[17] + 1];
      } else {
        blFreq[18] := blFreq[18] + 1;
        assert blFreq[..] == fc[18 := fc[18] + 1];
      }
    }
  }

  lemma CountedSize(fc: seq<nat>, fc0: seq<nat>, done: seq<LenSym>)
    requires CountedIn(fc, fc0, done)
    ensures BL_CODES <= |fc|
  {
  }

  /** `scan_tree`: counts the symbols that will send the lengths of 0..maxCode, and
      leaves a guard behind them. */
  method ScanTree(dl: array<nat>, blFreq: array<nat>, maxCode: nat)
    requires dl != blFreq && maxCode + 1 < dl.Length && BL_CODES <= blFreq.Length
    requires Bounded(dl[..maxCode + 1])
    modifies dl, blFreq
    ensures dl[..] == old(dl[..])[maxCode + 1 := GUARD]
    ensures CountedIn(blFreq[..], old(blFreq[..]), Syms(old(dl[..maxCode + 1])))
  {
    hide Scanning, Bounded, CountedIn, RunSyms, MaxCount, MinCount;
    ghost var lens, fc0 := dl[..maxCode + 1], blFreq[..];
    ghost var done: seq<LenSym> := [];
    StartScan(lens);
    StartCount(fc0);
    var prevlen: int := -1;
    var nextlen := dl[0];
    var count := 0;
    var maxCount := 7;
    var minCount := 4;
    if nextlen == 0 {
      maxCount := 138;
      minCount := 3;
    }
    CountLimits(-1, nextlen);
    dl[maxCode + 1] := GUARD;
    var n := 0;
    while n <= maxCode
      invariant 0 <= n <= maxCode + 1
      invariant Scanning(lens, n, prevlen, count, nextlen, maxCount, minCount, done)
      invariant dl[..] == old(dl[..])[maxCode + 1 := GUARD]
      invariant CountedIn(blFreq[..], fc0, done)
    {
      ScanStep(lens, n, prevlen, count, nextlen, maxCount, minCount, done);
      ScanFacts(lens, n, prevlen, count, nextlen, maxCount, minCount, done);
      var curlen := nextlen;
      nextlen := dl[n + 1];
      assert nextlen == if n + 1 < |lens| then lens[n + 1] else GUARD;
      count := count + 1;
      n := n + 1;
      if count < maxCount && curlen == nextlen {
        continue;
      }
      CountRun(blFreq, prevlen, curlen, count, minCount, fc0, done);
      done := done + RunSyms(prevlen, curlen, count);
      count := 0;
      prevlen := curlen;
      maxCount := 7;
      minCount := 4;
      if nextlen == 0 {
        maxCount := 138;
        minCount := 3;
      } else if curlen == nextlen {
        maxCount := 6;
        minCount := 3;
      }
      CountLimits(curlen, nextlen);
    }
    ScanDone(lens, prevlen, count, nextlen, maxCount, minCount, done);
  }

  lemma StartCount(fc: seq<nat>)
    requires BL_CODES <= |fc|
    ensures CountedIn(fc, fc, [])
  {
  }

  lemma CountLimits(prev: int, next: nat)
    ensures MaxCount(prev, next) == (if next == 0 then 138 else if prev == next then 6 else 7)
    ensures MinCount(prev, next) == (if next == 0 then 3 else if prev == next then 3 else 4)
  {
  }

  lemma ScanFacts(lens: seq<nat>, n: nat, prev: int, count: nat, next: nat,
                  maxCount: nat, minCount: nat, done: seq<LenSym>)
    requires Scanning(lens, n, prev, count, next, maxCount, minCount, done) && n < |lens|
    ensures next == lens[n] <= MAX_BITS && minCount == MinCount(prev, next)
    ensures maxCount == MaxCount(prev, next) && count + 1 <= maxCount
  {
  }

  // ----- sending -----

  /** Every symbol with a length has its code. */
  ghost predicate CodesSet(fc: seq<nat>, lens: seq<nat>)
  {
    Bounded(lens) && forall c :: 0 <= c < |lens| && lens[c] != 0 ==> CodeSet(fc, lens, c)
  }

  /** `SEND_CODE` */
  method SendCode(w: BitWriter, fc: array<nat>, dl: array<nat>, c: nat, ghost lens: seq<nat>)
    requires w.Valid() && c < |lens| && c < dl.Length && dl[c] == lens[c] && lens[c] > 0
    requires CodesSet(fc[..], lens)
    modifies w, w.outbuf
    ensures w.Valid() && w.Sent() == old(w.Sent()) + CodeWord(lens, c)
  {
    hide CodeWord, ToBits, Pow2;
    assert CodeSet(fc[..], lens, c);
    w.SendBits(fc[c], dl[c]);
  }

  /** What has been sent so far stands for these symbols. */
  ghost predicate Sending(sent: seq<bool>, before: seq<bool>, lens: seq<nat>, done: seq<LenSym>)
  {
    HasCodes(lens, done) && sent == before + SymsBits(lens, done)
  }

  lemma SentSym(sent: seq<bool>, before: seq<bool>, lens: seq<nat>, done: seq<LenSym>, s: LenSym, now: seq<bool>)
    requires Sending(sent, before, lens, done) && InRange(s) && lens[SymOf(s)] > 0
    requires now == sent + SymBits(lens, s)
    ensures Sending(now, before, lens, done + [s])
  {
    hide SymBits;
    assert (done + [s])[..|done|] == done;
    assert before + SymsBits(lens, done) + SymBits(lens, s) == before + (SymsBits(lens, done) + SymBits(lens, s));
  }

  /** A length itself. */
  method SendLen(w: BitWriter, fc: array<nat>, dl: array<nat>, v: nat, ghost lens: seq<nat>,
                 ghost before: seq<bool>, ghost done: seq<LenSym>)
    requires w.Valid() && v <= MAX_BITS && |lens| == BL_CODES <= dl.Length && dl[..BL_CODES] == lens
    requires CodesSet(fc[..], lens) && lens[v] > 0 && Sending(w.Sent(), before, lens, done)
    modifies w, w.outbuf
    ensures w.Valid() && Sending(w.Sent(), before, lens, done + [Len(v)])
  {
    hide CodeWord, CodesSet, Sending;
    ghost var sent := w.Sent();
    assert dl[v] == dl[..BL_CODES][v];
    SendCode(w, fc, dl, v, lens);
    assert SymBits(lens, Len(v)) == CodeWord(lens, v);
    SentSym(sent, before, lens, done, Len(v), w.Sent());
  }

  /** A repeat symbol and its count. */
  method SendRepeat(w: BitWriter, fc: array<nat>, dl: array<nat>, c: nat, value: nat, extra: nat, ghost s: LenSym,
                    ghost lens: seq<nat>, ghost before: seq<bool>, ghost done: seq<LenSym>)
    requires w.Valid() && InRange(s) && c == SymOf(s) && value == ExtraValue(s) && extra == ExtraCount(c)
    requires |lens| == BL_CODES <= dl.Length && dl[..BL_CODES] == lens
    requires CodesSet(fc[..], lens) && lens[c] > 0 && Sending(w.Sent(), before, lens, done)
    modifies w, w.outbuf
    ensures w.Valid() && Sending(w.Sent(), before, lens, done + [s])
  {
    hide CodeWord, CodesSet, Sending, ToBits, Pow2;
    ghost var sent := w.Sent();
    assert dl[c] == dl[..BL_CODES][c];
    SendCode(w, fc, dl, c, lens);
    w.SendBits(value, extra);
    assert w.Sent() == sent + (CodeWord(lens, c) + ToBits(value, extra));
    SentSym(sent, before, lens, done, s, w.Sent());
  }

  method SendRun(w: BitWriter, fc: array<nat>, dl: array<nat>, prevlen: int, curlen: nat, count0: nat, minCount: nat,
                 ghost lens: seq<nat>, ghost before: seq<bool>, ghost done0: seq<LenSym>)
    requires w.Valid() && 0 < count0 <= MaxCount(prevlen, curlen) && minCount == MinCount(prevlen, curlen)
    requires curlen <= MAX_BITS && |lens| == BL_CODES <= dl.Length && dl[..BL_CODES] == lens
    requires CodesSet(fc[..], lens) && Sending(w.Sent(), before, lens, done0)
    requires HasCodes(lens, RunSyms(prevlen, curlen, count0))
    modifies w, w.outbuf
    ensures w.Valid() && Sending(w.Sent(), before, lens, done0 + RunSyms(prevlen, curlen, count0))
  {
    hide Sending, CodesSet;
    ghost var run := RunSyms(prevlen, curlen, count0);
    ghost var done := done0;
    var count := count0;
    assert lens[SymOf(run[0])] > 0;
    if count < minCount {
      while count != 0
        invariant 0 <= count <= count0
        invariant w.Valid() && done == done0 + run[..count0 - count] && Sending(w.Sent(), before, lens, done)
      {
        SendLen(w, fc, dl, curlen, lens, before, done);
        assert run[..count0 - count + 1] == run[..count0 - count] + [Len(curlen)];
        done := done + [Len(curlen)];
        count := count - 1;
      }
      assert run[..count0] == run;
    } else if curlen != 0 {
      if curlen != prevlen {
        SendLen(w, fc, dl, curlen, lens, before, done);
        done := done + [Len(curlen)];
        count := count - 1;
      }
      assert lens[SymOf(run[|run| - 1])] > 0;
      SendRepeat(w, fc, dl, 16, count - 3, 2, Rep(count), lens, before, done);
      assert done + [Rep(count)] == done0 + run;
    } else if count <= 10 {
      SendRepeat(w, fc, dl, 17, count - 3, 3, Zeros(count), lens, before, done);
    } else {
      SendRepeat(w, fc, dl, 18, count - 11, 7, Zeros(count), lens, before, done);
    }
  }

  /** `send_tree`: sends the lengths of 0..maxCode, which have a guard behind them. */
  method SendTree(w: BitWriter, dl: array<nat>, blCode: array<nat>, blLen: array<nat>, maxCode: nat, ghost lens: seq<nat>)
    requires w.Valid() && maxCode + 1 < dl.Length && Bounded(dl[..maxCode + 1]) && dl[maxCode + 1] == GUARD
    requires |lens| == BL_CODES <= blLen.Length && blLen[..BL_CODES] == lens && CodesSet(blCode[..], lens)
    requires HasCodes(lens, Syms(dl[..maxCode + 1]))
    modifies w, w.outbuf
    ensures w.Valid() && w.Sent() == old(w.Sent()) + SymsBits(lens, Syms(dl[..maxCode + 1]))
  {
    hide Scanning, Bounded, RunSyms, MaxCount, MinCount, Sending, CodesSet, Syms, SymsBits, HasCodes;
    ghost var all, before := dl[..maxCode + 1], w.Sent();
    ghost var done: seq<LenSym> := [];
    StartScan(all);
    StartSending(before, lens);
    var prevlen: int := -1;
    var nextlen := dl[0];
    var count := 0;
    var maxCount := 7;
    var minCount := 4;
    if nextlen == 0 {
      maxCount := 138;
      minCount := 3;
    }
    CountLimits(-1, nextlen);
    var n := 0;
    while n <= maxCode
      invariant 0 <= n <= maxCode + 1 && w.Valid()
      invariant Scanning(all, n, prevlen, count, nextlen, maxCount, minCount, done)
      invariant Sending(w.Sent(), before, lens, done)
    {
      ScanStep(all, n, prevlen, count, nextlen, maxCount, minCount, done);
      ScanFacts(all, n, prevlen, count, nextlen, maxCount, minCount, done);
      var curlen := nextlen;
      nextlen := dl[n + 1];
      assert nextlen == if n + 1 < |all| then all[n + 1] else GUARD;
      count := count + 1;
      n := n + 1;
      if count < maxCount && curlen == nextlen {
        continue;
      }
      RunHasCodes(all, n, prevlen, curlen, count, nextlen, done, lens);
      SendRun(w, blCode, blLen, prevlen, curlen, count, minCount, lens, before, done);
      done := done + RunSyms(prevlen, curlen, count);
      count := 0;
      prevlen := curlen;
      if nextlen == 0 {
        maxCount := 138;
        minCount := 3;
      } else if curlen == nextlen {
        maxCount := 6;
        minCount := 3;
      } else {
        maxCount := 7;
        minCount := 4;
      }
      CountLimits(curlen, nextlen);
    }
    ScanDone(all, prevlen, count, nextlen, maxCount, minCount, done);
    SentAll(w.Sent(), before, lens, done);
  }

  lemma StartSending(before: seq<bool>, lens: seq<nat>)
    requires |lens| == BL_CODES
    ensures Sending(before, before, lens, [])
  {
    assert before + [] == before;
  }

  lemma SentAll(sent: seq<bool>, before: seq<bool>, lens: seq<nat>, done: seq<LenSym>)
    requires Sending(sent, before, lens, done)
    ensures HasCodes(lens, done) && sent == before + SymsBits(lens, done)
  {
  }

  lemma RunHasCodes(all: seq<nat>, n: nat, prevlen: int, curlen: nat, count: nat, next: nat, done: seq<LenSym>, lens: seq<nat>)
    requires Scanning(all, n, curlen, 0, next, MaxCount(curlen, next), MinCount(curlen, next),
                      done + RunSyms(prevlen, curlen, count))
    requires HasCodes(lens, Syms(all))
    ensures HasCodes(lens, RunSyms(prevlen, curlen, count))
  {
    hide RunSyms, Syms, MaxCount, MinCount, Bounded, InRange;
    var run := RunSyms(prevlen, curlen, count);
    forall i | 0 <= i < |run|
      ensures InRange(run[i]) && lens[SymOf(run[i])] > 0
    {
      assert run[i] == Syms(all)[|done| + i];
    }
  }

  // ----- the code length code -----

  /** Trailing symbols without a code change no code. */
  lemma {:induction false} CountPadded(l: seq<nat>, m: nat, n: nat, k: nat)
    requires m <= n <= |l| && k > 0 && forall i :: m <= i < n ==> l[i] == 0
    ensures Count(l[..n], k) == Count(l[..m], k)
    decreases n
  {
    if n > m {
      assert l[..n][..n - 1] == l[..n - 1];
      CountPadded(l, m, n - 1, k);
    }
  }

  lemma {:induction false} UsedPadded(l: seq<nat>, m: nat, n: nat, k: nat)
    requires m <= n <= |l| && forall i :: m <= i < n ==> l[i] == 0
    ensures Used(l[..n], k) == Used(l[..m], k)
  {
    if k > 0 {
      UsedPadded(l, m, n, k - 1);
      CountPadded(l, m, n, k);
    }
  }

  lemma CodePadded(l: seq<nat>, m: nat, n: nat, c: nat)
    requires c < m <= n <= |l| && l[c] > 0 && forall i :: m <= i < n ==> l[i] == 0
    ensures CodeWord(l[..n], c) == CodeWord(l[..m], c)
  {
    assert l[..n][..c] == l[..c] == l[..m][..c];
    UsedPadded(l, m, n, l[c] - 1);
  }

  /** The whole alphabet's lengths, for a tree whose larger symbols have none. */
  lemma PaddedCodes(desc: Desc, f0: seq<nat>, fc: seq<nat>, dl: seq<nat>, maxCode: int)
    requires desc.elems <= |f0| && Built(desc, f0, fc, dl, maxCode) && desc.maxLength <= MAX_BITS
    ensures desc.elems <= |dl| && Complete(dl[..desc.elems]) && CodesSet(fc, dl[..desc.elems])
  {
    var n, m := desc.elems, maxCode + 1;
    UsedPadded(dl, m, n, MAX_BITS);
    forall c | 0 <= c < n && dl[..n][c] != 0
      ensures CodeSet(fc, dl[..n], c)
    {
      CodePadded(dl, m, n, c);
      assert CodeSet(fc, dl[..m], c);
    }
  }

  /** The cost of symbols is the number of bits they are sent in. */
  lemma {:induction false} SymsCost(dl: seq<nat>, syms: seq<LenSym>)
    requires BL_CODES <= |dl| && HasCodes(dl[..BL_CODES], syms)
    ensures Cost(SymNumbers(syms), CostsOf(BL_DESC, dl)) == |SymsBits(dl[..BL_CODES], syms)|
    decreases |syms|
  {
    if syms != [] {
      var init, s := syms[..|syms| - 1], syms[|syms| - 1];
      SymsCost(dl, init);
      assert SymNumbers(syms)[..|syms| - 1] == SymNumbers(init);
      assert InRange(s);
      ExtraBlBits(SymOf(s));
    }
  }

  lemma ExtraBlBits(c: nat)
    requires c < BL_CODES
    ensures BL_DESC.XBits(c) == ExtraCount(c)
  {
  }

  lemma BlDescValid()
    ensures BL_DESC.Valid()
  {
    assert Pow2(7) == 128;
  }

  /** Without a symbol for a length itself all lengths would be zero. */
  lemma {:induction false} NoLenAllZero(acc: seq<nat>, syms: seq<LenSym>)
    requires Expandable(acc, syms) && forall i :: 0 <= i < |acc| ==> acc[i] == 0
    requires forall i :: 0 <= i < |syms| ==> !syms[i].Len?
    ensures forall i :: 0 <= i < |ExpandSyms(acc, syms)| ==> ExpandSyms(acc, syms)[i] == 0
    decreases |syms|
  {
    if syms != [] {
      NoLenAllZero(ExpandSym(acc, syms[0]), syms[1..]);
    }
  }

  lemma SomeLen(lens: seq<nat>, x: nat) returns (v: nat)
    requires Bounded(lens) && x < |lens| && lens[x] > 0
    ensures v <= MAX_BITS && Len(v) in Syms(lens)
  {
    SymsExpand(lens);
    if forall i :: 0 <= i < |Syms(lens)| ==> !Syms(lens)[i].Len? {
      NoLenAllZero([], Syms(lens));
      assert false;
    } else {
      var i :| 0 <= i < |Syms(lens)| && Syms(lens)[i].Len?;
      v := Syms(lens)[i].v;
    }
  }

  /** The plain lengths come fourth or later in the order of transmission. */
  lemma LenPlace(v: nat) returns (i: nat)
    requires v <= MAX_BITS
    ensures 3 <= i < BL_CODES && Order(i) == v
  {
    var at: seq<nat> := [3, 17, 15, 13, 11, 9, 7, 5, 4, 6, 8, 10, 12, 14, 16, 18];
    i := at[v];
  }

  /** The three trees and the builder's work arrays are all different. */
  ghost predicate Separate(b: Builder, l: Tree, d: Tree, bl: Tree)
  {
    && b.Valid() && l.Valid() && d.Valid() && bl.Valid()
    && b.Apart(l) && b.Apart(d) && b.Apart(bl)
    && l != d && l != bl && d != bl
    && l.fc != d.fc && l.fc != d.dl && l.dl != d.fc && l.dl != d.dl
    && l.fc != bl.fc && l.fc != bl.dl && l.dl != bl.fc && l.dl != bl.dl
    && d.fc != bl.fc && d.fc != bl.dl && d.dl != bl.fc && d.dl != bl.dl
  }

  /** The code lengths of a tree that are sent. */
  ghost function SentLens(t: Tree): seq<nat>
    requires 0 <= t.maxCode < t.dl.Length
    reads t, t.dl
  {
    t.dl[..t.maxCode + 1]
  }

  /** The symbols that send two lists of lengths, as numbers. */
  ghost function BothNumbers(lit: seq<nat>, dist: seq<nat>): seq<nat>
    requires AllInRange(Syms(lit)) && AllInRange(Syms(dist))
  {
    SymNumbers(Syms(lit)) + SymNumbers(Syms(dist))
  }

  /** Scanning both trees from zero frequencies counts exactly these symbols. */
  lemma BothCounted(fc0: seq<nat>, fc1: seq<nat>, fc2: seq<nat>, lit: seq<nat>, dist: seq<nat>)
    requires Bounded(lit) && Bounded(dist)
    requires CountedIn(fc1, fc0, Syms(lit)) && CountedIn(fc2, fc1, Syms(dist))
    requires forall c :: 0 <= c < BL_CODES ==> fc0[c] == 0
    ensures AllInRange(Syms(lit)) && AllInRange(Syms(dist))
    ensures var xs := BothNumbers(lit, dist);
            && Frequencies(fc2, xs, BL_CODES) && Below(xs, BL_CODES)
            && Total(LeafSet(fc2, BL_CODES), fc2) == |xs| <= |lit| + |dist|
  {
    hide Syms;
    SymsInRange(lit);
    SymsInRange(dist);
    var xs := BothNumbers(lit, dist);
    forall c | 0 <= c < BL_CODES
      ensures fc2[c] == Count(xs, c)
    {
      CountAppend(SymNumbers(Syms(lit)), SymNumbers(Syms(dist)), c);
    }
    FrequenciesTotal(fc2, xs, BL_CODES);
  }

  /** Every symbol that is needed has got a code, and what is added to the size is
      what sending them takes. */
  lemma CodesForBoth(fc0: seq<nat>, fc: seq<nat>, dl: seq<nat>, maxCode: int, lit: seq<nat>, dist: seq<nat>)
    requires AllInRange(Syms(lit)) && AllInRange(Syms(dist)) && |fc0| == BL_CODES
    requires Frequencies(fc0, BothNumbers(lit, dist), BL_CODES)
    requires Built(BL_DESC, fc0, fc, dl, maxCode)
    ensures BL_CODES <= |dl|
    ensures var lens := dl[..BL_CODES];
            && HasCodes(lens, Syms(lit)) && HasCodes(lens, Syms(dist))
            && Total(LeafSet(fc0, BL_CODES), OptCosts(BL_DESC, fc0, dl))
               == |SymsBits(lens, Syms(lit))| + |SymsBits(lens, Syms(dist))|
  {
    hide Syms;
    var lens, xs := dl[..BL_CODES], BothNumbers(lit, dist);
    forall s | s in Syms(lit) || s in Syms(dist)
      ensures InRange(s) && lens[SymOf(s)] > 0
    {
      SymCounted(lit, dist, s);
    }
    HasCodesIfAll(lens, Syms(lit));
    HasCodesIfAll(lens, Syms(dist));
    OptCostIsCost(BL_DESC, fc0, dl, xs);
    CostAppend(SymNumbers(Syms(lit)), SymNumbers(Syms(dist)), CostsOf(BL_DESC, dl));
    SymsCost(dl, Syms(lit));
    SymsCost(dl, Syms(dist));
  }

  lemma HasCodesIfAll(lens: seq<nat>, syms: seq<LenSym>)
    requires |lens| == BL_CODES && AllInRange(syms)
    requires forall s :: s in syms ==> InRange(s) && lens[SymOf(s)] > 0
    ensures HasCodes(lens, syms)
  {
  }

  lemma SymCounted(lit: seq<nat>, dist: seq<nat>, s: LenSym)
    requires AllInRange(Syms(lit)) && AllInRange(Syms(dist)) && (s in Syms(lit) || s in Syms(dist))
    ensures InRange(s) && Count(BothNumbers(lit, dist), SymOf(s)) > 0
  {
    hide Syms;
    var xs := BothNumbers(lit, dist);
    if s in Syms(lit) {
      var i :| 0 <= i < |Syms(lit)| && Syms(lit)[i] == s;
      CountPositive(xs, i);
    } else {
      var i :| 0 <= i < |Syms(dist)| && Syms(dist)[i] == s;
      CountPositive(xs, |Syms(lit)| + i);
    }
  }

  lemma FrontFrequencies(fc: seq<nat>, f: seq<nat>, xs: seq<nat>)
    requires BL_CODES <= |fc| && f == fc[..BL_CODES] && Frequencies(fc, xs, BL_CODES)
    ensures Frequencies(f, xs, BL_CODES)
  {
  }

  lemma ShortCodes(f0: seq<nat>, fc: seq<nat>, dl: seq<nat>, maxCode: int)
    requires |f0| == BL_CODES && Built(BL_DESC, f0, fc, dl, maxCode)
    ensures BL_CODES <= |dl| && forall i :: 0 <= i < BL_CODES ==> dl[..BL_CODES][i] <= 7
  {
  }

  lemma TreesSize(lit: seq<nat>, dist: seq<nat>, lens: seq<nat>, k: nat)
    requires 257 <= |lit| && 1 <= |dist| && Covered(lens, k)
    requires HasCodes(lens, Syms(lit)) && HasCodes(lens, Syms(dist))
    ensures |TreesBits(lit, dist, lens, k)|
         == 14 + 3 * k + |SymsBits(lens, Syms(lit))| + |SymsBits(lens, Syms(dist))|
  {
    hide Syms, SymsBits, HasCodes, ToBits;
  }

  /** The last code length symbol, in the order of transmission, that has a code. */
  method LastBlIndex(blLen: array<nat>, ghost lit: seq<nat>) returns (maxBlindex: int)
    requires BL_CODES <= blLen.Length && Bounded(lit) && END_BLOCK < |lit| && lit[END_BLOCK] > 0
    requires HasCodes(blLen[..BL_CODES], Syms(lit))
    requires forall i :: 0 <= i < BL_CODES ==> blLen[..BL_CODES][i] <= 7
    ensures 3 <= maxBlindex < BL_CODES && Covered(blLen[..BL_CODES], maxBlindex + 1)
    ensures maxBlindex == 3 || blLen[..BL_CODES][Order(maxBlindex)] > 0
  {
    hide Syms, Order;
    ghost var v := SomeLen(lit, END_BLOCK);
    ghost var place := LenPlace(v);
    assert blLen[..BL_CODES][SymOf(Len(v))] > 0;
    maxBlindex := BL_CODES - 1;
    while maxBlindex >= 3
      invariant place <= maxBlindex < BL_CODES
      invariant forall i :: maxBlindex < i < BL_CODES ==> blLen[..BL_CODES][Order(i)] == 0
    {
      if blLen[Order(maxBlindex)] != 0 {
        break;
      }
      maxBlindex := maxBlindex - 1;
    }
  }

  /** `build_bl_tree`: the code for both trees' lengths; returns the index of the
      last code length that must be sent. */
  method BuildBlTree(b: Builder, l: Tree, d: Tree, bl: Tree) returns (maxBlindex: int)
    requires Separate(b, l, d, bl) && bl.desc == BL_DESC
    requires 256 <= l.maxCode < L_CODES && l.maxCode + 1 < l.dl.Length && 0 <= d.maxCode < 30 && d.maxCode + 1 < d.dl.Length
    requires Bounded(SentLens(l)) && Bounded(SentLens(d)) && l.dl[END_BLOCK] > 0
    requires forall c :: 0 <= c < BL_CODES ==> bl.fc[c] == 0
    modifies b, b.heap, b.depth, b.blCount, l.dl, d.dl, bl, bl.fc, bl.dl
    ensures l.dl[..] == old(l.dl[..])[l.maxCode + 1 := GUARD] && d.dl[..] == old(d.dl[..])[d.maxCode + 1 := GUARD]
    ensures 3 <= maxBlindex < BL_CODES && Covered(bl.dl[..BL_CODES], maxBlindex + 1)
    ensures maxBlindex == 3 || bl.dl[..BL_CODES][Order(maxBlindex)] > 0
    ensures LeastHeader(bl.dl[..BL_CODES], old(SentLens(l)), old(SentLens(d)))
    ensures Complete(bl.dl[..BL_CODES]) && CodesSet(bl.fc[..], bl.dl[..BL_CODES])
    ensures HasCodes(bl.dl[..BL_CODES], Syms(old(SentLens(l)))) && HasCodes(bl.dl[..BL_CODES], Syms(old(SentLens(d))))
    ensures b.staticLen == old(b.staticLen)
    ensures b.optLen == old(b.optLen)
                        + |TreesBits(old(SentLens(l)), old(SentLens(d)), bl.dl[..BL_CODES], maxBlindex + 1)|
  {
    hide Syms, Bounded, Built, LeafSet, Total, SymsBits, HasCodes, OptCosts, Complete, CodesSet, AllInRange, Frequencies, BothNumbers, Covered, TreesBits, LeastHeader;
    ghost var lit, dist := SentLens(l), SentLens(d);
    CountBoth(l, d, bl);
    ghost var f := bl.fc[..BL_CODES];
    BuildBlCode(b, bl, lit, dist);
    maxBlindex := LastBlIndex(bl.dl, lit);
    TreesSize(lit, dist, bl.dl[..BL_CODES], maxBlindex + 1);
    b.optLen := b.optLen + 3 * (maxBlindex + 1) + 5 + 5 + 4;
  }

  /** Unless a code of 7 bits was needed, no other code that a reader could use sends
      the symbols of both lists in fewer bits. */
  ghost predicate LeastHeader(code: seq<nat>, lit: seq<nat>, dist: seq<nat>)
  {
    HasCodes(code, Syms(lit)) && HasCodes(code, Syms(dist)) && (forall n :: 0 <= n < BL_CODES ==> code[n] < 7) ==>
      forall code': seq<nat> ::
        |code'| == BL_CODES && Decodable(code') && HasCodes(code', Syms(lit)) && HasCodes(code', Syms(dist)) ==>
          |SymsBits(code, Syms(lit))| + |SymsBits(code, Syms(dist))| <= |SymsBits(code', Syms(lit))| + |SymsBits(code', Syms(dist))|
  }

  lemma HeaderCost(code: seq<nat>, dl: seq<nat>, lit: seq<nat>, dist: seq<nat>)
    requires BL_CODES <= |dl| && code == dl[..BL_CODES] && BL_DESC.elems == BL_CODES
    requires HasCodes(code, Syms(lit)) && HasCodes(code, Syms(dist)) && AllInRange(Syms(lit)) && AllInRange(Syms(dist))
    requires Below(BothNumbers(lit, dist), BL_CODES)
    ensures |SymsBits(code, Syms(lit))| + |SymsBits(code, Syms(dist))| == Cost(BothNumbers(lit, dist), CostsOf(BL_DESC, dl))
  {
    hide Syms;
    CostAppend(SymNumbers(Syms(lit)), SymNumbers(Syms(dist)), CostsOf(BL_DESC, dl));
    SymsCost(dl, Syms(lit));
    SymsCost(dl, Syms(dist));
  }

  lemma SymsCoded(code: seq<nat>, syms: seq<LenSym>, c: nat)
    requires AllInRange(syms) && HasCodes(code, syms) && Count(SymNumbers(syms), c) > 0
    ensures c < |code| && code[c] > 0
  {
    var i := CountFound(SymNumbers(syms), c);
  }

  lemma HeaderIsLeast(f: seq<nat>, fc: seq<nat>, dl: seq<nat>, maxCode: int, lit: seq<nat>, dist: seq<nat>, merges: seq<Merge>)
    requires AllInRange(Syms(lit)) && AllInRange(Syms(dist)) && |f| == BL_CODES == BL_DESC.elems <= |dl|
    requires Frequencies(f, BothNumbers(lit, dist), BL_CODES) && Built(BL_DESC, f, fc, dl, maxCode)
    requires Grown(BL_DESC, f, dl, merges)
    ensures LeastHeader(dl[..BL_CODES], lit, dist)
  {
    hide Syms, Grown, Built, Decodable, SymsBits, Frequencies, AllInRange, CostsOf, Cost;
    var code, xs := dl[..BL_CODES], BothNumbers(lit, dist);
    SymbolsBelow(lit, dist);
    if HasCodes(code, Syms(lit)) && HasCodes(code, Syms(dist)) && forall n :: 0 <= n < BL_CODES ==> code[n] < 7 {
      HeaderCost(code, dl, lit, dist);
      assert forall x :: 0 <= x < BL_CODES ==> dl[x] == code[x];
      forall code': seq<nat> |
        |code'| == BL_CODES && Decodable(code') && HasCodes(code', Syms(lit)) && HasCodes(code', Syms(dist))
        ensures |SymsBits(code, Syms(lit))| + |SymsBits(code, Syms(dist))| <= |SymsBits(code', Syms(lit))| + |SymsBits(code', Syms(dist))|
      {
        assert code'[..BL_CODES] == code';
        HeaderCost(code', code', lit, dist);
        CountedCoded(f, code', lit, dist);
        NoBetterCosts(BL_DESC, f, dl, merges, code', xs);
      }
    }
  }

  lemma CountedCoded(f: seq<nat>, code: seq<nat>, lit: seq<nat>, dist: seq<nat>)
    requires AllInRange(Syms(lit)) && AllInRange(Syms(dist)) && |f| == BL_CODES
    requires Frequencies(f, BothNumbers(lit, dist), BL_CODES) && HasCodes(code, Syms(lit)) && HasCodes(code, Syms(dist))
    ensures forall x :: x in LeafSet(f, BL_CODES) ==> code[x] > 0
  {
    hide Syms, AllInRange, HasCodes;
    assert |code| == BL_CODES by { HasCodesSize(code, Syms(lit)); }
    forall x | x in LeafSet(f, BL_CODES)
      ensures code[x] > 0
    {
      CountAppend(SymNumbers(Syms(lit)), SymNumbers(Syms(dist)), x);
      if Count(SymNumbers(Syms(lit)), x) > 0 {
        SymsCoded(code, Syms(lit), x);
      } else {
        SymsCoded(code, Syms(dist), x);
      }
    }
  }

  lemma HasCodesSize(code: seq<nat>, syms: seq<LenSym>)
    requires HasCodes(code, syms)
    ensures |code| == BL_CODES
  {
  }

  lemma SymbolsBelow(lit: seq<nat>, dist: seq<nat>)
    requires AllInRange(Syms(lit)) && AllInRange(Syms(dist))
    ensures Below(BothNumbers(lit, dist), BL_CODES)
  {
    hide Syms;
  }

  /** Counts the symbols of both trees. */
  method CountBoth(l: Tree, d: Tree, bl: Tree)
    requires l.Valid() && d.Valid() && bl.Valid() && bl.desc == BL_DESC
    requires l.dl != d.dl && l.dl != bl.fc && d.dl != bl.fc
    requires 0 <= l.maxCode < L_CODES && l.maxCode + 1 < l.dl.Length && 0 <= d.maxCode < 30 && d.maxCode + 1 < d.dl.Length
    requires Bounded(SentLens(l)) && Bounded(SentLens(d))
    requires forall c :: 0 <= c < BL_CODES ==> bl.fc[c] == 0
    modifies l.dl, d.dl, bl.fc
    ensures l.dl[..] == old(l.dl[..])[l.maxCode + 1 := GUARD] && d.dl[..] == old(d.dl[..])[d.maxCode + 1 := GUARD]
    ensures BothSymbols(bl.fc[..], old(SentLens(l)), old(SentLens(d)))
  {
    hide Syms, CountedIn, Bounded, LeafSet, Total, AllInRange, Frequencies, Count;
    ghost var lit, dist, fc0 := SentLens(l), SentLens(d), bl.fc[..];
    ScanTree(l.dl, bl.fc, l.maxCode);
    ghost var fc1 := bl.fc[..];
    assert d.dl[..] == old(d.dl[..]);
    ScanTree(d.dl, bl.fc, d.maxCode);
    BothCounted(fc0, fc1, bl.fc[..], lit, dist);
  }

  /** The frequencies are those of the symbols for both trees, and few. */
  ghost predicate BothSymbols(fc: seq<nat>, lit: seq<nat>, dist: seq<nat>)
  {
    && AllInRange(Syms(lit)) && AllInRange(Syms(dist))
    && Frequencies(fc, BothNumbers(lit, dist), BL_CODES)
    && Total(LeafSet(fc, BL_CODES), fc) + 2 < U16
  }

  /** Builds the code and adds what both trees take in it. */
  method BuildBlCode(b: Builder, bl: Tree, ghost lit: seq<nat>, ghost dist: seq<nat>)
    requires b.Valid() && bl.Valid() && b.Apart(bl) && bl.desc == BL_DESC
    requires BothSymbols(bl.fc[..], lit, dist)
    modifies b, b.heap, b.depth, b.blCount, bl, bl.fc, bl.dl
    ensures forall i :: 0 <= i < BL_CODES ==> bl.dl[..BL_CODES][i] <= 7
    ensures Complete(bl.dl[..BL_CODES]) && CodesSet(bl.fc[..], bl.dl[..BL_CODES])
    ensures HasCodes(bl.dl[..BL_CODES], Syms(lit)) && HasCodes(bl.dl[..BL_CODES], Syms(dist))
    ensures LeastHeader(bl.dl[..BL_CODES], lit, dist)
    ensures b.staticLen == old(b.staticLen)
    ensures b.optLen == old(b.optLen) + |SymsBits(bl.dl[..BL_CODES], Syms(lit))| + |SymsBits(bl.dl[..BL_CODES], Syms(dist))|
  {
    hide Syms, Built, LeafSet, Total, SymsBits, HasCodes, OptCosts, StaticCosts, Complete, CodesSet, Count, Grown, LeastHeader,
      AllInRange, Frequencies, BothNumbers;
    ghost var f := bl.fc[..BL_CODES];
    FrontFrequencies(bl.fc[..], f, BothNumbers(lit, dist));
    BlDescIs();
    NoStaticCost(BL_DESC, f);
    hide BL_DESC;
    ghost var merges := b.BuildTree(bl);
    HeaderIsLeast(f, bl.fc[..], bl.dl[..], bl.maxCode, lit, dist, merges);
    BlCodeReady(f, bl.fc[..], bl.dl[..], bl.maxCode, lit, dist);
  }

  lemma BlCodeReady(f: seq<nat>, fc: seq<nat>, dl: seq<nat>, maxCode: int, lit: seq<nat>, dist: seq<nat>)
    requires AllInRange(Syms(lit)) && AllInRange(Syms(dist)) && |f| == BL_CODES
    requires Frequencies(f, BothNumbers(lit, dist), BL_CODES) && Built(BL_DESC, f, fc, dl, maxCode)
    ensures BL_CODES <= |dl| && forall i :: 0 <= i < BL_CODES ==> dl[..BL_CODES][i] <= 7
    ensures Complete(dl[..BL_CODES]) && CodesSet(fc, dl[..BL_CODES])
    ensures HasCodes(dl[..BL_CODES], Syms(lit)) && HasCodes(dl[..BL_CODES], Syms(dist))
    ensures Total(LeafSet(f, BL_CODES), OptCosts(BL_DESC, f, dl))
         == |SymsBits(dl[..BL_CODES], Syms(lit))| + |SymsBits(dl[..BL_CODES], Syms(dist))|
  {
    hide *;
    assert BL_DESC.elems == BL_CODES && BL_DESC.maxLength <= MAX_BITS by { BlDescIs(); }
    CodesForBoth(f, fc, dl, maxCode, lit, dist);
    ShortCodes(f, fc, dl, maxCode);
    PaddedCodes(BL_DESC, f, fc, dl, maxCode);
  }

  lemma BlDescIs()
    ensures BL_DESC.elems == BL_CODES && BL_DESC.maxLength <= MAX_BITS && BL_DESC.staticLens.None?
  {
  }

  /** `send_all_trees`: the header of a dynamic block. */
  method SendAllTrees(w: BitWriter, l: Tree, d: Tree, bl: Tree, lcodes: nat, dcodes: nat, blcodes: nat)
    requires w.Valid() && bl.dl.Length >= BL_CODES
    requires 257 <= lcodes <= L_CODES && lcodes < l.dl.Length && l.dl[lcodes] == GUARD
    requires 1 <= dcodes <= 30 && dcodes < d.dl.Length && d.dl[dcodes] == GUARD
    requires Bounded(l.dl[..lcodes]) && Bounded(d.dl[..dcodes])
    requires Covered(bl.dl[..BL_CODES], blcodes) && CodesSet(bl.fc[..], bl.dl[..BL_CODES])
    requires HasCodes(bl.dl[..BL_CODES], Syms(l.dl[..lcodes])) && HasCodes(bl.dl[..BL_CODES], Syms(d.dl[..dcodes]))
    modifies w, w.outbuf
    ensures w.Valid()
    ensures w.Sent() == old(w.Sent()) + TreesBits(l.dl[..lcodes], d.dl[..dcodes], bl.dl[..BL_CODES], blcodes)
  {
    hide Syms, Bounded, SymsBits, HasCodes, CodesSet, ToBits, Pow2, CodeLengthBits, Order;
    ghost var lens, sent := bl.dl[..BL_CODES], w.Sent();
    ghost var h := ToBits(lcodes - 257, 5) + ToBits(dcodes - 1, 5) + ToBits(blcodes - 4, 4);
    Concatenated(sent, h, CodeLengthBits(lens, blcodes), SymsBits(lens, Syms(l.dl[..lcodes])), SymsBits(lens, Syms(d.dl[..dcodes])));
    SendFront(w, bl.dl, lcodes, dcodes, blcodes);
    SendTree(w, l.dl, bl.fc, bl.dl, lcodes - 1, lens);
    SendTree(w, d.dl, bl.fc, bl.dl, dcodes - 1, lens);
  }

  /** The three counts and the code length code. */
  method SendFront(w: BitWriter, blLen: array<nat>, lcodes: nat, dcodes: nat, blcodes: nat)
    requires w.Valid() && BL_CODES <= blLen.Length && Covered(blLen[..BL_CODES], blcodes)
    requires 257 <= lcodes <= L_CODES && 1 <= dcodes <= 30
    modifies w, w.outbuf
    ensures w.Valid()
    ensures w.Sent() == old(w.Sent()) + (ToBits(lcodes - 257, 5) + ToBits(dcodes - 1, 5) + ToBits(blcodes - 4, 4))
      + CodeLengthBits(blLen[..BL_CODES], blcodes)
  {
    hide ToBits, Pow2, CodeLengthBits;
    SendCounts(w, lcodes, dcodes, blcodes);
    SendCodeLengths(w, blLen, blcodes);
  }

  lemma Concatenated(s: seq<bool>, a: seq<bool>, b: seq<bool>, c: seq<bool>, d: seq<bool>)
    ensures s + a + b + c + d == s + (a + b + c + d)
  {
  }

  method SendCounts(w: BitWriter, lcodes: nat, dcodes: nat, blcodes: nat)
    requires w.Valid() && 257 <= lcodes <= L_CODES && 1 <= dcodes <= 30 && 4 <= blcodes <= BL_CODES
    modifies w, w.outbuf
    ensures w.Valid()
    ensures w.Sent() == old(w.Sent()) + (ToBits(lcodes - 257, 5) + ToBits(dcodes - 1, 5) + ToBits(blcodes - 4, 4))
  {
    hide ToBits, Pow2;
    assert Pow2(5) == 32 && Pow2(4) == 16 by { SmallPowers(); }
    CountsJoined(w.Sent(), ToBits(lcodes - 257, 5), ToBits(dcodes - 1, 5), ToBits(blcodes - 4, 4));
    w.SendBits(lcodes - 257, 5);
    w.SendBits(dcodes - 1, 5);
    w.SendBits(blcodes - 4, 4);
  }

  lemma CountsJoined(s: seq<bool>, a: seq<bool>, b: seq<bool>, c: seq<bool>)
    ensures s + a + b + c == s + (a + b + c)
  {
  }

  method SendCodeLengths(w: BitWriter, blLen: array<nat>, blcodes: nat)
    requires w.Valid() && BL_CODES <= blLen.Length && Covered(blLen[..BL_CODES], blcodes)
    modifies w, w.outbuf
    ensures w.Valid() && w.Sent() == old(w.Sent()) + CodeLengthBits(blLen[..BL_CODES], blcodes)
  {
    hide ToBits, Pow2, Order;
    ghost var lens, sent := blLen[..BL_CODES], w.Sent();
    assert Pow2(3) == 8 by { SmallPowers(); }
    assert sent + [] == sent;
    var rank := 0;
    while rank < blcodes
      invariant 0 <= rank <= blcodes && w.Valid()
      invariant w.Sent() == sent + CodeLengthBits(lens, rank)
    {
      assert blLen[Order(rank)] == lens[Order(rank)];
      w.SendBits(blLen[Order(rank)], 3);
      rank := rank + 1;
      assert sent + CodeLengthBits(lens, rank - 1) + ToBits(lens[Order(rank - 1)], 3) == sent + CodeLengthBits(lens, rank);
    }
  }
}
