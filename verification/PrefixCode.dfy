/** Canonical Huffman codes as section 3.2.2 of RFC 1951 defines them from code
    lengths, and the bit-by-bit decoder for such a code. */
module PrefixCode {
  import opened Bits

  datatype Option<+T> = None | Some(value: T) {
    predicate IsFailure() {
      None?
    }
    function PropagateFailure<U>(): Option<U>
      requires None?
    {
      None
    }
    function Extract(): T
      requires Some?
    {
      value
    }
  }

  const MAX_BITS := 15

  /** How many symbols have code length k (k >= 1). */
  function Count(lens: seq<nat>, k: nat): nat
  {
    if lens == [] then 0
    else Count(lens[..|lens| - 1], k) + (if lens[|lens| - 1] == k then 1 else 0)
  }

  /** How many codes of length k are spoken for once all lengths up to k are
      assigned, each shorter code counting for all its extensions. */
  function Used(lens: seq<nat>, k: nat): nat
    decreases k, 1
  {
    if k == 0 then 0 else FirstCode(lens, k) + Count(lens, k)
  }

  /** The smallest code of length k: step 2 of the construction. */
  function FirstCode(lens: seq<nat>, k: nat): nat
    decreases k, 0
  {
    if k == 0 then 0 else 2 * Used(lens, k - 1)
  }

  /** The code of symbol n: step 3 of the construction. */
  function Code(lens: seq<nat>, n: nat): nat
    requires n < |lens|
  {
    FirstCode(lens, lens[n]) + Count(lens[..n], lens[n])
  }

  ghost predicate Bounded(lens: seq<nat>)
  {
    forall n :: 0 <= n < |lens| ==> lens[n] <= MAX_BITS
  }

  /** The code leaves no bit string unassigned and assigns none twice. */
  predicate Complete(lens: seq<nat>)
  {
    (forall n :: 0 <= n < |lens| ==> lens[n] <= MAX_BITS) && Used(lens, MAX_BITS) == Pow2(MAX_BITS)
  }

  /** The bits of a symbol in transmission order. */
  function CodeWord(lens: seq<nat>, n: nat): (s: seq<bool>)
    requires n < |lens|
    ensures |s| == lens[n]
  {
    MsbBits(Code(lens, n), lens[n])
  }

  // ----- the decoder -----

  /** The symbol, n or above, whose code is the k-bit string `code`. */
  function Lookup(lens: seq<nat>, k: nat, code: nat, n: nat): (r: Option<nat>)
    requires n <= |lens|
    ensures r.Some? ==> n <= r.value < |lens| && lens[r.value] == k && Code(lens, r.value) == code
    ensures r.None? ==> forall m :: n <= m < |lens| ==> !(lens[m] == k && Code(lens, m) == code)
    decreases |lens| - n
  {
    if n == |lens| then None
    else if lens[n] == k && Code(lens, n) == code then Some(n)
    else Lookup(lens, k, code, n + 1)
  }

  /** Having read k bits of value `code` that are no codeword, reads on. */
  function Walk(lens: seq<nat>, bits: seq<bool>, pos: nat, k: nat, code: nat): (r: Option<(nat, nat)>)
    requires k <= MAX_BITS && pos <= |bits|
    ensures r.Some? ==> r.value.0 < |lens| && pos <= r.value.1 <= |bits|
    decreases MAX_BITS - k
  {
    var found := if k > 0 then Lookup(lens, k, code, 0) else None;
    if found.Some? then Some((found.value, pos))
    else if k == MAX_BITS || pos == |bits| then None
    else Walk(lens, bits, pos + 1, k + 1, 2 * code + (if bits[pos] then 1 else 0))
  }

  /** The symbol at a bit position, and the position after it. */
  function DecodeSymbol(lens: seq<nat>, bits: seq<bool>, pos: nat): (r: Option<(nat, nat)>)
    requires pos <= |bits|
    ensures r.Some? ==> r.value.0 < |lens| && pos < r.value.1 <= |bits|
  {
    Walk(lens, bits, pos, 0, 0)
  }

  ghost predicate At(bits: seq<bool>, pos: nat, s: seq<bool>)
  {
    pos + |s| <= |bits| && bits[pos..pos + |s|] == s
  }

  lemma AtAppend(bits: seq<bool>, pos: nat, a: seq<bool>, b: seq<bool>)
    requires At(bits, pos, a + b)
    ensures At(bits, pos, a) && At(bits, pos + |a|, b)
  {
    var s := bits[pos..pos + |a| + |b|];
    assert s[..|a|] == a && s[|a|..] == b;
    assert bits[pos..pos + |a|] == s[..|a|];
    assert bits[pos + |a|..pos + |a| + |b|] == s[|a|..];
  }

  lemma AtBound(bits: seq<bool>, pos: nat, s: seq<bool>)
    requires At(bits, pos, s)
    ensures pos + |s| <= |bits|
  {
  }

  lemma AtAppend4(bits: seq<bool>, pos: nat, a: seq<bool>, b: seq<bool>, c: seq<bool>, d: seq<bool>)
    requires At(bits, pos, a + b + c + d)
    ensures At(bits, pos, a) && At(bits, pos + |a|, b)
    ensures At(bits, pos + |a| + |b|, c) && At(bits, pos + |a| + |b| + |c|, d)
  {
    AtAppend(bits, pos, a + b + c, d);
    AtAppend(bits, pos, a + b, c);
    AtAppend(bits, pos, a, b);
  }

  lemma AtPart(bits: seq<bool>, pos: nat, s: seq<bool>, i: nat, j: nat)
    requires At(bits, pos, s) && i <= j <= |s|
    ensures pos + j <= |bits| && bits[pos + i..pos + j] == s[i..j]
  {
    var t := bits[pos..pos + |s|];
    forall x | 0 <= x < j - i
      ensures bits[pos + i..pos + j][x] == s[i..j][x]
    {
      assert t[i + x] == bits[pos + (i + x)];
    }
  }

  // ----- prefix freedom -----

  lemma {:induction false} CountMonotone(lens: seq<nat>, n: nat, m: nat, k: nat)
    requires n <= m <= |lens|
    ensures Count(lens[..n], k) <= Count(lens[..m], k)
  {
    if n < m {
      CountMonotone(lens, n, m - 1, k);
      assert lens[..m][..m - 1] == lens[..m - 1];
    }
  }

  lemma RankBelowCount(lens: seq<nat>, n: nat)
    requires n < |lens|
    ensures Count(lens[..n], lens[n]) < Count(lens, lens[n])
  {
    assert lens[..n + 1][..n] == lens[..n];
    CountMonotone(lens, n + 1, |lens|, lens[n]);
    assert lens[..|lens|] == lens;
  }

  /** Symbols of equal length get different codes. */
  lemma SameLengthDistinct(lens: seq<nat>, m: nat, n: nat)
    requires m < n < |lens| && lens[m] == lens[n]
    ensures Code(lens, m) < Code(lens, n)
  {
    assert lens[..m + 1][..m] == lens[..m];
    CountMonotone(lens, m + 1, n, lens[n]);
  }

  /** The leading k bits of a longer code are beyond every code of length k. */
  lemma {:induction false} PrefixBeyond(lens: seq<nat>, n: nat, k: nat)
    requires n < |lens| && k <= lens[n]
    ensures Shr(Code(lens, n), lens[n] - k) >= FirstCode(lens, k)
    ensures 0 < k < lens[n] ==> Shr(Code(lens, n), lens[n] - k) >= Used(lens, k)
    decreases lens[n] - k
  {
    if k < lens[n] {
      PrefixBeyond(lens, n, k + 1);
      ShrStep(Code(lens, n), lens[n] - k - 1);
    }
  }

  lemma {:induction false} ShrStep(v: nat, k: nat)
    ensures Shr(v, k + 1) == Shr(v, k) / 2
  {
    if k > 0 {
      ShrStep(v / 2, k - 1);
    }
  }

  /** No code is the leading part of a longer one, nor equal to another. */
  lemma NoOtherPrefix(lens: seq<nat>, n: nat, m: nat)
    requires n < |lens| && m < |lens| && m != n && 0 < lens[m] <= lens[n]
    ensures Code(lens, m) != Shr(Code(lens, n), lens[n] - lens[m])
  {
    if lens[m] < lens[n] {
      PrefixBeyond(lens, n, lens[m]);
      RankBelowCount(lens, m);
    } else if m < n {
      SameLengthDistinct(lens, m, n);
    } else {
      SameLengthDistinct(lens, n, m);
    }
  }

  // ----- codes fit their lengths -----

  lemma {:induction false} UsedFits(lens: seq<nat>, k: nat, top: nat)
    requires k <= top && Used(lens, top) <= Pow2(top)
    ensures Used(lens, k) <= Pow2(k)
    decreases top - k
  {
    if k < top {
      assert Used(lens, top) >= 2 * Used(lens, top - 1);
      UsedFits(lens, k, top - 1);
    }
  }

  lemma CodeFits(lens: seq<nat>, n: nat)
    requires n < |lens| && 0 < lens[n] <= MAX_BITS && Used(lens, MAX_BITS) <= Pow2(MAX_BITS)
    ensures Code(lens, n) < Pow2(lens[n])
  {
    RankBelowCount(lens, n);
    UsedFits(lens, lens[n], MAX_BITS);
  }

  // ----- decoding what was encoded -----

  lemma {:induction false} MsbBitAt(v: nat, n: nat, i: nat)
    requires i < n
    ensures MsbBits(v, n)[i] == (Shr(v, n - 1 - i) % 2 == 1)
  {
    if i < n - 1 {
      MsbBitAt(v / 2, n - 1, i);
    }
  }

  lemma {:induction false} ShrAll(v: nat, n: nat)
    requires v < Pow2(n)
    ensures Shr(v, n) == 0
  {
    if n > 0 {
      ShrAll(v / 2, n - 1);
    }
  }

  lemma NextBit(lens: seq<nat>, n: nat, bits: seq<bool>, pos: nat, k: nat)
    requires n < |lens| && k < lens[n]
    requires At(bits, pos, CodeWord(lens, n))
    ensures Shr(Code(lens, n), lens[n] - k - 1)
         == 2 * Shr(Code(lens, n), lens[n] - k) + (if bits[pos + k] then 1 else 0)
  {
    hide Code, Shr, MsbBits;
    ShrStep(Code(lens, n), lens[n] - k - 1);
    MsbBitAt(Code(lens, n), lens[n], k);
    assert bits[pos + k] == bits[pos..pos + lens[n]][k];
  }

  /** Part way through a codeword the decoder is on track to its symbol. */
  lemma {:induction false} WalkFinds(lens: seq<nat>, n: nat, bits: seq<bool>, pos: nat, k: nat)
    requires n < |lens| && 0 < lens[n] <= MAX_BITS && k <= lens[n]
    requires At(bits, pos, CodeWord(lens, n))
    ensures Walk(lens, bits, pos + k, k, Shr(Code(lens, n), lens[n] - k)) == Some((n, pos + lens[n]))
    decreases lens[n] - k
  {
    hide Code, MsbBits, Shr, Lookup;
    var code := Shr(Code(lens, n), lens[n] - k);
    forall m | 0 <= m < |lens| && m != n && lens[m] == k && k > 0
      ensures Code(lens, m) != code
    {
      NoOtherPrefix(lens, n, m);
    }
    if k < lens[n] {
      NextBit(lens, n, bits, pos, k);
      WalkFinds(lens, n, bits, pos, k + 1);
    } else {
      assert code == Code(lens, n) by { ShrNone(Code(lens, n)); }
    }
  }

  lemma ShrNone(v: nat)
    ensures Shr(v, 0) == v
  {
  }

  /** Whatever follows a codeword, decoding at its start gives its symbol. */
  lemma DecodeEncoded(lens: seq<nat>, n: nat, bits: seq<bool>, pos: nat)
    requires n < |lens| && 0 < lens[n] && Bounded(lens) && Used(lens, MAX_BITS) <= Pow2(MAX_BITS)
    requires At(bits, pos, CodeWord(lens, n))
    ensures DecodeSymbol(lens, bits, pos) == Some((n, pos + lens[n]))
  {
    CodeFits(lens, n);
    ShrAll(Code(lens, n), lens[n]);
    WalkFinds(lens, n, bits, pos, 0);
  }

  /** No codeword starts another, in transmission order. */
  lemma PrefixFree(lens: seq<nat>, m: nat, n: nat)
    requires m < |lens| && n < |lens| && m != n && 0 < lens[m] && 0 < lens[n]
    requires Bounded(lens) && Used(lens, MAX_BITS) <= Pow2(MAX_BITS)
    ensures !(CodeWord(lens, m) <= CodeWord(lens, n))
  {
    if CodeWord(lens, m) <= CodeWord(lens, n) {
      var bits := CodeWord(lens, n);
      assert bits[0..|bits|] == bits;
      assert bits[0..lens[m]] == CodeWord(lens, m);
      DecodeEncoded(lens, n, bits, 0);
      DecodeEncoded(lens, m, bits, 0);
    }
  }

  // ----- Used is the Kraft sum -----

  /** The sum of 2^(top - length) over the symbols that have a code. */
  function KraftSum(lens: seq<nat>, top: nat): nat
  {
    if lens == [] then 0
    else
      var last := lens[|lens| - 1];
      KraftSum(lens[..|lens| - 1], top) + (if 0 < last <= top then Pow2(top - last) else 0)
  }

  lemma {:induction false} UsedNone(k: nat)
    ensures Used([], k) == 0
  {
    if k > 0 {
      UsedNone(k - 1);
    }
  }

  /** One more symbol of length l takes 2^(k - l) strings of length k. */
  lemma {:induction false} UsedSnoc(lens: seq<nat>, l: nat, k: nat)
    ensures Used(lens + [l], k) == Used(lens, k) + (if 0 < l <= k then Pow2(k - l) else 0)
  {
    if k > 0 {
      UsedSnoc(lens, l, k - 1);
      assert (lens + [l])[..|lens|] == lens;
    }
  }

  lemma {:induction false} UsedIsKraft(lens: seq<nat>, k: nat)
    ensures Used(lens, k) == KraftSum(lens, k)
  {
    if lens == [] {
      UsedNone(k);
    } else {
      var init := lens[..|lens| - 1];
      UsedIsKraft(init, k);
      UsedSnoc(init, lens[|lens| - 1], k);
      assert lens == init + [lens[|lens| - 1]];
    }
  }

  // ----- reversing a code -----

  lemma {:induction false} ToBitsAt(v: nat, n: nat, i: nat)
    requires i < n
    ensures ToBits(v, n)[i] == (Shr(v, i) % 2 == 1)
  {
    if i > 0 {
      ToBitsAt(v / 2, n - 1, i - 1);
    }
  }

  lemma ReverseBits(res: nat, code: nat, n: nat)
    requires MsbBits(res, n) == ToBits(code, n)
    ensures ToBits(res, n) == MsbBits(code, n)
  {
    forall i | 0 <= i < n
      ensures ToBits(res, n)[i] == MsbBits(code, n)[i]
    {
      ToBitsAt(res, n, i);
      MsbBitAt(res, n, n - 1 - i);
      MsbBitAt(code, n, i);
      ToBitsAt(code, n, n - 1 - i);
    }
  }

  lemma OrLowBit(v: nat, b: nat)
    requires v % 2 == 0 && b < 2
    ensures Or(v, b) == v + b
  {
    OrSelf(v / 2);
  }

  lemma {:induction false} OrSelf(v: nat)
    ensures Or(v, 0) == v
  {
    if v > 0 {
      OrSelf(v / 2);
    }
  }

  /** `bi_reverse`: the len low bits of code, in reverse order. */
  method BiReverse(code0: nat, len0: nat) returns (res: nat)
    requires len0 >= 1
    ensures res < Pow2(len0) && ToBits(res, len0) == MsbBits(code0, len0)
  {
    hide Reversed, MsbBits, ToBits, Pow2, Shr, Or;
    var code, len := code0, len0;
    res := 0;
    ghost var t := 0;
    NothingReversed(code0);
    while true
      invariant 1 <= len && t == len0 - len && Reversed(code0, t, code, res)
      decreases len
    {
      NextReversed(code0, t, code, res);
      res := Or(res, code % 2);
      len := len - 1;
      if len <= 0 {
        ReverseBits(res, code0, len0);
        return;
      }
      code := code / 2;
      res := res * 2;
      t := t + 1;
    }
  }

  /** After t turns, with room made for the next bit. */
  ghost predicate Reversed(code0: nat, t: nat, code: nat, res: nat)
  {
    && code == Shr(code0, t)
    && res % 2 == 0 && res / 2 < Pow2(t) && MsbBits(res / 2, t) == ToBits(code0, t)
  }

  lemma NothingReversed(code0: nat)
    ensures Reversed(code0, 0, code0, 0)
  {
    ShrNone(code0);
  }

  lemma NextReversed(code0: nat, t: nat, code: nat, res: nat)
    requires Reversed(code0, t, code, res)
    ensures var r := Or(res, code % 2);
            && r < Pow2(t + 1) && MsbBits(r, t + 1) == ToBits(code0, t + 1)
            && Reversed(code0, t + 1, code / 2, r * 2)
  {
    OrLowBit(res, code % 2);
    ShrStep(code0, t);
    SplitBits(code0, t + 1, t);
    assert ToBits(Shr(code0, t), 1) == [Shr(code0, t) % 2 == 1];
    hide Or, Shr;
  }

  // ----- assigning the codes -----

  /** Symbol n has its code, in transmission order. */
  ghost predicate CodeSet(fc: seq<nat>, lens: seq<nat>, n: nat)
    requires n < |lens|
  {
    n < |fc| && fc[n] < Pow2(lens[n]) && ToBits(fc[n], lens[n]) == CodeWord(lens, n)
  }

  /** `gen_codes`: turns the lengths of symbols 0..maxCode into their codes. */
  method GenCodes(fc: array<nat>, dl: array<nat>, blCount: array<nat>, maxCode: nat)
    requires fc != dl && fc != blCount && maxCode < fc.Length && maxCode < dl.Length
    requires blCount.Length == MAX_BITS + 1 && blCount[0] == 0
    requires forall n :: 0 <= n <= maxCode ==> dl[n] <= MAX_BITS
    requires forall b :: 1 <= b <= MAX_BITS ==> blCount[b] == Count(dl[..maxCode + 1], b)
    modifies fc
    ensures forall n :: 0 <= n <= maxCode && dl[n] != 0 ==> CodeSet(fc[..], dl[..maxCode + 1], n)
    ensures forall n :: 0 <= n < fc.Length && (n > maxCode || dl[n] == 0) ==> fc[n] == old(fc[n])
  {
    hide MsbBits, ToBits, Pow2, FirstCode, Count;
    ghost var lens := dl[..maxCode + 1];
    var nextCode := FirstCodes(blCount, lens);
    var n := 0;
    CountNothing(lens);
    while n <= maxCode
      invariant 0 <= n <= maxCode + 1 && dl[..maxCode + 1] == lens
      invariant forall b :: 1 <= b <= MAX_BITS ==> nextCode[b] == FirstCode(lens, b) + Count(lens[..n], b)
      invariant forall m :: 0 <= m < n && lens[m] != 0 ==> CodeSet(fc[..], lens, m)
      invariant forall m :: 0 <= m < fc.Length && (m >= n || lens[m] == 0) ==> fc[m] == old(fc[m])
    {
      CountNext(lens, n);
      var len := dl[n];
      if len != 0 {
        var code := BiReverse(nextCode[len], len);
        fc[n] := code;
        nextCode[len] := nextCode[len] + 1;
      }
      n := n + 1;
    }
  }

  lemma CountNothing(lens: seq<nat>)
    ensures forall b :: Count(lens[..0], b) == 0
  {
  }

  lemma CountNext(lens: seq<nat>, n: nat)
    requires n < |lens|
    ensures forall b :: Count(lens[..n + 1], b) == Count(lens[..n], b) + (if lens[n] == b then 1 else 0)
  {
    assert lens[..n + 1][..n] == lens[..n];
  }

  /** The first code of each length. */
  method FirstCodes(blCount: array<nat>, ghost lens: seq<nat>) returns (nextCode: array<nat>)
    requires blCount.Length == MAX_BITS + 1 && blCount[0] == 0
    requires forall b :: 1 <= b <= MAX_BITS ==> blCount[b] == Count(lens, b)
    ensures fresh(nextCode) && nextCode.Length == MAX_BITS + 1
    ensures forall b :: 1 <= b <= MAX_BITS ==> nextCode[b] == FirstCode(lens, b)
  {
    nextCode := new nat[MAX_BITS + 1];
    var code := 0;
    var bits := 1;
    while bits <= MAX_BITS
      invariant 1 <= bits <= MAX_BITS + 1 && code >= 0
      invariant code == FirstCode(lens, bits - 1)
      invariant forall b :: 1 <= b < bits ==> nextCode[b] == FirstCode(lens, b)
    {
      code := (code + blCount[bits - 1]) * 2;
      nextCode[bits] := code;
      bits := bits + 1;
    }
  }
}
