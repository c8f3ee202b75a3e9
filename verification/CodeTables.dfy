/** `ct_init`: the tables that map lengths and distances to their codes, and the
    fixed trees. */
module CodeTables {
  import opened Bits
  import opened PrefixCode
  import opened Inflate
  import opened Tokens
  import opened RunLength
  import opened Blocks
  import opened TreeSender

  const LENGTH_CODES := 29
  const D_CODES := 30

  lemma {:induction false} RangesAscend(bases: seq<nat>, extras: seq<nat>, n: nat, i: nat, c: nat)
    requires Contiguous(bases, extras, n) && i < c < n
    ensures bases[i] + Pow2(extras[i]) <= bases[c]
  {
    if i + 1 < c {
      RangesAscend(bases, extras, n, i, c - 1);
    }
  }

  /** Inside the range of code c, the code found is c. */
  lemma FindCodeIs(bases: seq<nat>, extras: seq<nat>, n: nat, v: nat, c: nat)
    requires Contiguous(bases, extras, n) && c < n && bases[c] <= v < bases[c] + Pow2(extras[c])
    ensures FindCode(bases, extras, v, 0) == c
  {
    var r := FindCode(bases, extras, v, 0);
    if r < c {
      RangesAscend(bases, extras, n, r, c);
    }
  }

  lemma LengthCodeIs(len: nat, c: nat)
    requires MIN_MATCH <= len < MAX_MATCH && c < 28 && LengthBase(c) <= len < LengthBase(c) + Pow2(LengthExtra(c))
    ensures LengthCode(len) == c
  {
    TablesContiguous();
    FindCodeIs(LENGTH_BASE, LENGTH_EXTRA, 28, len, c);
  }

  lemma DistCodeIs(dist: nat, c: nat)
    requires 0 < dist <= 32768 && c < 30 && DistBase(c) <= dist < DistBase(c) + Pow2(DistExtra(c))
    ensures DistCode(dist) == c
  {
    TablesContiguous();
    FindCodeIs(DIST_BASE, DIST_EXTRA, 30, dist, c);
  }

  lemma LengthStep(c: nat)
    requires c < 28
    ensures LengthBase(0) == 3 && LengthBase(c) >= 3
    ensures LengthBase(c) + Pow2(LengthExtra(c)) == (if c == 27 then 259 else LengthBase(c + 1))
    ensures LengthBase(c) + Pow2(LengthExtra(c)) <= 259
  {
    TablesContiguous();
    SmallPowers();
  }

  lemma DistStep(c: nat)
    requires c < 30
    ensures DistBase(0) == 1 && DistBase(16) == 257 && DistBase(c) >= 1
    ensures DistBase(c) + Pow2(DistExtra(c)) == (if c == 29 then 32769 else DistBase(c + 1))
    ensures c < 16 ==> DistBase(c) + Pow2(DistExtra(c)) <= 257
    ensures DistBase(c) + Pow2(DistExtra(c)) <= 32769
    ensures c >= 16 ==> DistExtra(c) >= 7 && Pow2(DistExtra(c)) == 128 * Pow2(DistExtra(c) - 7)
  {
    TablesContiguous();
    SmallPowers();
  }

  lemma {:induction false} CountRepeat(lens: seq<nat>, l: nat, n: nat, k: nat)
    ensures Count(lens + Repeat(l, n), k) == Count(lens, k) + (if l == k then n else 0)
  {
    if n == 0 {
      assert lens + Repeat(l, 0) == lens;
    } else {
      CountRepeat(lens, l, n - 1, k);
      var all := lens + Repeat(l, n);
      assert all[..|all| - 1] == lens + Repeat(l, n - 1);
    }
  }

  /** The counts `ct_init` sets for the fixed literal/length tree are right. */
  lemma FixedCounts(k: nat)
    ensures Count(FIXED_LITERAL_LENGTHS, k) == if k == 7 then 24 else if k == 8 then 152 else if k == 9 then 112 else 0
  {
    var a, b, c, d := Repeat(8, 144), Repeat(9, 112), Repeat(7, 24), Repeat(8, 8);
    assert [] + a == a;
    CountRepeat([], 8, 144, k);
    CountRepeat(a, 9, 112, k);
    CountRepeat(a + b, 7, 24, k);
    CountRepeat(a + b + c, 8, 8, k);
  }

  lemma FixedLength(n: nat)
    requires n < 288
    ensures |FIXED_LITERAL_LENGTHS| == 288 && |FIXED_DISTANCE_LENGTHS| == 32
    ensures FIXED_LITERAL_LENGTHS[n] == if n <= 143 then 8 else if n <= 255 then 9 else if n <= 279 then 7 else 8
    ensures n < 32 ==> FIXED_DISTANCE_LENGTHS[n] == 5
  {
  }

  /** The fixed distance code of a symbol is its number. */
  lemma FixedDistCode(n: nat)
    requires n < 30
    ensures |FIXED_DISTANCE_LENGTHS| == 32 && FIXED_DISTANCE_LENGTHS[n] == 5
    ensures Code(FIXED_DISTANCE_LENGTHS, n) == n
  {
    FixedLength(n);
    var l := FIXED_DISTANCE_LENGTHS;
    assert l[..n] == [] + Repeat(5, n);
    CountRepeat([], 5, n, 5);
    assert l == [] + Repeat(5, 32);
    CountRepeat([], 5, 32, 1);
    CountRepeat([], 5, 32, 2);
    CountRepeat([], 5, 32, 3);
    CountRepeat([], 5, 32, 4);
    assert Used(l, 0) == 0 && Used(l, 1) == 0 && Used(l, 2) == 0;
    assert Used(l, 3) == 0 && Used(l, 4) == 0;
  }

  class CodeTables {
    const lengthCode: array<nat>
    const distCode: array<nat>
    const baseLength: array<nat>
    const baseDist: array<nat>
    const staticLCode: array<nat>
    const staticLLen: array<nat>
    const staticDCode: array<nat>
    const staticDLen: array<nat>

    ghost predicate Sizes()
    {
      && lengthCode.Length == 256 && distCode.Length == 512
      && baseLength.Length == LENGTH_CODES && baseDist.Length == D_CODES
      && staticLCode.Length == 288 && staticLLen.Length == 288
      && staticDCode.Length == D_CODES && staticDLen.Length == D_CODES
      && distCode != lengthCode && distCode != baseLength && baseDist != lengthCode && baseDist != baseLength
      && lengthCode != baseLength && distCode != baseDist
    }

    ghost predicate LengthsReady()
      requires Sizes()
      reads lengthCode, baseLength
    {
      && (forall lc :: 0 <= lc < 256 ==> lengthCode[lc] == LengthCode(lc + MIN_MATCH))
      && forall c :: 0 <= c < 28 ==> baseLength[c] == LengthBase(c) - MIN_MATCH
    }

    ghost predicate DistsReady()
      requires Sizes()
      reads distCode, baseDist
    {
      && (forall d :: 0 <= d < 256 ==> distCode[d] == DistCode(d + 1))
      && (forall d :: 256 <= d < 32768 ==> distCode[256 + d / 128] == DistCode(d + 1))
      && forall c :: 0 <= c < D_CODES ==> baseDist[c] == DistBase(c) - 1
    }

    ghost predicate StaticReady()
      requires Sizes()
      reads staticLCode, staticLLen, staticDCode, staticDLen
    {
      && staticLLen[..] == FIXED_LITERAL_LENGTHS && CodesSet(staticLCode[..], FIXED_LITERAL_LENGTHS)
      && (forall n :: 0 <= n < D_CODES ==> staticDLen[n] == 5)
      && forall n :: 0 <= n < D_CODES ==> CodeSet(staticDCode[..], FIXED_DISTANCE_LENGTHS, n)
    }

    ghost predicate Valid()
      reads lengthCode, distCode, baseLength, baseDist, staticLCode, staticLLen, staticDCode, staticDLen
    {
      Sizes() && LengthsReady() && DistsReady() && StaticReady()
    }

    constructor (blCount: array<nat>)
      requires blCount.Length == MAX_BITS + 1 && forall b :: 0 <= b <= MAX_BITS ==> blCount[b] == 0
      modifies blCount
      ensures Valid() && fresh(lengthCode) && fresh(distCode) && fresh(baseLength) && fresh(baseDist)
      ensures fresh(staticLCode) && fresh(staticLLen) && fresh(staticDCode) && fresh(staticDLen)
    {
      lengthCode := new nat[256](_ => 0);
      distCode := new nat[512](_ => 0);
      baseLength := new nat[LENGTH_CODES](_ => 0);
      baseDist := new nat[D_CODES](_ => 0);
      staticLCode := new nat[288](_ => 0);
      staticLLen := new nat[288](_ => 0);
      staticDCode := new nat[D_CODES](_ => 0);
      staticDLen := new nat[D_CODES](_ => 0);
      new;
      InitLengths();
      InitNearDists();
      InitFarDists();
      InitStaticLengths();
      InitStaticLiterals(blCount);
      InitStaticDists();
    }

    /** Length codes; length 258 gets the code of its own. */
    method InitLengths()
      requires Sizes()
      modifies lengthCode, baseLength
      ensures LengthsReady()
    {
      hide LengthCode, LengthBase, LengthExtra, Pow2;
      var length := 0;
      var code := 0;
      LengthStep(0);
      while code < LENGTH_CODES - 1
        invariant 0 <= code <= 28 && 0 <= length <= 256
        invariant length == if code == 28 then 256 else LengthBase(code) - 3
        invariant forall lc :: 0 <= lc < length && lc < 255 ==> lengthCode[lc] == LengthCode(lc + MIN_MATCH)
        invariant forall c :: 0 <= c < code ==> baseLength[c] == LengthBase(c) - MIN_MATCH
      {
        LengthStep(code);
        baseLength[code] := length;
        var n := 0;
        while n < Pow2(LengthExtra(code))
          invariant 0 <= n <= Pow2(LengthExtra(code)) && length == LengthBase(code) - 3 + n
          invariant forall lc :: 0 <= lc < length && lc < 255 ==> lengthCode[lc] == LengthCode(lc + MIN_MATCH)
          invariant forall c :: 0 <= c <= code ==> baseLength[c] == LengthBase(c) - MIN_MATCH
        {
          if length < 255 {
            LengthCodeIs(length + 3, code);
          }
          lengthCode[length] := code;
          length := length + 1;
          n := n + 1;
        }
        code := code + 1;
      }
      lengthCode[length - 1] := code;
      assert LengthCode(258) == 28 by { LastLength(); }
    }

    /** Codes of the distances up to 256. */
    method InitNearDists()
      requires Sizes()
      modifies distCode, baseDist
      ensures forall d :: 0 <= d < 256 ==> distCode[d] == DistCode(d + 1)
      ensures forall c :: 0 <= c < 16 ==> baseDist[c] == DistBase(c) - 1
    {
      hide DistCode, DistBase, DistExtra, Pow2;
      var dist := 0;
      var code := 0;
      DistStep(0);
      while code < 16
        invariant 0 <= code <= 16 && 0 <= dist <= 256 && dist == DistBase(code) - 1
        invariant forall d :: 0 <= d < dist ==> distCode[d] == DistCode(d + 1)
        invariant forall c :: 0 <= c < code ==> baseDist[c] == DistBase(c) - 1
      {
        DistStep(code);
        baseDist[code] := dist;
        var n := 0;
        while n < Pow2(DistExtra(code))
          invariant 0 <= n <= Pow2(DistExtra(code)) && dist == DistBase(code) - 1 + n
          invariant forall d :: 0 <= d < dist ==> distCode[d] == DistCode(d + 1)
          invariant forall c :: 0 <= c <= code ==> baseDist[c] == DistBase(c) - 1
        {
          DistCodeIs(dist + 1, code);
          distCode[dist] := code;
          dist := dist + 1;
          n := n + 1;
        }
        code := code + 1;
      }
    }

    /** Codes of the larger distances, divided by 128. */
    method InitFarDists()
      requires Sizes()
      requires forall d :: 0 <= d < 256 ==> distCode[d] == DistCode(d + 1)
      requires forall c :: 0 <= c < 16 ==> baseDist[c] == DistBase(c) - 1
      modifies distCode, baseDist
      ensures DistsReady()
    {
      hide DistCode, DistBase, DistExtra, Pow2;
      var dist := 256 / 128;
      var code := 16;
      DistStep(16);
      while code < D_CODES
        invariant 16 <= code <= 30 && 2 <= dist <= 256
        invariant 128 * dist == if code == 30 then 32768 else DistBase(code) - 1
        invariant forall d :: 0 <= d < 256 ==> distCode[d] == DistCode(d + 1)
        invariant forall d :: 256 <= d < 128 * dist ==> distCode[256 + d / 128] == DistCode(d + 1)
        invariant forall c :: 0 <= c < code ==> baseDist[c] == DistBase(c) - 1
      {
        DistStep(code);
        baseDist[code] := dist * 128;
        var n := 0;
        while n < Pow2(DistExtra(code) - 7)
          invariant 0 <= n <= Pow2(DistExtra(code) - 7) && 128 * dist == DistBase(code) - 1 + 128 * n && 2 <= dist <= 256
          invariant forall d :: 0 <= d < 256 ==> distCode[d] == DistCode(d + 1)
          invariant forall d :: 256 <= d < 128 * dist ==> distCode[256 + d / 128] == DistCode(d + 1)
          invariant forall c :: 0 <= c <= code ==> baseDist[c] == DistBase(c) - 1
        {
          forall d | 128 * dist <= d < 128 * dist + 128
            ensures DistCode(d + 1) == code && d / 128 == dist
          {
            DistCodeIs(d + 1, code);
          }
          distCode[256 + dist] := code;
          dist := dist + 1;
          n := n + 1;
        }
        code := code + 1;
      }
    }

    method InitStaticLengths()
      requires Sizes()
      modifies staticLLen
      ensures staticLLen[..] == FIXED_LITERAL_LENGTHS
    {
      hide FIXED_LITERAL_LENGTHS, FIXED_DISTANCE_LENGTHS;
      var n := 0;
      while n <= 143
        invariant 0 <= n <= 144 && forall i :: 0 <= i < n ==> staticLLen[i] == 8
      {
        staticLLen[n] := 8;
        n := n + 1;
      }
      while n <= 255
        invariant 144 <= n <= 256 && (forall i :: 0 <= i < 144 ==> staticLLen[i] == 8)
        invariant forall i :: 144 <= i < n ==> staticLLen[i] == 9
      {
        staticLLen[n] := 9;
        n := n + 1;
      }
      while n <= 279
        invariant 256 <= n <= 280 && (forall i :: 0 <= i < 144 ==> staticLLen[i] == 8)
        invariant (forall i :: 144 <= i < 256 ==> staticLLen[i] == 9) && forall i :: 256 <= i < n ==> staticLLen[i] == 7
      {
        staticLLen[n] := 7;
        n := n + 1;
      }
      while n <= 287
        invariant 280 <= n <= 288 && (forall i :: 0 <= i < 144 ==> staticLLen[i] == 8)
        invariant (forall i :: 144 <= i < 256 ==> staticLLen[i] == 9) && forall i :: 256 <= i < 280 ==> staticLLen[i] == 7
        invariant forall i :: 280 <= i < n ==> staticLLen[i] == 8
      {
        staticLLen[n] := 8;
        n := n + 1;
      }
      FixedLength(0);
      forall i: nat | i < 288
        ensures staticLLen[i] == FIXED_LITERAL_LENGTHS[i]
      {
        FixedLength(i);
      }
    }

    method InitStaticLiterals(blCount: array<nat>)
      requires Sizes() && staticLLen[..] == FIXED_LITERAL_LENGTHS
      requires blCount.Length == MAX_BITS + 1 && forall b :: 0 <= b <= MAX_BITS ==> blCount[b] == 0
      requires blCount != staticLLen && blCount != staticLCode && staticLCode != staticLLen
      modifies staticLCode, blCount
      ensures CodesSet(staticLCode[..], FIXED_LITERAL_LENGTHS)
    {
      hide FIXED_LITERAL_LENGTHS, FIXED_DISTANCE_LENGTHS, CodeSet, Count;
      blCount[7] := 279 - 255;
      blCount[8] := (143 + 1) + (287 - 279);
      blCount[9] := 255 - 143;
      assert staticLLen[..288] == staticLLen[..] == FIXED_LITERAL_LENGTHS;
      forall b | 1 <= b <= MAX_BITS
        ensures blCount[b] == Count(FIXED_LITERAL_LENGTHS, b)
      {
        FixedCounts(b);
      }
      forall i: nat | i < 288
        ensures FIXED_LITERAL_LENGTHS[i] <= MAX_BITS && staticLLen[i] == FIXED_LITERAL_LENGTHS[i]
      {
        FixedLength(i);
        assert staticLLen[..][i] == staticLLen[i];
      }
      GenCodes(staticLCode, staticLLen, blCount, 287);
    }

    method InitStaticDists()
      requires Sizes() && staticDCode != staticDLen
      modifies staticDCode, staticDLen
      ensures forall n :: 0 <= n < D_CODES ==> staticDLen[n] == 5
      ensures forall n :: 0 <= n < D_CODES ==> CodeSet(staticDCode[..], FIXED_DISTANCE_LENGTHS, n)
    {
      hide FIXED_DISTANCE_LENGTHS, Code, MsbBits, ToBits, Pow2;
      FixedLength(0);
      var n := 0;
      while n < D_CODES
        invariant 0 <= n <= D_CODES && forall i :: 0 <= i < n ==> staticDLen[i] == 5
        invariant forall i :: 0 <= i < n ==> CodeSet(staticDCode[..], FIXED_DISTANCE_LENGTHS, i)
      {
        FixedDistCode(n);
        staticDLen[n] := 5;
        var code := BiReverse(n, 5);
        ghost var before := staticDCode[..];
        staticDCode[n] := code;
        assert staticDCode[..] == before[n := code];
        FixedDistSet(staticDCode[..], n, code);
        forall i | 0 <= i < n
          ensures CodeSet(staticDCode[..], FIXED_DISTANCE_LENGTHS, i)
        {
          assert CodeSet(before, FIXED_DISTANCE_LENGTHS, i) && staticDCode[..][i] == before[i];
        }
        n := n + 1;
      }
    }
  }

  lemma FixedDistSet(fc: seq<nat>, n: nat, code: nat)
    requires n < 30 && n < |fc| && fc[n] == code && code < Pow2(5) && ToBits(code, 5) == MsbBits(n, 5)
    ensures n < |FIXED_DISTANCE_LENGTHS| && CodeSet(fc, FIXED_DISTANCE_LENGTHS, n)
  {
    hide FIXED_DISTANCE_LENGTHS, Code, MsbBits, ToBits, Pow2;
    FixedDistCode(n);
  }

  lemma LastLength()
    ensures LengthCode(258) == 28
  {
  }
}
