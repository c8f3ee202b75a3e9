/** The bits of whole blocks, and the proof that the reference decoder turns
    them back into the data they stand for. */
module Blocks {
  import opened Bits
  import opened PrefixCode
  import opened Inflate
  import opened Tokens
  import opened RunLength
  import opened BitWriters

  // ----- the code lengths of a dynamic block -----

  predicate HasCodes(codeLens: seq<nat>, syms: seq<LenSym>)
  {
    |codeLens| == 19
    && forall i :: 0 <= i < |syms| ==> InRange(syms[i]) && codeLens[SymOf(syms[i])] > 0
  }

  function SymBits(codeLens: seq<nat>, s: LenSym): seq<bool>
    requires InRange(s) && |codeLens| == 19
  {
    CodeWord(codeLens, SymOf(s)) + ToBits(ExtraValue(s), ExtraCount(SymOf(s)))
  }

  function SymsBits(codeLens: seq<nat>, syms: seq<LenSym>): seq<bool>
    requires HasCodes(codeLens, syms)
  {
    if syms == [] then []
    else SymsBits(codeLens, syms[..|syms| - 1]) + SymBits(codeLens, syms[|syms| - 1])
  }

  lemma {:induction false} SymsBitsAppend(codeLens: seq<nat>, a: seq<LenSym>, b: seq<LenSym>)
    requires HasCodes(codeLens, a) && HasCodes(codeLens, b)
    ensures HasCodes(codeLens, a + b)
    ensures SymsBits(codeLens, a + b) == SymsBits(codeLens, a) + SymsBits(codeLens, b)
    decreases |b|
  {
    hide SymBits, InRange;
    if b == [] {
      assert a + b == a;
    } else {
      var init, last := b[..|b| - 1], b[|b| - 1];
      SymsBitsAppend(codeLens, a, init);
      assert a + b == (a + init) + [last] && b == init + [last];
      SymsBitsSnoc(codeLens, a + init, last);
      SymsBitsSnoc(codeLens, init, last);
      hide SymsBits;
    }
  }

  lemma SymsBitsSnoc(codeLens: seq<nat>, a: seq<LenSym>, s: LenSym)
    requires HasCodes(codeLens, a) && HasCodes(codeLens, [s])
    ensures HasCodes(codeLens, a + [s]) && InRange(s)
    ensures SymsBits(codeLens, a + [s]) == SymsBits(codeLens, a) + SymBits(codeLens, s)
  {
    hide SymBits, InRange;
    assert [s][0] == s && (a + [s])[..|a|] == a;
  }

  /** The three-bit lengths of the first k code length symbols in their order. */
  function CodeLengthBits(codeLens: seq<nat>, k: nat): (r: seq<bool>)
    requires |codeLens| == 19 && k <= 19
    ensures |r| == 3 * k
  {
    if k == 0 then [] else CodeLengthBits(codeLens, k - 1) + ToBits(codeLens[Order(k - 1)], 3)
  }

  /** The code lengths that are not sent are zero. */
  predicate Covered(codeLens: seq<nat>, k: nat)
  {
    |codeLens| == 19 && 4 <= k <= 19
    && (forall i :: 0 <= i < 19 ==> codeLens[i] <= 7)
    && (forall i :: k <= i < 19 ==> codeLens[Order(i)] == 0)
  }

  function TreesBits(litLens: seq<nat>, distLens: seq<nat>, codeLens: seq<nat>, k: nat): seq<bool>
    requires 257 <= |litLens| && 1 <= |distLens| && Covered(codeLens, k)
    requires HasCodes(codeLens, Syms(litLens)) && HasCodes(codeLens, Syms(distLens))
  {
    ToBits(|litLens| - 257, 5) + ToBits(|distLens| - 1, 5) + ToBits(k - 4, 4)
    + CodeLengthBits(codeLens, k)
    + SymsBits(codeLens, Syms(litLens)) + SymsBits(codeLens, Syms(distLens))
  }

  // ----- reading the code lengths back -----

  /** One symbol's bits extend the list read so far by what it stands for. */
  lemma ReadsSym(codeLens: seq<nat>, s: LenSym, bits: seq<bool>, pos: nat, n: nat, acc: seq<nat>)
    requires Decodable(codeLens) && HasCodes(codeLens, [s]) && |acc| < n
    requires s.Rep? ==> acc != []
    requires InRange(s) && At(bits, pos, SymBits(codeLens, s))
    ensures ReadLengths(codeLens, bits, pos, n, acc)
         == ReadLengths(codeLens, bits, pos + |SymBits(codeLens, s)|, n, ExpandSym(acc, s))
  {
    hide CodeWord, DecodeSymbol, ToBits, Pow2;
    assert codeLens[SymOf([s][0])] > 0;
    var c, e := CodeWord(codeLens, SymOf(s)), ToBits(ExtraValue(s), ExtraCount(SymOf(s)));
    AtAppend(bits, pos, c, e);
    DecodeEncoded(codeLens, SymOf(s), bits, pos);
    ReadBack(bits, pos + |c|, ExtraValue(s), |e|);
  }

  lemma {:induction false} ExpandGrows(acc: seq<nat>, syms: seq<LenSym>)
    requires Expandable(acc, syms)
    ensures |ExpandSyms(acc, syms)| >= |acc|
    decreases |syms|
  {
    if syms != [] {
      ExpandGrows(ExpandSym(acc, syms[0]), syms[1..]);
    }
  }

  lemma {:induction false} ReadsSyms(codeLens: seq<nat>, syms: seq<LenSym>,
                                     bits: seq<bool>, pos: nat, n: nat, acc: seq<nat>)
    requires Decodable(codeLens) && HasCodes(codeLens, syms)
    requires Expandable(acc, syms) && |ExpandSyms(acc, syms)| <= n
    requires At(bits, pos, SymsBits(codeLens, syms))
    ensures ReadLengths(codeLens, bits, pos, n, acc)
         == ReadLengths(codeLens, bits, pos + |SymsBits(codeLens, syms)|, n, ExpandSyms(acc, syms))
    decreases |syms|
  {
    hide ReadLengths, SymBits, InRange, CodeWord;
    if syms != [] {
      var s, rest := syms[0], syms[1..];
      assert syms == [s] + rest;
      assert HasCodes(codeLens, [s]) && HasCodes(codeLens, rest);
      SymsBitsAppend(codeLens, [s], rest);
      SymsBitsOne(codeLens, s);
      AtAppend(bits, pos, SymBits(codeLens, s), SymsBits(codeLens, rest));
      ExpandGrows(ExpandSym(acc, s), rest);
      ExpandSymGrows(acc, s);
      ReadsSym(codeLens, s, bits, pos, n, acc);
      ReadsSyms(codeLens, rest, bits, pos + |SymBits(codeLens, s)|, n, ExpandSym(acc, s));
    }
  }

  lemma SymsBitsOne(codeLens: seq<nat>, s: LenSym)
    requires HasCodes(codeLens, [s])
    ensures InRange(s) && SymsBits(codeLens, [s]) == SymBits(codeLens, s)
  {
    assert [s][..0] == [] && InRange([s][0]);
    assert SymsBits(codeLens, []) == [];
  }

  lemma ExpandSymGrows(acc: seq<nat>, s: LenSym)
    requires InRange(s) && (s.Rep? ==> acc != [])
    ensures |ExpandSym(acc, s)| > |acc|
  {
  }

  /** What is known of the code length code after i of its lengths are read. */
  predicate Placed(codeLens: seq<nat>, acc: seq<nat>, i: nat)
    requires |codeLens| == 19 && i <= 19
  {
    |acc| == 19
    && (forall j :: 0 <= j < i ==> acc[Order(j)] == codeLens[Order(j)])
    && (forall j :: i <= j < 19 ==> acc[Order(j)] == 0)
  }

  lemma OrderDistinct()
    ensures forall i, j :: 0 <= i < j < 19 ==> Order(i) != Order(j)
  {
  }

  lemma OrderOnto(c: nat)
    requires c < 19
    ensures exists i :: 0 <= i < 19 && Order(i) == c
  {
    var at: seq<nat> := [3, 17, 15, 13, 11, 9, 7, 5, 4, 6, 8, 10, 12, 14, 16, 18, 0, 1, 2];
    assert Order(at[c]) == c;
  }

  lemma PlacedAll(codeLens: seq<nat>, acc: seq<nat>)
    requires |codeLens| == 19 && Placed(codeLens, acc, 19)
    ensures acc == codeLens
  {
    forall c: nat | c < 19
      ensures acc[c] == codeLens[c]
    {
      OrderOnto(c);
    }
  }

  lemma PlaceOne(codeLens: seq<nat>, acc: seq<nat>, i: nat)
    requires |codeLens| == 19 && i < 19 && Placed(codeLens, acc, i)
    ensures Placed(codeLens, acc[Order(i) := codeLens[Order(i)]], i + 1)
  {
    OrderDistinct();
    hide Order;
    var o := Order(i);
    var acc' := acc[o := codeLens[o]];
    forall j | 0 <= j < 19 && j != i
      ensures acc'[Order(j)] == acc[Order(j)]
    {
    }
  }

  lemma {:induction false} CodeLengthBitsAt(codeLens: seq<nat>, k: nat, i: nat, bits: seq<bool>, pos: nat)
    requires |codeLens| == 19 && i < k <= 19
    requires At(bits, pos, CodeLengthBits(codeLens, k))
    ensures At(bits, pos + 3 * i, ToBits(codeLens[Order(i)], 3))
  {
    AtAppend(bits, pos, CodeLengthBits(codeLens, k - 1), ToBits(codeLens[Order(k - 1)], 3));
    if i < k - 1 {
      CodeLengthBitsAt(codeLens, k - 1, i, bits, pos);
    }
  }

  lemma {:induction false} ReadsCodeLengths(codeLens: seq<nat>, k: nat, bits: seq<bool>, pos: nat,
                                            i: nat, acc: seq<nat>)
    requires Covered(codeLens, k) && i <= k && Placed(codeLens, acc, i)
    requires At(bits, pos, CodeLengthBits(codeLens, k))
    ensures ReadCodeLengthCode(bits, pos + 3 * i, i, k, acc) == Some((codeLens, pos + 3 * k))
    decreases k - i
  {
    hide Order, CodeLengthBits, ToBits, FromBits, Pow2;
    if i == k {
      assert Placed(codeLens, acc, 19);
      PlacedAll(codeLens, acc);
    } else {
      var v := codeLens[Order(i)];
      CodeLengthBitsAt(codeLens, k, i, bits, pos);
      assert Pow2(3) == 8 by { SmallPowers(); }
      ReadBack(bits, pos + 3 * i, v, 3);
      PlaceOne(codeLens, acc, i);
      ReadsCodeLengths(codeLens, k, bits, pos, i + 1, acc[Order(i) := v]);
    }
  }

  /** What the header of a dynamic block must satisfy to be understood. */
  ghost predicate GoodTrees(litLens: seq<nat>, distLens: seq<nat>, codeLens: seq<nat>, k: nat)
  {
    && 257 <= |litLens| <= 286 && 1 <= |distLens| <= 30
    && Complete(litLens) && Complete(distLens) && Complete(codeLens)
    && litLens[END_BLOCK] > 0
    && Covered(codeLens, k)
    && HasCodes(codeLens, Syms(litLens)) && HasCodes(codeLens, Syms(distLens))
  }

  lemma ReadsBothLengths(litLens: seq<nat>, distLens: seq<nat>, codeLens: seq<nat>, bits: seq<bool>, pos: nat)
    requires Bounded(litLens) && Bounded(distLens) && Decodable(codeLens)
    requires HasCodes(codeLens, Syms(litLens)) && HasCodes(codeLens, Syms(distLens))
    requires At(bits, pos, SymsBits(codeLens, Syms(litLens)) + SymsBits(codeLens, Syms(distLens)))
    ensures ReadLengths(codeLens, bits, pos, |litLens| + |distLens|, [])
         == Some((litLens + distLens,
                  pos + |SymsBits(codeLens, Syms(litLens))| + |SymsBits(codeLens, Syms(distLens))|))
  {
    hide Syms, SymsBits, Expandable, ExpandSyms, InRange, HasCodes, Complete, Bounded, ReadLengths;
    ReadLengthsDone(codeLens, bits, litLens + distLens,
                    pos + |SymsBits(codeLens, Syms(litLens))| + |SymsBits(codeLens, Syms(distLens))|);
    var n := |litLens| + |distLens|;
    var a, b := SymsBits(codeLens, Syms(litLens)), SymsBits(codeLens, Syms(distLens));
    AtAppend(bits, pos, a, b);
    SymsExpand(litLens);
    SymsExpand(distLens);
    ReadsSyms(codeLens, Syms(litLens), bits, pos, n, []);
    ExpandOnto(litLens, distLens);
    ReadsSyms(codeLens, Syms(distLens), bits, pos + |a|, n, litLens);
  }

  lemma ReadLengthsDone(codeLens: seq<nat>, bits: seq<bool>, lens: seq<nat>, pos: nat)
    requires pos <= |bits|
    ensures ReadLengths(codeLens, bits, pos, |lens|, lens) == Some((lens, pos))
  {
  }

  /** The symbols of a list of lengths say the same behind another list: they
      never start with a repeat. */
  lemma ExpandOnto(acc: seq<nat>, lens: seq<nat>)
    requires Bounded(lens)
    ensures Expandable(acc, Syms(lens)) && ExpandSyms(acc, Syms(lens)) == acc + lens
  {
    SymsExpand(lens);
    ExpandShift(acc, [], Syms(lens));
    assert acc + [] == acc;
  }

  lemma {:induction false} ExpandShift(acc: seq<nat>, start: seq<nat>, syms: seq<LenSym>)
    requires Expandable(start, syms)
    ensures Expandable(acc + start, syms) && ExpandSyms(acc + start, syms) == acc + ExpandSyms(start, syms)
    decreases |syms|
  {
    if syms != [] {
      var next := ExpandSym(start, syms[0]);
      assert ExpandSym(acc + start, syms[0]) == acc + next;
      ExpandShift(acc, next, syms[1..]);
    }
  }

  /** The round trip of a dynamic block's header. */
  lemma ReadsTrees(litLens: seq<nat>, distLens: seq<nat>, codeLens: seq<nat>, k: nat, bits: seq<bool>, pos: nat)
    requires GoodTrees(litLens, distLens, codeLens, k)
    requires At(bits, pos, TreesBits(litLens, distLens, codeLens, k))
    ensures ReadTrees(bits, pos)
         == Some((litLens, distLens, pos + |TreesBits(litLens, distLens, codeLens, k)|))
  {
    hide ReadCodeLengthCode, ReadLengths, CodeLengthBits, SymsBits, Complete, Covered, HasCodes, ToBits, FromBits, Pow2;
    CoveredBound(codeLens, k);
    var a, b, c := ToBits(|litLens| - 257, 5), ToBits(|distLens| - 1, 5), ToBits(k - 4, 4);
    var d := CodeLengthBits(codeLens, k);
    var e, f := SymsBits(codeLens, Syms(litLens)), SymsBits(codeLens, Syms(distLens));
    assert TreesBits(litLens, distLens, codeLens, k) == a + b + c + d + (e + f);
    AtAppend(bits, pos, a + b + c + d, e + f);
    AtAppend(bits, pos, a + b + c, d);
    AtAppend(bits, pos, a + b, c);
    AtAppend(bits, pos, a, b);
    SmallPowers();
    ReadBack(bits, pos, |litLens| - 257, 5);
    ReadBack(bits, pos + 5, |distLens| - 1, 5);
    ReadBack(bits, pos + 10, k - 4, 4);
    ReadsCodeLengths(codeLens, k, bits, pos + 14, 0, Repeat(0, 19));
    CompleteDecodable(litLens);
    CompleteDecodable(distLens);
    CompleteDecodable(codeLens);
    ReadsBothLengths(litLens, distLens, codeLens, bits, pos + 14 + |d|);
    assert (litLens + distLens)[..|litLens|] == litLens && (litLens + distLens)[|litLens|..] == distLens;
  }

  lemma CompleteDecodable(lens: seq<nat>)
    requires Complete(lens)
    ensures Decodable(lens)
  {
  }

  lemma CoveredBound(codeLens: seq<nat>, k: nat)
    requires Covered(codeLens, k)
    ensures |codeLens| == 19 && 4 <= k <= 19 && k - 4 < 16 && Placed(codeLens, Repeat(0, 19), 0)
    ensures |CodeLengthBits(codeLens, k)| == 3 * k
  {
  }

  // ----- blocks -----

  datatype Block =
    | Stored(data: seq<byte>)
    | Fixed(toks: seq<Token>)
    | Dynamic(litLens: seq<nat>, distLens: seq<nat>, codeLens: seq<nat>, k: nat, toks: seq<Token>)

  /** A block the format can express, given the output before it. */
  ghost predicate GoodBlock(b: Block, n: nat)
  {
    match b
    case Stored(data) => |data| < 0x10000
    case Fixed(toks) =>
      CodesAll(FIXED_LITERAL_LENGTHS, FIXED_DISTANCE_LENGTHS, toks) && ValidTokens(toks, n)
    case Dynamic(litLens, distLens, codeLens, k, toks) =>
      GoodTrees(litLens, distLens, codeLens, k) && CodesAll(litLens, distLens, toks) && ValidTokens(toks, n)
  }

  /** The output after a block. */
  ghost function BlockOutput(b: Block, out: seq<byte>): seq<byte>
    requires GoodBlock(b, |out|)
  {
    match b
    case Stored(data) => out + data
    case Fixed(toks) => Expand(out, toks)
    case Dynamic(_, _, _, _, toks) => Expand(out, toks)
  }

  ghost function KindOf(b: Block): nat
  {
    match b
    case Stored(_) => 0
    case Fixed(_) => 1
    case Dynamic(_, _, _, _, _) => 2
  }

  /** The bits after the three header bits; `pos` is where they start. */
  ghost function PayloadBits(b: Block, n: nat, pos: nat): seq<bool>
    requires GoodBlock(b, n)
  {
    match b
    case Stored(data) =>
      Padding(pos) + ToBits(|data|, 16) + ToBits(0xffff - |data|, 16) + BytesToBits(data)
    case Fixed(toks) => BodyBits(FIXED_LITERAL_LENGTHS, FIXED_DISTANCE_LENGTHS, toks)
    case Dynamic(litLens, distLens, codeLens, k, toks) =>
      TreesBits(litLens, distLens, codeLens, k) + BodyBits(litLens, distLens, toks)
  }

  /** All bits of a block: the final flag, the kind in two bits, the rest. */
  ghost function BlockBits(b: Block, final: bool, n: nat, pos: nat): seq<bool>
    requires GoodBlock(b, n)
  {
    ToBits(2 * KindOf(b) + (if final then 1 else 0), 3) + PayloadBits(b, n, pos + 3)
  }

  // ----- reading blocks back -----

  lemma {:induction false} BytesReadBack(data: seq<byte>, bits: seq<bool>, pos: nat, n: nat)
    requires At(bits, pos, BytesToBits(data)) && n <= |data|
    ensures BytesAt(bits, pos, n) == data[..n]
  {
    hide At, BytesToBits, ToBits, FromBits;
    if n > 0 {
      BytesReadBack(data, bits, pos, n - 1);
      BytesToBitsAt(data, n - 1);
      AtPart(bits, pos, BytesToBits(data), 8 * (n - 1), 8 * n);
      OneByte(data[n - 1]);
      assert data[..n] == data[..n - 1] + [data[n - 1]];
    }
  }

  lemma OneByte(b: byte)
    ensures FromBits(ToBits(b, 8)) == b
  {
    assert Pow2(8) == 256;
    FromToBits(b, 8);
  }

  lemma Aligned(pos: nat)
    ensures (pos + 7) / 8 * 8 == pos + |Padding(pos)|
  {
    hide Padding;
    PaddingSize(pos);
    var q, r := pos / 8, pos % 8;
    assert pos == 8 * q + r;
  }

  lemma ReadsLengthFields(n: nat, bits: seq<bool>, pos: nat)
    requires n < 0x10000
    requires At(bits, pos, ToBits(n, 16)) && At(bits, pos + 16, ToBits(0xffff - n, 16))
    ensures ReadBits(bits, pos, 16) == Some((n, pos + 16))
    ensures ReadBits(bits, pos + 16, 16) == Some((0xffff - n, pos + 32))
  {
    hide ToBits, FromBits, Pow2;
    assert Pow2(16) == 65536 by { Pow2Values(); }
    ReadBack(bits, pos, n, 16);
    ReadBack(bits, pos + 16, 0xffff - n, 16);
  }

  lemma InflatesStored(data: seq<byte>, bits: seq<bool>, pos: nat, p: nat, out: seq<byte>)
    requires |data| < 0x10000 && pos <= p && p + 32 + 8 * |data| <= |bits|
    requires (pos + 7) / 8 * 8 == p
    requires ReadBits(bits, p, 16) == Some((|data|, p + 16))
    requires ReadBits(bits, p + 16, 16) == Some((0xffff - |data|, p + 32))
    requires BytesAt(bits, p + 32, |data|) == data
    ensures InflateStored(bits, pos, out) == Some((p + 32 + 8 * |data|, out + data))
  {
    hide ReadBits, BytesAt;
  }

  lemma ReadsStored(data: seq<byte>, pad: seq<bool>, len: seq<bool>, nlen: seq<bool>,
                    bits: seq<bool>, pos: nat, out: seq<byte>)
    requires |data| < 0x10000
    requires pad == Padding(pos) && len == ToBits(|data|, 16) && nlen == ToBits(0xffff - |data|, 16)
    requires At(bits, pos, pad + len + nlen + BytesToBits(data))
    ensures InflateStored(bits, pos, out) == Some((pos + |pad| + 32 + 8 * |data|, out + data))
  {
    hide *;
    var p := pos + |pad|;
    AtAppend4(bits, pos, pad, len, nlen, BytesToBits(data));
    ReadsLengthFields(|data|, bits, p);
    BytesReadBack(data, bits, p + 32, |data|);
    AtBound(bits, p + 32, BytesToBits(data));
    Aligned(pos);
    assert data[..|data|] == data;
    InflatesStored(data, bits, pos, p, out);
  }

  lemma ReadsHeader(kind: nat, final: bool, bits: seq<bool>, pos: nat)
    requires kind < 3
    requires At(bits, pos, ToBits(2 * kind + (if final then 1 else 0), 3))
    ensures ReadBits(bits, pos, 1) == Some((if final then 1 else 0, pos + 1))
    ensures ReadBits(bits, pos + 1, 2) == Some((kind, pos + 3))
  {
    var f := if final then 1 else 0;
    assert Pow2(1) == 2 && Pow2(2) == 4;
    SplitBits(2 * kind + f, 3, 1);
    assert Shr(2 * kind + f, 1) == kind && ToBits(2 * kind + f, 1) == ToBits(f, 1);
    AtAppend(bits, pos, ToBits(f, 1), ToBits(kind, 2));
    ReadBack(bits, pos, f, 1);
    ReadBack(bits, pos + 1, kind, 2);
  }

  lemma {:induction false} UsedRepeat(lens: seq<nat>, l: nat, n: nat, k: nat)
    requires 0 < l <= k
    ensures Used(lens + Repeat(l, n), k) == Used(lens, k) + n * Pow2(k - l)
  {
    if n == 0 {
      assert lens + Repeat(l, 0) == lens;
    } else {
      RepeatSnoc(l, n - 1);
      assert lens + Repeat(l, n) == lens + Repeat(l, n - 1) + [l];
      UsedRepeat(lens, l, n - 1, k);
      UsedSnoc(lens + Repeat(l, n - 1), l, k);
    }
  }

  lemma FixedUsed()
    ensures Used(FIXED_LITERAL_LENGTHS, MAX_BITS) == Pow2(MAX_BITS)
    ensures Used(FIXED_DISTANCE_LENGTHS, MAX_BITS) == Pow2(MAX_BITS)
  {
    hide Used, Repeat, Pow2;
    UsedNone(15);
    var r8, r9, r7, r8', r5 := Repeat(8, 144), Repeat(9, 112), Repeat(7, 24), Repeat(8, 8), Repeat(5, 32);
    assert [] + r8 == r8 && [] + r5 == r5;
    UsedRepeat([], 8, 144, 15);
    UsedRepeat(r8, 9, 112, 15);
    UsedRepeat(r8 + r9, 7, 24, 15);
    UsedRepeat(r8 + r9 + r7, 8, 8, 15);
    UsedRepeat([], 5, 32, 15);
    assert Pow2(6) == 64 && Pow2(7) == 128 && Pow2(8) == 256 && Pow2(10) == 1024 && Pow2(15) == 32768 by {
      SmallPowers();
      Pow2Values();
    }
  }

  lemma FixedDecodable()
    ensures Decodable(FIXED_LITERAL_LENGTHS) && Decodable(FIXED_DISTANCE_LENGTHS)
  {
    hide Used, Pow2;
    FixedUsed();
  }

  lemma ReadsDynamic(b: Block, bits: seq<bool>, pos: nat, out: seq<byte>)
    requires b.Dynamic? && GoodBlock(b, |out|)
    requires At(bits, pos, PayloadBits(b, |out|, pos))
    ensures var p := pos + |TreesBits(b.litLens, b.distLens, b.codeLens, b.k)|;
            && ReadTrees(bits, pos) == Some((b.litLens, b.distLens, p))
            && DecodeCodes(b.litLens, b.distLens, bits, p, out)
               == Some((pos + |PayloadBits(b, |out|, pos)|, BlockOutput(b, out)))
  {
    hide TreesBits, BodyBits, Complete, ReadTrees, DecodeCodes, Expand, CodesAll, ValidTokens;
    AtAppend(bits, pos, TreesBits(b.litLens, b.distLens, b.codeLens, b.k), BodyBits(b.litLens, b.distLens, b.toks));
    ReadsTrees(b.litLens, b.distLens, b.codeLens, b.k, bits, pos);
    CompleteDecodable(b.litLens);
    CompleteDecodable(b.distLens);
    DecodesBody(b.litLens, b.distLens, b.toks, bits, pos + |TreesBits(b.litLens, b.distLens, b.codeLens, b.k)|, out);
  }

  /** The decoder for a kind of block, started behind the block header, gives r. */
  ghost predicate PayloadGives(kind: nat, bits: seq<bool>, pos: nat, out: seq<byte>, r: (nat, seq<byte>))
  {
    && pos <= |bits| && pos <= r.0 <= |bits| && kind < 3
    && (kind == 0 ==> InflateStored(bits, pos, out) == Some(r))
    && (kind == 1 ==>
        DecodeCodes(FIXED_LITERAL_LENGTHS, FIXED_DISTANCE_LENGTHS, bits, pos, out) == Some(r))
    && (kind == 2 ==>
        var t := ReadTrees(bits, pos);
        t.Some? && DecodeCodes(t.value.0, t.value.1, bits, t.value.2, out) == Some(r))
  }

  lemma InflatesBlock(kind: nat, final: bool, bits: seq<bool>, pos: nat, out: seq<byte>, r: (nat, seq<byte>))
    requires PayloadGives(kind, bits, pos + 3, out, r)
    requires ReadBits(bits, pos, 1) == Some((if final then 1 else 0, pos + 1))
    requires ReadBits(bits, pos + 1, 2) == Some((kind, pos + 3))
    ensures InflateBlock(bits, pos, out) == Some((final, r.0, r.1))
  {
    hide ReadBits, InflateStored, DecodeCodes, ReadTrees, FIXED_LITERAL_LENGTHS, FIXED_DISTANCE_LENGTHS;
  }

  lemma StoredSize(b: Block, n: nat, pos: nat)
    requires b.Stored? && GoodBlock(b, n)
    ensures |PayloadBits(b, n, pos)| == |Padding(pos)| + 32 + 8 * |b.data|
  {
    hide ToBits, BytesToBits, Padding;
  }

  lemma ReadsPayload(b: Block, bits: seq<bool>, pos: nat, out: seq<byte>)
    requires GoodBlock(b, |out|)
    requires At(bits, pos, PayloadBits(b, |out|, pos))
    ensures PayloadGives(KindOf(b), bits, pos, out, (pos + |PayloadBits(b, |out|, pos)|, BlockOutput(b, out)))
  {
    hide At, ToBits, ReadTrees, DecodeCodes, Expand, InflateStored, CodesAll, ValidTokens, BodyBits, TreesBits, GoodTrees,
      Padding, BytesToBits, FIXED_LITERAL_LENGTHS, FIXED_DISTANCE_LENGTHS;
    if b.Stored? {
      StoredSize(b, |out|, pos);
      ReadsStored(b.data, Padding(pos), ToBits(|b.data|, 16), ToBits(0xffff - |b.data|, 16), bits, pos, out);
    } else if b.Fixed? {
      FixedDecodable();
      DecodesBody(FIXED_LITERAL_LENGTHS, FIXED_DISTANCE_LENGTHS, b.toks, bits, pos, out);
    } else {
      ReadsDynamic(b, bits, pos, out);
    }
  }

  /** Every block is read back as what it stands for, up to its last bit. */
  lemma ReadsBlock(b: Block, final: bool, bits: seq<bool>, pos: nat, out: seq<byte>)
    requires GoodBlock(b, |out|)
    requires At(bits, pos, BlockBits(b, final, |out|, pos))
    ensures InflateBlock(bits, pos, out)
         == Some((final, pos + |BlockBits(b, final, |out|, pos)|, BlockOutput(b, out)))
  {
    hide ToBits, InflateBlock, ReadBits, GoodBlock, PayloadBits, BlockOutput, PayloadGives;
    var h, p := ToBits(2 * KindOf(b) + (if final then 1 else 0), 3), PayloadBits(b, |out|, pos + 3);
    AtAppend(bits, pos, h, p);
    ReadsHeader(KindOf(b), final, bits, pos);
    ReadsPayload(b, bits, pos + 3, out);
    InflatesBlock(KindOf(b), final, bits, pos, out, (pos + 3 + |p|, BlockOutput(b, out)));
  }
}
