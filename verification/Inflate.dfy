/** A reference decoder for DEFLATE data, written from section 3.2 of RFC 1951.
    It is strict: incomplete or over-subscribed codes, lengths or distances that
    are not in the tables, and distances before the start are all refused. */
module Inflate {
  import opened Bits
  import opened PrefixCode

  // Section 3.2.5: the length codes 257..285 and the distance codes 0..29.
  const LENGTH_BASE: seq<nat> :=
    [3, 4, 5, 6, 7, 8, 9, 10, 11, 13, 15, 17, 19, 23, 27, 31, 35, 43, 51, 59,
     67, 83, 99, 115, 131, 163, 195, 227, 258]
  const LENGTH_EXTRA: seq<nat> :=
    [0, 0, 0, 0, 0, 0, 0, 0, 1, 1, 1, 1, 2, 2, 2, 2, 3, 3, 3, 3, 4, 4, 4, 4, 5, 5, 5, 5, 0]
  const DIST_BASE: seq<nat> :=
    [1, 2, 3, 4, 5, 7, 9, 13, 17, 25, 33, 49, 65, 97, 129, 193, 257, 385, 513, 769,
     1025, 1537, 2049, 3073, 4097, 6145, 8193, 12289, 16385, 24577]
  const DIST_EXTRA: seq<nat> :=
    [0, 0, 0, 0, 1, 1, 2, 2, 3, 3, 4, 4, 5, 5, 6, 6, 7, 7, 8, 8, 9, 9, 10, 10, 11, 11, 12, 12, 13, 13]

  function LengthBase(c: nat): (r: nat)
    requires c < 29
    ensures 3 <= r
  {
    LENGTH_BASE[c]
  }

  function LengthExtra(c: nat): (r: nat)
    requires c < 29
    ensures r <= 5
  {
    LENGTH_EXTRA[c]
  }

  function DistBase(c: nat): (r: nat)
    requires c < 30
    ensures 1 <= r
  {
    DIST_BASE[c]
  }

  function DistExtra(c: nat): (r: nat)
    requires c < 30
    ensures r <= 13
  {
    DIST_EXTRA[c]
  }

  // Section 3.2.7: the order in which code length code lengths are sent.
  const CODE_LENGTH_ORDER: seq<nat> :=
    [16, 17, 18, 0, 8, 7, 9, 6, 10, 5, 11, 4, 12, 3, 13, 2, 14, 1, 15]

  function Order(i: nat): (r: nat)
    requires i < 19
    ensures r < 19
  {
    CODE_LENGTH_ORDER[i]
  }

  const END_BLOCK := 256

  /** Copies `len` bytes from `dist` back, byte by byte, so that a copy may
      overlap its own output. */
  function CopyMatch(out: seq<byte>, len: nat, dist: nat): (r: seq<byte>)
    requires 0 < dist <= |out|
    ensures |r| == |out| + len
    decreases len
  {
    if len == 0 then out else CopyMatch(out + [out[|out| - dist]], len - 1, dist)
  }

  function ReadBits(bits: seq<bool>, pos: nat, n: nat): (r: Option<(nat, nat)>)
    ensures r.Some? ==> pos + n <= |bits| && r.value.1 == pos + n
  {
    if pos + n <= |bits| then Some((FromBits(bits[pos..pos + n]), pos + n)) else None
  }

  /** The extra bits and the distance of a match whose length symbol has been read. */
  function DecodeMatch(distLens: seq<nat>, bits: seq<bool>, pos: nat, sym: nat): (r: Option<(nat, nat, nat)>)
    requires pos <= |bits| && END_BLOCK < sym
    ensures r.Some? ==> pos < r.value.2 <= |bits| && r.value.1 > 0
  {
    if sym > 285 then None else
    var (le, p1) :- ReadBits(bits, pos, LengthExtra(sym - 257));
    var (d, p2) :- DecodeSymbol(distLens, bits, p1);
    if d > 29 then None else
    var (de, p3) :- ReadBits(bits, p2, DistExtra(d));
    Some((LengthBase(sym - 257) + le, DistBase(d) + de, p3))
  }

  /** Literals and matches up to and including the end-of-block symbol. */
  function DecodeCodes(litLens: seq<nat>, distLens: seq<nat>, bits: seq<bool>, pos: nat, out: seq<byte>)
    : (r: Option<(nat, seq<byte>)>)
    requires pos <= |bits|
    ensures r.Some? ==> pos < r.value.0 <= |bits|
    decreases |bits| - pos
  {
    var (sym, p) :- DecodeSymbol(litLens, bits, pos);
    if sym < 256 then DecodeCodes(litLens, distLens, bits, p, out + [sym])
    else if sym == END_BLOCK then Some((p, out))
    else
      var (len, dist, p2) :- DecodeMatch(distLens, bits, p, sym);
      if dist > |out| then None
      else DecodeCodes(litLens, distLens, bits, p2, CopyMatch(out, len, dist))
  }

  // ----- section 3.2.7: the code lengths of a dynamic block -----

  /** Reads n three-bit lengths into their places in the code length code. */
  function ReadCodeLengthCode(bits: seq<bool>, pos: nat, i: nat, n: nat, acc: seq<nat>)
    : (r: Option<(seq<nat>, nat)>)
    requires i <= n <= 19 && |acc| == 19
    ensures r.Some? ==> |r.value.0| == 19
    ensures r.Some? && pos <= |bits| ==> pos <= r.value.1 <= |bits|
    decreases n - i
  {
    if i == n then Some((acc, pos))
    else
      var (v, p) :- ReadBits(bits, pos, 3);
      ReadCodeLengthCode(bits, p, i + 1, n, acc[Order(i) := v])
  }

  function Repeat(v: nat, n: nat): (s: seq<nat>)
    ensures |s| == n && forall i :: 0 <= i < n ==> s[i] == v
  {
    seq(n, _ => v)
  }

  /** Reads code lengths until there are exactly n of them. */
  function ReadLengths(codeLens: seq<nat>, bits: seq<bool>, pos: nat, n: nat, acc: seq<nat>)
    : (r: Option<(seq<nat>, nat)>)
    requires pos <= |bits|
    ensures r.Some? ==> |r.value.0| == n && pos <= r.value.1 <= |bits|
    decreases |bits| - pos
  {
    if |acc| == n then Some((acc, pos))
    else if |acc| > n then None
    else
      var (sym, p) :- DecodeSymbol(codeLens, bits, pos);
      if sym < 16 then ReadLengths(codeLens, bits, p, n, acc + [sym])
      else if sym == 16 then
        if acc == [] then None else
        var (e, q) :- ReadBits(bits, p, 2);
        ReadLengths(codeLens, bits, q, n, acc + Repeat(acc[|acc| - 1], 3 + e))
      else if sym == 17 then
        var (e, q) :- ReadBits(bits, p, 3);
        ReadLengths(codeLens, bits, q, n, acc + Repeat(0, 3 + e))
      else if sym == 18 then
        var (e, q) :- ReadBits(bits, p, 7);
        ReadLengths(codeLens, bits, q, n, acc + Repeat(0, 11 + e))
      else None
  }

  /** The two lists, if they are those of complete codes that can end a block. */
  function TreesOf(lens: seq<nat>, nlit: nat, pos: nat): (r: Option<(seq<nat>, seq<nat>, nat)>)
    requires END_BLOCK < nlit <= |lens|
    ensures r.Some? ==> r.value.2 == pos
  {
    var litLens, distLens := lens[..nlit], lens[nlit..];
    if !Complete(litLens) || !Complete(distLens) || litLens[END_BLOCK] == 0 then None
    else Some((litLens, distLens, pos))
  }

  /** The literal/length and distance code lengths, and the position after them. */
  function ReadTrees(bits: seq<bool>, pos: nat): (r: Option<(seq<nat>, seq<nat>, nat)>)
    requires pos <= |bits|
    ensures r.Some? ==> pos <= r.value.2 <= |bits|
  {
    var (hlit, p1) :- ReadBits(bits, pos, 5);
    var (hdist, p2) :- ReadBits(bits, p1, 5);
    var (hclen, p3) :- ReadBits(bits, p2, 4);
    var nlit, ndist, ncode := hlit + 257, hdist + 1, hclen + 4;
    if nlit > 286 || ndist > 30 || ncode > 19 then None else
    var (codeLens, p4) :- ReadCodeLengthCode(bits, p3, 0, ncode, Repeat(0, 19));
    if !Complete(codeLens) then None else
    var (lens, p5) :- ReadLengths(codeLens, bits, p4, nlit + ndist, []);
    TreesOf(lens, nlit, p5)
  }

  // ----- section 3.2.6: the fixed codes -----

  const FIXED_LITERAL_LENGTHS: seq<nat> := Repeat(8, 144) + Repeat(9, 112) + Repeat(7, 24) + Repeat(8, 8)
  const FIXED_DISTANCE_LENGTHS: seq<nat> := Repeat(5, 32)

  // ----- sections 3.2.3 and 3.2.4: blocks -----

  function InflateStored(bits: seq<bool>, pos: nat, out: seq<byte>): (r: Option<(nat, seq<byte>)>)
    requires pos <= |bits|
    ensures r.Some? ==> pos <= r.value.0 <= |bits|
  {
    var aligned := (pos + 7) / 8 * 8;
    var (len, p1) :- ReadBits(bits, aligned, 16);
    var (nlen, p2) :- ReadBits(bits, p1, 16);
    if nlen != 0xffff - len || p2 + 8 * len > |bits| then None
    else Some((p2 + 8 * len, out + BytesAt(bits, p2, len)))
  }

  /** n whole bytes starting at a bit position. */
  function BytesAt(bits: seq<bool>, pos: nat, n: nat): (s: seq<byte>)
    requires pos + 8 * n <= |bits|
    ensures |s| == n
  {
    if n == 0 then []
    else
      var b := FromBits(bits[pos + 8 * (n - 1)..pos + 8 * n]);
      assert Pow2(8) == 256;
      BytesAt(bits, pos, n - 1) + [b]
  }

  /** One block: its final flag, the position after it, the extended output. */
  function InflateBlock(bits: seq<bool>, pos: nat, out: seq<byte>): (r: Option<(bool, nat, seq<byte>)>)
    requires pos <= |bits|
    ensures r.Some? ==> pos < r.value.1 <= |bits|
  {
    var (final, p1) :- ReadBits(bits, pos, 1);
    var (kind, p2) :- ReadBits(bits, p1, 2);
    var (p, out') :-
      if kind == 0 then InflateStored(bits, p2, out)
      else if kind == 1 then DecodeCodes(FIXED_LITERAL_LENGTHS, FIXED_DISTANCE_LENGTHS, bits, p2, out)
      else if kind == 2 then
        (var (litLens, distLens, p3) :- ReadTrees(bits, p2);
         DecodeCodes(litLens, distLens, bits, p3, out))
      else None;
    Some((final == 1, p, out'))
  }

  /** Blocks up to and including the one marked final. */
  function InflateBlocks(bits: seq<bool>, pos: nat, out: seq<byte>): (r: Option<(nat, seq<byte>)>)
    requires pos <= |bits|
    ensures r.Some? ==> pos < r.value.0 <= |bits|
    decreases |bits| - pos
  {
    var (final, p, out') :- InflateBlock(bits, pos, out);
    if final then Some((p, out')) else InflateBlocks(bits, p, out')
  }
}
