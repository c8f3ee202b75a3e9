/** Bytes that stand for given instructions of an LZO1X stream, for every length and
    distance: what the reading of a stream is checked against. */
module LzoEncoding {
  import opened Bits
  import opened PrefixCode
  import opened Inflate
  import opened Lzo

  /** Zero bytes, 255 each, and a last byte from 1 to 255. */
  function LengthBytes(rest: nat): (s: seq<byte>)
    requires rest > 0
    ensures s != []
  {
    if rest <= 255 then [rest] else [0] + LengthBytes(rest - 255)
  }

  /** A continued length: each zero byte counts 255, the first other byte ends it. */
  lemma {:induction false} ExtendedIs(s: seq<byte>, p: nat, t: nat, n: nat)
    requires p + n < |s| && (forall j :: p <= j < p + n ==> s[j] == 0) && s[p + n] != 0
    ensures Extended(s, p, t) == Some((t + 255 * n + s[p + n], p + n + 1))
    decreases n
  {
    if n > 0 {
      ExtendedIs(s, p + 1, t + 255, n - 1);
    }
  }

  /** If no such byte follows the stream is too short. */
  lemma {:induction false} ExtendedIsNot(s: seq<byte>, p: nat, t: nat)
    requires forall j :: p <= j < |s| ==> s[j] == 0
    ensures Extended(s, p, t) == None
    decreases |s| - p
  {
    if p < |s| {
      ExtendedIsNot(s, p + 1, t + 255);
    }
  }

  lemma {:induction false} ExtendedReads(a: seq<byte>, rest: nat, b: seq<byte>, t: nat)
    requires rest > 0
    ensures Extended(a + LengthBytes(rest) + b, |a|, t) == Some((t + rest, |a| + |LengthBytes(rest)|))
    decreases rest
  {
    var s := a + LengthBytes(rest) + b;
    assert s[|a|] == LengthBytes(rest)[0];
    if rest > 255 {
      assert s == (a + [0]) + LengthBytes(rest - 255) + b;
      ExtendedReads(a + [0], rest - 255, b, t + 255);
    }
  }

  /** The first byte's part of a length, up to `full`; 0 if it is continued. */
  function LowPart(n: nat, full: nat): nat
  {
    if n <= full then n else 0
  }

  function Continued(n: nat, full: nat): seq<byte>
  {
    if n <= full then [] else LengthBytes(n - full)
  }

  lemma LengthReads(a: seq<byte>, n: nat, full: nat, b: seq<byte>)
    requires n > 0
    ensures Length(a + Continued(n, full) + b, |a|, LowPart(n, full), full) == Some((n, |a| + |Continued(n, full)|))
  {
    if n > full {
      ExtendedReads(a, n - full, b, full);
    }
  }

  // ----- the instructions -----

  /** The head of a run of so many literals. */
  function RunHead(count: nat): seq<byte>
    requires count >= 4
  {
    [LowPart(count - 3, 15)] + Continued(count - 3, 15)
  }

  lemma RunReads(a: seq<byte>, count: nat, b: seq<byte>)
    requires count >= 4
    ensures Parse(a + RunHead(count) + b, |a|, 0) == Some(Run(|a + RunHead(count)|, count))
  {
    hide Extended, Length, Continued;
    var t: seq<byte>, c := [LowPart(count - 3, 15)], Continued(count - 3, 15);
    assert a + RunHead(count) + b == (a + t) + c + b;
    LengthReads(a + t, count - 3, 15, b);
  }

  /** A match in two bytes: the first has the low part of the distance and the tail. */
  function TwoByteMatch(t: nat, low: nat, high: nat, tail: nat): (s: seq<byte>)
    requires t + 4 * low + tail < 256 && high < 256
  {
    [t + 4 * low + tail, high]
  }

  /** A match of 3 to 8 bytes up to 0x800 back. */
  function NearBytes(len: nat, dist: nat, tail: nat): seq<byte>
    requires 3 <= len <= 8 && 1 <= dist <= 0x800 && tail < 4
  {
    TwoByteMatch(32 * (len - 1), (dist - 1) % 8, (dist - 1) / 8, tail)
  }

  lemma NearReads(a: seq<byte>, len: nat, dist: nat, tail: nat, st: nat, b: seq<byte>)
    requires 3 <= len <= 8 && 1 <= dist <= 0x800 && tail < 4
    ensures Parse(a + NearBytes(len, dist, tail) + b, |a|, st) == Some(Match(len, dist, |a| + 2, tail))
  {
    var s := a + NearBytes(len, dist, tail) + b;
    var t, r := 32 * (len - 1) + 4 * ((dist - 1) % 8) + tail, (dist - 1) % 8;
    assert s[|a|] == t && s[|a| + 1] == (dist - 1) / 8;
    assert t / 32 == len - 1 && t / 4 == 8 * (len - 1) + r;
    assert t / 4 % 8 == r && t % 4 == tail;
  }

  /** Three bytes, between 0x801 and 0xc00 back, behind a run of literals. */
  function AfterRunBytes(dist: nat, tail: nat): seq<byte>
    requires 0x800 < dist <= 0xc00 && tail < 4
  {
    TwoByteMatch(0, (dist - 0x801) % 4, (dist - 0x801) / 4, tail)
  }

  lemma AfterRunReads(a: seq<byte>, dist: nat, tail: nat, b: seq<byte>)
    requires 0x800 < dist <= 0xc00 && tail < 4
    ensures Parse(a + AfterRunBytes(dist, tail) + b, |a|, 4) == Some(Match(3, dist, |a| + 2, tail))
  {
    var s := a + AfterRunBytes(dist, tail) + b;
    assert s[|a|] == 4 * ((dist - 0x801) % 4) + tail && s[|a| + 1] == (dist - 0x801) / 4;
  }

  /** Two bytes, up to 0x400 back, behind one to three literals. */
  function AfterLitsBytes(dist: nat, tail: nat): seq<byte>
    requires 1 <= dist <= 0x400 && tail < 4
  {
    TwoByteMatch(0, (dist - 1) % 4, (dist - 1) / 4, tail)
  }

  lemma AfterLitsReads(a: seq<byte>, dist: nat, tail: nat, st: nat, b: seq<byte>)
    requires 1 <= dist <= 0x400 && tail < 4 && 1 <= st <= 3
    ensures Parse(a + AfterLitsBytes(dist, tail) + b, |a|, st) == Some(Match(2, dist, |a| + 2, tail))
  {
    var s := a + AfterLitsBytes(dist, tail) + b;
    assert s[|a|] == 4 * ((dist - 1) % 4) + tail && s[|a| + 1] == (dist - 1) / 4;
  }

  /** The distance and the literals behind, in two bytes. */
  function DistanceBytes(d: nat, tail: nat): seq<byte>
    requires d < 0x4000 && tail < 4
  {
    [4 * (d % 64) + tail, d / 64]
  }

  lemma DistanceReads(a: seq<byte>, d: nat, tail: nat, b: seq<byte>, len: nat, from: nat)
    requires d < 0x4000 && tail < 4
    ensures |DistanceBytes(d, tail)| == 2
    ensures FarMatch(a + DistanceBytes(d, tail) + b, |a|, len, from) == Some(Match(len, from + d, |a| + 2, tail))
    ensures var s := a + DistanceBytes(d, tail) + b; ByteAt(s, |a|) / 4 + 64 * ByteAt(s, |a| + 1) == d
  {
    var s := a + DistanceBytes(d, tail) + b;
    assert s[|a|] == 4 * (d % 64) + tail && s[|a| + 1] == d / 64;
  }

  /** A first byte, a continued length and a distance. */
  function LongMatch(t: nat, len: nat, full: nat, d: nat, tail: nat): seq<byte>
    requires t + full < 256 && len >= 3 && d < 0x4000 && tail < 4
  {
    [t + LowPart(len - 2, full)] + Continued(len - 2, full) + DistanceBytes(d, tail)
  }

  lemma LongReads(a: seq<byte>, t: nat, len: nat, full: nat, d: nat, tail: nat, b: seq<byte>, from: nat)
    requires t + full < 256 && len >= 3 && d < 0x4000 && tail < 4
    ensures var s, q := a + LongMatch(t, len, full, d, tail) + b, |a + LongMatch(t, len, full, d, tail)| - 2;
            && |a| < q == |s| - |b| - 2 && ByteAt(s, |a|) == t + LowPart(len - 2, full)
            && Length(s, |a| + 1, LowPart(len - 2, full), full) == Some((len - 2, q))
            && FarMatch(s, q, len, from) == Some(Match(len, from + d, q + 2, tail))
            && ByteAt(s, q) / 4 + 64 * ByteAt(s, q + 1) == d
  {
    hide Extended, Length, FarMatch, DistanceBytes, LengthBytes, Continued;
    var x: seq<byte>, c, e := [t + LowPart(len - 2, full)], Continued(len - 2, full), DistanceBytes(d, tail);
    var s := a + LongMatch(t, len, full, d, tail) + b;
    assert s == (a + x) + c + (e + b) && s == (a + x + c) + e + b;
    LengthReads(a + x, len - 2, full, e + b);
    DistanceReads(a + x + c, d, tail, b, len, from);
  }

  /** A match of any length up to 0x4000 back. */
  function MiddleBytes(len: nat, dist: nat, tail: nat): seq<byte>
    requires len >= 3 && 1 <= dist <= 0x4000 && tail < 4
  {
    LongMatch(32, len, 31, dist - 1, tail)
  }

  lemma MiddleReads(a: seq<byte>, len: nat, dist: nat, tail: nat, st: nat, b: seq<byte>)
    requires len >= 3 && 1 <= dist <= 0x4000 && tail < 4
    ensures Parse(a + MiddleBytes(len, dist, tail) + b, |a|, st)
         == Some(Match(len, dist, |a + MiddleBytes(len, dist, tail)|, tail))
  {
    hide Length, FarMatch, LongMatch;
    LongReads(a, 32, len, 31, dist - 1, tail, b, 1);
  }

  /** A match of any length, more than 0x4000 and less than 0xc000 back. */
  function FarthestBytes(len: nat, dist: nat, tail: nat): seq<byte>
    requires len >= 3 && 0x4000 < dist < 0xc000 && tail < 4
  {
    LongMatch(16 + 8 * ((dist - 0x4000) / 0x4000), len, 7, (dist - 0x4000) % 0x4000, tail)
  }

  lemma FarthestReads(a: seq<byte>, len: nat, dist: nat, tail: nat, st: nat, b: seq<byte>)
    requires len >= 3 && 0x4000 < dist < 0xc000 && tail < 4
    ensures Parse(a + FarthestBytes(len, dist, tail) + b, |a|, st)
         == Some(Match(len, dist, |a + FarthestBytes(len, dist, tail)|, tail))
  {
    hide Length, FarMatch, LongMatch;
    var high, low := (dist - 0x4000) / 0x4000, (dist - 0x4000) % 0x4000;
    LongReads(a, 16 + 8 * high, len, 7, low, tail, b, 0x4000 * high + 0x4000);
    var t := 16 + 8 * high + LowPart(len - 2, 7);
    assert t % 8 == LowPart(len - 2, 7) && t / 8 % 2 == high;
  }

  const EndBytes: seq<byte> := [17, 0, 0]

  lemma EndReads(a: seq<byte>, st: nat, b: seq<byte>)
    ensures Parse(a + EndBytes + b, |a|, st) == Some(End(|a| + 3))
  {
    var s := a + EndBytes + b;
    assert s[|a|] == 17 && s[|a| + 1] == 0 && s[|a| + 2] == 0;
  }

  // ----- streams -----

  /** What a stream is made of: runs of literals, and matches with up to three. */
  datatype Piece = Literals(data: seq<byte>) | Copied(len: nat, dist: nat, data: seq<byte>)

  /** The piece can follow in this state, behind this output. */
  predicate Fits(x: Piece, st: nat, out: seq<byte>)
  {
    match x
    case Literals(data) => st == 0 && |data| >= 4
    case Copied(len, dist, data) =>
      && |data| < 4 && 1 <= dist <= |out| && dist < 0xc000
      && (len >= 3 || (len == 2 && 1 <= st <= 3 && dist <= 0x400))
  }

  /** The shortest bytes for it. */
  function PieceBytes(x: Piece, st: nat, out: seq<byte>): seq<byte>
    requires Fits(x, st, out)
  {
    match x
    case Literals(data) => RunHead(|data|)
    case Copied(len, dist, data) =>
      if len == 2 then AfterLitsBytes(dist, |data|)
      else if len <= 8 && dist <= 0x800 then NearBytes(len, dist, |data|)
      else if len == 3 && st == 4 && dist <= 0xc00 then AfterRunBytes(dist, |data|)
      else if dist <= 0x4000 then MiddleBytes(len, dist, |data|)
      else FarthestBytes(len, dist, |data|)
  }

  function StateAfter(x: Piece): nat
  {
    if x.Literals? then 4 else |x.data|
  }

  function OutputAfter(x: Piece, out: seq<byte>): seq<byte>
    requires x.Copied? ==> 1 <= x.dist <= |out|
  {
    if x.Literals? then out + x.data else CopyMatch(out, x.len, x.dist) + x.data
  }

  /** Every piece can follow those before it. */
  predicate AllFit(xs: seq<Piece>, st: nat, out: seq<byte>)
  {
    xs == [] || (Fits(xs[0], st, out) && AllFit(xs[1..], StateAfter(xs[0]), OutputAfter(xs[0], out)))
  }

  function Written(xs: seq<Piece>, st: nat, out: seq<byte>): seq<byte>
    requires AllFit(xs, st, out)
  {
    if xs == [] then EndBytes
    else PieceBytes(xs[0], st, out) + xs[0].data + Written(xs[1..], StateAfter(xs[0]), OutputAfter(xs[0], out))
  }

  function Meant(xs: seq<Piece>, st: nat, out: seq<byte>): seq<byte>
    requires AllFit(xs, st, out)
  {
    if xs == [] then out else Meant(xs[1..], StateAfter(xs[0]), OutputAfter(xs[0], out))
  }

  lemma PieceReads(a: seq<byte>, x: Piece, st: nat, out: seq<byte>, b: seq<byte>)
    requires Fits(x, st, out)
    ensures var i := Parse(a + PieceBytes(x, st, out) + b, |a|, st);
            i == Some(if x.Literals? then Run(|a + PieceBytes(x, st, out)|, |x.data|)
                      else Match(x.len, x.dist, |a + PieceBytes(x, st, out)|, |x.data|))
  {
    hide Parse, RunHead, NearBytes, AfterRunBytes, AfterLitsBytes, MiddleBytes, FarthestBytes;
    match x
    case Literals(data) => RunReads(a, |data|, b);
    case Copied(len, dist, data) =>
      if len == 2 {
        AfterLitsReads(a, dist, |data|, st, b);
        SizeOfTwo(dist, |data|, 2, 2);
      } else if len <= 8 && dist <= 0x800 {
        NearReads(a, len, dist, |data|, st, b);
        SizeOfTwo(dist, |data|, 8, len);
      } else if len == 3 && st == 4 && dist <= 0xc00 {
        AfterRunReads(a, dist, |data|, b);
        SizeOfTwo(dist, |data|, 4, 3);
      } else if dist <= 0x4000 {
        MiddleReads(a, len, dist, |data|, st, b);
      } else {
        FarthestReads(a, len, dist, |data|, st, b);
      }
  }

  lemma SizeOfTwo(dist: nat, tail: nat, kind: nat, len: nat)
    requires tail < 4
    ensures kind == 2 && 1 <= dist <= 0x400 ==> |AfterLitsBytes(dist, tail)| == 2
    ensures kind == 8 && 1 <= dist <= 0x800 && 3 <= len <= 8 ==> |NearBytes(len, dist, tail)| == 2
    ensures kind == 4 && 0x800 < dist <= 0xc00 ==> |AfterRunBytes(dist, tail)| == 2
  {
  }

  /** Reading a piece brings the decoder behind it. */
  lemma PieceDecodes(s: seq<byte>, p: nat, q: nat, x: Piece, st: nat, out: seq<byte>)
    requires p < q && q + |x.data| <= |s| && s[q..q + |x.data|] == x.data && (x.Copied? ==> 1 <= x.dist <= |out|)
    requires Parse(s, p, st) == Some(if x.Literals? then Run(q, |x.data|) else Match(x.len, x.dist, q, |x.data|))
    ensures DecodeFrom(s, p, st, out) == DecodeFrom(s, q + |x.data|, StateAfter(x), OutputAfter(x, out))
  {
    hide Parse, CopyMatch;
  }

  /** Whatever pieces a stream is written from, it is decoded to what they mean, up to
      its end. */
  lemma {:induction false} WrittenDecodes(a: seq<byte>, xs: seq<Piece>, st: nat, out: seq<byte>)
    requires AllFit(xs, st, out)
    ensures var s := a + Written(xs, st, out); DecodeFrom(s, |a|, st, out) == Some((Meant(xs, st, out), |s|))
    decreases |xs|
  {
    hide Parse, PieceBytes, OutputAfter, StateAfter, Fits, DecodeFrom, Written, Meant, AllFit;
    if xs == [] {
      EndDecodes(a, st, out);
    } else {
      FirstPiece(xs, st, out);
      var x := xs[0];
      var h, rest := PieceBytes(x, st, out), Written(xs[1..], StateAfter(x), OutputAfter(x, out));
      PieceReads(a, x, st, out, x.data + rest);
      Around(a, h, x.data, rest);
      PieceDecodes(a + h + (x.data + rest), |a|, |a + h|, x, st, out);
      WrittenDecodes(a + h + x.data, xs[1..], StateAfter(x), OutputAfter(x, out));
    }
  }

  lemma EndDecodes(a: seq<byte>, st: nat, out: seq<byte>)
    ensures var s := a + Written([], st, out); DecodeFrom(s, |a|, st, out) == Some((Meant([], st, out), |s|))
  {
    hide Parse;
    EndReads(a, st, []);
    assert a + EndBytes + [] == a + Written([], st, out);
  }

  lemma FirstPiece(xs: seq<Piece>, st: nat, out: seq<byte>)
    requires xs != [] && AllFit(xs, st, out)
    ensures var x := xs[0];
            && Fits(x, st, out) && (x.Copied? ==> 1 <= x.dist <= |out|) && PieceBytes(x, st, out) != []
            && AllFit(xs[1..], StateAfter(x), OutputAfter(x, out))
            && Written(xs, st, out) == PieceBytes(x, st, out) + x.data + Written(xs[1..], StateAfter(x), OutputAfter(x, out))
            && Meant(xs, st, out) == Meant(xs[1..], StateAfter(x), OutputAfter(x, out))
  {
    hide PieceBytes, OutputAfter, StateAfter, Fits;
    FitsDistance(xs[0], st, out);
  }

  lemma Around(a: seq<byte>, h: seq<byte>, d: seq<byte>, b: seq<byte>)
    ensures a + (h + d + b) == a + h + (d + b) == (a + h + d) + b
    ensures (a + h + (d + b))[|a + h|..|a + h| + |d|] == d
  {
  }

  lemma FitsDistance(x: Piece, st: nat, out: seq<byte>)
    requires Fits(x, st, out)
    ensures (x.Copied? ==> 1 <= x.dist <= |out|) && PieceBytes(x, st, out) != []
  {
  }

  /** So any bytes, four at least, are what some stream is decoded to. */
  lemma LiteralStream(data: seq<byte>)
    requires |data| >= 4
    ensures Decode(RunHead(|data|) + data + EndBytes) == Some((data, |RunHead(|data|) + data + EndBytes|))
  {
    hide DecodeFrom, Parse;
    var xs := [Literals(data)];
    assert xs[1..] == [] && AllFit(xs, 0, []);
    WrittenDecodes([], xs, 0, []);
    var s := RunHead(|data|) + data + EndBytes;
    assert Written(xs, 0, []) == s && [] + s == s && [] + data == data;
    assert Meant(xs, 0, []) == data;
    assert s[0] == RunHead(|data|)[0] <= 15;
  }
}
