/** The LZO1X stream format: instructions of one or more bytes, each either a run
    of literals or a match with up to three literals behind it. What an
    instruction below 16 means depends on how many literals came before it. */
module Lzo {
  import opened Bits
  import opened PrefixCode
  import opened Inflate

  /** An instruction: literals follow at `next`, or the stream ends there. */
  datatype Instr =
    | Run(next: nat, count: nat)
    | Match(len: nat, dist: nat, next: nat, tail: nat)
    | End(next: nat)

  /** A length continued in further bytes: every 0 stands for 255 more. */
  function Extended(s: seq<byte>, p: nat, t: nat): (r: Option<(nat, nat)>)
    ensures r.Some? ==> t < r.value.0 && p < r.value.1 <= |s|
    decreases |s| - p
  {
    if p >= |s| then None
    else if s[p] == 0 then Extended(s, p + 1, t + 255)
    else Some((t + s[p], p + 1))
  }

  /** A length of some bits, or a longer one if these are 0. */
  function Length(s: seq<byte>, p: nat, low: nat, full: nat): (r: Option<(nat, nat)>)
    requires p <= |s|
    ensures r.Some? ==> 0 < r.value.0 && p <= r.value.1 <= |s|
  {
    if low != 0 then Some((low, p)) else Extended(s, p, full)
  }

  function ByteAt(s: seq<byte>, p: nat): nat
    requires p < |s|
  {
    s[p]
  }

  /** A match whose last two bytes are at p: a distance from d on, and the tail. */
  function FarMatch(s: seq<byte>, p: nat, len: nat, d: nat): (r: Option<Instr>)
    ensures r.Some? ==> r.value.Match? && r.value.next == p + 2 <= |s| && r.value.tail < 4 && ByteAt(s, p) % 4 == r.value.tail
  {
    if p + 2 > |s| then None
    else Some(Match(len, d + ByteAt(s, p) / 4 + 64 * ByteAt(s, p + 1), p + 2, ByteAt(s, p) % 4))
  }

  /** A match of two bytes altogether; the second counts `unit` each. */
  function NearMatch(s: seq<byte>, p: nat, len: nat, d: nat, unit: nat): (r: Option<Instr>)
    ensures r.Some? ==> r.value.Match? && r.value.next == p + 2 <= |s| && r.value.tail < 4 && ByteAt(s, p) % 4 == r.value.tail
  {
    if p + 2 > |s| then None else Some(Match(len, d + unit * ByteAt(s, p + 1), p + 2, ByteAt(s, p) % 4))
  }

  /** A match up to 0x4000 back. */
  function MiddleMatch(s: seq<byte>, p: nat): (r: Option<Instr>)
    requires p < |s|
    ensures r.Some? ==> r.value.Match? && p + 2 < r.value.next <= |s| && r.value.tail < 4
    ensures r.Some? ==> ByteAt(s, r.value.next - 2) % 4 == r.value.tail
  {
    var (n, q) :- Length(s, p + 1, s[p] % 32, 31);
    FarMatch(s, q, n + 2, 1)
  }

  /** A match further back, or the end of the stream. */
  function FarthestMatch(s: seq<byte>, p: nat): (r: Option<Instr>)
    requires p < |s|
    ensures r.Some? ==> !r.value.Run? && p + 2 < r.value.next <= |s|
    ensures r.Some? && r.value.Match? ==> r.value.tail < 4 && ByteAt(s, r.value.next - 2) % 4 == r.value.tail
  {
    var (n, q) :- Length(s, p + 1, s[p] % 8, 7);
    var d := 0x4000 * (ByteAt(s, p) / 8 % 2);
    if q + 2 <= |s| && d + ByteAt(s, q) / 4 + 64 * ByteAt(s, q + 1) == 0 then Some(End(q + 2))
    else FarMatch(s, q, n + 2, d + 0x4000)
  }

  function LiteralRun(s: seq<byte>, p: nat): (r: Option<Instr>)
    requires p < |s|
    ensures r.Some? ==> r.value.Run? && p < r.value.next <= |s| && r.value.count >= 4
  {
    var (n, q) :- Length(s, p + 1, s[p], 15);
    Some(Run(q, n + 3))
  }

  /** The instruction at p; `st` is 0 after a match without literals, 1 to 3 after
      so many literals, and 4 after a run of literals. */
  function Parse(s: seq<byte>, p: nat, st: nat): (r: Option<Instr>)
    ensures r.Some? ==> p < r.value.next <= |s|
    ensures r.Some? && r.value.Match? ==> r.value.tail < 4 && p + 2 <= r.value.next && ByteAt(s, r.value.next - 2) % 4 == r.value.tail
    ensures r.Some? && r.value.Run? ==> r.value.count >= 4 && st == 0
  {
    if p >= |s| then None else
    var t := ByteAt(s, p);
    if t >= 64 then NearMatch(s, p, t / 32 + 1, 1 + t / 4 % 8, 8)
    else if t >= 32 then MiddleMatch(s, p)
    else if t >= 16 then FarthestMatch(s, p)
    else if st == 0 then LiteralRun(s, p)
    else if st == 4 then NearMatch(s, p, 3, 1 + 0x800 + t / 4, 4)
    else NearMatch(s, p, 2, 1 + t / 4, 4)
  }

  /** What is decoded from p on: all output and where the stream ends. */
  function DecodeFrom(s: seq<byte>, p: nat, st: nat, out: seq<byte>): (r: Option<(seq<byte>, nat)>)
    decreases |s| - p
  {
    var i :- Parse(s, p, st);
    match i
    case End(next) => Some((out, next))
    case Run(next, count) =>
      if next + count > |s| then None
      else DecodeFrom(s, next + count, 4, out + s[next..next + count])
    case Match(len, dist, next, tail) =>
      if dist == 0 || dist > |out| || next + tail > |s| then None
      else DecodeFrom(s, next + tail, tail, CopyMatch(out, len, dist) + s[next..next + tail])
  }

  /** A first byte above 17 stands for literals at the very start. */
  function Decode(s: seq<byte>): Option<(seq<byte>, nat)>
  {
    if s == [] then None
    else if s[0] > 17 then
      var t := s[0] - 17;
      if 1 + t > |s| then None
      else DecodeFrom(s, 1 + t, if t < 4 then t else 4, s[1..1 + t])
    else DecodeFrom(s, 0, 0, [])
  }

  /** Decoding only ever appends. */
  lemma {:induction false} DecodeGrows(s: seq<byte>, p: nat, st: nat, out: seq<byte>)
    requires DecodeFrom(s, p, st, out).Some?
    ensures out <= DecodeFrom(s, p, st, out).value.0
    decreases |s| - p
  {
    hide Parse, CopyMatch;
    var i := Parse(s, p, st).value;
    match i
    case End(next) =>
    case Run(next, count) =>
      DecodeGrows(s, next + count, 4, out + s[next..next + count]);
    case Match(len, dist, next, tail) =>
      CopyExtends(out, len, dist);
      DecodeGrows(s, next + tail, tail, CopyMatch(out, len, dist) + s[next..next + tail]);
  }

  lemma {:induction false} CopyExtends(out: seq<byte>, len: nat, dist: nat)
    requires 0 < dist <= |out|
    ensures out <= CopyMatch(out, len, dist)
    decreases len
  {
    if len > 0 {
      CopyExtends(out + [out[|out| - dist]], len - 1, dist);
    }
  }

  // ----- an instruction depends on its own bytes only -----

  lemma {:induction false} ExtendedLocal(s: seq<byte>, s': seq<byte>, p: nat, t: nat, next: nat)
    requires Extended(s, p, t).Some? && Extended(s, p, t).value.1 <= next <= |s|
    requires next <= |s'| && forall i :: p <= i < next ==> s'[i] == s[i]
    ensures Extended(s', p, t) == Extended(s, p, t)
    decreases |s| - p
  {
    if s[p] == 0 {
      ExtendedLocal(s, s', p + 1, t + 255, next);
    }
  }

  lemma LengthLocal(s: seq<byte>, s': seq<byte>, p: nat, low: nat, full: nat, next: nat)
    requires p <= |s| && p <= |s'| && Length(s, p, low, full).Some? && Length(s, p, low, full).value.1 <= next <= |s|
    requires next <= |s'| && forall i :: p <= i < next ==> s'[i] == s[i]
    ensures Length(s', p, low, full) == Length(s, p, low, full)
  {
    if low == 0 {
      ExtendedLocal(s, s', p, full, next);
    }
  }

  lemma ParseLocal(s: seq<byte>, s': seq<byte>, p: nat, st: nat)
    requires Parse(s, p, st).Some? && Parse(s, p, st).value.next <= |s'|
    requires forall i :: p <= i < Parse(s, p, st).value.next ==> s'[i] == s[i]
    ensures Parse(s', p, st) == Parse(s, p, st)
  {
    var t, next := s[p], Parse(s, p, st).value.next;
    hide MiddleMatch, FarthestMatch, LiteralRun;
    assert s'[p] == s[p];
    if t >= 64 {
    } else if t >= 32 {
      MiddleLocal(s, s', p);
    } else if t >= 16 {
      FarthestLocal(s, s', p);
    } else if st == 0 {
      RunLocal(s, s', p);
    }
  }

  lemma MiddleLocal(s: seq<byte>, s': seq<byte>, p: nat)
    requires p < |s| && MiddleMatch(s, p).Some? && MiddleMatch(s, p).value.next <= |s'|
    requires forall i :: p <= i < MiddleMatch(s, p).value.next ==> s'[i] == s[i]
    ensures MiddleMatch(s', p) == MiddleMatch(s, p)
  {
    LengthLocal(s, s', p + 1, s[p] % 32, 31, MiddleMatch(s, p).value.next);
    hide Length;
  }

  lemma FarthestLocal(s: seq<byte>, s': seq<byte>, p: nat)
    requires p < |s| && FarthestMatch(s, p).Some? && FarthestMatch(s, p).value.next <= |s'|
    requires forall i :: p <= i < FarthestMatch(s, p).value.next ==> s'[i] == s[i]
    ensures FarthestMatch(s', p) == FarthestMatch(s, p)
  {
    LengthLocal(s, s', p + 1, s[p] % 8, 7, FarthestMatch(s, p).value.next);
    hide Length;
  }

  lemma RunLocal(s: seq<byte>, s': seq<byte>, p: nat)
    requires p < |s| && LiteralRun(s, p).Some? && LiteralRun(s, p).value.next <= |s'|
    requires forall i :: p <= i < LiteralRun(s, p).value.next ==> s'[i] == s[i]
    ensures LiteralRun(s', p) == LiteralRun(s, p)
  {
    LengthLocal(s, s', p + 1, s[p], 15, LiteralRun(s, p).value.next);
    hide Length;
  }

  /** The tail of a match can be changed by itself. */
  ghost predicate Retailed(s: seq<byte>, s': seq<byte>, p: nat, q: nat, tail: nat)
  {
    && p <= q && q + 2 <= |s| && q + 2 <= |s'| && tail < 4
    && ByteAt(s', q) == ByteAt(s, q) / 4 * 4 + tail
    && forall i :: p <= i < q + 2 && i != q ==> s'[i] == s[i]
  }

  lemma ParseRetailed(s: seq<byte>, s': seq<byte>, p: nat, st: nat, tail: nat)
    requires Parse(s, p, st).Some? && Parse(s, p, st).value.Match?
    requires Retailed(s, s', p, Parse(s, p, st).value.next - 2, tail)
    ensures Parse(s', p, st) == Some(Parse(s, p, st).value.(tail := tail))
  {
    var t := ByteAt(s, p);
    hide MiddleMatch, FarthestMatch, LiteralRun;
    if t >= 64 {
      SameFields(t, ByteAt(s', p), tail);
    } else if t >= 32 {
      MiddleRetailed(s, s', p, tail);
    } else if t >= 16 {
      FarthestRetailed(s, s', p, tail);
    } else {
      SameFields(t, ByteAt(s', p), tail);
    }
  }

  lemma SameFields(t: nat, t': nat, tail: nat)
    requires t' == t / 4 * 4 + tail && tail < 4
    ensures t' / 4 == t / 4 && t' % 4 == tail && t' / 32 == t / 32
    ensures t >= 64 <==> t' >= 64
    ensures t >= 16 <==> t' >= 16
  {
    var q, r := t / 4, t % 4;
    assert t == 4 * q + r && t' == 4 * q + tail;
    FourTimes(q, r);
    FourTimes(q, tail);
  }

  lemma FourTimes(q: nat, r: nat)
    requires r < 4
    ensures (4 * q + r) / 4 == q && (4 * q + r) % 4 == r && (4 * q + r) / 32 == q / 8
  {
  }

  lemma MiddleRetailed(s: seq<byte>, s': seq<byte>, p: nat, tail: nat)
    requires p < |s| && MiddleMatch(s, p).Some? && Retailed(s, s', p, MiddleMatch(s, p).value.next - 2, tail)
    ensures MiddleMatch(s', p) == Some(MiddleMatch(s, p).value.(tail := tail))
  {
    var q := MiddleMatch(s, p).value.next - 2;
    SameFields(ByteAt(s, q), ByteAt(s', q), tail);
    LengthLocal(s, s', p + 1, s[p] % 32, 31, q);
    hide Length;
  }

  lemma FarthestRetailed(s: seq<byte>, s': seq<byte>, p: nat, tail: nat)
    requires p < |s| && FarthestMatch(s, p).Some? && FarthestMatch(s, p).value.Match?
    requires Retailed(s, s', p, FarthestMatch(s, p).value.next - 2, tail)
    ensures FarthestMatch(s', p) == Some(FarthestMatch(s, p).value.(tail := tail))
  {
    var q := FarthestMatch(s, p).value.next - 2;
    SameFields(ByteAt(s, q), ByteAt(s', q), tail);
    LengthLocal(s, s', p + 1, s[p] % 8, 7, q);
    hide Length;
  }
}
