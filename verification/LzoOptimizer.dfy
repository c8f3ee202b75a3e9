/** `lzo1x_optimize`: decodes a stream and rewrites it in place while doing so.
    Between instructions, `st` says where the original's jumps lead: 0 to the head
    of its outer loop, 1 to 3 behind `match_next`, 4 behind a run of literals. */
module LzoOptimizer {
  import opened Bits
  import opened PrefixCode
  import opened Inflate
  import opened Lzo
  import opened LzoRewrites
  import opened LzoDecisions

  datatype Status = Ok | InputNotConsumed | InputOverrun | EofNotFound

  /** What the next instruction does to the output, when decoding succeeds. */
  lemma DecodesMatch(s: seq<byte>, p: nat, st: nat, out: seq<byte>, i: Instr)
    requires DecodeFrom(s, p, st, out).Some? && Parse(s, p, st) == Some(i) && i.Match?
    ensures 0 < i.dist <= |out| && i.next + i.tail <= |s|
    ensures var out' := CopyMatch(out, i.len, i.dist) + s[i.next..i.next + i.tail];
            && DecodeFrom(s, i.next + i.tail, i.tail, out') == DecodeFrom(s, p, st, out)
            && |out'| <= |DecodeFrom(s, p, st, out).value.0|
  {
    hide Parse, CopyMatch;
    DecodeGrows(s, i.next + i.tail, i.tail, CopyMatch(out, i.len, i.dist) + s[i.next..i.next + i.tail]);
  }

  lemma DecodesRun(s: seq<byte>, p: nat, out: seq<byte>, i: Instr)
    requires DecodeFrom(s, p, 0, out).Some? && Parse(s, p, 0) == Some(i) && i.Run?
    ensures i.next + i.count <= |s|
    ensures var out' := out + s[i.next..i.next + i.count];
            && DecodeFrom(s, i.next + i.count, 4, out') == DecodeFrom(s, p, 0, out)
            && |out'| <= |DecodeFrom(s, p, 0, out).value.0|
  {
    hide Parse;
    DecodeGrows(s, i.next + i.count, 4, out + s[i.next..i.next + i.count]);
  }

  lemma DecodesSomething(s: seq<byte>, p: nat, st: nat, out: seq<byte>)
    requires DecodeFrom(s, p, st, out).Some?
    ensures p < |s| && Parse(s, p, st).Some? && |out| <= |DecodeFrom(s, p, st, out).value.0|
    ensures Parse(s, p, st).value.End? ==> DecodeFrom(s, p, st, out) == Some((out, Parse(s, p, st).value.next))
  {
    DecodeGrows(s, p, st, out);
    hide Parse;
  }

  /** From 16 on an instruction means the same in every state. */
  lemma ParseHigh(s: seq<byte>, p: nat, a: nat, b: nat)
    requires p < |s| && s[p] >= 16
    ensures Parse(s, p, a) == Parse(s, p, b)
  {
    hide MiddleMatch, FarthestMatch, LiteralRun, NearMatch;
  }

  lemma EndsHere(s: seq<byte>, p: nat, st: nat, out: seq<byte>, next: nat)
    requires p < |s| && Reaches(s[..p], st, out) && s == s[..p] + s[p..] && (p == 0 ==> s[0] <= 17)
    requires Parse(s, p, st) == Some(End(next))
    ensures Decode(s) == Some((out, next))
  {
    hide Parse, Decode;
    var more := s[p..];
    assert more != [] && more[0] == s[p];
    assert Decode(s[..p] + more) == DecodeFrom(s[..p] + more, p, st, out);
  }

  /** The fields of an instruction of 16 or above. */
  lemma ParseFields(s: seq<byte>, p: nat, i: Instr)
    requires p < |s| && s[p] >= 16 && Parse(s, p, 0) == Some(i)
    ensures ByteAt(s, p) >= 64 ==> p + 2 <= |s|
    ensures ByteAt(s, p) >= 64 ==>
      i == Match(ByteAt(s, p) / 32 + 1, 1 + ByteAt(s, p) / 4 % 8 + 8 * ByteAt(s, p + 1), p + 2, ByteAt(s, p) % 4)
    ensures ByteAt(s, p) < 64 ==> Fields(s, p, i, Length(s, p + 1, if s[p] >= 32 then s[p] % 32 else s[p] % 8, if s[p] >= 32 then 31 else 7))
  {
    hide Length;
  }

  /** The fields behind the length, when it ends at l.1. */
  ghost predicate Fields(s: seq<byte>, p: nat, i: Instr, l: Option<(nat, nat)>)
    requires p < |s|
  {
    && l.Some? && l.value.1 + 2 <= |s|
    && var (n, q) := l.value;
       var d := ByteAt(s, q) / 4 + 64 * ByteAt(s, q + 1);
       if s[p] >= 32 then i == Match(n + 2, 1 + d, q + 2, ByteAt(s, q) % 4)
       else if ByteAt(s, p) / 8 % 2 == 0 && d == 0 then i == End(q + 2)
       else i == Match(n + 2, 0x4000 * (ByteAt(s, p) / 8 % 2) + d + 0x4000, q + 2, ByteAt(s, q) % 4)
  }

  class Optimizer {
    const inb: array<byte>      // the stream
    const inLen: nat
    const out: array<byte>
    var ip: nat
    var op: nat
    var litp: int               // the byte that tells how many literals came last, or -1
    var lit: nat                // how many
    ghost var rst: nat          // the state before ip in the stream as rewritten
    ghost const s0: seq<byte>   // the stream as given

    ghost predicate Sizes()
    {
      inb != out && inLen <= inb.Length && |s0| == inLen && Decode(s0).Some? && |Decode(s0).value.0| <= out.Length
    }

    /** The stream as it is now. */
    ghost function Stream(): (s: seq<byte>)
      requires inLen <= inb.Length
      reads inb
    {
      inb[..inLen]
    }

    ghost function Output(): (s: seq<byte>)
      requires op <= out.Length
      reads `op, out
    {
      out[..op]
    }

    /** What holds between two instructions, the next of which is at p. */
    ghost predicate Between(p: nat, st: nat)
      reads `op, `litp, `lit, `rst, inb, out
    {
      && Sizes() && p <= inLen && op <= out.Length && st <= 4
      && inb[p..inLen] == s0[p..]
      && (p == 0 ==> s0 != [] && s0[0] <= 17 && op == 0)
      && DecodeFrom(s0, p, st, Output()) == Decode(s0)
      && Tracks(Stream(), p, rst, Output(), litp, lit)
      && (rst == st || (p < inLen && inb[p] >= 16))
    }

    /** Where the decisions about rewrites stand. */
    ghost function Now(p: nat, st: nat): (z: State)
      requires inLen <= inb.Length && op <= out.Length
      reads `op, `litp, `lit, inb, out
    {
      State(Stream(), p, st, Output(), litp, lit)
    }

    /** The next instruction is the same in the stream as given and as it is now. */
    lemma ParseNow(p: nat, st: nat)
      requires Between(p, st)
      ensures p < inLen && Parse(s0, p, st).Some? && Parse(Stream(), p, rst) == Parse(s0, p, st) && inb[p] == s0[p]
      ensures Parse(Stream(), p, st) == Parse(s0, p, st)
      ensures forall j :: p <= j < inLen ==> inb[j] == s0[j]
    {
      hide Parse, Decode, Tracks;
      DecodesSomething(s0, p, st, Output());
      forall j | p <= j < inLen
        ensures inb[j] == s0[j]
      {
        assert inb[p..inLen][j - p] == s0[p..][j - p];
      }
      ParseLocal(s0, Stream(), p, st);
      if rst != st {
        ParseHigh(Stream(), p, rst, st);
      }
    }

    /** The end of the stream: everything is decoded, and the stream as it is now
        means the same. */
    ghost predicate Done()
      reads `ip, `op, inb, out
    {
      Sizes() && op <= out.Length && ip <= inLen && Decode(s0) == Some((Output(), ip)) == Decode(Stream())
    }

    lemma AtEnd(p: nat, st: nat)
      requires Between(p, st) && Parse(s0, p, st) == Some(End(ip))
      ensures Done() && Past(Now(p, st)) == None
    {
      hide Parse, Decode, DecodeFrom, Tracks, Past;
      ParseNow(p, st);
      EndPassed(Now(p, st), ip);
      DecodesSomething(s0, p, st, Output());
      TracksReaches(Stream(), p, rst, Output(), litp, lit);
      assert Stream() == Stream()[..p] + Stream()[p..];
      EndsHere(Stream(), p, rst, Output(), ip);
    }

    /** A length continued in further bytes. */
    method Extend(full: nat) returns (t: nat)
      requires Sizes() && ip <= inLen && Extended(s0, ip, full).Some? && forall j :: ip <= j < inLen ==> inb[j] == s0[j]
      modifies this`ip
      ensures Extended(s0, old(ip), full) == Some((t, ip))
    {
      t := full;
      while inb[ip] == 0
        invariant old(ip) <= ip < inLen && Extended(s0, ip, t) == Extended(s0, old(ip), full)
        decreases inLen - ip
      {
        t := t + 255;
        ip := ip + 1;
      }
      t := t + inb[ip];
      ip := ip + 1;
    }

    /** The distance in the last two bytes of a match. */
    method ReadDistance() returns (d: nat)
      requires Sizes() && ip + 2 <= inLen && forall j :: ip <= j < inLen ==> inb[j] == s0[j]
      modifies this`ip
      ensures ip == old(ip) + 2 && d == ByteAt(s0, ip - 2) / 4 + 64 * ByteAt(s0, ip - 1)
    {
      d := (inb[ip] as int) / 4;
      ip := ip + 1;
      d := d + 64 * (inb[ip] as int);
      ip := ip + 1;
    }

    /** The fields of a match of 16 or above, whose first byte t0 has been read. */
    method ReadMatch(t0: nat, ghost i: Instr) returns (t: nat, mPos: int, eof: bool)
      requires Sizes() && 1 <= ip <= inLen && t0 == ByteAt(s0, ip - 1) >= 16 && Parse(s0, ip - 1, 0) == Some(i)
      requires forall j :: ip <= j < inLen ==> inb[j] == s0[j]
      modifies this`ip
      ensures ip == i.next && eof == i.End?
      ensures !eof ==> i.Match? && i.len == t + 2 && mPos == op - i.dist
    {
      hide Decode, Extended, Parse;
      ParseFields(s0, ip - 1, i);
      eof := false;
      if t0 >= 64 {
        mPos := op - 1 - t0 / 4 % 8 - 8 * (inb[ip] as int);
        ip := ip + 1;
        t := t0 / 32 - 1;
      } else if t0 >= 32 {
        t := t0 % 32;
        if t == 0 {
          t := Extend(31);
        }
        var d := ReadDistance();
        mPos := op - 1 - d;
      } else {
        mPos := op - 0x4000 * (t0 / 8 % 2);
        t := t0 % 8;
        if t == 0 {
          t := Extend(7);
        }
        var d := ReadDistance();
        mPos := mPos - d;
        if mPos == op {
          eof := true;
          return;
        }
        mPos := mPos - 0x4000;
      }
    }

    constructor (inb: array<byte>, inLen: nat, out: array<byte>)
      requires inb != out && inLen <= inb.Length && Decode(inb[..inLen]).Some? && |Decode(inb[..inLen]).value.0| <= out.Length
      ensures this.inb == inb && this.inLen == inLen && this.out == out && s0 == inb[..inLen]
      ensures Sizes() && ip == 0 && op == 0 && litp == -1 && lit == 0 && rst == 0
    {
      this.inb, this.inLen, this.out := inb, inLen, out;
      ip, op, litp, lit := 0, 0, -1, 0;
      rst := 0;
      s0 := inb[..inLen];
    }

    /** Copies literals to the output. */
    method CopyLiterals(n: nat)
      requires inb != out && ip + n <= inb.Length && op + n <= out.Length
      modifies this`ip, this`op, out
      ensures ip == old(ip) + n && op == old(op) + n
      ensures Output() == old(Output()) + inb[old(ip)..old(ip) + n]
    {
      var k := 0;
      while k < n
        invariant 0 <= k <= n && ip == old(ip) + k && op == old(op) + k
        invariant out[..op] == old(out[..op]) + inb[old(ip)..old(ip) + k]
      {
        out[op] := inb[ip];
        ip := ip + 1;
        op := op + 1;
        k := k + 1;
        assert inb[old(ip)..old(ip) + k] == inb[old(ip)..old(ip) + k - 1] + [inb[ip - 1]];
      }
    }

    /** Copies literals that are still as they were given. */
    method CopyGiven(n: nat)
      requires Sizes() && ip + n <= inLen && op + n <= out.Length && inb[ip..inLen] == s0[ip..]
      modifies this`ip, this`op, out
      ensures ip == old(ip) + n && op == old(op) + n
      ensures Output() == old(Output()) + s0[old(ip)..ip] && inb[ip..inLen] == s0[ip..]
    {
      hide Decode;
      GivenPart(inb[..], s0, ip, n);
      CopyLiterals(n);
    }

    /** Copies a match, byte by byte. */
    method CopyBack(mPos: int, n: nat)
      requires 0 <= mPos < op && op + n <= out.Length
      modifies this`op, out
      ensures op == old(op) + n && Output() == CopyMatch(old(Output()), n, old(op) - mPos)
    {
      ghost var dist := op - mPos;
      var k := 0;
      while k < n
        invariant 0 <= k <= n && op == old(op) + k
        invariant CopyMatch(out[..op], n - k, dist) == CopyMatch(old(out[..op]), n, dist)
      {
        ghost var o := out[..op];
        out[op] := out[mPos + k];
        op := op + 1;
        assert out[..op] == o + [o[|o| - dist]];
        k := k + 1;
      }
    }

    /** `copy2`: the first two bytes of a match replace two bytes of the stream. */
    method Copy2(p: nat, mPos: int) returns (ghost bytes: seq<byte>)
      requires inb != out && 0 <= mPos < op <= out.Length && p + 2 <= inb.Length
      modifies inb
      ensures |bytes| == 2 && CopyMatch(Output(), 2, op - mPos) == Output() + bytes
      ensures inb[..] == old(inb[..])[..p] + bytes + old(inb[..])[p + 2..]
    {
      inb[p] := out[mPos];
      if op - mPos == 1 {
        inb[p + 1] := out[mPos];
      } else {
        inb[p + 1] := out[mPos + 1];
      }
      bytes := [inb[p], inb[p + 1]];
      TwoCopied(Output(), op - mPos, bytes[0], bytes[1]);
    }

    /** `copy3` */
    method Copy3(p: nat, mPos: int) returns (ghost bytes: seq<byte>)
      requires inb != out && 0 <= mPos < op <= out.Length && p + 3 <= inb.Length
      modifies inb
      ensures |bytes| == 3 && CopyMatch(Output(), 3, op - mPos) == Output() + bytes
      ensures inb[..] == old(inb[..])[..p] + bytes + old(inb[..])[p + 3..]
    {
      inb[p] := out[mPos];
      if op - mPos == 1 {
        inb[p + 1] := out[mPos];
        inb[p + 2] := out[mPos];
      } else if op - mPos == 2 {
        inb[p + 1] := out[mPos + 1];
        inb[p + 2] := out[mPos];
      } else {
        inb[p + 1] := out[mPos + 1];
        inb[p + 2] := out[mPos + 2];
      }
      bytes := [inb[p], inb[p + 1], inb[p + 2]];
      ThreeCopied(Output(), op - mPos, bytes[0], bytes[1], bytes[2]);
    }

    /** A match i has been read, which starts at p; it copies from mPos. */
    ghost predicate AtMatch(p: nat, st: nat, i: Instr, mPos: int)
      reads `op, `litp, `lit, `rst, inb, out
    {
      && Between(p, st) && Parse(s0, p, st) == Some(i) && i.Match? && mPos == op - i.dist
    }

    lemma MatchFits(p: nat, st: nat, i: Instr, mPos: int)
      requires AtMatch(p, st, i, mPos)
      ensures 0 <= mPos < op && op + i.len + i.tail <= out.Length && p < i.next && i.next + i.tail < inLen && p > 0
      ensures DecodeFrom(s0, i.next + i.tail, i.tail, CopyMatch(Output(), i.len, i.dist) + s0[i.next..i.next + i.tail]) == Decode(s0)
      ensures i.tail == inb[i.next - 2] % 4 && i.next >= 2
      ensures Parse(Stream(), p, rst) == Some(i) && Reading(Now(p, st), i)
      ensures forall j :: p <= j < inLen ==> inb[j] == s0[j]
    {
      hide Parse, Decode, Tracks, CopyMatch;
      ParseNow(p, st);
      DecodesMatch(s0, p, st, Output(), i);
      DecodesSomething(s0, i.next + i.tail, i.tail, CopyMatch(Output(), i.len, i.dist) + s0[i.next..i.next + i.tail]);
    }

    /** Copies a match and the literals behind it, which are the last ones now. */
    method CopyWithTail(t: nat, mPos: int) returns (st: nat)
      requires Sizes() && 0 <= mPos < op && 2 <= ip <= inLen && inb[ip..inLen] == s0[ip..]
      requires ip + inb[ip - 2] % 4 <= inLen && op + t + inb[ip - 2] % 4 <= out.Length
      modifies this`ip, this`op, this`litp, this`lit, out
      ensures st == inb[old(ip) - 2] % 4 == lit && litp == old(ip) - 2
      ensures ip == old(ip) + st && op == old(op) + t + st && inb[ip..inLen] == s0[ip..]
      ensures Output() == CopyMatch(old(Output()), t, old(op) - mPos) + s0[old(ip)..ip]
    {
      hide Decode, CopyMatch;
      CopyBack(mPos, t);
      st := inb[ip - 2] % 4;
      lit := st;
      litp := ip - 2;
      CopyGiven(st);
    }

    /** The match stays; its literals are copied too. */
    method KeepMatch(t: nat, mPos: int, ghost p: nat, ghost st0: nat, ghost i: Instr) returns (st: nat)
      requires AtMatch(p, st0, i, mPos) && ip == i.next && i.len == t
      requires Reading(Now(p, st0), i) && Chosen(Now(p, st0), i).Keep?
      modifies this`ip, this`op, this`litp, this`lit, this`rst, out
      ensures Between(ip, st) && ip > p && st == i.tail
      ensures Past(old(Now(p, st0))) == Some(Now(ip, st))
    {
      hide Parse, Decode, DecodeFrom, Tracks, CopyMatch, Past, Chosen, Reading;
      MatchFits(p, st0, i, mPos);
      ghost var z := Now(p, st0);
      ghost var o, litp0, lit0 := Output(), litp, lit;
      SuffixFrom(inb[..inLen], s0, p, ip);
      st := CopyWithTail(t, mPos);
      SameSlice(Stream(), s0, i.next, ip);
      KeptMatch(Stream(), p, rst, o, litp0, lit0, i, Output());
      rst := st;
      KeptPassed(z, i, Output());
    }

    /** `copy2` or `copy3` */
    method CopyShort(p: nat, mPos: int, len: nat) returns (ghost bytes: seq<byte>)
      requires inb != out && 0 <= mPos < op <= out.Length && 2 <= len <= 3 && p + len <= inb.Length
      modifies inb
      ensures |bytes| == len && CopyMatch(Output(), len, op - mPos) == Output() + bytes
      ensures inb[..] == old(inb[..])[..p] + bytes + old(inb[..])[p + len..]
    {
      if len == 2 {
        bytes := Copy2(p, mPos);
      } else {
        bytes := Copy3(p, mPos);
      }
    }

    /** The writes that turn a match into literals of the one before. */
    method WriteLiterals(p: nat, mPos: int, len: nat) returns (ghost bytes: seq<byte>)
      requires Sizes() && 0 <= mPos < op <= out.Length && 2 <= len <= 3 && p + len <= inLen && 0 <= litp && litp + 2 <= p && lit < 4
      modifies inb
      ensures |bytes| == len && CopyMatch(Output(), len, op - mPos) == Output() + bytes
      ensures Literalized(old(Stream()), Stream(), litp, lit, p, bytes)
    {
      hide CopyMatch, Decode, Literalized;
      ghost var a := inb[..];
      inb[litp] := inb[litp] / 4 * 4 + lit;
      assert inb[..] == a[litp := a[litp] / 4 * 4 + lit];
      bytes := CopyShort(p, mPos, len);
      LiteralsWritten(a, inb[..], inLen, litp, lit, p, bytes);
    }

    /** A match between two matches, with few literals before it, becomes literals. */
    method Literalize(mPos: int, len: nat, ghost p: nat, ghost st0: nat, ghost i: Instr)
      requires AtMatch(p, st0, i, mPos) && ip == i.next == p + len && 2 <= len <= 3 && i.len == len && i.tail == 0
      requires 0 <= litp && lit + len < 4 && ip < inLen && inb[ip] >= 16
      requires Reading(Now(p, st0), i) && Chosen(Now(p, st0), i).Literals?
      modifies this`op, this`lit, this`rst, inb, out
      ensures Between(ip, 0)
      ensures Past(old(Now(p, st0))) == Some(Now(ip, 0))
    {
      hide Parse, Decode, DecodeFrom, CopyMatch, Tracks, Past, Chosen, Reading, Literalized;
      MatchFits(p, st0, i, mPos);
      ghost var z := Now(p, st0);
      ghost var s, o := Stream(), Output();
      TracksLits(s, p, rst, o, litp, lit);
      NothingBehind(CopyMatch(o, i.len, i.dist), s0, i.next);
      ghost var lit0 := lit;
      lit := lit + len;
      ghost var bytes := WriteLiterals(ip - len, mPos, len);
      LiteralsBehind(s, Stream(), s0, litp, lit, p, bytes, ip);
      CopyBack(mPos, len);
      LiteralizeTracks(s, Stream(), p, rst, o, litp, lit0, i, bytes);
      rst := lit;
      LiteralsPassed(z, i, bytes, Stream());
    }

    /** `memmove` by one place */
    method MoveUp(from: nat, n: nat)
      requires from + n + 1 <= inb.Length
      modifies inb
      ensures forall j :: from < j <= from + n ==> inb[j] == old(inb[j - 1])
      ensures forall j :: 0 <= j < inb.Length && !(from < j <= from + n) ==> inb[j] == old(inb[j])
    {
      forall k | 0 <= k < n {
        inb[from + 1 + k] := inb[from + k];
      }
    }

    /** The writes that join literals, a match and the run behind it. */
    method WriteRun(p: nat, mPos: int, len: nat, t: nat) returns (ghost bytes: seq<byte>)
      requires Sizes() && 0 <= mPos < op <= out.Length && 2 <= len <= 3 && p + len < inLen
      requires 0 <= litp && litp + 2 + lit == p && lit + len + t < 16
      modifies inb, this`litp, this`lit
      ensures litp == old(litp) + 2 && lit == old(lit) + len + t + 3
      ensures |bytes| == len && CopyMatch(Output(), len, op - mPos) == Output() + bytes
      ensures Joined(old(Stream()), Stream(), old(litp), old(lit), p, bytes, old(lit) + len + t)
    {
      hide CopyMatch, Decode, Joined;
      ghost var a := inb[..];
      bytes := MakeRoom(p, mPos, len);
      litp := litp + 2;
      lit := lit + len + t + 3;
      var v: byte := lit - 3;
      inb[litp] := v;
      RunWritten(a, inb[..], inLen, old(litp), old(lit), p, bytes, v);
    }

    /** No literals behind the match before; the literals one place further up,
        behind them those of this match. */
    method MakeRoom(p: nat, mPos: int, len: nat) returns (ghost bytes: seq<byte>)
      requires Sizes() && 0 <= mPos < op <= out.Length && 2 <= len <= 3 && p + len < inLen
      requires 0 <= litp && litp + 2 + lit == p
      modifies inb
      ensures |bytes| == len && CopyMatch(Output(), len, op - mPos) == Output() + bytes
      ensures inb[litp] == old(inb[litp]) / 4 * 4
      ensures forall j :: litp + 3 <= j < p + 1 ==> inb[j] == old(inb[j - 1])
      ensures forall j :: p + 1 <= j < p + 1 + len ==> inb[j] == bytes[j - (p + 1)]
      ensures forall j :: 0 <= j < inb.Length && j != litp && !(litp + 2 < j <= p + len) ==> inb[j] == old(inb[j])
    {
      hide CopyMatch, Decode;
      inb[litp] := inb[litp] / 4 * 4;
      ghost var b := inb[..];
      bytes := CopyShort(p + 1, mPos, len);
      BytesIn(b, inb[..], p + 1, bytes);
      if lit > 0 {
        MoveUp(litp + 2, lit);
      }
    }

    /** Copies a match and the literals of the run behind it. */
    method CopyBoth(mPos: int, len: nat, n: nat)
      requires Sizes() && 0 <= mPos < op && op + len + n <= out.Length && ip + n <= inLen && inb[ip..inLen] == s0[ip..]
      modifies this`ip, this`op, out
      ensures ip == old(ip) + n && op == old(op) + len + n && inb[ip..inLen] == s0[ip..]
      ensures Output() == CopyMatch(old(Output()), len, old(op) - mPos) + s0[old(ip)..ip]
    {
      hide Decode, CopyMatch;
      CopyBack(mPos, len);
      CopyGiven(n);
    }

    /** Literals, a match and the run of literals behind it become one run. */
    method JoinRun(mPos: int, len: nat, ghost p: nat, ghost st0: nat, ghost i: Instr)
      requires AtMatch(p, st0, i, mPos) && ip == i.next == p + len && 2 <= len <= 3 && i.len == len && i.tail == 0
      requires 0 <= litp && lit < 4 && ip < inLen && 0 < inb[ip] < 16 && lit + len + inb[ip] < 16
      requires Reading(Now(p, st0), i) && Chosen(Now(p, st0), i).Join?
      modifies this`ip, this`op, this`litp, this`lit, this`rst, inb, out
      ensures Between(ip, 4) && ip > p
      ensures Past(old(Now(p, st0))) == Some(Now(ip, 4))
    {
      hide Parse, Decode, DecodeFrom, CopyMatch, Tracks, Joined, RunAt, Past, Chosen, Reading;
      MatchFits(p, st0, i, mPos);
      ghost var z := Now(p, st0);
      ghost var s, o, litp0, lit0 := Stream(), Output(), litp, lit;
      TracksLits(s, p, rst, o, litp, lit);
      var t: nat := inb[ip];
      RunBehind(s, s0, i.next, t, CopyMatch(o, i.len, i.dist));
      ip := ip + 1;
      ghost var bytes := WriteRun(ip - 1 - len, mPos, len, t);
      JoinedBehind(s, Stream(), s0, litp0, lit0, p, bytes, lit0 + len + t, ip);
      CopyBoth(mPos, len, t + 3);
      JoinTracks(s, Stream(), p, rst, o, litp0, lit0, i, bytes, t);
      rst := 4;
      SameSlice(s, s0, i.next + 1, ip);
      JoinPassed(z, i, bytes, Stream(), Output());
    }

    /** The writes that turn a match between two runs into literals. */
    method WriteBridge(p: nat, mPos: int, t: nat) returns (ghost bytes: seq<byte>)
      requires Sizes() && 0 <= mPos < op <= out.Length && p + 3 <= inLen && 0 <= litp < p && lit + 3 + t < 16
      modifies inb, this`lit
      ensures lit == old(lit) + 3 + t + 3
      ensures |bytes| == 3 && CopyMatch(Output(), 3, op - mPos) == Output() + bytes
      ensures Bridged(old(Stream()), Stream(), litp, p, bytes, old(lit) + 3 + t)
    {
      hide CopyMatch, Decode;
      ghost var a := inb[..];
      bytes := CopyShort(p, mPos, 3);
      lit := lit + 3 + t + 3;
      var v: byte := lit - 3;
      ghost var b := inb[..];
      inb[litp] := v;
      assert inb[..] == b[litp := v];
      BridgeWritten(a, b, inLen, litp, p, bytes, v);
    }

    /** Two runs with a match of three bytes between them become one. */
    method Bridge(mPos: int, ghost p: nat, ghost st0: nat, ghost i: Instr)
      requires AtMatch(p, st0, i, mPos) && ip == i.next == p + 2 && i.len == 3 && i.tail == 0
      requires 0 <= litp && lit > 3 && ip < inLen && 0 < inb[ip] < 16 && lit + 3 + inb[ip] < 16
      requires Reading(Now(p, st0), i) && Chosen(Now(p, st0), i).Bridge?
      modifies this`ip, this`op, this`lit, this`rst, inb, out
      ensures Between(ip, 4) && ip > p
      ensures Past(old(Now(p, st0))) == Some(Now(ip, 4))
    {
      hide Parse, Decode, DecodeFrom, CopyMatch, Tracks, Past, Chosen, Reading, Bridged, RunAt;
      MatchFits(p, st0, i, mPos);
      ghost var z := Now(p, st0);
      ghost var s, o, lit0 := Stream(), Output(), lit;
      TracksLits(s, p, rst, o, litp, lit);
      var t: nat := inb[ip];
      RunBehind(s, s0, i.next, t, CopyMatch(o, i.len, i.dist));
      ip := ip + 1;
      ghost var bytes := WriteBridge(ip - 3, mPos, t);
      BridgedBehind(s, Stream(), s0, litp, p, bytes, lit0 + 3 + t, ip);
      CopyBoth(mPos, 3, t + 3);
      BridgeTracks(s, Stream(), p, rst, o, litp, lit0, i, bytes, t);
      rst := 4;
      SameSlice(s, s0, i.next + 1, ip);
      BridgePassed(z, i, bytes, Stream(), Output());
    }

    /** What `ip` can be said to point at when a match without literals has been read. */
    lemma SomethingNext(p: nat, st: nat, i: Instr, mPos: int)
      requires AtMatch(p, st, i, mPos)
      ensures 2 <= i.next <= i.next + i.tail < inLen && i.tail == inb[i.next - 2] % 4 && Reading(Now(p, st), i)
      ensures Chosen(Now(p, st), i) == Choice(inb[p], i, Now(p, st), inb[i.next])
    {
      hide Parse, Decode, DecodeFrom, CopyMatch, Tracks, Choice;
      MatchFits(p, st, i, mPos);
    }

    /** A match of 16 or above, whose first byte t0 has been read. */
    method HighMatch(t0: nat, ghost st0: nat) returns (st: nat, eof: bool)
      requires 1 <= ip && Between(ip - 1, st0) && ip <= inLen && inb[ip - 1] == t0 >= 16
      modifies this`ip, this`op, this`litp, this`lit, this`rst, inb, out
      ensures eof ==> Done() && Stream() == old(Stream()) && Past(old(Now(ip - 1, st0))) == None
      ensures !eof ==> Between(ip, st) && ip >= old(ip) && Past(old(Now(ip - 1, st0))) == Some(Now(ip, st))
    {
      hide Parse, Decode, DecodeFrom, CopyMatch, Tracks, Past, Reading, Chosen;
      ghost var p := ip - 1;
      ParseNow(p, st0);
      ghost var i := Parse(s0, p, st0).value;
      ParseHigh(s0, p, st0, 0);
      var t, mPos;
      t, mPos, eof := ReadMatch(t0, i);
      if eof {
        st := 0;
        AtEnd(p, st0);
        return;
      }
      SomethingNext(p, st0, i, mPos);
      HighSize(s0, p, st0, i);
      if litp >= 0 {
        var nl := inb[ip - 2] % 4;
        if t0 >= 64 {
          if t == 1 && lit > 3 && nl == 0 && inb[ip] < 16 && inb[ip] != 0 && lit + 3 + inb[ip] < 16 {
            Bridge(mPos, p, st0, i);
            st := 4;
            return;
          }
        } else if t == 1 && lit == 0 && nl == 0 && inb[ip] >= 16 {
          Literalize(mPos, 3, p, st0, i);
          st := 0;
          return;
        } else if t == 1 && lit <= 3 && nl == 0 && inb[ip] < 16 && inb[ip] != 0 && lit + 3 + inb[ip] < 16 {
          JoinRun(mPos, 3, p, st0, i);
          st := 4;
          return;
        }
      }
      st := KeepMatch(t + 2, mPos, p, st0, i);
    }

    lemma LowState(p: nat, st: nat)
      requires Between(p, st) && p < inLen && inb[p] < 16
      ensures rst == st && (litp >= 0 && st < 4 ==> lit < 4 && lit == st)
    {
      hide Parse, Decode, DecodeFrom, CopyMatch, Tracks;
      if litp >= 0 {
        TracksLits(Stream(), p, rst, Output(), litp, lit);
      }
    }

    /** A match below 16 behind one to three literals. */
    method ShortMatch(t0: nat, ghost st0: nat) returns (st: nat)
      requires 1 <= ip <= inLen && Between(ip - 1, st0) && 1 <= st0 <= 3 && inb[ip - 1] == t0 < 16
      modifies this`ip, this`op, this`litp, this`lit, this`rst, inb, out
      ensures Between(ip, st) && ip >= old(ip) && Past(old(Now(ip - 1, st0))) == Some(Now(ip, st))
    {
      hide Parse, Decode, DecodeFrom, CopyMatch, Tracks, Past, Reading, Chosen;
      ghost var p := ip - 1;
      ParseNow(p, st0);
      LowState(p, st0);
      ghost var i := Parse(s0, p, st0).value;
      LowParses(s0, p, st0, i);
      var mPos := op - 1 - t0 / 4 - 4 * (inb[ip] as int);
      ip := ip + 1;
      SomethingNext(p, st0, i, mPos);
      if litp >= 0 {
        var nl := inb[ip - 2] % 4;
        if nl == 0 && lit == 1 && inb[ip] >= 16 {
          Literalize(mPos, 2, p, st0, i);
          return 0;
        } else if nl == 0 && inb[ip] < 16 && inb[ip] != 0 && lit + 2 + inb[ip] < 16 {
          JoinRun(mPos, 2, p, st0, i);
          return 4;
        }
      }
      st := KeepMatch(2, mPos, p, st0, i);
    }

    /** A match below 16 behind a run of literals. */
    method MatchAfterRun(t0: nat) returns (st: nat)
      requires 1 <= ip <= inLen && Between(ip - 1, 4) && inb[ip - 1] == t0 < 16
      modifies this`ip, this`op, this`litp, this`lit, this`rst, out
      ensures Between(ip, st) && ip >= old(ip) && Past(old(Now(ip - 1, 4))) == Some(Now(ip, st))
    {
      hide Parse, Decode, DecodeFrom, CopyMatch, Tracks, Past, Reading, Chosen;
      ghost var p := ip - 1;
      ParseNow(p, 4);
      ghost var i := Parse(s0, p, 4).value;
      LowParses(s0, p, 4, i);
      var mPos := op - 1 - 0x800 - t0 / 4 - 4 * (inb[ip] as int);
      ip := ip + 1;
      SomethingNext(p, 4, i, mPos);
      st := KeepMatch(3, mPos, p, 4, i);
    }

    /** A run of literals. */
    method LiteralRuns(t0: nat)
      requires 1 <= ip <= inLen && Between(ip - 1, 0) && inb[ip - 1] == t0 < 16
      modifies this`ip, this`op, this`litp, this`lit, this`rst, out
      ensures Between(ip, 4) && ip >= old(ip) && Past(old(Now(ip - 1, 0))) == Some(Now(ip, 4))
    {
      hide Parse, Decode, DecodeFrom, CopyMatch, Tracks, Past;
      ghost var p, o, litp0, lit0 := ip - 1, Output(), litp, lit;
      ghost var z := Now(p, 0);
      ParseNow(p, 0);
      LowState(p, 0);
      ghost var i := Parse(s0, p, 0).value;
      RunFields(s0, p, i);
      DecodesRun(s0, p, o, i);
      litp := ip - 1;
      var t := t0;
      if t == 0 {
        t := Extend(15);
      }
      lit := t + 3;
      SuffixFrom(inb[..inLen], s0, p, ip);
      CopyGiven(t + 3);
      SameSlice(Stream(), s0, i.next, ip);
      KeptRun(Stream(), p, o, litp0, lit0, i, Output());
      rst := 4;
      DecodesSomething(s0, ip, 4, Output());
      RunPassed(z, i);
    }

    /** The literals a first byte above 17 stands for. */
    method FirstLiterals() returns (st: nat)
      requires Sizes() && ip == op == 0 && litp == -1 && lit == 0 && inLen > 0 && Stream() == s0 && inb[0] > 17
      modifies this`ip, this`op, this`rst, out
      ensures Between(ip, st) && Now(ip, st) == Start(s0)
    {
      hide Parse, DecodeFrom, Decode, Reaches, AfterMatch, AfterRun;
      FirstDecodes(s0);
      var t := inb[0] - 17;
      ip := 1;
      CopyLiterals(t);
      st := if t < 4 then t else 4;
      rst := st;
      FirstPart(inb[..], s0, ip);
      assert Output() == [] + s0[1..ip] == s0[1..ip];
      ReachesFirst(s0[..ip]);
      assert Start(s0) == State(s0, ip, st, s0[1..ip], -1, 0);
    }

    lemma StartsPlain()
      requires Sizes() && ip == op == 0 && litp == -1 && inLen > 0 && Stream() == s0 && rst == 0 && inb[0] <= 17
      ensures Between(0, 0)
    {
      hide Parse, DecodeFrom;
      ReachesStart();
      assert Stream()[..0] == [] == Output();
    }

    /** Up to the first instruction. */
    method Begin() returns (st: nat)
      requires Sizes() && ip == op == 0 && litp == -1 && lit == 0 && inLen > 0 && Stream() == s0 && rst == 0
      modifies this`ip, this`op, this`rst, out
      ensures Between(ip, st) && Now(ip, st) == Start(s0)
    {
      hide Parse, DecodeFrom, Tracks;
      st := 0;
      if inb[0] > 17 {
        st := FirstLiterals();
      } else {
        StartsPlain();
      }
    }

    /** One instruction, whose first byte t has been read. */
    method Instruction(t: nat, st0: nat) returns (st: nat, eof: bool)
      requires 1 <= ip <= inLen && Between(ip - 1, st0) && inb[ip - 1] == t
      modifies this`ip, this`op, this`litp, this`lit, this`rst, inb, out
      ensures eof ==> Done() && Stream() == old(Stream()) && Past(old(Now(ip - 1, st0))) == None
      ensures !eof ==> Between(ip, st) && ip >= old(ip) && Past(old(Now(ip - 1, st0))) == Some(Now(ip, st))
    {
      hide Parse, DecodeFrom, Tracks, Past, Now, Decode;
      eof := false;
      if t >= 16 {
        st, eof := HighMatch(t, st0);
      } else if st0 == 0 {
        LiteralRuns(t);
        st := 4;
      } else if st0 == 4 {
        st := MatchAfterRun(t);
      } else {
        st := ShortMatch(t, st0);
      }
    }

    /** The whole loop. */
    method Run(outLen0: nat) returns (status: Status)
      requires Sizes() && ip == op == 0 && litp == -1 && lit == 0 && inLen > 0 && Stream() == s0 && rst == 0
      requires |Decode(s0).value.0| <= outLen0 <= out.Length
      modifies this, inb, out
      ensures Done() && Stream() == Optimized(Start(s0))
      ensures status == if ip == inLen then Ok else InputNotConsumed
    {
      hide Parse, DecodeFrom, Tracks, CopyMatch, Past, Optimized, Start;
      var st := Begin();
      while true
        invariant Between(ip, st) && Optimized(Now(ip, st)) == Optimized(Start(s0))
        decreases inLen - ip
      {
        ghost var z := Now(ip, st);
        ParseNow(ip, st);
        DecodesSomething(s0, ip, st, Output());
        if st == 0 && !(ip < inLen && op <= outLen0) {
          assert false;
          return EofNotFound;
        }
        var t := inb[ip];
        ip := ip + 1;
        if 1 <= st <= 3 && !(ip < inLen && op <= outLen0) {
          assert false by { NeedsTwo(s0, ip - 1, st, Output()); }
          return EofNotFound;
        }
        var eof;
        st, eof := Instruction(t, st);
        if eof {
          OptimizedEnd(z);
          status := if ip == inLen then Ok else if ip < inLen then InputNotConsumed else InputOverrun;
          return;
        }
        OptimizedStep(z, Now(ip, st));
      }
    }
  }

  lemma NothingBehind(o: seq<byte>, s: seq<byte>, n: nat)
    requires n <= |s|
    ensures o + s[n..n + 0] == o
  {
  }

  /** A run follows whose length is in its first byte. */
  lemma RunFollows(s: seq<byte>, p: nat, t: nat, out: seq<byte>)
    requires p < |s| && s[p] == t && 0 < t < 16 && DecodeFrom(s, p, 0, out).Some?
    ensures RunAt(s, p, t)
    ensures var out' := out + s[p + 1..p + 1 + t + 3];
            && DecodeFrom(s, p + 1 + t + 3, 4, out') == DecodeFrom(s, p, 0, out)
            && |out'| <= |DecodeFrom(s, p, 0, out).value.0|
  {
    hide Parse, DecodeFrom;
    RunParses(s, p, t);
    DecodesRun(s, p, out, Run(p + 1, t + 3));
  }

  lemma BytesIn(a: seq<byte>, b: seq<byte>, p: nat, bytes: seq<byte>)
    requires p + |bytes| <= |a| && b == a[..p] + bytes + a[p + |bytes|..]
    ensures |b| == |a| && forall j :: p <= j < p + |bytes| ==> b[j] == bytes[j - p]
    ensures forall j :: 0 <= j < |a| && !(p <= j < p + |bytes|) ==> b[j] == a[j]
  {
  }

  lemma RunWritten(a: seq<byte>, b: seq<byte>, n: nat, litp: nat, lit: nat, p: nat, bytes: seq<byte>, v: byte)
    requires n <= |a| == |b| && p + |bytes| < n && litp + 2 + lit == p
    requires b[litp] == a[litp] / 4 * 4 && b[litp + 2] == v
    requires forall j :: litp + 3 <= j < p + 1 ==> b[j] == a[j - 1]
    requires forall j :: p + 1 <= j < p + 1 + |bytes| ==> b[j] == bytes[j - (p + 1)]
    requires forall j :: 0 <= j < |a| && j != litp && !(litp + 2 <= j <= p + |bytes|) ==> b[j] == a[j]
    ensures Joined(a[..n], b[..n], litp, lit, p, bytes, v)
  {
    assert b[..n][litp + 2..p + |bytes| + 1] == [v] + a[..n][litp + 2..p] + bytes;
  }

  lemma SameSlice(s: seq<byte>, s0: seq<byte>, p: nat, end: nat)
    requires p <= end <= |s| == |s0| && forall j :: p <= j < |s| ==> s[j] == s0[j]
    ensures s[p..end] == s0[p..end]
  {
  }

  /** How many bytes a match of 16 or above takes when it copies three. */
  lemma HighSize(s: seq<byte>, p: nat, st: nat, i: Instr)
    requires p < |s| && s[p] >= 16 && Parse(s, p, st) == Some(i) && i.Match?
    ensures s[p] >= 64 ==> i.next == p + 2
    ensures s[p] < 64 && i.len == 3 ==> i.next == p + 3
  {
    hide Extended;
  }

  lemma LowParses(s: seq<byte>, p: nat, st: nat, i: Instr)
    requires p < |s| && s[p] < 16 && 1 <= st && Parse(s, p, st) == Some(i)
    ensures p + 2 <= |s|
    ensures st == 4 ==> i == Match(3, 1 + 0x800 + ByteAt(s, p) / 4 + 4 * ByteAt(s, p + 1), p + 2, ByteAt(s, p) % 4)
    ensures st != 4 ==> i == Match(2, 1 + ByteAt(s, p) / 4 + 4 * ByteAt(s, p + 1), p + 2, ByteAt(s, p) % 4)
  {
  }

  lemma RunFields(s: seq<byte>, p: nat, i: Instr)
    requires p < |s| && s[p] < 16 && Parse(s, p, 0) == Some(i)
    ensures i.Run?
    ensures s[p] != 0 ==> i == Run(p + 1, s[p] + 3)
    ensures s[p] == 0 ==> Extended(s, p + 1, 15).Some? && i == Run(Extended(s, p + 1, 15).value.1, Extended(s, p + 1, 15).value.0 + 3)
  {
    hide Extended;
  }

  lemma SuffixFrom(s: seq<byte>, s0: seq<byte>, p: nat, q: nat)
    requires p <= q <= |s| == |s0| && s[p..] == s0[p..]
    ensures s[q..] == s0[q..]
  {
    assert s[q..] == s[p..][q - p..] && s0[q..] == s0[p..][q - p..];
  }

  lemma FirstPart(a: seq<byte>, s0: seq<byte>, n: nat)
    requires 1 <= n <= |s0| <= |a| && a[..|s0|] == s0
    ensures a[n..|s0|] == s0[n..] && a[1..n] == s0[1..n] && s0[..n][1..] == s0[1..n]
  {
    forall j | 0 <= j < |s0|
      ensures a[j] == s0[j]
    {
      assert a[..|s0|][j] == a[j];
    }
  }

  lemma GivenPart(a: seq<byte>, s0: seq<byte>, p: nat, n: nat)
    requires p + n <= |s0| <= |a| && a[p..|s0|] == s0[p..]
    ensures a[p..p + n] == s0[p..p + n] && a[p + n..|s0|] == s0[p + n..]
  {
    forall j | p <= j < |s0|
      ensures a[j] == s0[j]
    {
      assert a[p..|s0|][j - p] == s0[p..][j - p];
    }
  }

  lemma NeedsTwo(s: seq<byte>, p: nat, st: nat, out: seq<byte>)
    requires DecodeFrom(s, p, st, out).Some? && 1 <= st <= 3
    ensures p + 2 <= |s|
  {
    hide Extended;
  }

  lemma FirstDecodes(s: seq<byte>)
    requires s != [] && Decode(s).Some? && s[0] > 17
    ensures var t := s[0] - 17;
            && 1 + t < |s| && t <= |Decode(s).value.0|
            && DecodeFrom(s, 1 + t, if t < 4 then t else 4, s[1..1 + t]) == Decode(s)
  {
    var t := s[0] - 17;
    DecodesSomething(s, 1 + t, if t < 4 then t else 4, s[1..1 + t]);
    hide Parse, DecodeFrom;
  }

  /** A run follows a match, in the stream as given and as it is now. */
  lemma RunBehind(s: seq<byte>, s0: seq<byte>, p: nat, t: nat, out: seq<byte>)
    requires p < |s0| == |s| && (forall j :: p <= j < |s| ==> s[j] == s0[j]) && s0[p] == t && 0 < t < 16
    requires DecodeFrom(s0, p, 0, out + s0[p..p + 0]) == Decode(s0) && Decode(s0).Some?
    ensures RunAt(s, p, t) && p + 1 + t + 3 <= |s| && s[p + 1..p + 1 + t + 3] == s0[p + 1..p + 1 + t + 3]
    ensures var out' := out + s0[p + 1..p + 1 + t + 3];
            && DecodeFrom(s0, p + 1 + t + 3, 4, out') == Decode(s0) && |out'| <= |Decode(s0).value.0|
  {
    hide Decode, DecodeFrom;
    NothingBehind(out, s0, p);
    RunFollows(s0, p, t, out);
    SameRun(s, s0, p, t);
  }

  lemma SameRun(s: seq<byte>, s0: seq<byte>, p: nat, t: nat)
    requires RunAt(s0, p, t) && |s| == |s0| && forall j :: p <= j < |s| ==> s[j] == s0[j]
    ensures RunAt(s, p, t) && s[p + 1..p + 1 + t + 3] == s0[p + 1..p + 1 + t + 3]
  {
  }

  lemma JoinedBehind(s: seq<byte>, s': seq<byte>, s0: seq<byte>, litp: nat, lit: nat, p: nat, bytes: seq<byte>, v: nat, ip: nat)
    requires Joined(s, s', litp, lit, p, bytes, v) && ip == p + |bytes| + 1 && |s| == |s0|
    requires forall j :: p <= j < |s| ==> s[j] == s0[j]
    ensures s'[ip..] == s0[ip..]
  {
  }

  lemma LiteralsBehind(s: seq<byte>, s': seq<byte>, s0: seq<byte>, litp: nat, tail: nat, p: nat, bytes: seq<byte>, ip: nat)
    requires Literalized(s, s', litp, tail, p, bytes) && ip == p + |bytes| && |s| == |s0|
    requires forall j :: p <= j < |s| ==> s[j] == s0[j]
    ensures s'[ip..] == s0[ip..]
  {
  }

  lemma BridgedBehind(s: seq<byte>, s': seq<byte>, s0: seq<byte>, litp: nat, p: nat, bytes: seq<byte>, v: nat, ip: nat)
    requires Bridged(s, s', litp, p, bytes, v) && p + |bytes| <= ip <= |s| == |s0|
    requires forall j :: p <= j < |s| ==> s[j] == s0[j]
    ensures s'[ip..] == s0[ip..]
  {
  }

  lemma BridgeWritten(a: seq<byte>, b: seq<byte>, n: nat, litp: nat, p: nat, bytes: seq<byte>, v: byte)
    requires n <= |a| && litp < p && p + |bytes| <= n && b == a[..p] + bytes + a[p + |bytes|..]
    ensures Bridged(a[..n], b[litp := v][..n], litp, p, bytes, v)
  {
  }

  lemma LiteralsWritten(a: seq<byte>, a': seq<byte>, n: nat, litp: nat, tail: nat, p: nat, bytes: seq<byte>)
    requires n <= |a| && p + |bytes| <= n && litp + 2 <= p && tail < 4
    requires a' == a[litp := a[litp] / 4 * 4 + tail][..p] + bytes + a[litp := a[litp] / 4 * 4 + tail][p + |bytes|..]
    ensures Literalized(a[..n], a'[..n], litp, tail, p, bytes)
  {
  }

  lemma TwoCopied(o: seq<byte>, dist: nat, a: byte, b: byte)
    requires 0 < dist <= |o| && a == o[|o| - dist] && b == (if dist == 1 then a else o[|o| - dist + 1])
    ensures CopyMatch(o, 2, dist) == o + [a, b]
  {
    var o1 := o + [a];
    assert CopyMatch(o, 2, dist) == CopyMatch(o1, 1, dist);
    assert o1[|o1| - dist] == b;
    assert CopyMatch(o1, 1, dist) == CopyMatch(o1 + [b], 0, dist);
    assert o1 + [b] == o + [a, b];
  }

  lemma ThreeCopied(o: seq<byte>, dist: nat, a: byte, b: byte, c: byte)
    requires 0 < dist <= |o| && a == o[|o| - dist] && b == (if dist == 1 then a else o[|o| - dist + 1])
    requires c == if dist <= 2 then a else o[|o| - dist + 2]
    ensures CopyMatch(o, 3, dist) == o + [a, b, c]
  {
    var o1 := o + [a];
    assert CopyMatch(o, 3, dist) == CopyMatch(o1, 2, dist);
    TwoCopied(o1, dist, b, c);
    assert o1 + [b, c] == o + [a, b, c];
  }

  /** `lzo1x_optimize`: for every well-formed stream that fits the output buffer,
      the output is what the stream decodes to, and the stream as rewritten in
      place, no longer or shorter, decodes to the same. */
  method Lzo1xOptimize(inb: array<byte>, inLen: nat, out: array<byte>, outLen0: nat) returns (status: Status, outLen: nat)
    requires inb != out && inLen <= inb.Length && outLen0 <= out.Length
    requires Decode(inb[..inLen]).Some? && |Decode(inb[..inLen]).value.0| <= outLen0
    modifies inb, out
    ensures Decode(inb[..inLen]) == old(Decode(inb[..inLen]))
    ensures inb[..inLen] == Optimized(Start(old(inb[..inLen])))
    ensures outLen <= out.Length && out[..outLen] == old(Decode(inb[..inLen])).value.0
    ensures status == if old(Decode(inb[..inLen])).value.1 == inLen then Ok else InputNotConsumed
  {
    hide DecodeFrom, Parse, Optimized;
    var z := new Optimizer(inb, inLen, out);
    status := z.Run(outLen0);
    outLen := z.op;
  }
}
