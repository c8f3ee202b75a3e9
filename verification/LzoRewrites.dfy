/** Why the rewrites of `lzo1x_optimize` keep the meaning of a stream: short
    matches between literals become literals themselves. */
module LzoRewrites {
  import opened Bits
  import opened Inflate
  import opened Lzo
  import opened PrefixCode

  /** Whatever comes next, decoding a stream that starts with `pre` gets behind it
      with this state and output. */
  ghost predicate Reaches(pre: seq<byte>, st: nat, out: seq<byte>)
  {
    forall more: seq<byte> :: (pre != [] || (more != [] && more[0] <= 17)) ==>
      Decode(pre + more) == DecodeFrom(pre + more, |pre|, st, out)
  }

  lemma ReachesStart()
    ensures Reaches([], 0, [])
  {
    forall more: seq<byte> | more != [] && more[0] <= 17
      ensures Decode([] + more) == DecodeFrom([] + more, 0, 0, [])
    {
      assert [] + more == more;
    }
  }

  /** The literals that a first byte above 17 stands for. */
  lemma ReachesFirst(s: seq<byte>)
    requires s != [] && s[0] > 17 && |s| == s[0] - 17 + 1
    ensures Reaches(s, if s[0] - 17 < 4 then s[0] - 17 else 4, s[1..])
  {
    forall more: seq<byte>
      ensures Decode(s + more) == DecodeFrom(s + more, |s|, if s[0] - 17 < 4 then s[0] - 17 else 4, s[1..])
    {
      assert (s + more)[0] == s[0] && (s + more)[1..|s|] == s[1..];
    }
  }

  lemma StepRun(s: seq<byte>, p: nat, out: seq<byte>)
    requires Parse(s, p, 0).Some? && Parse(s, p, 0).value.Run?
    requires var i := Parse(s, p, 0).value; i.next + i.count <= |s|
    ensures var i := Parse(s, p, 0).value;
            DecodeFrom(s, p, 0, out) == DecodeFrom(s, i.next + i.count, 4, out + s[i.next..i.next + i.count])
  {
    hide Parse;
  }

  lemma StepMatch(s: seq<byte>, p: nat, st: nat, out: seq<byte>)
    requires Parse(s, p, st).Some? && Parse(s, p, st).value.Match?
    requires var i := Parse(s, p, st).value; 0 < i.dist <= |out| && i.next + i.tail <= |s|
    ensures var i := Parse(s, p, st).value;
            DecodeFrom(s, p, st, out)
            == DecodeFrom(s, i.next + i.tail, i.tail, CopyMatch(out, i.len, i.dist) + s[i.next..i.next + i.tail])
  {
    hide Parse, CopyMatch;
  }

  /** A stream that goes on after `end` the same up to there. */
  lemma GoesOn(s: seq<byte>, p: nat, n: nat, end: nat, more: seq<byte>) returns (rest: seq<byte>)
    requires p <= n <= end <= |s| && p < end
    ensures var all := s[..end] + more;
            && all == s[..p] + rest && rest != [] && rest[0] == s[p] && |s[..p]| == p && (p == 0 <==> s[..p] == [])
            && all[n..end] == s[n..end] && forall i :: p <= i < end ==> all[i] == s[i]
  {
    rest := s[p..end] + more;
    assert s[..end] == s[..p] + s[p..end];
    assert s[..end] + more == s[..p] + (s[p..end] + more);
    assert (s[..end] + more)[n..end] == s[..end][n..end] == s[n..end];
  }

  /** Behind a run of literals. */
  lemma ReachesRun(s: seq<byte>, p: nat, end: nat, out: seq<byte>)
    requires p <= end <= |s| && Reaches(s[..p], 0, out)
    requires Parse(s, p, 0).Some? && Parse(s, p, 0).value.Run?
    requires var i := Parse(s, p, 0).value; i.next + i.count == end
    ensures Reaches(s[..end], 4, out + s[Parse(s, p, 0).value.next..end])
  {
    hide Parse, Decode, DecodeFrom;
    var i := Parse(s, p, 0).value;
    RunIsLow(s, p);
    forall more: seq<byte>
      ensures Decode(s[..end] + more) == DecodeFrom(s[..end] + more, end, 4, out + s[i.next..end])
    {
      var all := s[..end] + more;
      var rest := GoesOn(s, p, i.next, end, more);
      ParseLocal(s, all, p, 0);
      StepRun(all, p, out);
    }
  }

  lemma RunIsLow(s: seq<byte>, p: nat)
    requires Parse(s, p, 0).Some? && Parse(s, p, 0).value.Run?
    ensures s[p] < 16
  {
    hide LiteralRun;
  }

  /** Behind a match and its literals. */
  lemma ReachesMatch(s: seq<byte>, p: nat, st: nat, end: nat, out: seq<byte>)
    requires 0 < p <= end <= |s| && Reaches(s[..p], st, out)
    requires Parse(s, p, st).Some? && Parse(s, p, st).value.Match?
    requires var i := Parse(s, p, st).value; 0 < i.dist <= |out| && i.next + i.tail == end
    ensures var i := Parse(s, p, st).value;
            Reaches(s[..end], i.tail, CopyMatch(out, i.len, i.dist) + s[i.next..end])
  {
    hide Parse, Decode, DecodeFrom, CopyMatch;
    var i := Parse(s, p, st).value;
    forall more: seq<byte>
      ensures Decode(s[..end] + more) == DecodeFrom(s[..end] + more, end, i.tail, CopyMatch(out, i.len, i.dist) + s[i.next..end])
    {
      var all := s[..end] + more;
      var rest := GoesOn(s, p, i.next, end, more);
      ParseLocal(s, all, p, st);
      StepMatch(all, p, st, out);
    }
  }

  /** The last instruction before ip is a match at q, whose tail is kept at litp. */
  ghost predicate AfterMatch(s: seq<byte>, ip: nat, out: seq<byte>, litp: nat, lit: nat, q: nat, pst: nat, pout: seq<byte>)
  {
    && 0 < q && litp + 2 + lit == ip <= |s| && lit < 4
    && q <= |s| && Reaches(s[..q], pst, pout)
    && Parse(s, q, pst).Some? && Parse(s, q, pst).value.Match?
    && var i := Parse(s, q, pst).value;
       && i.next == litp + 2 && i.tail == lit && 0 < i.dist <= |pout|
       && out == CopyMatch(pout, i.len, i.dist) + s[litp + 2..ip]
  }

  /** The last instruction before ip is a run of literals that starts at litp. */
  ghost predicate AfterRun(s: seq<byte>, ip: nat, out: seq<byte>, litp: nat, lit: nat, pout: seq<byte>)
  {
    && litp < ip <= |s| && 4 <= lit <= ip && Reaches(s[..litp], 0, pout)
    && Parse(s, litp, 0) == Some(Run(ip - lit, lit))
    && out == pout + s[ip - lit..ip]
  }

  /** What is known about the last instruction. */
  ghost predicate Tracks(s: seq<byte>, ip: nat, st: nat, out: seq<byte>, litp: int, lit: nat)
  {
    ip <= |s| &&
    if litp < 0 then Reaches(s[..ip], st, out)
    else if lit < 4 then st == lit && exists q: nat, pst: nat, pout :: AfterMatch(s, ip, out, litp, lit, q, pst, pout)
    else st == 4 && exists pout :: AfterRun(s, ip, out, litp, lit, pout)
  }

  lemma TracksReaches(s: seq<byte>, ip: nat, st: nat, out: seq<byte>, litp: int, lit: nat)
    requires Tracks(s, ip, st, out, litp, lit)
    ensures Reaches(s[..ip], st, out)
  {
    hide Reaches, Parse, CopyMatch;
    if litp >= 0 {
      if lit < 4 {
        var q: nat, pst: nat, pout :| AfterMatch(s, ip, out, litp, lit, q, pst, pout);
        ReachesMatch(s, q, pst, ip, pout);
      } else {
        var pout :| AfterRun(s, ip, out, litp, lit, pout);
        ReachesRun(s, litp, ip, pout);
      }
    }
  }

  lemma MatchTracks(s: seq<byte>, ip: nat, out: seq<byte>, litp: nat, lit: nat, q: nat, pst: nat, pout: seq<byte>)
    requires AfterMatch(s, ip, out, litp, lit, q, pst, pout)
    ensures Tracks(s, ip, lit, out, litp, lit)
  {
    hide AfterMatch;
    AfterMatchFits(s, ip, out, litp, lit, q, pst, pout);
  }

  lemma AfterMatchFits(s: seq<byte>, ip: nat, out: seq<byte>, litp: nat, lit: nat, q: nat, pst: nat, pout: seq<byte>)
    requires AfterMatch(s, ip, out, litp, lit, q, pst, pout)
    ensures ip <= |s| && lit < 4
  {
    hide Reaches, Parse, CopyMatch;
  }

  lemma AfterMatchEnds(s: seq<byte>, ip: nat, out: seq<byte>, litp: nat, lit: nat, q: nat, pst: nat, pout: seq<byte>)
    requires AfterMatch(s, ip, out, litp, lit, q, pst, pout)
    ensures litp + 2 + lit == ip
  {
    hide Reaches, Parse, CopyMatch;
  }

  lemma RunTracks(s: seq<byte>, ip: nat, out: seq<byte>, litp: nat, lit: nat, pout: seq<byte>)
    requires AfterRun(s, ip, out, litp, lit, pout)
    ensures Tracks(s, ip, 4, out, litp, lit)
  {
    hide Reaches, Parse;
  }

  /** An instruction that is left as it is. */
  lemma KeptMatch(s: seq<byte>, ip: nat, st: nat, out: seq<byte>, litp: int, lit: nat, i: Instr, out': seq<byte>)
    requires Tracks(s, ip, st, out, litp, lit) && 0 < ip
    requires Parse(s, ip, st) == Some(i) && i.Match? && 0 < i.dist <= |out| && i.next + i.tail <= |s|
    requires out' == CopyMatch(out, i.len, i.dist) + s[i.next..i.next + i.tail]
    ensures i.next >= 2 && Tracks(s, i.next + i.tail, i.tail, out', i.next - 2, i.tail)
  {
    hide Reaches, Parse, CopyMatch, Tracks;
    TracksReaches(s, ip, st, out, litp, lit);
    MatchTracks(s, i.next + i.tail, out', i.next - 2, i.tail, ip, st, out);
  }

  lemma KeptRun(s: seq<byte>, ip: nat, out: seq<byte>, litp: int, lit: nat, i: Instr, out': seq<byte>)
    requires Tracks(s, ip, 0, out, litp, lit)
    requires Parse(s, ip, 0) == Some(i) && i.Run? && i.next + i.count <= |s|
    requires out' == out + s[i.next..i.next + i.count]
    ensures Tracks(s, i.next + i.count, 4, out', ip, i.count)
  {
    hide Reaches, Parse, Tracks;
    TracksReaches(s, ip, 0, out, litp, lit);
    RunTracks(s, i.next + i.count, out', ip, i.count, out);
  }

  // ----- the rewrites -----

  /** A match of as many bytes as it copies, with nothing behind it. */
  ghost predicate Short(i: Instr, ip: nat, out: seq<byte>, bytes: seq<byte>)
  {
    && i.Match? && i.tail == 0 && 0 < i.dist <= |out| && i.next == ip + i.len && |bytes| == i.len
    && CopyMatch(out, i.len, i.dist) == out + bytes
  }

  /** A match between two matches becomes literals of the first one. */
  ghost predicate Literalized(s: seq<byte>, s': seq<byte>, litp: nat, tail: nat, ip: nat, bytes: seq<byte>)
  {
    && litp + 2 <= ip && ip + |bytes| <= |s| == |s'| && tail < 4
    && ByteAt(s', litp) == ByteAt(s, litp) / 4 * 4 + tail
    && s'[ip..ip + |bytes|] == bytes
    && forall j :: 0 <= j < |s| && j != litp && !(ip <= j < ip + |bytes|) ==> s'[j] == s[j]
  }

  lemma MatchBecomesLiterals(s: seq<byte>, s': seq<byte>, ip: nat, out: seq<byte>, litp: nat, lit: nat,
                             q: nat, pst: nat, pout: seq<byte>, i: Instr, bytes: seq<byte>)
    requires AfterMatch(s, ip, out, litp, lit, q, pst, pout)
    requires Short(i, ip, out, bytes) && lit + i.len < 4
    requires Literalized(s, s', litp, lit + i.len, ip, bytes)
    ensures AfterMatch(s', ip + i.len, out + bytes, litp, lit + i.len, q, pst, pout)
  {
    hide Reaches, Parse, CopyMatch;
    assert s'[..q] == s[..q];
    ParseRetailed(s, s', q, pst, lit + i.len);
    assert s'[litp + 2..ip + i.len] == s[litp + 2..ip] + bytes;
  }

  /** Literals behind a match, a short match and a run become one run. */
  ghost predicate Joined(s: seq<byte>, s': seq<byte>, litp: nat, lit: nat, ip: nat, bytes: seq<byte>, v: nat)
  {
    && litp + 2 + lit == ip && ip + |bytes| < |s| == |s'| && v < 256
    && ByteAt(s', litp) == ByteAt(s, litp) / 4 * 4
    && s'[litp + 2..ip + |bytes| + 1] == [v] + s[litp + 2..ip] + bytes
    && forall j :: 0 <= j < |s| && j != litp && !(litp + 2 <= j <= ip + |bytes|) ==> s'[j] == s[j]
  }

  /** The run that follows, of t + 3 literals, with t in its first byte. */
  ghost predicate RunAt(s: seq<byte>, p: nat, t: nat)
  {
    p + 1 + t + 3 <= |s| && 0 < t < 16 && s[p] == t
  }

  lemma RunParses(s: seq<byte>, p: nat, v: nat)
    requires p < |s| && s[p] == v && 0 < v < 16
    ensures Parse(s, p, 0) == Some(Run(p + 1, v + 3))
  {
  }

  /** The run that the literals have become part of. */
  lemma JoinedRun(s: seq<byte>, s': seq<byte>, litp: nat, lit: nat, ip: nat, bytes: seq<byte>, v: nat, end: nat)
    requires Joined(s, s', litp, lit, ip, bytes, v) && ip + |bytes| + 1 <= end <= |s|
    ensures s'[litp + 2] == v
    ensures s'[litp + 3..end] == s[litp + 2..ip] + bytes + s[ip + |bytes| + 1..end]
  {
    var mid, behind := s'[litp + 2..ip + |bytes| + 1], s'[ip + |bytes| + 1..end];
    assert s'[litp + 2] == mid[0];
    assert mid[1..] == s[litp + 2..ip] + bytes;
    assert s'[litp + 3..ip + |bytes| + 1] == mid[1..];
    assert behind == s[ip + |bytes| + 1..end];
    assert s'[litp + 3..end] == s'[litp + 3..ip + |bytes| + 1] + behind;
  }

  lemma MatchJoinsRun(s: seq<byte>, s': seq<byte>, ip: nat, out: seq<byte>, litp: nat, lit: nat,
                      q: nat, pst: nat, pout: seq<byte>, i: Instr, bytes: seq<byte>, t: nat)
    requires AfterMatch(s, ip, out, litp, lit, q, pst, pout)
    requires Short(i, ip, out, bytes) && RunAt(s, i.next, t) && lit + i.len + t < 16
    requires Joined(s, s', litp, lit, ip, bytes, lit + i.len + t)
    ensures var j := Parse(s, q, pst).value;
            AfterRun(s', i.next + 1 + t + 3, out + bytes + s[i.next + 1..i.next + 1 + t + 3], litp + 2, lit + i.len + t + 3,
                     CopyMatch(pout, j.len, j.dist))
  {
    hide Reaches, Parse, CopyMatch;
    var j, end, v := Parse(s, q, pst).value, i.next + 1 + t + 3, lit + i.len + t;
    assert s'[..q] == s[..q];
    ParseRetailed(s, s', q, pst, 0);
    ReachesMatch(s', q, pst, litp + 2, pout);
    assert s'[litp + 2..litp + 2] == [];
    assert CopyMatch(pout, j.len, j.dist) + [] == CopyMatch(pout, j.len, j.dist);
    JoinedRun(s, s', litp, lit, ip, bytes, v, end);
    RunParses(s', litp + 2, v);
    JoinedText(CopyMatch(pout, j.len, j.dist), s[litp + 2..ip], bytes, s[i.next + 1..end]);
  }

  lemma JoinedText(a: seq<byte>, b: seq<byte>, c: seq<byte>, d: seq<byte>)
    ensures a + b + c + d == a + (b + c + d)
  {
  }

  /** A run, a short match and another run become one run. */
  ghost predicate Bridged(s: seq<byte>, s': seq<byte>, litp: nat, ip: nat, bytes: seq<byte>, v: nat)
  {
    && litp < ip && ip + |bytes| <= |s| == |s'|
    && s'[litp] == v && s'[ip..ip + |bytes|] == bytes
    && forall j :: 0 <= j < |s| && j != litp && !(ip <= j < ip + |bytes|) ==> s'[j] == s[j]
  }

  lemma ShortRun(s: seq<byte>, p: nat, n: nat, count: nat)
    requires Parse(s, p, 0) == Some(Run(n, count)) && count < 19
    ensures n == p + 1
  {
    if s[p] == 0 {
      assert Extended(s, p + 1, 15).Some?;
    }
  }

  /** The run that both runs have become part of. */
  lemma BridgedRun(s: seq<byte>, s': seq<byte>, litp: nat, ip: nat, bytes: seq<byte>, v: nat, end: nat)
    requires Bridged(s, s', litp, ip, bytes, v) && ip + |bytes| <= end <= |s|
    ensures s'[litp + 1..end] == s[litp + 1..ip] + bytes + s[ip + |bytes|..end]
  {
    var a, b, c := s'[litp + 1..ip], s'[ip..ip + |bytes|], s'[ip + |bytes|..end];
    assert a == s[litp + 1..ip] && c == s[ip + |bytes|..end];
    assert s'[litp + 1..end] == a + b + c;
  }

  lemma MatchJoinsRuns(s: seq<byte>, s': seq<byte>, ip: nat, out: seq<byte>, litp: nat, lit: nat, pout: seq<byte>,
                       i: Instr, bytes: seq<byte>, t: nat)
    requires AfterRun(s, ip, out, litp, lit, pout)
    requires i.Match? && i.tail == 0 && i.len == |bytes| == 3 && i.next == ip + 2 && 0 < i.dist <= |out|
    requires CopyMatch(out, 3, i.dist) == out + bytes && RunAt(s, i.next, t) && lit + 3 + t < 16
    requires Bridged(s, s', litp, ip, bytes, lit + 3 + t)
    ensures AfterRun(s', i.next + 1 + t + 3, out + bytes + s[i.next + 1..i.next + 1 + t + 3], litp, lit + 3 + t + 3, pout)
  {
    hide Reaches, Parse, CopyMatch;
    var end, v := i.next + 1 + t + 3, lit + 3 + t;
    ShortRun(s, litp, ip - lit, lit);
    assert s'[..litp] == s[..litp];
    RunParses(s', litp, v);
    BridgedRun(s, s', litp, ip, bytes, v, end);
    JoinedText(pout, s[litp + 1..ip], bytes, s[i.next + 1..end]);
  }

  // ----- the rewrites keep track of the last instruction -----

  lemma LiteralizeTracks(s: seq<byte>, s': seq<byte>, ip: nat, st: nat, out: seq<byte>, litp: nat, lit: nat, i: Instr, bytes: seq<byte>)
    requires Tracks(s, ip, st, out, litp, lit) && Short(i, ip, out, bytes) && lit + i.len < 4
    requires Literalized(s, s', litp, lit + i.len, ip, bytes)
    ensures Tracks(s', ip + i.len, lit + i.len, out + bytes, litp, lit + i.len)
  {
    hide AfterMatch, AfterRun, CopyMatch;
    var q: nat, pst: nat, pout :| AfterMatch(s, ip, out, litp, lit, q, pst, pout);
    MatchBecomesLiterals(s, s', ip, out, litp, lit, q, pst, pout, i, bytes);
    MatchTracks(s', ip + i.len, out + bytes, litp, lit + i.len, q, pst, pout);
  }

  lemma JoinTracks(s: seq<byte>, s': seq<byte>, ip: nat, st: nat, out: seq<byte>, litp: nat, lit: nat, i: Instr, bytes: seq<byte>, t: nat)
    requires Tracks(s, ip, st, out, litp, lit) && lit < 4
    requires Short(i, ip, out, bytes) && RunAt(s, i.next, t) && lit + i.len + t < 16
    requires Joined(s, s', litp, lit, ip, bytes, lit + i.len + t)
    ensures Tracks(s', i.next + 1 + t + 3, 4, out + bytes + s[i.next + 1..i.next + 1 + t + 3], litp + 2, lit + i.len + t + 3)
  {
    hide AfterRun, CopyMatch, Parse, Reaches;
    var q: nat, pst: nat, pout :| AfterMatch(s, ip, out, litp, lit, q, pst, pout);
    MatchJoinsRun(s, s', ip, out, litp, lit, q, pst, pout, i, bytes, t);
    var j := Parse(s, q, pst).value;
    RunTracks(s', i.next + 1 + t + 3, out + bytes + s[i.next + 1..i.next + 1 + t + 3], litp + 2, lit + i.len + t + 3,
              CopyMatch(pout, j.len, j.dist));
  }

  lemma BridgeTracks(s: seq<byte>, s': seq<byte>, ip: nat, st: nat, out: seq<byte>, litp: nat, lit: nat, i: Instr, bytes: seq<byte>, t: nat)
    requires Tracks(s, ip, st, out, litp, lit) && lit > 3
    requires i.Match? && i.tail == 0 && i.len == |bytes| == 3 && i.next == ip + 2 && 0 < i.dist <= |out|
    requires CopyMatch(out, 3, i.dist) == out + bytes && RunAt(s, i.next, t) && lit + 3 + t < 16
    requires Bridged(s, s', litp, ip, bytes, lit + 3 + t)
    ensures Tracks(s', i.next + 1 + t + 3, 4, out + bytes + s[i.next + 1..i.next + 1 + t + 3], litp, lit + 3 + t + 3)
  {
    hide AfterRun, AfterMatch, CopyMatch, Parse, Reaches;
    var pout :| AfterRun(s, ip, out, litp, lit, pout);
    MatchJoinsRuns(s, s', ip, out, litp, lit, pout, i, bytes, t);
    RunTracks(s', i.next + 1 + t + 3, out + bytes + s[i.next + 1..i.next + 1 + t + 3], litp, lit + 3 + t + 3, pout);
  }

  lemma TracksLits(s: seq<byte>, ip: nat, st: nat, out: seq<byte>, litp: nat, lit: nat)
    requires Tracks(s, ip, st, out, litp, lit)
    ensures if lit < 4 then litp + 2 + lit == ip && st == lit else litp + 1 + lit <= ip && st == 4
  {
    hide Reaches, CopyMatch;
    if lit < 4 {
      var q: nat, pst: nat, pout :| AfterMatch(s, ip, out, litp, lit, q, pst, pout);
    } else {
      var pout :| AfterRun(s, ip, out, litp, lit, pout);
    }
  }
}
