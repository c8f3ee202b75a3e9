/** Which rewrites `lzo1x_optimize` makes: of a match of two or three bytes without
    literals behind it, by what stands around it. */
module LzoDecisions {
  import opened Bits
  import opened PrefixCode
  import opened Inflate
  import opened Lzo
  import opened LzoRewrites

  /** The stream as it is, the next instruction, what has been decoded, and the place
      of the last literals with their number; litp is -1 if it is not known. */
  datatype State = State(s: seq<byte>, p: nat, st: nat, out: seq<byte>, litp: int, lit: nat)

  datatype Rewrite = Keep | Literals | Join | Bridge

  /** What becomes of a match, whose first byte is t and behind which comes b. */
  function Choice(t: nat, i: Instr, z: State, b: nat): Rewrite
    requires i.Match?
  {
    if z.litp < 0 || i.tail != 0 then Keep
    else if t < 16 then
      // two bytes behind one to three literals
      if z.st == 4 then Keep
      else if z.lit == 1 && b >= 16 then Literals
      else if 0 < b < 16 && z.lit + 2 + b < 16 then Join
      else Keep
    else if i.len != 3 then Keep
    else if t >= 64 then
      if z.lit > 3 && 0 < b < 16 && z.lit + 3 + b < 16 then Bridge else Keep
    else if z.lit == 0 && b >= 16 then Literals
    else if z.lit <= 3 && 0 < b < 16 && z.lit + 3 + b < 16 then Join
    else Keep
  }

  /** The bytes that a match copies. */
  function Copied(out: seq<byte>, i: Instr): seq<byte>
    requires i.Match? && 0 < i.dist <= |out|
  {
    var o := CopyMatch(out, i.len, i.dist);
    if |out| <= |o| then o[|out|..] else []
  }

  /** Literals of the match before. */
  function LiteralsStream(s: seq<byte>, litp: nat, tail: nat, p: nat, bytes: seq<byte>): seq<byte>
    requires litp < p && p + |bytes| <= |s| && tail < 4
  {
    s[litp := s[litp] / 4 * 4 + tail][..p] + bytes + s[p + |bytes|..]
  }

  /** No literals of the match before, and a run from there to behind this match. */
  function JoinStream(s: seq<byte>, litp: nat, p: nat, bytes: seq<byte>, v: byte): seq<byte>
    requires litp + 2 <= p && p + |bytes| < |s|
  {
    s[litp := s[litp] / 4 * 4][..litp + 2] + [v] + s[litp + 2..p] + bytes + s[p + |bytes| + 1..]
  }

  /** A longer run, to behind this match. */
  function BridgeStream(s: seq<byte>, litp: nat, p: nat, bytes: seq<byte>, v: byte): seq<byte>
    requires litp < p && p + |bytes| <= |s|
  {
    s[litp := v][..p] + bytes + s[p + |bytes|..]
  }

  /** Past one instruction; None at the end of the stream, or if something is wrong. */
  function Past(z: State): (r: Option<State>)
    ensures r.Some? ==> |r.value.s| == |z.s| && z.p < r.value.p
  {
    var i :- Parse(z.s, z.p, z.st);
    match i
    case End(next) => None
    case Run(next, count) =>
      if next + count > |z.s| then None
      else Some(State(z.s, next + count, 4, z.out + z.s[next..next + count], z.p, count))
    case Match(len, dist, next, tail) =>
      if dist == 0 || dist > |z.out| || next + tail >= |z.s| then None
      else PastMatch(z, i, ByteAt(z.s, next))
  }

  function PastMatch(z: State, i: Instr, b: nat): (r: Option<State>)
    requires i.Match? && 0 < i.dist <= |z.out| && z.p < i.next && i.next + i.tail < |z.s| && z.p < |z.s|
    ensures r.Some? ==> |r.value.s| == |z.s| && z.p < r.value.p
  {
    var out, bytes, c := CopyMatch(z.out, i.len, i.dist), Copied(z.out, i), Choice(ByteAt(z.s, z.p), i, z, b);
    if c.Keep? then
      Some(State(z.s, i.next + i.tail, i.tail, out + z.s[i.next..i.next + i.tail], i.next - 2, i.tail))
    else if z.litp + 2 > z.p || z.p + |bytes| > i.next + 1 || (i.next + 1 + b + 3 > |z.s| && !c.Literals?) then None
    else if c.Literals? then
      if z.lit + |bytes| >= 4 then None
      else Some(State(LiteralsStream(z.s, z.litp, z.lit + |bytes|, z.p, bytes), i.next, 0, out, z.litp, z.lit + |bytes|))
    else
      var end, lit := i.next + 1 + b + 3, z.lit + |bytes| + b + 3;
      if lit >= 256 then None
      else if c.Join? then
        Some(State(JoinStream(z.s, z.litp, z.p, bytes, lit - 3), end, 4, out + z.s[i.next + 1..end], z.litp + 2, lit))
      else
        Some(State(BridgeStream(z.s, z.litp, z.p, bytes, lit - 3), end, 4, out + z.s[i.next + 1..end], z.litp, lit))
  }

  /** The stream when all instructions have been passed. */
  function Optimized(z: State): (s: seq<byte>)
    ensures |s| == |z.s|
    decreases |z.s| - z.p
  {
    var n := Past(z);
    if n.None? || z.p >= |z.s| then z.s else Optimized(n.value)
  }

  /** Before the first instruction; a first byte above 17 stands for literals. */
  function Start(s: seq<byte>): State
  {
    if s != [] && s[0] > 17 && 1 + s[0] - 17 <= |s| then
      var t := s[0] - 17;
      State(s, 1 + t, if t < 4 then t else 4, s[1..1 + t], -1, 0)
    else State(s, 0, 0, [], -1, 0)
  }

  // ----- one instruction passed -----

  /** A match at z.p that has been read. */
  ghost predicate Reading(z: State, i: Instr)
  {
    && z.p < |z.s| && Parse(z.s, z.p, z.st) == Some(i) && i.Match?
    && 0 < i.dist <= |z.out| && i.next + i.tail < |z.s|
  }

  function Chosen(z: State, i: Instr): Rewrite
    requires Reading(z, i)
  {
    Choice(ByteAt(z.s, z.p), i, z, ByteAt(z.s, i.next))
  }

  lemma CopiedIs(out: seq<byte>, i: Instr, bytes: seq<byte>)
    requires i.Match? && 0 < i.dist <= |out| && CopyMatch(out, i.len, i.dist) == out + bytes
    ensures Copied(out, i) == bytes
  {
    hide CopyMatch;
  }

  lemma RunPassed(z: State, i: Instr)
    requires Parse(z.s, z.p, z.st) == Some(i) && i.Run? && i.next + i.count <= |z.s|
    ensures Past(z) == Some(State(z.s, i.next + i.count, 4, z.out + z.s[i.next..i.next + i.count], z.p, i.count))
  {
    hide Parse;
  }

  lemma EndPassed(z: State, next: nat)
    requires Parse(z.s, z.p, z.st) == Some(End(next))
    ensures Past(z) == None
  {
    hide Parse;
  }

  lemma MatchPassed(z: State, i: Instr)
    requires Reading(z, i)
    ensures Past(z) == PastMatch(z, i, ByteAt(z.s, i.next))
  {
    hide Parse, PastMatch;
  }

  lemma KeptPassed(z: State, i: Instr, out: seq<byte>)
    requires Reading(z, i) && Chosen(z, i).Keep?
    requires out == CopyMatch(z.out, i.len, i.dist) + z.s[i.next..i.next + i.tail]
    ensures Past(z) == Some(State(z.s, i.next + i.tail, i.tail, out, i.next - 2, i.tail))
  {
    MatchPassed(z, i);
    hide Parse, CopyMatch, Choice;
  }

  lemma LiteralsPassed(z: State, i: Instr, bytes: seq<byte>, s': seq<byte>)
    requires Reading(z, i) && Chosen(z, i).Literals? && CopyMatch(z.out, i.len, i.dist) == z.out + bytes
    requires z.litp >= 0 && z.lit + |bytes| < 4 && z.p + |bytes| == i.next
    requires Literalized(z.s, s', z.litp, z.lit + |bytes|, z.p, bytes)
    ensures Past(z) == Some(State(s', i.next, 0, z.out + bytes, z.litp, z.lit + |bytes|))
  {
    MatchPassed(z, i);
    CopiedIs(z.out, i, bytes);
    assert s' == LiteralsStream(z.s, z.litp, z.lit + |bytes|, z.p, bytes);
    hide Parse, CopyMatch, Choice, LiteralsStream;
  }

  lemma JoinPassed(z: State, i: Instr, bytes: seq<byte>, s': seq<byte>, out: seq<byte>)
    requires Reading(z, i) && Chosen(z, i).Join? && CopyMatch(z.out, i.len, i.dist) == z.out + bytes
    requires var b := ByteAt(z.s, i.next); z.litp >= 0 && z.lit + |bytes| + b < 16 && z.p + |bytes| == i.next && i.next + 1 + b + 3 <= |z.s|
    requires Joined(z.s, s', z.litp, z.lit, z.p, bytes, z.lit + |bytes| + ByteAt(z.s, i.next))
    requires var b := ByteAt(z.s, i.next); out == z.out + bytes + z.s[i.next + 1..i.next + 1 + b + 3]
    ensures var b := ByteAt(z.s, i.next);
            Past(z) == Some(State(s', i.next + 1 + b + 3, 4, out, z.litp + 2, z.lit + |bytes| + b + 3))
  {
    MatchPassed(z, i);
    CopiedIs(z.out, i, bytes);
    JoinStreamIs(z.s, s', z.litp, z.lit, z.p, bytes, z.lit + |bytes| + ByteAt(z.s, i.next));
    hide Parse, CopyMatch, Choice, JoinStream, Joined;
  }

  lemma JoinStreamIs(s: seq<byte>, s': seq<byte>, litp: nat, lit: nat, p: nat, bytes: seq<byte>, v: byte)
    requires Joined(s, s', litp, lit, p, bytes, v)
    ensures s' == JoinStream(s, litp, p, bytes, v)
  {
    var mid := [v] + s[litp + 2..p] + bytes;
    var end := p + |bytes| + 1;
    assert s' == s'[..litp + 2] + s'[litp + 2..end] + s'[end..];
    assert s'[..litp + 2] == s[litp := s[litp] / 4 * 4][..litp + 2];
    assert s'[end..] == s[end..];
    assert s' == s[litp := s[litp] / 4 * 4][..litp + 2] + mid + s[end..];
  }

  lemma BridgePassed(z: State, i: Instr, bytes: seq<byte>, s': seq<byte>, out: seq<byte>)
    requires Reading(z, i) && Chosen(z, i).Bridge? && CopyMatch(z.out, i.len, i.dist) == z.out + bytes
    requires var b := ByteAt(z.s, i.next); z.litp >= 0 && z.litp + 2 <= z.p && z.lit + |bytes| + b < 16
    requires z.p + |bytes| <= i.next + 1 && i.next + 1 + ByteAt(z.s, i.next) + 3 <= |z.s|
    requires Bridged(z.s, s', z.litp, z.p, bytes, z.lit + |bytes| + ByteAt(z.s, i.next))
    requires var b := ByteAt(z.s, i.next); out == z.out + bytes + z.s[i.next + 1..i.next + 1 + b + 3]
    ensures var b := ByteAt(z.s, i.next);
            Past(z) == Some(State(s', i.next + 1 + b + 3, 4, out, z.litp, z.lit + |bytes| + b + 3))
  {
    MatchPassed(z, i);
    CopiedIs(z.out, i, bytes);
    BridgeStreamIs(z.s, s', z.litp, z.p, bytes, z.lit + |bytes| + ByteAt(z.s, i.next));
    hide Parse, CopyMatch, Choice, BridgeStream, Bridged;
  }

  lemma BridgeStreamIs(s: seq<byte>, s': seq<byte>, litp: nat, p: nat, bytes: seq<byte>, v: byte)
    requires Bridged(s, s', litp, p, bytes, v)
    ensures s' == BridgeStream(s, litp, p, bytes, v)
  {
    var end := p + |bytes|;
    assert s' == s'[..p] + s'[p..end] + s'[end..];
    assert s'[..p] == s[litp := v][..p];
    assert s'[end..] == s[end..];
  }

  lemma OptimizedStep(z: State, n: State)
    requires Past(z) == Some(n) && z.p < |z.s|
    ensures Optimized(z) == Optimized(n)
  {
    hide Past;
  }

  lemma OptimizedEnd(z: State)
    requires Past(z) == None
    ensures Optimized(z) == z.s
  {
    hide Past;
  }
}
