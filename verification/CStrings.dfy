/** The strings of C and the functions that look for characters in them. */
module CStrings {
  import opened Bits

  /** A C string: its bytes up to the terminating NUL. */
  type cstring = s: seq<byte> | 0 !in s

  /** The character at a place in a string, which may be that of the NUL but not behind it. */
  function CharAt(s: cstring, i: nat): byte
    requires i <= |s|
  {
    if i < |s| then s[i] else 0
  }

  /** `strspn` */
  function Span(s: cstring, cs: set<byte>): (n: nat)
    ensures n <= |s|
    ensures forall i :: 0 <= i < n ==> s[i] in cs
    ensures n < |s| ==> s[n] !in cs
  {
    if s == [] || s[0] !in cs then 0 else 1 + Span(s[1..], cs)
  }

  /** `strcspn`; also `strchr`, which finds nothing if this is the length. */
  function CSpan(s: cstring, cs: set<byte>): (n: nat)
    ensures n <= |s|
    ensures forall i :: 0 <= i < n ==> s[i] !in cs
    ensures n < |s| ==> s[n] in cs
  {
    if s == [] || s[0] in cs then 0 else 1 + CSpan(s[1..], cs)
  }

  function SkipAll(s: cstring, cs: set<byte>): cstring
  {
    s[Span(s, cs)..]
  }

  function UpTo(s: cstring, cs: set<byte>): cstring
  {
    s[..CSpan(s, cs)]
  }

  /** What the run in front is, and what is behind it. */
  lemma SpanIs(s: cstring, a: cstring, b: cstring, cs: set<byte>)
    requires s == a + b && (forall i :: 0 <= i < |a| ==> a[i] in cs) && (b == [] || b[0] !in cs)
    ensures Span(s, cs) == |a| && SkipAll(s, cs) == b
  {
    var n := Span(s, cs);
    assert forall i :: 0 <= i < |a| ==> s[i] == a[i];
    if b != [] {
      assert s[|a|] == b[0];
    }
    assert s[|a|..] == b;
  }

  lemma CSpanIs(s: cstring, a: cstring, b: cstring, cs: set<byte>)
    requires s == a + b && (forall i :: 0 <= i < |a| ==> a[i] !in cs) && (b == [] || b[0] in cs)
    ensures CSpan(s, cs) == |a| && UpTo(s, cs) == a && s[CSpan(s, cs)..] == b
  {
    var n := CSpan(s, cs);
    assert forall i :: 0 <= i < |a| ==> s[i] == a[i];
    if b != [] {
      assert s[|a|] == b[0];
    }
    assert s[|a|..] == b && s[..|a|] == a;
  }

  /** The codes of plain characters. */
  function Ascii(s: string): seq<byte>
    requires forall i :: 0 <= i < |s| ==> s[i] as int < 256
  {
    seq(|s|, i requires 0 <= i < |s| => s[i] as int)
  }
}
