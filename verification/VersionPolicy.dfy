/** The order of version parts as the policy tells it, character by character: what
    `Versions.PartOrder` is checked against. */
module VersionPolicy {
  import opened Bits
  import opened PrefixCode
  import opened CStrings
  import opened Versions

  predicate Letter(c: byte)
  {
    65 <= c <= 90 || 97 <= c <= 122
  }

  /** Neither letter nor digit, nor tilde, nor the end of a string. */
  predicate Other(c: byte)
  {
    c != 0 && c != 126 && !Letter(c) && !(48 <= c <= 57)
  }

  predicate AllDigits(d: seq<byte>)
  {
    forall i :: 0 <= i < |d| ==> 48 <= d[i] <= 57
  }

  /** No number goes on from p into s. */
  predicate Splits(p: seq<byte>, s: seq<byte>)
  {
    p == [] || s == [] || !IsDigit(p[|p| - 1]) || !IsDigit(s[0])
  }

  lemma {:induction false} DigitsAndMore(d: seq<byte>, s: seq<byte>)
    requires AllDigits(d) && (s == [] || !IsDigit(s[0]))
    ensures Digits(d + s) == d
  {
    if d == [] {
      assert d + s == s;
    } else {
      assert (d + s)[1..] == d[1..] + s;
      DigitsAndMore(d[1..], s);
    }
  }

  /** What the strings have in common in front makes no difference. */
  lemma {:induction false} CommonFront(p: seq<byte>, s: seq<byte>, t: seq<byte>)
    requires Splits(p, s) && Splits(p, t)
    ensures Lex(TextKey(p + s), TextKey(p + t)) == Lex(TextKey(s), TextKey(t))
    decreases |p|
  {
    hide TextKey, NumberKey, RestKey, Lex, Order;
    if p == [] {
      assert p + s == s && p + t == t;
    } else if !IsDigit(p[0]) {
      TextFront(p, s);
      TextFront(p, t);
      LexHead(Order(p[0]), TextKey(p[1..] + s), TextKey(p[1..] + t));
      CommonFront(p[1..], s, t);
    } else {
      var d := Digits(p);
      NumberFront(p, s, d);
      NumberFront(p, t, d);
      LexHead(Value(d), RestKey(p[|d|..] + s), RestKey(p[|d|..] + t));
      LexHead(0, [Value(d)] + RestKey(p[|d|..] + s), [Value(d)] + RestKey(p[|d|..] + t));
      RestUndecided(Lex(RestKey(p[|d|..] + s), RestKey(p[|d|..] + t)), p[|d|..] + s, p[|d|..] + t);
      CommonFront(p[|d|..], s, t);
    }
  }

  lemma LexHead(x: int, a: seq<int>, b: seq<int>)
    ensures Lex([x] + a, [x] + b) == Lex(a, b)
  {
    assert ([x] + a)[1..] == a && ([x] + b)[1..] == b;
  }

  lemma TextFront(p: seq<byte>, s: seq<byte>)
    requires p != [] && !IsDigit(p[0]) && Splits(p, s)
    ensures TextKey(p + s) == [Order(p[0])] + TextKey(p[1..] + s) && Splits(p[1..], s)
  {
    hide NumberKey, Order;
    assert (p + s)[1..] == p[1..] + s;
  }

  /** A number in front is in neither case part of a longer one. */
  lemma NumberFront(p: seq<byte>, s: seq<byte>, d: seq<byte>)
    requires p != [] && IsDigit(p[0]) && Splits(p, s) && d == Digits(p)
    ensures d != [] && |d| <= |p| && Splits(p[|d|..], s)
    ensures TextKey(p + s) == [0] + ([Value(d)] + RestKey(p[|d|..] + s))
  {
    hide RestKey, Value, NumberKey;
    var r := p[|d|..];
    assert p == d + r && p + s == d + (r + s);
    DigitsAndMore(d, r + s);
    NumberKeyIs(p + s);
    assert (p + s)[|d|..] == r + s;
  }

  /** So the order of two strings is that from the first difference on. */
  lemma FromDifference(p: seq<byte>, s: seq<byte>, t: seq<byte>)
    requires Splits(p, s) && Splits(p, t)
    ensures PartOrder(p + s, p + t) == Lex(TextKey(s), TextKey(t))
  {
    hide TextKey, Lex, PartOrder;
    StartUndecided(p + s, p + t);
    CommonFront(p, s, t);
  }

  lemma TextStarts(x: byte, u: seq<byte>)
    requires !IsDigit(x)
    ensures TextKey([x] + u) == [Order(x)] + TextKey(u)
  {
    assert ([x] + u)[1..] == u;
    hide Order, NumberKey;
  }

  lemma LexFirst(x: int, a: seq<int>, y: int, b: seq<int>)
    requires x < y
    ensures Lex([x] + a, [y] + b) == -1
  {
  }

  /** Letters come before all other characters, and each kind goes by its codes. */
  lemma CharactersOrdered(p: seq<byte>, x: byte, u: seq<byte>, y: byte, v: seq<byte>)
    requires (Letter(x) && Other(y)) || (x < y && ((Letter(x) && Letter(y)) || (Other(x) && Other(y))))
    ensures PartOrder(p + ([x] + u), p + ([y] + v)) == -1
  {
    hide PartOrder, TextKey, Lex;
    FromDifference(p, [x] + u, [y] + v);
    TextStarts(x, u);
    TextStarts(y, v);
    LexFirst(Order(x), TextKey(u), Order(y), TextKey(v));
  }

  /** A tilde comes before everything, even the end. */
  lemma TildeFirst(p: seq<byte>, u: seq<byte>, y: byte, v: seq<byte>)
    requires Letter(y) || Other(y)
    ensures PartOrder(p + ([126] + u), p) == -1
    ensures PartOrder(p + ([126] + u), p + ([y] + v)) == -1
  {
    hide PartOrder, TextKey, Lex;
    assert p + [] == p;
    FromDifference(p, [126] + u, []);
    FromDifference(p, [126] + u, [y] + v);
    TextStarts(126, u);
    TextStarts(y, v);
    NothingKey();
    assert [0, 0] == [0] + [0];
    LexFirst(-1, TextKey(u), 0, [0]);
    LexFirst(-1, TextKey(u), Order(y), TextKey(v));
  }

  /** The end comes before every other character. */
  lemma EndBefore(p: seq<byte>, y: byte, v: seq<byte>)
    requires Letter(y) || Other(y)
    ensures PartOrder(p, p + ([y] + v)) == -1
  {
    hide PartOrder, TextKey, Lex;
    assert p + [] == p;
    FromDifference(p, [], [y] + v);
    TextStarts(y, v);
    NothingKey();
    assert [0, 0] == [0] + [0];
    LexFirst(0, [0], Order(y), TextKey(v));
  }

  lemma NumberStarts(d: seq<byte>, u: seq<byte>)
    requires d != [] && AllDigits(d) && (u == [] || !IsDigit(u[0]))
    ensures TextKey(d + u) == [0] + ([Value(d)] + RestKey(u))
  {
    assert d + u == (d + u) + [];
    DigitsAndMore(d, u);
    NumberKeyIs(d + u);
    assert (d + u)[|d|..] == u;
    hide Value, RestKey, NumberKey;
  }

  /** Numbers go by what they are, however they are written. */
  lemma NumbersOrdered(p: seq<byte>, d: seq<byte>, u: seq<byte>, e: seq<byte>, v: seq<byte>)
    requires (p == [] || !IsDigit(p[|p| - 1])) && d != [] && e != [] && AllDigits(d) && AllDigits(e)
    requires (u == [] || !IsDigit(u[0])) && (v == [] || !IsDigit(v[0]))
    ensures Value(d) < Value(e) ==> PartOrder(p + (d + u), p + (e + v)) == -1
    ensures Value(d) == Value(e) ==> PartOrder(p + (d + u), p + (e + v)) == Lex(RestKey(u), RestKey(v))
  {
    hide PartOrder, TextKey, Lex, RestKey, Value;
    FromDifference(p, d + u, e + v);
    NumberStarts(d, u);
    NumberStarts(e, v);
    LexHead(0, [Value(d)] + RestKey(u), [Value(e)] + RestKey(v));
    if Value(d) < Value(e) {
      LexFirst(Value(d), RestKey(u), Value(e), RestKey(v));
    } else if Value(d) == Value(e) {
      LexHead(Value(d), RestKey(u), RestKey(v));
    }
  }

  /** Where one has a number and the other text: after a tilde, before the rest. */
  lemma NumberAgainstText(p: seq<byte>, d: seq<byte>, u: seq<byte>, y: byte, v: seq<byte>)
    requires (p == [] || !IsDigit(p[|p| - 1])) && d != [] && AllDigits(d) && (u == [] || !IsDigit(u[0]))
    ensures Letter(y) || Other(y) ==> PartOrder(p + (d + u), p + ([y] + v)) == -1
    ensures y == 126 ==> PartOrder(p + ([y] + v), p + (d + u)) == -1
  {
    hide PartOrder, TextKey, Lex, RestKey, Value;
    NumberStarts(d, u);
    if Letter(y) || Other(y) {
      FromDifference(p, d + u, [y] + v);
      TextStarts(y, v);
      LexFirst(0, [Value(d)] + RestKey(u), Order(y), TextKey(v));
    } else if y == 126 {
      FromDifference(p, [y] + v, d + u);
      TextStarts(y, v);
      LexFirst(-1, TextKey(v), 0, [Value(d)] + RestKey(u));
    }
  }

  // ----- whole versions -----

  /** Digits in front of a colon are the epoch, and what is behind the last hyphen the
      revision. */
  lemma WholeVersion(e: cstring, u: cstring, r: cstring, s: cstring)
    requires e != [] && AllDigits(e) && Value(e) < 0x8000_0000 && HYPHEN !in r
    requires s == e + [COLON] + u + [HYPHEN] + r
    ensures EpochFits(s) && SplitVersion(s) == Version(Value(e), u, Some(r))
  {
    hide Value;
    EpochOf(e, u + [HYPHEN] + r, s);
    var rest: cstring := u + [HYPHEN] + r;
    var h := LastOf(rest, HYPHEN, |rest|);
    assert rest[|u|] == HYPHEN;
    assert forall k :: |u| < k < |rest| ==> rest[k] == r[k - |u| - 1];
    assert h == Some(|u|);
    assert rest[..|u|] == u && rest[|u| + 1..] == r;
  }

  /** Without a hyphen there is no revision. */
  lemma WithoutRevision(e: cstring, u: cstring, s: cstring)
    requires e != [] && AllDigits(e) && Value(e) < 0x8000_0000 && HYPHEN !in u
    requires s == e + [COLON] + u
    ensures EpochFits(s) && SplitVersion(s) == Version(Value(e), u, None)
  {
    hide Value;
    EpochOf(e, u, s);
  }

  /** Without a colon the epoch is 0. */
  lemma WithoutEpoch(u: cstring, r: cstring, s: cstring)
    requires COLON !in s && HYPHEN !in r && s == u + [HYPHEN] + r
    ensures EpochFits(s) && SplitVersion(s) == Version(0, u, Some(r))
  {
    var h := LastOf(s, HYPHEN, |s|);
    assert s[|u|] == HYPHEN;
    assert forall k :: |u| < k < |s| ==> s[k] == r[k - |u| - 1];
    assert h == Some(|u|);
    assert s[..|u|] == u && s[|u| + 1..] == r;
  }

  lemma EpochOf(e: cstring, rest: cstring, s: cstring)
    requires e != [] && AllDigits(e) && Value(e) < 0x8000_0000 && s == e + [COLON] + rest
    ensures EpochFits(s) && SplitEpoch(s) == (Value(e), rest)
  {
    hide Value;
    assert s == e + ([COLON] + rest);
    assert s[|e|] == COLON && forall k :: 0 <= k < |e| ==> s[k] == e[k];
    assert FirstOf(s, COLON, 0) == Some(|e|);
    assert s[|e| + 1..] == rest;
    DigitsAndMore(e, [COLON] + rest);
    assert s[0] == e[0];
    assert SkipSpace(s) == s;
  }
}
