/** What dpkg.c reads from the text of a status or a relation, told by the text: what
    the package tables and the dependency check are checked against. */
module PackageTexts {
  import opened Bits
  import opened PrefixCode
  import opened CStrings
  import opened Versions
  import opened Primes
  import opened Probing
  import opened NameTables
  import opened PackageDb
  import opened Dependencies
  import opened EdgeLayout

  predicate Spaces(g: cstring)
  {
    forall i :: 0 <= i < |g| ==> g[i] == 32
  }

  /** Neither space nor line end. */
  predicate IsWord(w: cstring)
  {
    w != [] && 32 !in w && 10 !in w
  }

  /** A place where a word ends. */
  predicate Ends(s: cstring)
  {
    s == [] || s[0] == 32 || s[0] == 10
  }

  // ----- the three words of a status -----

  lemma FirstWordIs(s: cstring, w: cstring, b: cstring)
    requires IsWord(w) && Ends(b) && s == w + b
    ensures FirstWord(s) == w
  {
    CSpanIs(s, w, b, {32, 10});
  }

  lemma SkipWordIs(s: cstring, w: cstring, g: cstring, b: cstring)
    requires IsWord(w) && g != [] && Spaces(g) && s == w + g + b && b != [] && b[0] != 32
    ensures SkipWord(s) == b
  {
    var behind: cstring := g + b;
    assert s == w + behind;
    CSpanIs(s, w, behind, {32});
    SpanIs(behind, g, b, {32});
  }

  /** The words of a status: what is wanted, a flag, and what is there. */
  predicate StatusText(s: cstring, want: cstring, flag: cstring, state: cstring)
  {
    IsWord(want) && IsWord(flag) && IsWord(state) && s == want + [32] + flag + [32] + state
  }

  lemma WordsAre(s: cstring, want: cstring, flag: cstring, state: cstring)
    requires StatusText(s, want, flag, state)
    ensures Word(s, 1) == want && Word(s, 2) == flag && Word(s, 3) == state
  {
    hide FirstWord, SkipWord;
    var one: cstring := [32];
    var s2: cstring, s3: cstring := flag + one + state, state;
    assert s == want + one + s2 && s2 == flag + one + s3;
    FirstWordIs(s, want, one + s2);
    SkipWordIs(s, want, one, s2);
    FirstWordIs(s2, flag, one + s3);
    SkipWordIs(s2, flag, one, s3);
    assert s3 == state + [];
    FirstWordIs(s3, state, []);
  }

  lemma WordsSpelled()
    ensures INSTALL == Ascii("install") && INSTALLED == Ascii("installed") && ANY == Ascii("ANY")
  {
  }

  // ----- what satisfies a dependency -----

  ghost predicate GoodEdge(t: Tables, e: Edge)
  {
    Sound(t) && EdgeKnown(t.names, e) && !StartsGroup(e.typ) && t.q <= |t.statuses|
  }

  /** The package that would do for an edge, found by its name and version or since it
      provides the name. */
  ghost predicate Candidate(t: Tables, e: Edge, a: nat)
    requires GoodEdge(t, e)
  {
    a < t.p && t.packages[a].Some? && (LookedUp(t, e, a) || Provides(t.packages[a].value, e.name))
  }

  ghost predicate OnlyCandidate(t: Tables, e: Edge, a: nat)
    requires GoodEdge(t, e)
  {
    forall b: nat :: Candidate(t, e, b) <==> b == a
  }

  /** A package has one status only. */
  lemma OneStatus(t: Tables, a: nat, s: nat, s': nat)
    requires Sound(t) && AllKnown(t.names, t.packages) && Linked(t.packages, t.statuses) && t.q <= |t.statuses|
    requires StatusOf(t, a, s) && StatusOf(t, a, s')
    ensures s == s'
  {
    hide PackagesOrdered, EdgesKnown, StatusesKnown, Ordered, FoundAt;
    Injective(StatusKeys(t.names, t.packages, t.statuses), t.q, s, s');
  }

  /** The package has a status that says this. */
  ghost predicate Says(t: Tables, a: nat, s: nat, want: cstring, flag: cstring, state: cstring)
    requires Sound(t)
  {
    SoundFacts(t);
    StatusOf(t, a, s) && StatusText(NameOf(t.names, t.statuses[s].value.status), want, flag, state)
  }

  lemma StatusThere(t: Tables, a: nat, s: nat)
    requires AllKnown(t.names, t.packages) && Linked(t.packages, t.statuses) && StatusOf(t, a, s)
    ensures s < |t.statuses| && t.statuses[s].Some?
  {
  }

  lemma StatusSays(t: Tables, a: nat, s: nat, want: cstring, flag: cstring, state: cstring)
    requires Sound(t) && AllKnown(t.names, t.packages) && Linked(t.packages, t.statuses) && StatusesKnown(t)
    requires t.q <= |t.statuses| && Says(t, a, s, want, flag, state)
    ensures HasStatus(t, a, 1, INSTALL) <==> want == Ascii("install")
    ensures HasStatus(t, a, 3, INSTALLED) <==> state == Ascii("installed")
  {
    hide Sound, Word, StatusOf, Ascii, FirstWord;
    WordsSpelled();
    StatusThere(t, a, s);
    WordsAre(NameOf(t.names, t.statuses[s].value.status), want, flag, state);
    forall s': nat | StatusOf(t, a, s')
      ensures s' == s
    {
      OneStatus(t, a, s, s');
    }
  }

  /** A dependency with one candidate is satisfied if and only if that is to be
      installed, a pre-dependency if and only if it is installed. */
  lemma SatisfiedText(t: Tables, e: Edge, a: nat, s: nat, want: cstring, flag: cstring, state: cstring)
    requires GoodEdge(t, e) && OnlyCandidate(t, e, a) && Says(t, a, s, want, flag, state)
    ensures e.typ == EDGE_DEPENDS ==> Satisfied(t, e) == (want == Ascii("install"))
    ensures e.typ == EDGE_PRE_DEPENDS ==> Satisfied(t, e) == (state == Ascii("installed"))
  {
    hide Sound, EdgeKnown, LookedUp, Provides, HasStatus, Says, Ascii;
    SoundFacts(t);
    StatusSays(t, a, s, want, flag, state);
    assert Candidate(t, e, a);
    assert Satisfied(t, e) <==> SatisfiedBy(t, e, a) by {
      if Satisfied(t, e) {
        var b: nat :| SatisfiedBy(t, e, b);
        assert Candidate(t, e, b);
      }
    }
  }

  /** And then so is a package that has only this dependency. */
  lemma OneDependency(t: Tables, e: Edge)
    requires Sound(t) && EdgeKnown(t.names, e) && IsDependency(e.typ) && GroupsKnown(t, [Plain(e)])
    ensures GroupsOk(t, [Plain(e)], 1) <==> Satisfied(t, e)
  {
    hide Sound, EdgeKnown, Satisfied;
    var gs := [Plain(e)];
    assert gs[0] == Plain(e) && GroupKnown(t.names, gs[0]);
    assert GroupOk(t, gs[0]) <==> Satisfied(t, e);
  }

  /** A package without a status satisfies nothing. */
  lemma NoStatusNotReady(t: Tables, a: nat, typ: nat)
    requires Sound(t) && AllKnown(t.names, t.packages) && Linked(t.packages, t.statuses) && StatusesKnown(t)
    requires forall s: nat :: !StatusOf(t, a, s)
    ensures !Ready(t, a, typ)
  {
    hide Sound, StatusOf;
  }

  // ----- the text of a relation -----

  /** A package name or a version: no space and no parenthesis. */
  predicate IsName(n: cstring)
  {
    n != [] && 32 !in n && 40 !in n && 41 !in n
  }

  predicate IsOperator(op: cstring)
  {
    op != [] && forall i :: 0 <= i < |op| ==> 60 <= op[i] <= 62
  }

  /** Spaces, the name, spaces. */
  lemma NameAlone(token: cstring, lead: cstring, n: cstring, gap: cstring)
    requires Spaces(lead) && Spaces(gap) && IsName(n) && token == lead + n + gap
    ensures NameText(token) == n && !HasVersion(token) && VersionText(token) == ANY
  {
    var t: cstring := n + gap;
    assert token == lead + t;
    SpanIs(token, lead, t, {SPACE});
    CSpanIs(t, n, gap, {SPACE, OPEN});
    assert t == t + [];
    CSpanIs(t, t, [], {OPEN});
  }

  /** Spaces, the name, spaces, and in parentheses an operator, spaces, and a version. */
  predicate RelationText(token: cstring, lead: cstring, n: cstring, gap: cstring, op: cstring, space: cstring, v: cstring, behind: cstring)
  {
    && Spaces(lead) && Spaces(gap) && Spaces(space) && IsName(n) && IsOperator(op) && IsName(v) && !(60 <= v[0] <= 62)
    && token == lead + n + gap + [40] + op + space + v + [41] + behind
  }

  lemma RelationIs(token: cstring, lead: cstring, n: cstring, gap: cstring, op: cstring, space: cstring, v: cstring, behind: cstring)
    requires RelationText(token, lead, n, gap, op, space, v, behind)
    ensures NameText(token) == n && HasVersion(token) && OperatorText(token) == op && VersionText(token) == v
  {
    hide Span, CSpan, SkipAll, UpTo;
    var inner: cstring := op + space + v + [41] + behind;
    var b: cstring := [40] + inner;
    var t: cstring := n + (gap + b);
    assert token == lead + t;
    InsideParentheses(inner, op, space, v, behind);
    NameBehind(token, lead, n, gap, b, t);
    ParenthesisBehind(t, n, gap, b, inner);
  }

  lemma NameBehind(token: cstring, lead: cstring, n: cstring, gap: cstring, b: cstring, t: cstring)
    requires Spaces(lead) && IsName(n) && Spaces(gap) && b != [] && b[0] == 40 && t == n + (gap + b) && token == lead + t
    ensures SkipAll(token, {SPACE}) == t && UpTo(t, {SPACE, OPEN}) == n
  {
    SpanIs(token, lead, t, {SPACE});
    NameFront(t, n, gap, b);
  }

  lemma ParenthesisBehind(t: cstring, n: cstring, gap: cstring, b: cstring, inner: cstring)
    requires IsName(n) && Spaces(gap) && b == [40] + inner && t == n + (gap + b) && inner != [] && inner[0] != 32 && inner[0] != 40
    ensures CSpan(t, {OPEN}) < |t| && SkipAll(t[CSpan(t, {OPEN})..], {SPACE, OPEN}) == inner
  {
    BeforeOpen(n, gap);
    assert t == (n + gap) + b;
    OpenAt(t, n + gap, b);
    SpanIs(b, [40], inner, {SPACE, OPEN});
  }

  lemma BeforeOpen(n: cstring, gap: cstring)
    requires IsName(n) && Spaces(gap)
    ensures 40 !in n + gap && 0 !in n + gap
  {
  }

  lemma NameFront(t: cstring, n: cstring, gap: cstring, b: cstring)
    requires IsName(n) && Spaces(gap) && t == n + (gap + b) && b != [] && b[0] == 40
    ensures UpTo(t, {SPACE, OPEN}) == n
  {
    var c: cstring := gap + b;
    assert c[0] == if gap == [] then b[0] else gap[0];
    CSpanIs(t, n, c, {SPACE, OPEN});
  }

  lemma OpenAt(t: cstring, a: cstring, b: cstring)
    requires t == a + b && 40 !in a && b != [] && b[0] == 40
    ensures CSpan(t, {OPEN}) < |t| && t[CSpan(t, {OPEN})..] == b
  {
    CSpanIs(t, a, b, {OPEN});
  }

  lemma InsideParentheses(inner: cstring, op: cstring, space: cstring, v: cstring, behind: cstring)
    requires IsOperator(op) && Spaces(space) && IsName(v) && !(60 <= v[0] <= 62) && inner == op + space + v + [41] + behind
    ensures inner != [] && inner[0] != 32 && inner[0] != 40
    ensures Span(inner, {60, 61, 62}) == |op| && inner[..|op|] == op
    ensures UpTo(SkipAll(inner[|op|..], {SPACE}), {SPACE, CLOSE}) == v
  {
    hide Span, CSpan, SkipAll, UpTo;
    var d: cstring := [41] + behind;
    var c: cstring := v + d;
    assert inner == op + (space + c);
    OperatorFirst(inner, op, space, c);
    VersionFirst(space + c, space, v, d);
  }

  lemma OperatorFirst(inner: cstring, op: cstring, space: cstring, c: cstring)
    requires IsOperator(op) && Spaces(space) && c != [] && !(60 <= c[0] <= 62) && inner == op + (space + c)
    ensures inner != [] && inner[0] == op[0]
    ensures Span(inner, {60, 61, 62}) == |op| && inner[..|op|] == op && inner[|op|..] == space + c
  {
    var b: cstring := space + c;
    assert b[0] == if space == [] then c[0] else space[0];
    SpanIs(inner, op, b, {60, 61, 62});
  }

  lemma VersionFirst(b: cstring, space: cstring, v: cstring, d: cstring)
    requires Spaces(space) && IsName(v) && d != [] && d[0] == 41 && b == space + (v + d)
    ensures UpTo(SkipAll(b, {SPACE}), {SPACE, CLOSE}) == v
  {
    var c: cstring := v + d;
    assert c[0] == v[0];
    SpanIs(b, space, c, {SPACE});
    CSpanIs(c, v, d, {SPACE, CLOSE});
  }

  /** The seven spellings of the five operators. */
  lemma OperatorsSpelled()
    ensures OperatorOf(Ascii("=")) == Some(VerEqual)
    ensures OperatorOf(Ascii("<<")) == OperatorOf(Ascii("<")) == Some(VerLess) && OperatorOf(Ascii("<=")) == Some(VerLessEqual)
    ensures OperatorOf(Ascii(">>")) == OperatorOf(Ascii(">")) == Some(VerMore) && OperatorOf(Ascii(">=")) == Some(VerMoreEqual)
  {
    assert Ascii("=") == [61] && Ascii("<<") == [60, 60] && Ascii("<") == [60] && Ascii("<=") == [60, 61];
    assert Ascii(">>") == [62, 62] && Ascii(">") == [62] && Ascii(">=") == [62, 61];
  }
}
