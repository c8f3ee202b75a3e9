/** How dpkg.c lays out the relations of a package: one edge for a relation by
    itself, and for alternatives an edge that counts those behind it. */
module EdgeLayout {
  import opened Bits
  import opened PrefixCode
  import opened CStrings
  import opened Versions
  import opened Probing
  import opened NameTables
  import opened PackageDb
  import opened Dependencies

  const SPACE: byte := 32
  const COMMA: byte := 44
  const BAR: byte := 124
  const OPEN: byte := 40
  const CLOSE: byte := 41
  const ANY: cstring := [65, 78, 89]

  // ----- tokens -----

  /** `strtok_r`: the next token and what is left. */
  function NextToken(s: cstring, d: byte): (r: Option<(cstring, cstring)>)
    ensures r.Some? ==> |r.value.1| < |s|
  {
    var t := SkipAll(s, {d});
    if t == [] then None
    else
      var n := CSpan(t, {d});
      Some((t[..n], if n < |t| then t[n + 1..] else []))
  }

  /** The tokens of a string: what `strtok_r` returns until it returns nothing. */
  function Tokens(s: cstring, d: byte): seq<cstring>
    decreases |s|
  {
    match NextToken(s, d)
    case None => []
    case Some(r) => [r.0] + Tokens(r.1, d)
  }

  /** A string is its own first token exactly if there are no delimiters to split
      it at; then it is the only one. */
  lemma OnlyToken(s: cstring, d: byte)
    requires Tokens(s, d) != []
    ensures Tokens(s, d)[0] == s <==> d !in s
    ensures d !in s ==> Tokens(s, d) == [s]
  {
    var t := SkipAll(s, {d});
    if d !in s {
      assert t == s && CSpan(t, {d}) == |t|;
      assert Tokens([], d) == [];
    }
  }

  // ----- what a relation says -----

  /** The name of a relation, which a version in parentheses may follow. */
  function NameText(token: cstring): cstring
  {
    UpTo(SkipAll(token, {SPACE}), {SPACE, OPEN})
  }

  function HasVersion(token: cstring): bool
  {
    var t := SkipAll(token, {SPACE});
    CSpan(t, {OPEN}) < |t|
  }

  /** From the parenthesis on, without it and spaces. */
  function Inner(token: cstring): cstring
  {
    var t := SkipAll(token, {SPACE});
    SkipAll(t[CSpan(t, {OPEN})..], {SPACE, OPEN})
  }

  function OperatorText(token: cstring): cstring
  {
    var v := Inner(token);
    v[..Span(v, {60, 61, 62})]
  }

  function VersionText(token: cstring): cstring
  {
    var v := Inner(token);
    if HasVersion(token) then UpTo(SkipAll(v[Span(v, {60, 61, 62})..], {SPACE}), {SPACE, CLOSE}) else ANY
  }

  /** The operators there are; a single < or > stands for a double one. */
  function OperatorOf(s: cstring): Option<Operator>
  {
    if s == [61] then Some(VerEqual)
    else if s == [60] || s == [60, 60] then Some(VerLess)
    else if s == [60, 61] then Some(VerLessEqual)
    else if s == [62] || s == [62, 62] then Some(VerMore)
    else if s == [62, 61] then Some(VerMoreEqual)
    else None
  }

  predicate Legal(token: cstring)
  {
    HasVersion(token) && OperatorText(token) != [] ==> OperatorOf(OperatorText(token)).Some?
  }

  ghost predicate Named(names: Slots, id: nat, s: cstring)
  {
    id < |names| && names[id] == Some(s)
  }

  /** The operator that the edge of a relation may have. If there is a version but
      no operator in front of it, nothing is stored, and it may be any. */
  predicate OperatorFits(op: Operator, token: cstring)
  {
    if !HasVersion(token) then op == VerAny
    else OperatorText(token) == [] || OperatorOf(OperatorText(token)) == Some(op)
  }

  /** So the relation determines the operator exactly if that does not happen. */
  lemma OperatorDetermined(token: cstring)
    requires Legal(token)
    ensures (forall a, b :: OperatorFits(a, token) && OperatorFits(b, token) ==> a == b)
         <==> !HasVersion(token) || OperatorText(token) != []
  {
    hide HasVersion, OperatorText, OperatorOf;
    if HasVersion(token) && OperatorText(token) == [] {
      assert OperatorFits(VerEqual, token) && OperatorFits(VerLess, token);
    }
  }

  /** In "foo (1.0)" it does. */
  lemma OperatorLeftOpen()
    ensures var token: cstring := [102, 111, 111, 32, 40, 49, 46, 48, 41];
            Legal(token) && OperatorFits(VerEqual, token) && OperatorFits(VerLess, token)
  {
    var token: cstring := [102, 111, 111, 32, 40, 49, 46, 48, 41];
    assert SkipAll(token, {SPACE}) == token;
    var n := CSpan(token, {OPEN});
    assert token[4] == OPEN && n <= 4;
    assert n in {0, 1, 2, 3, 4} && token[n] == OPEN;
    var t: cstring := token[4..];
    assert t == [40, 49, 46, 48, 41];
    assert Span(t, {SPACE, OPEN}) == 1;
    assert Inner(token) == t[1..];
    assert Span(t[1..], {60, 61, 62}) == 0;
  }

  /** The edge that a relation becomes. */
  ghost predicate EdgeOf(names: Slots, e: Edge, token: cstring, typ: nat)
  {
    && e.typ == typ && Named(names, e.name, NameText(token)) && Named(names, e.version, VersionText(token)) && OperatorFits(e.op, token)
  }

  // ----- what a line of relations says -----

  datatype Piece = Alone(token: cstring) | Either(field: cstring, tokens: seq<cstring>)

  function Singles(tokens: seq<cstring>): (ps: seq<Piece>)
  {
    seq(|tokens|, i requires 0 <= i < |tokens| => Alone(tokens[i]))
  }

  function FieldPieces(field: cstring, typ: nat): seq<Piece>
  {
    if IsDependency(typ) && BAR in field then [Either(field, Tokens(field, BAR))] else Singles(Tokens(field, BAR))
  }

  /** Each dependency, be it with or without alternatives, is one piece. */
  lemma OnePieceEach(field: cstring, typ: nat)
    requires IsDependency(typ) && Tokens(field, BAR) != []
    ensures |FieldPieces(field, typ)| == 1
    ensures FieldPieces(field, typ)[0] == if BAR in field then Either(field, Tokens(field, BAR)) else Alone(field)
  {
    OnlyToken(field, BAR);
  }

  function Pieces(tokens: seq<cstring>, typ: nat): seq<Piece>
  {
    if tokens == [] then []
    else Pieces(tokens[..|tokens| - 1], typ) + FieldPieces(SkipAll(tokens[|tokens| - 1], {SPACE}), typ)
  }

  ghost predicate GroupOf(names: Slots, g: Group, p: Piece, typ: nat)
  {
    match p
    case Alone(token) => g.Plain? && EdgeOf(names, g.e, token, typ)
    case Either(field, tokens) =>
      && g.Alternatives? && g.root.typ == typ + 1 && Named(names, g.root.name, field)
      && g.root.version == |g.alts| == |tokens| && forall k :: 0 <= k < |tokens| ==> EdgeOf(names, g.alts[k], tokens[k], typ)
  }

  ghost predicate GroupsOf(names: Slots, gs: seq<Group>, ps: seq<Piece>, typ: nat)
  {
    |gs| == |ps| && forall i :: 0 <= i < |gs| ==> GroupOf(names, gs[i], ps[i], typ)
  }

  /** A line of relations: it has a field, and each field an alternative. */
  ghost predicate GoodLine(line: cstring)
  {
    && Tokens(line, COMMA) != []
    && forall i :: 0 <= i < |Tokens(line, COMMA)| ==> Tokens(SkipAll(Tokens(line, COMMA)[i], {SPACE}), BAR) != []
  }

  ghost predicate WordsIn(tokens: seq<cstring>, need: set<cstring>)
  {
    forall k :: 0 <= k < |tokens| ==> NameText(tokens[k]) in need && VersionText(tokens[k]) in need
  }

  ghost predicate FieldIn(field: cstring, need: set<cstring>)
  {
    field in need && WordsIn(Tokens(field, BAR), need)
  }

  /** Everything that may have to be entered into the name table. */
  ghost predicate LineIn(line: cstring, need: set<cstring>)
  {
    ANY in need && forall i :: 0 <= i < |Tokens(line, COMMA)| ==> FieldIn(SkipAll(Tokens(line, COMMA)[i], {SPACE}), need)
  }

  ghost predicate AllLegal(tokens: seq<cstring>)
  {
    forall k :: 0 <= k < |tokens| ==> Legal(tokens[k])
  }

  ghost predicate FieldLegal(field: cstring)
  {
    AllLegal(Tokens(field, BAR))
  }

  ghost predicate LineLegal(line: cstring)
  {
    forall i :: 0 <= i < |Tokens(line, COMMA)| ==> FieldLegal(SkipAll(Tokens(line, COMMA)[i], {SPACE}))
  }

  /** How adding relations ends. With nothing to split, `strtok_r` returns NULL, for
      which what is done next has no meaning in C. */
  datatype Added = Done | IllegalOperator | NothingToSplit

  ghost function FieldOutcome(field: cstring): Added
  {
    if Tokens(field, BAR) == [] then NothingToSplit else if FieldLegal(field) then Done else IllegalOperator
  }

  /** The first field that is not as it should be decides. */
  ghost function FieldsOutcome(fields: seq<cstring>): Added
  {
    if fields == [] then Done
    else
      var before := FieldsOutcome(fields[..|fields| - 1]);
      if before.Done? then FieldOutcome(SkipAll(fields[|fields| - 1], {SPACE})) else before
  }

  ghost function LineOutcome(line: cstring): Added
  {
    if Tokens(line, COMMA) == [] then NothingToSplit else FieldsOutcome(Tokens(line, COMMA))
  }

  lemma {:induction false} FirstDecides(fields: seq<cstring>, k: nat)
    requires k <= |fields| && !FieldsOutcome(fields[..k]).Done?
    ensures FieldsOutcome(fields) == FieldsOutcome(fields[..k])
  {
    hide FieldOutcome;
    if k == |fields| {
      assert fields[..k] == fields;
    } else {
      assert fields[..|fields| - 1][..k] == fields[..k];
      FirstDecides(fields[..|fields| - 1], k);
    }
  }

  lemma {:induction false} AllFieldsDone(fields: seq<cstring>)
    ensures FieldsOutcome(fields).Done? <==> forall i :: 0 <= i < |fields| ==> FieldOutcome(SkipAll(fields[i], {SPACE})).Done?
  {
    hide FieldOutcome, SkipAll;
    if fields != [] {
      AllFieldsDone(fields[..|fields| - 1]);
    }
  }

  /** A line is split to the end exactly if it has a field, each field has an
      alternative, and every operator is legal. */
  lemma DoneIff(line: cstring)
    ensures LineOutcome(line).Done? <==> GoodLine(line) && LineLegal(line)
  {
    hide Tokens, SkipAll, FieldLegal, FieldsOutcome;
    AllFieldsDone(Tokens(line, COMMA));
  }

  /** There is nothing to split exactly if the line has no field, or the first
      field that is not as it should be has no alternative. */
  lemma NothingToSplitIff(line: cstring)
    ensures LineOutcome(line).NothingToSplit? <==>
      Tokens(line, COMMA) == [] || exists i :: 0 <= i < |Tokens(line, COMMA)| && StopsAt(Tokens(line, COMMA), i)
  {
    hide Tokens, SkipAll, FieldLegal;
    NothingIff(Tokens(line, COMMA));
  }

  ghost predicate StopsAt(fields: seq<cstring>, i: nat)
    requires i < |fields|
  {
    FieldsOutcome(fields[..i]).Done? && Tokens(SkipAll(fields[i], {SPACE}), BAR) == []
  }

  lemma {:induction false} NothingIff(fields: seq<cstring>)
    ensures FieldsOutcome(fields).NothingToSplit? <==> exists i :: 0 <= i < |fields| && StopsAt(fields, i)
  {
    hide Tokens, SkipAll, FieldLegal;
    if fields != [] {
      var n := |fields| - 1;
      var init := fields[..n];
      NothingIff(init);
      if i :| 0 <= i < n && StopsAt(init, i) {
        assert init[..i] == fields[..i] && StopsAt(fields, i);
      }
      if i :| 0 <= i < |fields| && StopsAt(fields, i) && i < n {
        assert init[..i] == fields[..i] && StopsAt(init, i);
      }
      assert StopsAt(fields, n) <==> FieldsOutcome(init).Done? && Tokens(SkipAll(fields[n], {SPACE}), BAR) == [];
    }
  }

  /** As in any name with a comma and a space behind it. */
  lemma CommaAtEnd(name: cstring, line: cstring)
    requires name != [] && name[0] != SPACE && OPEN !in name && BAR !in name && COMMA !in name
    requires line == name + [COMMA] + [SPACE]
    ensures LineOutcome(line).NothingToSplit?
  {
    hide Tokens, SkipAll, FieldOutcome, FieldsOutcome;
    var blank: cstring := [SPACE];
    FirstOfTwo(line, name, blank, COMMA);
    OnlyOne(blank, COMMA);
    NameDone(name);
    BlankNothing();
    var fields := Tokens(line, COMMA);
    assert |fields| == 2 && fields[0] == name && fields[1] == blank;
    assert fields[..0] == [] && fields[..2] == fields;
    NoFields();
    OutcomeNext(fields, 0);
    OutcomeNext(fields, 1);
  }

  /** "foo, " */
  lemma NothingBehindComma()
    ensures LineOutcome([102, 111, 111, 44, 32]).NothingToSplit?
  {
    hide LineOutcome;
    var foo: cstring := [102, 111, 111];
    CommaAtEnd(foo, foo + [COMMA] + [SPACE]);
    assert foo + [COMMA] + [SPACE] == [102, 111, 111, 44, 32];
  }

  lemma NoFields()
    ensures FieldsOutcome([]).Done?
  {
  }

  lemma NameDone(name: cstring)
    requires name != [] && name[0] != SPACE && OPEN !in name && BAR !in name
    ensures SkipAll(name, {SPACE}) == name && FieldOutcome(name).Done?
  {
    OnlyOne(name, BAR);
    NoVersion(name);
    hide Tokens, Legal;
  }

  lemma BlankNothing()
    ensures FieldOutcome(SkipAll([32], {SPACE})).NothingToSplit?
  {
    assert SkipAll([32], {SPACE}) == [];
  }

  lemma FirstOfTwo(s: cstring, a: cstring, b: cstring, d: byte)
    requires a != [] && d !in a && s == a + [d] + b
    ensures Tokens(s, d) == [a] + Tokens(b, d)
  {
    assert s[0] == a[0] && SkipAll(s, {d}) == s;
    var n := CSpan(s, {d});
    assert s[|a|] == d && n <= |a|;
    assert forall i :: 0 <= i < |a| ==> s[i] == a[i];
    assert s[..n] == a && s[n + 1..] == b;
  }

  lemma OnlyOne(s: cstring, d: byte)
    requires s != [] && d !in s
    ensures Tokens(s, d) == [s]
  {
    assert SkipAll(s, {d}) == s && CSpan(s, {d}) == |s|;
    assert s[..|s|] == s && Tokens([], d) == [];
  }

  lemma NoVersion(s: cstring)
    requires s != [] && s[0] != SPACE && OPEN !in s
    ensures Legal(s)
  {
    assert SkipAll(s, {SPACE}) == s && CSpan(s, {OPEN}) == |s|;
  }

  // ----- strings added later change nothing -----

  lemma GrowsHere(names: Slots, names': Slots, id: nat, s: cstring)
    requires Grows(names, names')
    ensures Named(names, id, s) ==> Named(names', id, s)
  {
  }

  lemma EdgeOfKept(names: Slots, names': Slots, e: Edge, token: cstring, typ: nat)
    requires Grows(names, names') && EdgeOf(names, e, token, typ)
    ensures EdgeOf(names', e, token, typ)
  {
    hide NameText, VersionText, OperatorText, HasVersion;
  }

  lemma GroupsKept(names: Slots, names': Slots, gs: seq<Group>, ps: seq<Piece>, typ: nat)
    requires Grows(names, names') && GroupsOf(names, gs, ps, typ)
    ensures GroupsOf(names', gs, ps, typ)
  {
    hide EdgeOf;
    forall i | 0 <= i < |gs|
      ensures GroupOf(names', gs[i], ps[i], typ)
    {
      assert GroupOf(names, gs[i], ps[i], typ);
      if ps[i].Alone? {
        EdgeOfKept(names, names', gs[i].e, ps[i].token, typ);
      } else {
        EdgesKept(names, names', gs[i].alts, ps[i].tokens, typ);
      }
    }
  }

  ghost predicate EdgesOf(names: Slots, es: seq<Edge>, tokens: seq<cstring>, typ: nat)
  {
    |es| == |tokens| && forall k :: 0 <= k < |tokens| ==> EdgeOf(names, es[k], tokens[k], typ)
  }

  lemma EdgesKept(names: Slots, names': Slots, es: seq<Edge>, tokens: seq<cstring>, typ: nat)
    requires Grows(names, names') && EdgesOf(names, es, tokens, typ)
    ensures EdgesOf(names', es, tokens, typ)
  {
    hide EdgeOf;
    forall k | 0 <= k < |tokens|
      ensures EdgeOf(names', es[k], tokens[k], typ)
    {
      EdgeOfKept(names, names', es[k], tokens[k], typ);
    }
  }

  /** What a line becomes is laid out as the dependency check needs it. */
  lemma GoodLayout(names: Slots, gs: seq<Group>, tokens: seq<cstring>, typ: nat)
    requires GroupsOf(names, gs, Pieces(tokens, typ), typ) && !StartsGroup(typ)
    requires forall i :: 0 <= i < |tokens| ==> Tokens(SkipAll(tokens[i], {SPACE}), BAR) != []
    ensures GoodGroups(gs)
  {
    hide EdgeOf, Tokens, Pieces, SkipAll;
    PiecesGood(tokens, typ);
    forall i | 0 <= i < |gs|
      ensures GoodGroup(gs[i])
    {
      assert GroupOf(names, gs[i], Pieces(tokens, typ)[i], typ);
      assert PieceGood(Pieces(tokens, typ)[i], typ);
      GoodOne(names, gs[i], Pieces(tokens, typ)[i], typ);
    }
  }

  predicate PieceGood(p: Piece, typ: nat)
  {
    p.Either? ==> IsDependency(typ) && p.tokens != []
  }

  lemma GoodOne(names: Slots, g: Group, p: Piece, typ: nat)
    requires GroupOf(names, g, p, typ) && PieceGood(p, typ) && !StartsGroup(typ)
    ensures GoodGroup(g)
  {
    hide NameText, VersionText, OperatorText, HasVersion;
  }

  lemma {:induction false} PiecesGood(tokens: seq<cstring>, typ: nat)
    requires forall i :: 0 <= i < |tokens| ==> Tokens(SkipAll(tokens[i], {SPACE}), BAR) != []
    ensures forall i :: 0 <= i < |Pieces(tokens, typ)| ==> PieceGood(Pieces(tokens, typ)[i], typ)
  {
    hide Tokens, SkipAll;
    if tokens != [] {
      PiecesGood(tokens[..|tokens| - 1], typ);
    }
  }

  lemma FlattenEmpty()
    ensures Flatten([]) == []
  {
  }

  lemma {:induction false} FlattenAppend(gs: seq<Group>, hs: seq<Group>)
    ensures Flatten(gs + hs) == Flatten(gs) + Flatten(hs)
  {
    hide GroupEdges, Flatten;
    if hs == [] {
      assert gs + hs == gs;
      assert Flatten([]) == [] by {
        FlattenEmpty();
      }
    } else {
      var init, last := hs[..|hs| - 1], hs[|hs| - 1];
      FlattenAppend(gs, init);
      FlattenSnoc(gs + init, last);
      FlattenSnoc(init, last);
      assert hs == init + [last] && gs + hs == (gs + init) + [last];
    }
  }

  // ----- adding edges -----

  /** The name table is in order and has room for what will be entered. */
  ghost predicate Open(table: NameTable, need: set<cstring>)
    reads table.slots
  {
    table.Valid() && Capacity(table.slots[..], table.prime, need)
  }

  /** `search_name_hashtable`, where the string is known to find a place. */
  method Enter(table: NameTable, w: cstring, ghost need: set<cstring>) returns (id: nat)
    requires Open(table, need) && w in need
    modifies table.slots
    ensures Open(table, need)
    ensures Named(table.slots[..], id, w) && Grows(old(table.slots[..]), table.slots[..])
  {
    hide Ordered, Capacity, Present, HasRoom;
    ghost var ns, p := table.slots[..], table.prime;
    CanSearch(ns, p, need, w);
    id := table.Search(w);
    if !Present(ns, p, w) {
      NewSlot(ns, p, w, id, table.slots[..]);
      CapacityKept(ns, p, need, w, id);
    }
  }

  /** The operator that stands before a version, compared up to its length; None
      if there is no such operator. */
  method ReadOperator(s: cstring) returns (op: Option<Operator>)
    requires s != []
    ensures op == OperatorOf(s)
  {
    if s <= [61] {
      op := Some(VerEqual);
    } else if s <= [60, 60] {
      op := Some(VerLess);
    } else if s <= [60, 61] {
      op := Some(VerLessEqual);
    } else if s <= [62, 62] {
      op := Some(VerMore);
    } else if s <= [62, 61] {
      op := Some(VerMoreEqual);
    } else {
      op := None;
    }
  }

  /** The edge of one relation, which fails if its operator is not legal. */
  method MakeEdge(table: NameTable, token: cstring, typ: nat, ghost need: set<cstring>) returns (edge: Option<Edge>)
    requires Open(table, need) && ANY in need
    requires NameText(token) in need && VersionText(token) in need
    modifies table.slots
    ensures Open(table, need) && Grows(old(table.slots[..]), table.slots[..])
    ensures edge.Some? == Legal(token)
    ensures edge.Some? ==> EdgeOf(table.slots[..], edge.value, token, typ)
  {
    hide Open, Span, CSpan, OperatorOf, SkipAll, UpTo;
    var field2 := SkipAll(token, {SPACE});
    var at := CSpan(field2, {OPEN});
    var op: Operator, version: nat;
    if at == |field2| {
      op := VerAny;
      version := Enter(table, ANY, need);
    } else {
      var v := SkipAll(field2[at..], {SPACE, OPEN});
      var offset := Span(v, {60, 61, 62});
      if offset > 0 {
        var legal := ReadOperator(v[..offset]);
        if legal.None? {
          return None;
        }
        op := legal.value;
      } else {
        op := *;
      }
      v := UpTo(SkipAll(v[offset..], {SPACE}), {SPACE, CLOSE});
      version := Enter(table, v, need);
    }
    ghost var ns := table.slots[..];
    var name := Enter(table, UpTo(field2, {SPACE, OPEN}), need);
    GrowsHere(ns, table.slots[..], version, VersionText(token));
    edge := Some(Edge(op, typ, name, version));
  }

  /** The edges of the alternatives so far, behind the edge that counts them. */
  function Rooted(root: Option<Edge>, alts: seq<Edge>): seq<Edge>
  {
    if root.Some? then [root.value.(version := |alts|)] + alts else alts
  }

  ghost predicate RootOf(names: Slots, root: Option<Edge>, field: cstring, typ: nat)
  {
    && root.Some? == (IsDependency(typ) && BAR in field)
    && (root.Some? ==> root.value.typ == typ + 1 && Named(names, root.value.name, field))
  }

  function Plains(es: seq<Edge>): seq<Group>
  {
    seq(|es|, i requires 0 <= i < |es| => Plain(es[i]))
  }

  function FieldGroups(root: Option<Edge>, alts: seq<Edge>): seq<Group>
  {
    if root.Some? then [Alternatives(root.value.(version := |alts|), alts)] else Plains(alts)
  }

  lemma {:induction false} FlattenPlains(es: seq<Edge>)
    ensures Flatten(Plains(es)) == es
  {
    if es != [] {
      var init, e := es[..|es| - 1], es[|es| - 1];
      FlattenPlains(init);
      assert Plains(es) == Plains(init) + [Plain(e)];
      FlattenSnoc(Plains(init), Plain(e));
    }
  }

  lemma FieldDone(names: Slots, root: Option<Edge>, alts: seq<Edge>, field: cstring, typ: nat, gs0: seq<Group>)
    requires RootOf(names, root, field, typ) && EdgesOf(names, alts, Tokens(field, BAR), typ)
    ensures Flatten(gs0) + Rooted(root, alts) == Flatten(gs0 + FieldGroups(root, alts))
    ensures GroupsOf(names, FieldGroups(root, alts), FieldPieces(field, typ), typ)
  {
    hide EdgeOf, Tokens, Flatten;
    if root.Some? {
      FlattenSnoc(gs0, Alternatives(root.value.(version := |alts|), alts));
    } else {
      FlattenPlains(alts);
      FlattenAppend(gs0, Plains(alts));
    }
  }

  /** One more alternative: its edge goes to the end and is counted. */
  lemma OneMore(edges0: seq<Edge>, root: Option<Edge>, alts: seq<Edge>, e: Edge)
    ensures root.Some? ==> |edges0| < |edges0 + Rooted(root, alts)|
    ensures var edges, r := edges0 + Rooted(root, alts), |edges0|;
            (if root.Some? then edges[r := edges[r].(version := edges[r].version + 1)] else edges) + [e]
            == edges0 + Rooted(root, alts + [e])
  {
    var edges := edges0 + Rooted(root, alts);
    if root.Some? {
      assert edges[|edges0|] == root.value.(version := |alts|);
    }
  }

  lemma NoToken(s: cstring, d: byte)
    ensures NextToken(s, d).None? <==> Tokens(s, d) == []
  {
    hide NextToken;
  }

  lemma OutcomeNext(fields: seq<cstring>, k: nat)
    requires k < |fields| && FieldsOutcome(fields[..k]).Done?
    ensures FieldsOutcome(fields[..k + 1]) == FieldOutcome(SkipAll(fields[k], {SPACE}))
  {
    hide FieldOutcome, SkipAll;
    assert fields[..k + 1][..k] == fields[..k];
  }

  lemma FirstToken(s: cstring, d: byte)
    requires Tokens(s, d) != []
    ensures NextToken(s, d).Some? && Tokens(s, d)[0] == NextToken(s, d).value.0
    ensures Tokens(s, d)[1..] == Tokens(NextToken(s, d).value.1, d)
  {
    hide NextToken;
  }

  lemma TokenBehind(tokens: seq<cstring>, k: nat, rest: cstring, d: byte)
    requires k < |tokens| && tokens[k + 1..] == Tokens(rest, d)
    ensures NextToken(rest, d).None? ==> k + 1 == |tokens|
    ensures NextToken(rest, d).Some? ==> k + 1 < |tokens| && tokens[k + 1] == NextToken(rest, d).value.0
    ensures NextToken(rest, d).Some? ==> tokens[k + 2..] == Tokens(NextToken(rest, d).value.1, d)
  {
    hide NextToken;
    var s := Tokens(rest, d);
    assert |s| == |tokens| - k - 1;
    if NextToken(rest, d).Some? {
      assert tokens[k + 1] == s[0];
      assert s[1..] == tokens[k + 2..];
    }
  }

  lemma EdgesMore(names: Slots, names': Slots, alts: seq<Edge>, tokens: seq<cstring>, k: nat, e: Edge, typ: nat)
    requires Grows(names, names') && k < |tokens| && EdgesOf(names, alts, tokens[..k], typ)
    requires EdgeOf(names', e, tokens[k], typ)
    ensures EdgesOf(names', alts + [e], tokens[..k + 1], typ)
  {
    hide EdgeOf;
    EdgesKept(names, names', alts, tokens[..k], typ);
  }

  lemma GrowsOn(a: Slots, b: Slots, c: Slots)
    requires Grows(a, b) && Grows(b, c)
    ensures Grows(a, c)
  {
  }

  lemma RootKept(names: Slots, names': Slots, root: Option<Edge>, field: cstring, typ: nat)
    requires Grows(names, names') && RootOf(names, root, field, typ)
    ensures RootOf(names', root, field, typ)
  {
  }

  /** Before the first alternative. */
  lemma Started(ns0: Slots, names: Slots, root: Option<Edge>, field: cstring, typ: nat, edges0: seq<Edge>)
    requires root.Some? == (IsDependency(typ) && BAR in field)
    requires root.Some? ==> root.value.typ == typ + 1 && Named(names, root.value.name, field) && root.value.version == 0
    ensures RootOf(names, root, field, typ) && EdgesOf(names, [], [], typ) && Grows(ns0, ns0)
    ensures edges0 + Rooted(root, []) == if root.Some? then edges0 + [root.value] else edges0
  {
    hide EdgeOf;
  }

  /** The inner loop: an edge for each alternative of a field, behind one that
      counts them if the field is a dependency that has several. */
  method AddField(table: NameTable, edges0: seq<Edge>, field: cstring, typ: nat, ghost gs0: seq<Group>, ghost need: set<cstring>)
    returns (res: Added, edges: seq<Edge>, ghost gs: seq<Group>)
    requires Open(table, need) && ANY in need && FieldIn(field, need)
    requires edges0 == Flatten(gs0)
    modifies table.slots
    ensures Open(table, need) && Grows(old(table.slots[..]), table.slots[..])
    ensures res == FieldOutcome(field)
    ensures res.Done? ==> edges == Flatten(gs0 + gs) && GroupsOf(table.slots[..], gs, FieldPieces(field, typ), typ)
  {
    hide Open, EdgeOf, Flatten, Legal, FieldPieces, Tokens, NextToken, EdgesOf, RootOf, Grows, Rooted, NameText, VersionText, FieldGroups;
    ghost var tokens := Tokens(field, BAR);
    edges, gs := edges0, [];
    NoToken(field, BAR);
    var next := NextToken(field, BAR);
    if next.None? {
      GrowsOn(table.slots[..], table.slots[..], table.slots[..]);
      return NothingToSplit, edges, gs;
    }
    OnlyToken(field, BAR);
    FirstToken(field, BAR);
    var field2, line2 := next.value.0, next.value.1;
    ghost var ns0 := table.slots[..];
    ghost var root: Option<Edge>, alts, k := None, [], 0;
    var orEdge := (typ == EDGE_DEPENDS || typ == EDGE_PRE_DEPENDS) && field != field2;
    if orEdge {
      var name := Enter(table, field, need);
      root := Some(Edge(VerNull, typ + 1, name, 0));
      edges := edges + [Edge(VerNull, typ + 1, name, 0)];
    }
    assert tokens[..0] == [];
    Started(ns0, table.slots[..], root, field, typ, edges0);
    while true
      invariant Open(table, need) && Grows(ns0, table.slots[..])
      invariant k < |tokens| && tokens[k] == field2 && tokens[k + 1..] == Tokens(line2, BAR)
      invariant (forall i :: 0 <= i < k ==> Legal(tokens[i])) && EdgesOf(table.slots[..], alts, tokens[..k], typ)
      invariant orEdge == root.Some? && RootOf(table.slots[..], root, field, typ)
      invariant edges == edges0 + Rooted(root, alts)
      decreases |tokens| - k
    {
      ghost var ns := table.slots[..];
      var edge := MakeEdge(table, field2, typ, need);
      GrowsOn(ns0, ns, table.slots[..]);
      if edge.None? {
        assert !Legal(tokens[k]);
        return IllegalOperator, edges, gs;
      }
      EdgesMore(ns, table.slots[..], alts, tokens, k, edge.value, typ);
      RootKept(ns, table.slots[..], root, field, typ);
      OneMore(edges0, root, alts, edge.value);
      if orEdge {
        edges := edges[|edges0| := edges[|edges0|].(version := edges[|edges0|].version + 1)];
      }
      edges := edges + [edge.value];
      alts := alts + [edge.value];
      TokenBehind(tokens, k, line2, BAR);
      next := NextToken(line2, BAR);
      if next.None? {
        break;
      }
      field2, line2, k := next.value.0, next.value.1, k + 1;
    }
    assert tokens[..k + 1] == tokens;
    FieldDone(table.slots[..], root, alts, field, typ, gs0);
    gs := FieldGroups(root, alts);
    res := Done;
  }

  /** `add_split_dependencies`: behind the edges laid out as gs0 it adds those of a
      line of relations, laid out as groups that say what the line says. */
  method AddSplitDependencies(table: NameTable, edges0: seq<Edge>, line: cstring, typ: nat, ghost gs0: seq<Group>, ghost need: set<cstring>)
    returns (res: Added, edges: seq<Edge>, ghost gs: seq<Group>)
    requires Open(table, need) && LineIn(line, need)
    requires !StartsGroup(typ) && edges0 == Flatten(gs0)
    modifies table.slots
    ensures Open(table, need) && Grows(old(table.slots[..]), table.slots[..])
    ensures res == LineOutcome(line)
    ensures res.Done? ==> edges == Flatten(gs0 + gs) && GoodGroups(gs)
    ensures res.Done? ==> GroupsOf(table.slots[..], gs, Pieces(Tokens(line, COMMA), typ), typ)
  {
    hide Open, GroupsOf, GroupOf, Flatten, SkipAll, FieldIn, FieldOutcome, FieldsOutcome, Pieces, Tokens, NextToken, Grows;
    ghost var fields, ns0 := Tokens(line, COMMA), table.slots[..];
    edges, gs := edges0, [];
    ghost var k := 0;
    NoToken(line, COMMA);
    var next := NextToken(line, COMMA);
    if next.None? {
      NoGroups(ns0, fields, typ, gs0);
      return NothingToSplit, edges, gs;
    }
    FirstToken(line, COMMA);
    var field, rest := next.value.0, next.value.1;
    NoGroups(ns0, fields, typ, gs0);
    while true
      invariant Open(table, need) && Grows(ns0, table.slots[..])
      invariant k < |fields| && fields[k] == field && fields[k + 1..] == Tokens(rest, COMMA)
      invariant FieldsOutcome(fields[..k]).Done?
      invariant GroupsOf(table.slots[..], gs, Pieces(fields[..k], typ), typ) && edges == Flatten(gs0 + gs)
      decreases |fields| - k
    {
      ghost var ns := table.slots[..];
      ghost var hs;
      res, edges, hs := AddField(table, edges, SkipAll(field, {SPACE}), typ, gs0 + gs, need);
      GrowsOn(ns0, ns, table.slots[..]);
      OutcomeNext(fields, k);
      if !res.Done? {
        FirstDecides(fields, k + 1);
        return;
      }
      GroupsMore(ns, table.slots[..], gs, hs, fields, k, typ);
      assert gs0 + gs + hs == gs0 + (gs + hs);
      gs := gs + hs;
      TokenBehind(fields, k, rest, COMMA);
      next := NextToken(rest, COMMA);
      if next.None? {
        break;
      }
      field, rest, k := next.value.0, next.value.1, k + 1;
    }
    assert fields[..k + 1] == fields;
    DoneIff(line);
    GoodLayout(table.slots[..], gs, fields, typ);
  }

  lemma NoGroups(names: Slots, fields: seq<cstring>, typ: nat, gs0: seq<Group>)
    ensures GroupsOf(names, [], Pieces(fields[..0], typ), typ) && Grows(names, names) && FieldsOutcome(fields[..0]).Done?
    ensures gs0 + [] == gs0
  {
  }

  lemma GroupsMore(names: Slots, names': Slots, gs: seq<Group>, hs: seq<Group>, fields: seq<cstring>, k: nat, typ: nat)
    requires Grows(names, names') && k < |fields| && GroupsOf(names, gs, Pieces(fields[..k], typ), typ)
    requires GroupsOf(names', hs, FieldPieces(SkipAll(fields[k], {SPACE}), typ), typ)
    ensures GroupsOf(names', gs + hs, Pieces(fields[..k + 1], typ), typ)
  {
    hide GroupOf, FieldPieces, SkipAll;
    GroupsKept(names, names', gs, Pieces(fields[..k], typ), typ);
    assert fields[..k + 1][..k] == fields[..k];
  }
}
