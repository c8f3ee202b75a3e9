/** The dependency check of dpkg.c: every package that is wanted must find, for
    each dependency and each group of alternatives, a package that is there. */
module Dependencies {
  import opened Bits
  import opened PrefixCode
  import opened CStrings
  import opened Versions
  import opened Probing
  import opened NameTables
  import opened PackageDb

  const EDGE_PRE_DEPENDS := 1
  const EDGE_OR_PRE_DEPENDS := 2
  const EDGE_DEPENDS := 3
  const EDGE_OR_DEPENDS := 4
  const EDGE_PROVIDES := 7

  predicate StartsGroup(typ: nat)
  {
    typ == EDGE_OR_PRE_DEPENDS || typ == EDGE_OR_DEPENDS
  }

  predicate IsDependency(typ: nat)
  {
    typ == EDGE_PRE_DEPENDS || typ == EDGE_DEPENDS
  }

  // ----- how the edges of a package are laid out -----

  /** A relation by itself, or alternatives behind an edge that counts them. */
  datatype Group = Plain(e: Edge) | Alternatives(root: Edge, alts: seq<Edge>)

  predicate GoodGroup(g: Group)
  {
    match g
    case Plain(e) => !StartsGroup(e.typ)
    case Alternatives(root, alts) =>
      StartsGroup(root.typ) && 0 < |alts| == root.version && forall k :: 0 <= k < |alts| ==> alts[k].typ == root.typ - 1
  }

  function GroupEdges(g: Group): (es: seq<Edge>)
    ensures g.Plain? ==> es == [g.e]
    ensures g.Alternatives? ==> es == [g.root] + g.alts
    ensures |es| > 0
  {
    if g.Plain? then [g.e] else [g.root] + g.alts
  }

  predicate GoodGroups(gs: seq<Group>)
  {
    forall i :: 0 <= i < |gs| ==> GoodGroup(gs[i])
  }

  function Flatten(gs: seq<Group>): seq<Edge>
  {
    if gs == [] then [] else Flatten(gs[..|gs| - 1]) + GroupEdges(gs[|gs| - 1])
  }

  lemma FlattenSnoc(gs: seq<Group>, g: Group)
    ensures Flatten(gs + [g]) == Flatten(gs) + GroupEdges(g)
  {
    assert (gs + [g])[..|gs|] == gs;
    hide GroupEdges;
  }

  /** Groups laid one behind the other, from some point on. */
  ghost predicate GroupAt(es: seq<Edge>, p: nat, g: Group)
  {
    p + |GroupEdges(g)| <= |es| && es[p..p + |GroupEdges(g)|] == GroupEdges(g)
  }

  lemma {:induction false} FlattenAt(gs: seq<Group>, i: nat)
    requires i < |gs|
    ensures |Flatten(gs[..i])| < |Flatten(gs)| && GroupAt(Flatten(gs), |Flatten(gs[..i])|, gs[i])
    ensures Flatten(gs[..i + 1]) == Flatten(gs[..i]) + GroupEdges(gs[i])
    ensures |Flatten(gs[..i + 1])| <= |Flatten(gs)|
  {
    hide GroupEdges;
    assert gs[..i + 1] == gs[..i] + [gs[i]];
    FlattenSnoc(gs[..i], gs[i]);
    if i == |gs| - 1 {
      assert gs[..i + 1] == gs;
    } else {
      var init := gs[..|gs| - 1];
      FlattenAt(init, i);
      assert init[..i] == gs[..i] && init[..i + 1] == gs[..i + 1];
      assert Flatten(gs) == Flatten(init) + GroupEdges(gs[|gs| - 1]);
    }
  }

  // ----- what a dependency asks for -----

  /** The three tables at one moment. */
  datatype Tables = Tables(names: Slots, nameSize: nat, packages: Packages, p: nat, statuses: Statuses, q: nat)

  ghost predicate EdgeKnown(names: Slots, e: Edge)
  {
    Known(names, e.name) && (!StartsGroup(e.typ) ==> Known(names, e.version) && EpochFits(NameOf(names, e.version)))
  }

  ghost predicate EdgesKnown(t: Tables)
  {
    forall a, j :: 0 <= a < |t.packages| && t.packages[a].Some? && 0 <= j < |t.packages[a].value.edges| ==>
      EdgeKnown(t.names, t.packages[a].value.edges[j])
  }

  ghost predicate StatusesKnown(t: Tables)
  {
    forall s :: 0 <= s < |t.statuses| && t.statuses[s].Some? ==> Known(t.names, t.statuses[s].value.status)
  }

  ghost predicate Sound(t: Tables)
  {
    && Ordered(t.names, t.nameSize) && PackagesOrdered(t.names, t.packages, t.p)
    && StatusesOrdered(t.names, t.packages, t.statuses, t.q)
    && VersionsFit(t.names, t.packages) && EdgesKnown(t) && StatusesKnown(t)
  }

  /** Behind a word and the spaces that follow it. */
  function SkipWord(s: cstring): cstring
  {
    SkipAll(s[CSpan(s, {32})..], {32})
  }

  /** The characters up to a space or a line end. */
  function FirstWord(s: cstring): cstring
  {
    UpTo(s, {32, 10})
  }

  /** The num-th word of a status. */
  function Word(s: cstring, num: nat): cstring
    decreases num
  {
    if num <= 1 then FirstWord(s) else Word(SkipWord(s), num - 1)
  }

  const INSTALL: cstring := [105, 110, 115, 116, 97, 108, 108]
  const INSTALLED: cstring := [105, 110, 115, 116, 97, 108, 108, 101, 100]

  ghost predicate StatusOf(t: Tables, a: nat, s: nat)
    requires AllKnown(t.names, t.packages) && Linked(t.packages, t.statuses)
  {
    && a < |t.packages| && t.packages[a].Some? && s < t.q && s < |t.statuses| && t.statuses[s].Some?
    && StatusKeys(t.names, t.packages, t.statuses)[s] == Some(NameOf(t.names, t.packages[a].value.name))
  }

  /** The package has a status, whose num-th word is this. */
  ghost predicate HasStatus(t: Tables, a: nat, num: nat, word: cstring)
    requires AllKnown(t.names, t.packages) && Linked(t.packages, t.statuses) && StatusesKnown(t)
  {
    exists s: nat :: StatusOf(t, a, s) && Word(NameOf(t.names, t.statuses[s].value.status), num) == word
  }

  /** A dependency wants the package to be installed in the end, a pre-dependency
      now. */
  ghost predicate Ready(t: Tables, a: nat, typ: nat)
    requires AllKnown(t.names, t.packages) && Linked(t.packages, t.statuses) && StatusesKnown(t)
  {
    if typ == EDGE_PRE_DEPENDS then HasStatus(t, a, 3, INSTALLED)
    else if typ == EDGE_DEPENDS then HasStatus(t, a, 1, INSTALL)
    else false
  }

  ghost predicate Provides(n: Node, name: nat)
  {
    exists j :: 0 <= j < |n.edges| && n.edges[j].typ == EDGE_PROVIDES && n.edges[j].name == name
  }

  /** The package that is found for an edge. */
  ghost predicate LookedUp(t: Tables, e: Edge, a: nat)
    requires PackagesOrdered(t.names, t.packages, t.p) && EdgeKnown(t.names, e) && !StartsGroup(e.typ)
  {
    && a < t.p && t.packages[a].Some? && Matches(t.names, t.packages[a].value, e.name, e.version, e.op)
    && exists k :: PackageAt(t.names, t.packages, t.p, e.name, e.version, e.op, a, k)
  }

  /** A package that would do for an edge, and does. */
  ghost predicate SatisfiedBy(t: Tables, e: Edge, a: nat)
    requires Sound(t) && EdgeKnown(t.names, e) && !StartsGroup(e.typ)
  {
    && a < t.p && t.packages[a].Some? && (LookedUp(t, e, a) || Provides(t.packages[a].value, e.name))
    && Ready(t, a, e.typ)
  }

  ghost predicate Satisfied(t: Tables, e: Edge)
    requires Sound(t) && EdgeKnown(t.names, e) && !StartsGroup(e.typ)
  {
    exists a: nat :: SatisfiedBy(t, e, a)
  }

  ghost predicate GroupKnown(names: Slots, g: Group)
  {
    GoodGroup(g) && forall k :: 0 <= k < |GroupEdges(g)| ==> EdgeKnown(names, GroupEdges(g)[k])
  }

  /** One of the alternatives, or the dependency itself, can be satisfied. */
  ghost predicate GroupOk(t: Tables, g: Group)
    requires Sound(t) && GroupKnown(t.names, g)
  {
    match g
    case Plain(e) => PlainKnown(t.names, g); IsDependency(e.typ) ==> Satisfied(t, e)
    case Alternatives(root, alts) => exists k: nat :: k < |alts| && AltOk(t, g, k)
  }

  lemma PlainKnown(names: Slots, g: Group)
    requires GroupKnown(names, g) && g.Plain?
    ensures EdgeKnown(names, g.e) && !StartsGroup(g.e.typ)
  {
    assert GroupEdges(g)[0] == g.e;
  }

  lemma AltKnown(names: Slots, g: Group, k: nat)
    requires GroupKnown(names, g) && g.Alternatives? && k < |g.alts|
    ensures EdgeKnown(names, g.alts[k]) && !StartsGroup(g.alts[k].typ) && IsDependency(g.alts[k].typ)
  {
    assert GroupEdges(g)[k + 1] == g.alts[k];
  }

  ghost predicate AltOk(t: Tables, g: Group, k: nat)
    requires Sound(t) && GroupKnown(t.names, g) && g.Alternatives? && k < |g.alts|
  {
    AltKnown(t.names, g, k);
    Satisfied(t, g.alts[k])
  }

  // ----- room for the words that are looked up -----

  ghost function Free(names: Slots, p: nat): set<nat>
  {
    set a | a in All(p) && a < |names| && names[a].None?
  }

  ghost function Missing(names: Slots, p: nat, need: set<cstring>): set<cstring>
  {
    set w | w in need && !Present(names, p, w)
  }

  /** Every string that may be looked up is in the name table or finds a place. */
  ghost predicate Capacity(names: Slots, p: nat, need: set<cstring>)
  {
    p <= |names| && |Missing(names, p, need)| <= |Free(names, p)|
  }

  lemma CanSearch(names: Slots, p: nat, need: set<cstring>, w: cstring)
    requires Capacity(names, p, need) && w in need
    ensures Present(names, p, w) || HasRoom(names, p)
  {
    if !Present(names, p, w) {
      assert w in Missing(names, p, need);
      assert |Free(names, p)| > 0;
      var a :| a in Free(names, p);
    }
  }

  lemma PresentKept(names: Slots, p: nat, x: cstring, a: nat, w: cstring)
    requires a < p <= |names| && names[a].None?
    ensures Present(names, p, x) ==> Present(names[a := Some(w)], p, x)
  {
    var names' := names[a := Some(w)];
    assert forall b :: 0 <= b < p && names[b].Some? ==> names'[b] == names[b];
  }

  lemma CapacityKept(names: Slots, p: nat, need: set<cstring>, w: cstring, a: nat)
    requires Capacity(names, p, need) && w in need && a < p && names[a].None? && !Present(names, p, w)
    ensures Capacity(names[a := Some(w)], p, need)
  {
    var names' := names[a := Some(w)];
    assert names'[a] == Some(w);
    assert Free(names', p) == Free(names, p) - {a};
    assert a in Free(names, p);
    forall x | x in Missing(names', p, need)
      ensures x in Missing(names, p, need) - {w}
    {
      PresentKept(names, p, x, a, w);
    }
    assert Missing(names', p, need) <= Missing(names, p, need) - {w};
    SubsetSize(Missing(names', p, need), Missing(names, p, need) - {w});
  }

  lemma SubsetSize(s: set<cstring>, t: set<cstring>)
    requires s <= t
    ensures |s| <= |t|
  {
    assert |t - s| == |t| - |s|;
  }

  /** The words that the check looks up. */
  ghost function Words(t: Tables, n: nat): set<cstring>
    requires StatusesKnown(t) && n <= |t.statuses|
  {
    if n == 0 then {INSTALL, INSTALLED}
    else if t.statuses[n - 1].None? then Words(t, n - 1)
    else Words(t, n - 1) + TwoWords(NameOf(t.names, t.statuses[n - 1].value.status))
  }

  function TwoWords(s: cstring): set<cstring>
  {
    {Word(s, 1), Word(s, 3)}
  }

  lemma {:induction false} WordsHave(t: Tables, n: nat, s: nat)
    requires StatusesKnown(t) && s < n <= |t.statuses| && t.statuses[s].Some?
    ensures Word(NameOf(t.names, t.statuses[s].value.status), 1) in Words(t, n)
    ensures Word(NameOf(t.names, t.statuses[s].value.status), 3) in Words(t, n)
  {
    hide Word;
    if s < n - 1 {
      WordsHave(t, n - 1, s);
    }
  }

  lemma {:induction false} WordsStart(t: Tables, n: nat)
    requires StatusesKnown(t) && n <= |t.statuses|
    ensures INSTALL in Words(t, n) && INSTALLED in Words(t, n)
  {
    hide Word;
    if n > 0 {
      WordsStart(t, n - 1);
    }
  }

  // ----- the check -----

  /** The database holds the tables t, apart from strings added since. */
  ghost predicate Shows(db: Database, t: Tables)
    reads db.names.slots, db.packages, db.statuses
  {
    && Sound(t) && t.packages == db.packages[..] && t.p == db.packagePrime
    && t.statuses == db.statuses[..] && t.q == db.statusPrime
    && t.nameSize == db.names.prime && Grows(t.names, db.names.slots[..]) && Ordered(db.names.slots[..], db.names.prime)
    && t.p < |t.packages| && t.q < |t.statuses|
    && (exists a :: 0 <= a < t.p && t.packages[a].None?)
    && (exists s :: 0 <= s < t.q && t.statuses[s].None?)
    && Capacity(db.names.slots[..], db.names.prime, Words(t, |t.statuses|))
  }

  /** The tables as they are now. */
  ghost function Now(db: Database): Tables
    reads db.names.slots, db.packages, db.statuses
  {
    Tables(db.names.slots[..], db.names.prime, db.packages[..], db.packagePrime, db.statuses[..], db.statusPrime)
  }

  /** A database in order can be checked if no table fills up. */
  lemma ShowsNow(db: Database)
    requires db.Valid() && EdgesKnown(Now(db)) && StatusesKnown(Now(db))
    requires exists a :: 0 <= a < db.packagePrime && db.packages[a].None?
    requires exists s :: 0 <= s < db.statusPrime && db.statuses[s].None?
    requires Capacity(db.names.slots[..], db.names.prime, Words(Now(db), db.statuses.Length))
    ensures Shows(db, Now(db))
  {
    hide Ordered, PackagesOrdered, StatusesOrdered, EdgesKnown, StatusesKnown, Capacity, VersionsFit;
  }

  lemma ShowsValid(db: Database, t: Tables)
    requires Shows(db, t)
    ensures db.Valid()
    ensures StatusKeys(db.names.slots[..], t.packages, t.statuses) == StatusKeys(t.names, t.packages, t.statuses)
  {
    hide Ordered, PackagesOrdered, StatusesOrdered, EdgesKnown, StatusesKnown, Capacity, EpochFits, StatusKeys;
    TablesKept(t.names, db.names.slots[..], t.packages, t.p, t.statuses, t.q);
  }

  /** `search_name_hashtable`, for a word that is known to be looked up. */
  method Intern(db: Database, w: cstring, ghost t: Tables) returns (id: nat)
    requires Shows(db, t) && w in Words(t, |t.statuses|)
    modifies db.names.slots
    ensures Shows(db, t) && id < db.names.prime <= db.names.slots.Length && db.names.slots[id] == Some(w)
    ensures Grows(old(db.names.slots[..]), db.names.slots[..])
  {
    hide Ordered, PackagesOrdered, StatusesOrdered, EdgesKnown, Capacity, Words, Present, HasRoom, Known;
    ghost var ns, p, need := db.names.slots[..], db.names.prime, Words(t, |t.statuses|);
    CanSearch(ns, p, need, w);
    id := db.names.Search(w);
    if !Present(ns, p, w) {
      NewSlot(ns, p, w, id, db.names.slots[..]);
      CapacityKept(ns, p, need, w, id);
    }
  }

  /** A string that was not there went into a free slot. */
  lemma NewSlot(names: Slots, p: nat, w: cstring, a: nat, names': Slots)
    requires a < p <= |names| && !Present(names, p, w) && names' == names[a := Some(w)]
    requires forall b :: 0 <= b < |names| && names[b].Some? ==> names'[b] == names[b]
    ensures names[a].None?
  {
    assert names'[a] == Some(w);
  }

  /** `get_status`: the number of a word of the status. */
  method GetStatus(db: Database, s: nat, num: nat, ghost t: Tables) returns (id: nat)
    requires Shows(db, t) && s < |t.statuses| && t.statuses[s].Some? && (num == 1 || num == 3)
    requires Known(t.names, t.statuses[s].value.status)
    modifies db.names.slots
    ensures Shows(db, t) && id < db.names.prime <= db.names.slots.Length
    ensures db.names.slots[id] == Some(Word(NameOf(t.names, t.statuses[s].value.status), num))
    ensures Grows(old(db.names.slots[..]), db.names.slots[..])
  {
    hide Sound, Ordered, Capacity, Words, Word, Shows;
    ShowsParts(db, t);
    WordsHave(t, |t.statuses|, s);
    var status := db.names.slots[db.statuses[s].value.status].value;
    id := Intern(db, Word(status, num), t);
  }

  lemma ShowsParts(db: Database, t: Tables)
    requires Shows(db, t)
    ensures Sound(t) && StatusesKnown(t) && t.packages == db.packages[..] && t.statuses == db.statuses[..]
    ensures AllKnown(t.names, t.packages) && Linked(t.packages, t.statuses) && t.p == db.packagePrime && t.p < |t.packages|
    ensures PackagesOrdered(t.names, t.packages, t.p)
    ensures Grows(t.names, db.names.slots[..]) && Ordered(db.names.slots[..], db.names.prime)
  {
    hide Ordered, PackagesOrdered, EdgesKnown, Capacity;
    OrderedFacts(t.names, t.packages, t.p);
  }

  /** The status of a package, found by its name. */
  method PackageStatus(db: Database, a: nat, ghost t: Tables) returns (s: nat)
    requires Shows(db, t) && a < |t.packages| && t.packages[a].Some?
    ensures s < t.q < |t.statuses|
    ensures t.statuses[s].Some? ==> StatusOf(t, a, s) && forall s' :: StatusOf(t, a, s') ==> s' == s
    ensures t.statuses[s].None? ==> forall s' :: !StatusOf(t, a, s')
  {
    hide Ordered, PackagesOrdered, EdgesKnown, Capacity, Words, Present, HasRoom, EpochFits, FoundAt;
    ShowsValid(db, t);
    var name := db.packages[a].value.name;
    ghost var keys := StatusKeys(t.names, t.packages, t.statuses);
    ghost var key := NameOf(t.names, name);
    assert HasRoom(keys, t.q) by { RoomInKeys(t); }
    s := db.SearchStatus(db.names.slots[name].value);
    OnlyStatus(t, a, s);
  }

  lemma RoomInKeys(t: Tables)
    requires AllKnown(t.names, t.packages) && Linked(t.packages, t.statuses) && t.q < |t.statuses|
    requires exists s :: 0 <= s < t.q && t.statuses[s].None?
    ensures HasRoom(StatusKeys(t.names, t.packages, t.statuses), t.q)
  {
    var s :| 0 <= s < t.q && t.statuses[s].None?;
    assert StatusKeys(t.names, t.packages, t.statuses)[s].None?;
  }

  lemma OnlyStatus(t: Tables, a: nat, s: nat)
    requires StatusesOrdered(t.names, t.packages, t.statuses, t.q) && t.q < |t.statuses|
    requires a < |t.packages| && t.packages[a].Some? && s < t.q
    requires var keys, key := StatusKeys(t.names, t.packages, t.statuses), NameOf(t.names, t.packages[a].value.name);
             if t.statuses[s].Some? then keys[s] == Some(key) else !Present(keys, t.q, key)
    ensures t.statuses[s].Some? ==> StatusOf(t, a, s) && forall s' :: StatusOf(t, a, s') ==> s' == s
    ensures t.statuses[s].None? ==> forall s' :: !StatusOf(t, a, s')
  {
    hide Ordered;
    var keys := StatusKeys(t.names, t.packages, t.statuses);
    forall s': nat | StatusOf(t, a, s')
      ensures t.statuses[s].Some? && s' == s
    {
      if t.statuses[s].Some? {
        Injective(keys, t.q, s, s');
      }
    }
  }

  /** `package_satisfies_dependency` */
  method PackageSatisfies(db: Database, a: nat, typ: nat, ghost t: Tables) returns (r: bool)
    requires Shows(db, t) && a < |t.packages| && t.packages[a].Some?
    modifies db.names.slots
    ensures Shows(db, t) && r == Ready(t, a, typ)
  {
    hide Ordered, PackagesOrdered, StatusesOrdered, EdgesKnown, Capacity, Words, Word, StatusOf, Shows;
    ShowsParts(db, t);
    var s := PackageStatus(db, a, t);
    if db.statuses[s].None? {
      return false;
    }
    WordsStart(t, |t.statuses|);
    assert StatusOf(t, a, s);
    if typ == EDGE_PRE_DEPENDS {
      var x := GetStatus(db, s, 3, t);
      var y := Intern(db, INSTALLED, t);
      r := x == y;
      ShowsParts(db, t);
      SameNumber(db.names.slots[..], db.names.prime, x, y);
    } else if typ == EDGE_DEPENDS {
      var x := GetStatus(db, s, 1, t);
      var y := Intern(db, INSTALL, t);
      r := x == y;
      ShowsParts(db, t);
      SameNumber(db.names.slots[..], db.names.prime, x, y);
    } else {
      r := false;
    }
  }

  /** Strings are the same exactly if their numbers are. */
  lemma SameNumber(names: Slots, p: nat, x: nat, y: nat)
    requires Ordered(names, p) && x < p <= |names| && y < p && names[x].Some? && names[y].Some?
    ensures x == y <==> names[x] == names[y]
  {
    hide Ordered;
    if names[x] == names[y] {
      Injective(names, p, x, y);
    }
  }

  /** `search_for_provides`: the next package that provides the name, or -1. */
  method SearchForProvides(db: Database, needle: nat, startAt: int) returns (r: int)
    requires -1 <= startAt < db.packagePrime < db.packages.Length
    ensures r == -1 || (startAt < r < db.packagePrime && db.packages[r].Some? && Provides(db.packages[r].value, needle))
    ensures forall i :: startAt < i < (if r == -1 then db.packagePrime else r) && db.packages[i].Some? ==>
      !Provides(db.packages[i].value, needle)
  {
    var i := startAt + 1;
    while i < db.packagePrime
      invariant startAt < i <= db.packagePrime
      invariant forall k :: startAt < k < i && db.packages[k].Some? ==> !Provides(db.packages[k].value, needle)
    {
      var p := db.packages[i];
      if p.Some? {
        var j := 0;
        while j < |p.value.edges|
          invariant 0 <= j <= |p.value.edges|
          invariant forall l :: 0 <= l < j ==> !(p.value.edges[l].typ == EDGE_PROVIDES && p.value.edges[l].name == needle)
        {
          if p.value.edges[j].typ == EDGE_PROVIDES && p.value.edges[j].name == needle {
            return i;
          }
          j := j + 1;
        }
      }
      i := i + 1;
    }
    return -1;
  }

  /** What a search for an edge's package can have found. */
  ghost predicate SearchedFor(t: Tables, e: Edge, num: nat)
    requires Sound(t) && EdgeKnown(t.names, e) && !StartsGroup(e.typ) && t.p < |t.packages|
  {
    && num < t.p
    && (t.packages[num].Some? ==> LookedUp(t, e, num))
    && (t.packages[num].None? ==> forall b :: 0 <= b < t.p ==> !LookedUp(t, e, b))
  }

  lemma LookedUpOnce(t: Tables, e: Edge, a: nat, b: nat)
    requires Sound(t) && EdgeKnown(t.names, e) && !StartsGroup(e.typ) && LookedUp(t, e, a) && LookedUp(t, e, b)
    ensures a == b
  {
    hide Slot, Compared, PackagesOrdered, StatusesOrdered, Ordered, EdgesKnown, StatusesKnown;
    OrderedFacts(t.names, t.packages, t.p);
    var k: nat :| PackageAt(t.names, t.packages, t.p, e.name, e.version, e.op, a, k);
    var l: nat :| PackageAt(t.names, t.packages, t.p, e.name, e.version, e.op, b, l);
    assert Slot(NameOf(t.names, e.name), t.p, k) == a && Slot(NameOf(t.names, e.name), t.p, l) == b;
  }

  /** The search for the package of an edge. */
  method SearchEdge(db: Database, e: Edge, ghost t: Tables) returns (num: nat)
    requires Shows(db, t) && EdgeKnown(t.names, e) && !StartsGroup(e.typ)
    ensures SearchedFor(t, e, num)
  {
    hide Sound, Ordered, StatusesOrdered, PackagesOrdered, EdgesKnown, StatusesKnown, Capacity, EpochFits, Matches, PackageAt;
    ShowsValid(db, t);
    ShowsParts(db, t);
    ghost var ns := db.names.slots[..];
    ghost var b :| 0 <= b < t.p && t.packages[b].None?;
    assert Stops(ns, db.packages[..], db.packagePrime, e.name, e.version, e.op, b);
    num := db.SearchPackage(e.name, e.version, e.op);
    SearchSeen(t, ns, e, num);
  }

  /** Strings added since make no difference to what a search finds. */
  lemma SearchSeen(t: Tables, names: Slots, e: Edge, num: nat)
    requires Sound(t) && t.p < |t.packages| && Grows(t.names, names) && EdgeKnown(t.names, e) && !StartsGroup(e.typ)
    requires PackagesOrdered(names, t.packages, t.p) && num < t.p
    requires exists k :: PackageAt(names, t.packages, t.p, e.name, e.version, e.op, num, k)
    requires t.packages[num].Some? ==> Matches(names, t.packages[num].value, e.name, e.version, e.op)
    requires t.packages[num].None? ==> forall b :: 0 <= b < t.p && t.packages[b].Some? ==>
      !Matches(names, t.packages[b].value, e.name, e.version, e.op)
    ensures SearchedFor(t, e, num)
  {
    hide Slot, Ordered, StatusesOrdered, PackagesOrdered, EdgesKnown, StatusesKnown, EpochFits, VersionOrder, SplitVersion;
    OrderedFacts(t.names, t.packages, t.p);
    OrderedFacts(names, t.packages, t.p);
    assert forall b :: 0 <= b < t.p && t.packages[b].Some? ==>
      Matches(names, t.packages[b].value, e.name, e.version, e.op) == Matches(t.names, t.packages[b].value, e.name, e.version, e.op);
    var k :| PackageAt(names, t.packages, t.p, e.name, e.version, e.op, num, k);
    assert PackageAt(t.names, t.packages, t.p, e.name, e.version, e.op, num, k);
  }

  /** Whether the package found for a dependency, or one that provides it, is there. */
  method SatisfyEdge(db: Database, e: Edge, num: nat, ghost t: Tables) returns (ok: bool)
    requires Shows(db, t) && EdgeKnown(t.names, e) && !StartsGroup(e.typ) && SearchedFor(t, e, num)
    modifies db.names.slots
    ensures Shows(db, t) && ok == Satisfied(t, e)
  {
    hide Shows, Ready, SearchedFor, EdgeKnown, Satisfied, ReadyProvider, Ordered, StatusesOrdered, PackagesOrdered, EdgesKnown;
    ShowsParts(db, t);
    SatisfiedIff(t, e, num);
    ok := false;
    if db.packages[num].Some? {
      ok := PackageSatisfies(db, num, e.typ, t);
    }
    if !ok {
      ok := SomeProvider(db, e, t);
    }
  }

  lemma SoundFacts(t: Tables)
    requires Sound(t)
    ensures AllKnown(t.names, t.packages) && Linked(t.packages, t.statuses) && StatusesKnown(t)
  {
    hide Ordered, EdgesKnown;
    OrderedFacts(t.names, t.packages, t.p);
  }

  /** Only two kinds of packages can satisfy a dependency. */
  lemma SatisfiedIff(t: Tables, e: Edge, num: nat)
    requires Sound(t) && EdgeKnown(t.names, e) && !StartsGroup(e.typ) && t.p < |t.packages| && SearchedFor(t, e, num)
    ensures num < t.p
    ensures Satisfied(t, e) <==> (t.packages[num].Some? && Ready(t, num, e.typ)) || exists a: nat :: ReadyProvider(t, e, a)
  {
    hide Ready, LookedUp, Provides, EdgeKnown, Ordered, StatusesOrdered, PackagesOrdered, EdgesKnown, StatusesKnown, VersionsFit;
    SoundFacts(t);
    LookedUpNumber(t, e, num);
    if Satisfied(t, e) {
      var a: nat :| SatisfiedBy(t, e, a);
      if !LookedUp(t, e, a) {
        assert ReadyProvider(t, e, a);
      }
    }
    if t.packages[num].Some? && Ready(t, num, e.typ) {
      assert SatisfiedBy(t, e, num);
    }
    if a: nat :| ReadyProvider(t, e, a) {
      assert SatisfiedBy(t, e, a);
    }
  }

  /** The loop over the packages that provide what is wanted. */
  method SomeProvider(db: Database, e: Edge, ghost t: Tables) returns (ok: bool)
    requires Shows(db, t)
    modifies db.names.slots
    ensures Shows(db, t)
    ensures ok <==> exists a: nat :: ReadyProvider(t, e, a)
  {
    hide Shows, Ready, Provides;
    ok := false;
    var provider: int := -1;
    ShowsParts(db, t);
    while true
      invariant Shows(db, t) && -1 <= provider < t.p && !ok
      invariant forall a: nat :: a <= provider ==> !ReadyProvider(t, e, a)
      decreases t.p - provider
    {
      ShowsParts(db, t);
      provider := SearchForProvides(db, e.name, provider);
      if provider <= -1 {
        break;
      }
      ok := PackageSatisfies(db, provider, e.typ, t);
      if ok {
        assert ReadyProvider(t, e, provider);
        break;
      }
    }
  }

  ghost predicate ReadyProvider(t: Tables, e: Edge, a: nat)
    requires Sound(t)
  {
    a < t.p && t.packages[a].Some? && Provides(t.packages[a].value, e.name) && Ready(t, a, e.typ)
  }

  lemma LookedUpNumber(t: Tables, e: Edge, num: nat)
    requires Sound(t) && EdgeKnown(t.names, e) && !StartsGroup(e.typ) && t.p < |t.packages| && SearchedFor(t, e, num)
    ensures forall a: nat :: a < t.p && LookedUp(t, e, a) ==> a == num
  {
    hide LookedUp, Ordered, StatusesOrdered, PackagesOrdered, EdgesKnown, StatusesKnown, VersionsFit, EdgeKnown;
    forall a: nat | a < t.p && LookedUp(t, e, a)
      ensures a == num
    {
      if t.packages[num].Some? {
        LookedUpOnce(t, e, a, num);
      }
    }
  }

  // ----- walking over the edges of a package -----

  ghost predicate GroupsKnown(t: Tables, gs: seq<Group>)
  {
    forall i :: 0 <= i < |gs| ==> GroupKnown(t.names, gs[i])
  }

  ghost predicate GroupsOk(t: Tables, gs: seq<Group>, n: nat)
    requires Sound(t) && GroupsKnown(t, gs) && n <= |gs|
  {
    forall i :: 0 <= i < n ==> GroupOk(t, gs[i])
  }

  /** Where the walk is: before group i, or within it behind k alternatives that
      cannot be satisfied. */
  datatype Place = Place(i: nat, within: bool, k: nat)

  ghost predicate Walking(t: Tables, gs: seq<Group>, at: Place, j: nat, number: nat, root: Option<Edge>)
    requires Sound(t) && GroupsKnown(t, gs)
  {
    && at.i <= |gs| && GroupsOk(t, gs, at.i)
    && if !at.within then j == |Flatten(gs[..at.i])| && (number == 0 || (number == 1 && root == None))
       else
         && at.i < |gs| && gs[at.i].Alternatives? && at.k < |gs[at.i].alts|
         && j == |Flatten(gs[..at.i])| + 1 + at.k && root == Some(gs[at.i].root) && number == |gs[at.i].alts| - at.k
         && forall x :: 0 <= x < at.k ==> !AltOk(t, gs[at.i], x)
  }

  /** The edge at the place where the walk is. */
  ghost function EdgeHere(gs: seq<Group>, at: Place): Edge
    requires at.i < |gs| && (at.within ==> gs[at.i].Alternatives? && at.k < |gs[at.i].alts|)
  {
    if at.within then gs[at.i].alts[at.k] else if gs[at.i].Plain? then gs[at.i].e else gs[at.i].root
  }

  lemma WalkingAt(t: Tables, gs: seq<Group>, at: Place, j: nat, number: nat, root: Option<Edge>)
    requires Sound(t) && GroupsKnown(t, gs) && Walking(t, gs, at, j, number, root)
    ensures at.i <= |gs| && GroupsOk(t, gs, at.i)
    ensures at.i == |gs| ==> j == |Flatten(gs)|
    ensures at.within ==> at.i < |gs| && gs[at.i].Alternatives? && at.k < |gs[at.i].alts|
    ensures at.within ==> number == |gs[at.i].alts| - at.k && root == Some(gs[at.i].root)
    ensures !at.within ==> number == 0 || (number == 1 && root == None)
    ensures at.i < |gs| ==> j < |Flatten(gs)| && Flatten(gs)[j] == EdgeHere(gs, at) && EdgeKnown(t.names, EdgeHere(gs, at))
  {
    hide Sound, EdgeKnown, GroupsOk, AltOk, Flatten;
    if at.i < |gs| {
      FlattenAt(gs, at.i);
      assert GroupKnown(t.names, gs[at.i]);
      InGroup(Flatten(gs), |Flatten(gs[..at.i])|, gs[at.i], if at.within then at.k + 1 else 0);
    } else {
      assert gs[..at.i] == gs;
    }
  }

  lemma InGroup(es: seq<Edge>, p: nat, g: Group, k: nat)
    requires GroupAt(es, p, g) && k < |GroupEdges(g)|
    ensures p + k < |es| && es[p + k] == GroupEdges(g)[k]
  {
    hide GroupEdges;
    assert es[p..p + |GroupEdges(g)|][k] == es[p + k];
  }

  lemma EnterGroup(t: Tables, gs: seq<Group>, at: Place, j: nat, number: nat, root: Option<Edge>)
    requires Sound(t) && GroupsKnown(t, gs) && Walking(t, gs, at, j, number, root) && at.i < |gs| && !at.within && gs[at.i].Alternatives?
    ensures Walking(t, gs, Place(at.i, true, 0), j + 1, gs[at.i].root.version, Some(gs[at.i].root))
  {
    hide Sound, EdgeKnown, GroupsOk, AltOk, Flatten;
    assert GroupKnown(t.names, gs[at.i]);
  }

  /** One of the alternatives is satisfied: the skip lands behind the group. */
  lemma LeaveGroup(t: Tables, gs: seq<Group>, at: Place, j: nat, number: nat, root: Option<Edge>, root': Option<Edge>)
    requires Sound(t) && GroupsKnown(t, gs) && Walking(t, gs, at, j, number, root) && at.i < |gs| && at.within
    requires GroupKnown(t.names, gs[at.i]) && gs[at.i].Alternatives? && at.k < |gs[at.i].alts| && AltOk(t, gs[at.i], at.k)
    ensures Walking(t, gs, Place(at.i + 1, false, 0), j + number, 0, root')
  {
    hide Sound, EdgeKnown, AltOk, Flatten;
    FlattenAt(gs, at.i);
    assert GroupOk(t, gs[at.i]);
  }

  lemma NextAlternative(t: Tables, gs: seq<Group>, at: Place, j: nat, number: nat, root: Option<Edge>)
    requires Sound(t) && GroupsKnown(t, gs) && Walking(t, gs, at, j, number, root) && at.i < |gs| && at.within
    requires GroupKnown(t.names, gs[at.i]) && gs[at.i].Alternatives? && at.k < |gs[at.i].alts| && !AltOk(t, gs[at.i], at.k)
    ensures number > 1 ==> Walking(t, gs, Place(at.i, true, at.k + 1), j + 1, number - 1, root)
    ensures number == 1 ==> !GroupOk(t, gs[at.i])
  {
    hide Sound, EdgeKnown, GroupsOk, AltOk, Flatten;
  }

  lemma PastPlain(t: Tables, gs: seq<Group>, at: Place, j: nat, number: nat, root: Option<Edge>, number': nat, root': Option<Edge>)
    requires Sound(t) && GroupsKnown(t, gs) && Walking(t, gs, at, j, number, root) && at.i < |gs| && !at.within
    requires GroupKnown(t.names, gs[at.i]) && gs[at.i].Plain? && GroupOk(t, gs[at.i])
    requires number' == 0 || (number' == 1 && root' == None)
    ensures Walking(t, gs, Place(at.i + 1, false, 0), j + 1, number', root')
  {
    hide Sound, EdgeKnown, Flatten;
    FlattenAt(gs, at.i);
  }

  /** What one turn of the loop over edges does. */
  method CheckEdge(db: Database, e: Edge, j0: nat, number0: nat, root0: Option<Edge>, ghost t: Tables, ghost gs: seq<Group>, ghost at0: Place)
    returns (failed: bool, j: nat, number: nat, root: Option<Edge>, ghost at: Place)
    requires Shows(db, t) && GroupsKnown(t, gs) && Walking(t, gs, at0, j0, number0, root0) && at0.i < |gs| && e == EdgeHere(gs, at0)
    modifies db.names.slots
    ensures Shows(db, t)
    ensures failed ==> !GroupOk(t, gs[at0.i])
    ensures !failed ==> Walking(t, gs, at, j, number, root) && j > j0
  {
    hide Shows, EdgeKnown, Satisfied, GroupsOk, Ordered, PackagesOrdered, StatusesOrdered, EdgesKnown, StatusesKnown, VersionsFit, Flatten, Walking;
    ShowsParts(db, t);
    WalkingAt(t, gs, at0, j0, number0, root0);
    ghost var g := gs[at0.i];
    assert GroupKnown(t.names, g);
    failed, j, number, root, at := false, j0, number0, root0, at0;
    if e.typ == EDGE_OR_PRE_DEPENDS || e.typ == EDGE_OR_DEPENDS {
      number := e.version;
      root := Some(e);
      j := j + 1;
      NotWithin(t, g, at0, e);
      EnterGroup(t, gs, at0, j0, number0, root0);
      at := Place(at0.i, true, 0);
      return;
    }
    if number == 0 {
      number := 1;
      root := None;
    }
    var num := SearchEdge(db, e, t);
    if e.typ == EDGE_PRE_DEPENDS || e.typ == EDGE_DEPENDS {
      if root.Some? && e.typ != root.value.typ - 1 {
        assert false;
      }
      var ok := SatisfyEdge(db, e, num, t);
      ghost var number1 := number;
      failed, j, number := CountAlternative(ok, j, number);
      at := Counted(t, gs, at0, j0, number0, root0, number1, root, ok);
    } else {
      PlainKnown(t.names, g);
      PastPlain(t, gs, at0, j0, number0, root0, number, root);
      at := Place(at0.i + 1, false, 0);
      j := j + 1;
    }
  }

  /** Where the walk is after a dependency. */
  ghost function Step(at: Place, ok: bool): Place
  {
    if at.within && !ok then Place(at.i, true, at.k + 1) else Place(at.i + 1, false, 0)
  }

  lemma Counted(t: Tables, gs: seq<Group>, at: Place, j: nat, number: nat, root: Option<Edge>, number1: nat, root1: Option<Edge>, ok: bool)
    returns (next: Place)
    requires Sound(t) && GroupsKnown(t, gs) && Walking(t, gs, at, j, number, root) && at.i < |gs| && GroupKnown(t.names, gs[at.i])
    requires at.within ==> gs[at.i].Alternatives? && at.k < |gs[at.i].alts| && ok == AltOk(t, gs[at.i], at.k)
    requires at.within ==> number1 == number == |gs[at.i].alts| - at.k && root1 == root
    requires !at.within ==> number1 == 1 && root1 == None && gs[at.i].Plain?
    requires !at.within ==> PlainOk(t, gs[at.i], ok)
    ensures next == Step(at, ok)
    ensures !ok && number1 == 1 ==> !GroupOk(t, gs[at.i])
    ensures ok ==> Walking(t, gs, next, j + number1, 0, root1)
    ensures !ok && number1 != 1 ==> Walking(t, gs, next, j + 1, number1 - 1, root1)
  {
    hide Sound, EdgeKnown, GroupsOk, AltOk, Flatten, Walking, Satisfied, GroupOk;
    next := Step(at, ok);
    if at.within {
      if ok {
        LeaveGroup(t, gs, at, j, number, root, root1);
      } else {
        NextAlternative(t, gs, at, j, number, root);
      }
    } else {
      PlainIff(t, gs[at.i], ok);
    }
    if !at.within && ok {
      PastPlain(t, gs, at, j, number, root, 0, root1);
    }
  }

  lemma PlainIff(t: Tables, g: Group, ok: bool)
    requires Sound(t) && GroupKnown(t.names, g) && g.Plain? && PlainOk(t, g, ok)
    ensures ok == GroupOk(t, g)
  {
    hide Sound, EdgeKnown, Satisfied;
    PlainKnown(t.names, g);
  }

  /** A dependency by itself is satisfied, or not. */
  ghost predicate PlainOk(t: Tables, g: Group, ok: bool)
    requires Sound(t) && GroupKnown(t.names, g) && g.Plain?
  {
    PlainKnown(t.names, g);
    IsDependency(g.e.typ) && ok == Satisfied(t, g.e)
  }

  lemma NotWithin(t: Tables, g: Group, at: Place, e: Edge)
    requires GroupKnown(t.names, g) && StartsGroup(e.typ)
    requires at.within ==> g.Alternatives? && at.k < |g.alts|
    requires e == if at.within then g.alts[at.k] else if g.Plain? then g.e else g.root
    ensures !at.within && g.Alternatives?
  {
  }

  /** What follows from whether an alternative is satisfied: the check fails at the
      last one, or the others are skipped. Moves on to the next edge. */
  method CountAlternative(ok: bool, j0: nat, number0: nat) returns (failed: bool, j: nat, number: nat)
    requires number0 >= 1
    ensures failed == (!ok && number0 == 1)
    ensures !failed ==> j == j0 + (if ok then number0 else 1) && number == if ok then 0 else number0 - 1
  {
    failed, j, number := false, j0, number0 - 1;
    if !ok && number == 0 {
      return true, j, number;
    }
    if ok && number != 0 {
      j := j + number;
      number := 0;
    }
    j := j + 1;
  }

  /** The loop over the edges of one package, which are laid out as groups. */
  method CheckPackage(db: Database, edges: seq<Edge>, ghost t: Tables, ghost gs: seq<Group>) returns (ok: bool)
    requires Shows(db, t) && GroupsKnown(t, gs) && edges == Flatten(gs)
    modifies db.names.slots
    ensures Shows(db, t) && ok == GroupsOk(t, gs, |gs|)
  {
    hide Sound, EdgeKnown, GroupOk, Walking, Flatten;
    ShowsParts(db, t);
    StartWalking(t, gs);
    var j, number, root := 0, 0, None;
    ghost var at := Place(0, false, 0);
    while j < |edges|
      invariant Shows(db, t) && Walking(t, gs, at, j, number, root)
      decreases |edges| - j
    {
      ShowsParts(db, t);
      WalkingAt(t, gs, at, j, number, root);
      var failed;
      failed, j, number, root, at := CheckEdge(db, edges[j], j, number, root, t, gs, at);
      if failed {
        return false;
      }
    }
    WalkingAt(t, gs, at, j, number, root);
    ok := true;
  }

  lemma StartWalking(t: Tables, gs: seq<Group>)
    requires Sound(t) && GroupsKnown(t, gs)
    ensures Walking(t, gs, Place(0, false, 0), 0, 0, None)
  {
    hide Sound;
    assert gs[..0] == [];
  }

  // ----- all packages -----

  /** The edges of every package are laid out as groups. */
  ghost predicate LaidOut(t: Tables, layout: seq<seq<Group>>)
  {
    && |layout| == |t.packages|
    && forall a :: 0 <= a < |layout| && t.packages[a].Some? ==>
         GoodGroups(layout[a]) && t.packages[a].value.edges == Flatten(layout[a])
  }

  lemma LayoutKnown(t: Tables, layout: seq<seq<Group>>, a: nat)
    requires Sound(t) && LaidOut(t, layout) && a < |layout| && t.packages[a].Some?
    ensures GroupsKnown(t, layout[a])
  {
    hide EdgeKnown, Flatten, Ordered, PackagesOrdered, StatusesOrdered, VersionsFit, StatusesKnown;
    var gs := layout[a];
    forall i | 0 <= i < |gs|
      ensures GroupKnown(t.names, gs[i])
    {
      FlattenAt(gs, i);
      forall k | 0 <= k < |GroupEdges(gs[i])|
        ensures EdgeKnown(t.names, GroupEdges(gs[i])[k])
      {
        InGroup(Flatten(gs), |Flatten(gs[..i])|, gs[i], k);
        assert EdgeKnown(t.names, t.packages[a].value.edges[|Flatten(gs[..i])| + k]);
      }
    }
  }

  /** A package that is to be installed. */
  ghost predicate Wanted(t: Tables, a: nat)
    requires Sound(t)
  {
    SoundFacts(t);
    a < t.p && t.packages[a].Some? && HasStatus(t, a, 1, INSTALL)
  }

  /** If the package is wanted, then all that it depends on can be had. */
  ghost predicate PackageOk(t: Tables, layout: seq<seq<Group>>, a: nat)
    requires Sound(t) && LaidOut(t, layout)
  {
    Wanted(t, a) ==>
      a < |layout| && GroupsKnown(t, layout[a]) && GroupsOk(t, layout[a], |layout[a]|)
  }

  /** Whether the package is to be installed, as the loop finds out. */
  method IsWanted(db: Database, a: nat, ghost t: Tables) returns (r: bool)
    requires Shows(db, t) && a < t.p
    modifies db.names.slots
    ensures Shows(db, t) && r == Wanted(t, a)
  {
    hide Shows, Sound, Word, StatusOf;
    ShowsParts(db, t);
    if db.packages[a].None? {
      return false;
    }
    var s := PackageStatus(db, a, t);
    if db.statuses[s].None? {
      return false;
    }
    WordsStart(t, |t.statuses|);
    assert StatusOf(t, a, s);
    var x := GetStatus(db, s, 1, t);
    var y := Intern(db, INSTALL, t);
    r := x == y;
    ShowsParts(db, t);
    SameNumber(db.names.slots[..], db.names.prime, x, y);
  }

  /** The dependency loop of `check_deps`: it comes to its end exactly if every
      package that is wanted has, for each dependency and each group of
      alternatives, a package that satisfies it. */
  method CheckDependencies(db: Database, ghost t: Tables, ghost layout: seq<seq<Group>>) returns (ok: bool)
    requires Shows(db, t) && LaidOut(t, layout)
    modifies db.names.slots
    ensures Shows(db, t)
    ensures ok <==> forall a: nat :: a < t.p ==> PackageOk(t, layout, a)
  {
    hide Shows, Sound, GroupsOk, GroupKnown, Wanted, Flatten;
    ShowsParts(db, t);
    var i := 0;
    while i < db.packagePrime
      invariant i <= t.p && Shows(db, t)
      invariant forall a: nat :: a < i ==> PackageOk(t, layout, a)
    {
      ShowsParts(db, t);
      var wanted := IsWanted(db, i, t);
      if wanted {
        WantedIsThere(t, i);
        LayoutKnown(t, layout, i);
        ShowsParts(db, t);
        var good := CheckPackage(db, db.packages[i].value.edges, t, layout[i]);
        if !good {
          assert !PackageOk(t, layout, i);
          return false;
        }
      }
      assert PackageOk(t, layout, i);
      i := i + 1;
    }
    ShowsParts(db, t);
    ok := true;
  }

  lemma WantedIsThere(t: Tables, a: nat)
    requires Sound(t) && Wanted(t, a)
    ensures a < t.p && t.packages[a].Some?
  {
    hide Sound, HasStatus;
  }
}
