/** The package and the status table, which refer to the name table and to each
    other by number. */
module PackageDb {
  import opened Bits
  import opened PrefixCode
  import opened CStrings
  import opened Versions
  import opened Primes
  import opened Probing
  import opened NameTables

  /** The sizes of the three tables. */
  const NAME_HASH_PRIME := 16381
  const PACKAGE_HASH_PRIME := 10007
  const STATUS_HASH_PRIME := 8191

  lemma SizesArePrime()
    ensures IsPrime(NAME_HASH_PRIME) && IsPrime(PACKAGE_HASH_PRIME) && IsPrime(STATUS_HASH_PRIME)
  {
    Prime16381();
    Prime10007();
    Prime8191();
  }

  /** A relation of a package to another; in an edge that starts a group of
      alternatives, `version` is their number. */
  datatype Edge = Edge(op: Operator, typ: nat, name: nat, version: nat)

  datatype Node = Node(name: nat, version: nat, edges: seq<Edge>)

  datatype StatusNode = StatusNode(pkg: nat, status: nat)

  type Packages = seq<Option<Node>>
  type Statuses = seq<Option<StatusNode>>

  /** A number that stands for a string. */
  ghost predicate Known(names: Slots, id: nat)
  {
    id < |names| && names[id].Some?
  }

  ghost function NameOf(names: Slots, id: nat): cstring
    requires Known(names, id)
  {
    names[id].value
  }

  /** The order of two versions in the table. */
  ghost function Compared(names: Slots, v: nat, w: nat): int
    requires Known(names, v) && Known(names, w)
  {
    VersionOrder(SplitVersion(NameOf(names, v)), SplitVersion(NameOf(names, w)))
  }

  /** A package of this name whose version is as asked for. */
  ghost predicate Matches(names: Slots, n: Node, name: nat, version: nat, op: Operator)
    requires Known(names, n.version) && Known(names, version)
  {
    n.name == name && (op == VerAny || Holds(op, Compared(names, n.version, version)))
  }

  /** The names of all packages are known. */
  ghost predicate AllKnown(names: Slots, packages: Packages)
  {
    forall a :: 0 <= a < |packages| && packages[a].Some? ==>
      Known(names, packages[a].value.name) && Known(names, packages[a].value.version)
  }

  /** The first slot, k probes on, that is free or has a matching package. */
  ghost predicate PackageAt(names: Slots, packages: Packages, p: nat, name: nat, version: nat, op: Operator, a: nat, k: nat)
    requires 3 <= p <= |packages| && AllKnown(names, packages) && Known(names, name) && Known(names, version)
  {
    && k < p && Slot(NameOf(names, name), p, k) == a
    && forall j :: 0 <= j < k ==>
         && packages[Slot(NameOf(names, name), p, j)].Some?
         && !Matches(names, packages[Slot(NameOf(names, name), p, j)].value, name, version, op)
  }

  /** A package is where a search for exactly its version ends. */
  ghost predicate Placed(names: Slots, packages: Packages, p: nat, n: Node, a: nat)
    requires 3 <= p <= |packages| && AllKnown(names, packages) && Known(names, n.name) && Known(names, n.version)
  {
    exists k :: PackageAt(names, packages, p, n.name, n.version, VerEqual, a, k)
  }

  ghost predicate PackagesOrdered(names: Slots, packages: Packages, p: nat)
  {
    && 3 <= p <= |packages| && IsPrime(p) && AllKnown(names, packages)
    && forall a :: 0 <= a < p && packages[a].Some? ==> Placed(names, packages, p, packages[a].value, a)
  }

  /** If the search comes to a free slot there is no such package at all. */
  lemma NoSuchPackage(names: Slots, packages: Packages, p: nat, name: nat, version: nat, op: Operator, a: nat, k: nat, b: nat)
    requires PackagesOrdered(names, packages, p) && Known(names, name) && Known(names, version)
    requires PackageAt(names, packages, p, name, version, op, a, k) && packages[a].None?
    requires b < p && packages[b].Some?
    ensures !Matches(names, packages[b].value, name, version, op)
  {
    hide Slot, Compared;
    var n := packages[b].value;
    if n.name == name {
      assert Placed(names, packages, p, n, b);
      var l :| PackageAt(names, packages, p, n.name, n.version, VerEqual, b, l);
      assert Slot(NameOf(names, name), p, l) == b;
      assert Slot(NameOf(names, name), p, k) == a;
    }
  }

  lemma EqualVersions(names: Slots, u: nat, v: nat, w: nat)
    requires Known(names, u) && Known(names, v) && Known(names, w) && Compared(names, u, v) == 0
    ensures Compared(names, v, u) == 0
    ensures Compared(names, u, w) == 0 <==> Compared(names, v, w) == 0
    ensures Compared(names, w, u) == 0 <==> Compared(names, w, v) == 0
  {
    var a, b, c := SplitVersion(NameOf(names, u)), SplitVersion(NameOf(names, v)), SplitVersion(NameOf(names, w));
    OrderTotal(a, b);
    OrderTotal(a, c);
    OrderTotal(b, c);
    hide VersionOrder, SplitVersion;
    if VersionOrder(a, c) == 0 {
      OrderTransitive(b, a, c);
      OrderTransitive(c, a, b);
    }
    if VersionOrder(b, c) == 0 {
      OrderTransitive(a, b, c);
      OrderTransitive(c, b, a);
    }
  }

  /** Putting a package where the search for it ends keeps the table in order,
      also when it replaces one. */
  lemma PackagePlaced(names: Slots, packages: Packages, p: nat, n: Node, a: nat, k: nat)
    requires PackagesOrdered(names, packages, p) && Known(names, n.name) && Known(names, n.version)
    requires PackageAt(names, packages, p, n.name, n.version, VerEqual, a, k) && a < p
    requires packages[a].Some? ==> Matches(names, packages[a].value, n.name, n.version, VerEqual)
    ensures PackagesOrdered(names, packages[a := Some(n)], p)
  {
    hide Slot, Compared;
    var packages' := packages[a := Some(n)];
    forall b | 0 <= b < p && packages'[b].Some?
      ensures Placed(names, packages', p, packages'[b].value, b)
    {
      if b == a {
        StillFirst(names, packages, p, n, a, k);
      } else {
        assert Placed(names, packages, p, packages[b].value, b);
        var l :| PackageAt(names, packages, p, packages[b].value.name, packages[b].value.version, VerEqual, b, l);
        StillBefore(names, packages, p, n, a, packages[b].value, b, l);
      }
    }
  }

  lemma StillFirst(names: Slots, packages: Packages, p: nat, n: Node, a: nat, k: nat)
    requires PackagesOrdered(names, packages, p) && Known(names, n.name) && Known(names, n.version)
    requires PackageAt(names, packages, p, n.name, n.version, VerEqual, a, k) && a < p
    requires packages[a].Some? ==> Matches(names, packages[a].value, n.name, n.version, VerEqual)
    ensures AllKnown(names, packages[a := Some(n)]) && Placed(names, packages[a := Some(n)], p, n, a)
  {
    hide Slot, Compared;
    var packages' := packages[a := Some(n)];
    var key := NameOf(names, n.name);
    forall j | 0 <= j < k
      ensures packages'[Slot(key, p, j)].Some? && !Matches(names, packages'[Slot(key, p, j)].value, n.name, n.version, VerEqual)
    {
      SlotsDiffer(key, p, j, k);
      assert packages'[Slot(key, p, j)] == packages[Slot(key, p, j)];
    }
    assert PackageAt(names, packages', p, n.name, n.version, VerEqual, a, k);
  }

  lemma StillBefore(names: Slots, packages: Packages, p: nat, n: Node, a: nat, m: Node, b: nat, l: nat)
    requires PackagesOrdered(names, packages, p) && Known(names, n.name) && Known(names, n.version) && a < p
    requires Known(names, m.name) && Known(names, m.version) && PackageAt(names, packages, p, m.name, m.version, VerEqual, b, l)
    requires packages[a].Some? ==> Matches(names, packages[a].value, n.name, n.version, VerEqual)
    ensures AllKnown(names, packages[a := Some(n)]) && Placed(names, packages[a := Some(n)], p, m, b)
  {
    hide Slot, Compared;
    var packages' := packages[a := Some(n)];
    var key := NameOf(names, m.name);
    forall j | 0 <= j < l
      ensures packages'[Slot(key, p, j)].Some? && !Matches(names, packages'[Slot(key, p, j)].value, m.name, m.version, VerEqual)
    {
      assert packages[Slot(key, p, j)].Some?;
      if Slot(key, p, j) == a {
        EqualVersions(names, packages[a].value.version, n.version, m.version);
      }
    }
    assert PackageAt(names, packages', p, m.name, m.version, VerEqual, b, l);
  }

  /** A package put where a search with another operator ends, as `check_deps` does
      with a package that is only provided, keeps the table in order exactly if
      there is none of the same name and an equal version. */
  lemma VirtualPlaced(names: Slots, packages: Packages, p: nat, n: Node, op: Operator, a: nat, k: nat)
    requires PackagesOrdered(names, packages, p) && Known(names, n.name) && Known(names, n.version)
    requires PackageAt(names, packages, p, n.name, n.version, op, a, k) && a < p && packages[a].None?
    ensures PackagesOrdered(names, packages[a := Some(n)], p) <==> NoneEqual(names, packages, p, n)
  {
    hide Slot, Compared, IsPrime;
    if NoneEqual(names, packages, p, n) {
      forall j | 0 <= j < k
        ensures var b := Slot(NameOf(names, n.name), p, j);
                packages[b].Some? && !Matches(names, packages[b].value, n.name, n.version, VerEqual)
      {
        assert 0 <= Slot(NameOf(names, n.name), p, j) < p;
      }
      assert PackageAt(names, packages, p, n.name, n.version, VerEqual, a, k);
      PackagePlaced(names, packages, p, n, a, k);
    } else if PackagesOrdered(names, packages[a := Some(n)], p) {
      var b: nat :| b < p && packages[b].Some? && Matches(names, packages[b].value, n.name, n.version, VerEqual);
      OneOfEqual(names, packages[a := Some(n)], p, a, b);
    }
  }

  ghost predicate NoneEqual(names: Slots, packages: Packages, p: nat, n: Node)
    requires p <= |packages| && AllKnown(names, packages) && Known(names, n.version)
  {
    forall b :: 0 <= b < p && packages[b].Some? ==> !Matches(names, packages[b].value, n.name, n.version, VerEqual)
  }

  /** In a table in order no two packages have the same name and equal versions. */
  lemma OneOfEqual(names: Slots, packages: Packages, p: nat, a: nat, b: nat)
    requires PackagesOrdered(names, packages, p) && a < p && b < p && packages[a].Some? && packages[b].Some?
    requires Matches(names, packages[b].value, packages[a].value.name, packages[a].value.version, VerEqual)
    ensures a == b
  {
    hide Slot, Compared, IsPrime;
    var n, m := packages[a].value, packages[b].value;
    assert Placed(names, packages, p, n, a) && Placed(names, packages, p, m, b);
    var k :| PackageAt(names, packages, p, n.name, n.version, VerEqual, a, k);
    var l :| PackageAt(names, packages, p, m.name, m.version, VerEqual, b, l);
    EqualVersions(names, m.version, n.version, n.version);
    var key := NameOf(names, n.name);
    assert Slot(key, p, k) == a && Slot(key, p, l) == b;
  }

  /** That is so whatever the table holds if the operator admits equality. */
  lemma VirtualKept(names: Slots, packages: Packages, p: nat, n: Node, op: Operator, a: nat, k: nat)
    requires PackagesOrdered(names, packages, p) && Known(names, n.name) && Known(names, n.version)
    requires PackageAt(names, packages, p, n.name, n.version, op, a, k) && a < p && packages[a].None?
    requires op != VerLess && op != VerMore && op != VerNull
    ensures PackagesOrdered(names, packages[a := Some(n)], p)
  {
    hide PackagesOrdered, PackageAt, Compared;
    VirtualPlaced(names, packages, p, n, op, a, k);
    OrderedFacts(names, packages, p);
    forall b | 0 <= b < p && packages[b].Some?
      ensures !Matches(names, packages[b].value, n.name, n.version, VerEqual)
    {
      NoSuchPackage(names, packages, p, n.name, n.version, op, a, k, b);
    }
  }

  // ----- the status table -----

  /** The name of the package that a status belongs to. */
  ghost function StatusKeys(names: Slots, packages: Packages, statuses: Statuses): (keys: Slots)
    requires AllKnown(names, packages) && Linked(packages, statuses)
    ensures |keys| == |statuses|
    ensures forall a :: 0 <= a < |statuses| ==> keys[a].Some? == statuses[a].Some?
  {
    seq(|statuses|, a requires 0 <= a < |statuses| =>
      if statuses[a].None? then None else Some(NameOf(names, packages[statuses[a].value.pkg].value.name)))
  }

  /** Every status has its package. */
  ghost predicate Linked(packages: Packages, statuses: Statuses)
  {
    forall a :: 0 <= a < |statuses| && statuses[a].Some? ==>
      statuses[a].value.pkg < |packages| && packages[statuses[a].value.pkg].Some?
  }

  ghost predicate StatusesOrdered(names: Slots, packages: Packages, statuses: Statuses, p: nat)
  {
    AllKnown(names, packages) && Linked(packages, statuses) && Ordered(StatusKeys(names, packages, statuses), p)
  }

  /** Replacing a package by one of the same name does not touch the status table. */
  lemma StatusesKept(names: Slots, packages: Packages, statuses: Statuses, p: nat, a: nat, n: Node)
    requires StatusesOrdered(names, packages, statuses, p) && a < |packages| && Known(names, n.name) && Known(names, n.version)
    requires packages[a].Some? ==> packages[a].value.name == n.name
    ensures StatusesOrdered(names, packages[a := Some(n)], statuses, p)
  {
    hide Ordered;
    assert StatusKeys(names, packages[a := Some(n)], statuses) == StatusKeys(names, packages, statuses);
  }

  // ----- more strings -----

  /** Every string keeps its number. */
  ghost predicate Grows(names: Slots, names': Slots)
  {
    |names'| == |names| && forall a :: 0 <= a < |names| && names[a].Some? ==> names'[a] == names[a]
  }

  /** New strings change nothing for the other two tables. */
  lemma TablesKept(names: Slots, names': Slots, packages: Packages, p: nat, statuses: Statuses, q: nat)
    requires Grows(names, names') && PackagesOrdered(names, packages, p) && StatusesOrdered(names, packages, statuses, q)
    ensures PackagesOrdered(names', packages, p) && StatusesOrdered(names', packages, statuses, q)
    ensures StatusKeys(names', packages, statuses) == StatusKeys(names, packages, statuses)
  {
    hide Slot, Compared, Ordered;
    assert AllKnown(names', packages);
    assert StatusKeys(names', packages, statuses) == StatusKeys(names, packages, statuses);
    forall a | 0 <= a < p && packages[a].Some?
      ensures Placed(names', packages, p, packages[a].value, a)
    {
      assert Placed(names, packages, p, packages[a].value, a);
      var n := packages[a].value;
      var k :| PackageAt(names, packages, p, n.name, n.version, VerEqual, a, k);
      PackageAtKept(names, names', packages, p, n.name, n.version, VerEqual, a, k);
    }
  }

  lemma PackageAtKept(names: Slots, names': Slots, packages: Packages, p: nat, name: nat, version: nat, op: Operator, a: nat, k: nat)
    requires Grows(names, names') && 3 <= p <= |packages| && AllKnown(names, packages) && Known(names, name) && Known(names, version)
    requires PackageAt(names, packages, p, name, version, op, a, k)
    ensures AllKnown(names', packages) && Known(names', name) && Known(names', version)
    ensures PackageAt(names', packages, p, name, version, op, a, k)
  {
    hide Slot, VersionOrder, SplitVersion;
  }

  ghost predicate VersionsFit(names: Slots, packages: Packages)
  {
    forall a :: 0 <= a < |packages| && packages[a].Some? ==>
      Known(names, packages[a].value.version) && EpochFits(NameOf(names, packages[a].value.version))
  }

  /** A slot where a search for a package ends. */
  ghost predicate Stops(names: Slots, packages: Packages, p: nat, name: nat, version: nat, op: Operator, a: nat)
    requires p <= |packages| && AllKnown(names, packages) && Known(names, version)
  {
    a < p && (packages[a].None? || Matches(names, packages[a].value, name, version, op))
  }

  lemma PackageSearchEnds(names: Slots, packages: Packages, p: nat, name: nat, version: nat, op: Operator, a: nat) returns (n: nat)
    requires PackagesOrdered(names, packages, p) && Known(names, name) && Known(names, version)
    requires Stops(names, packages, p, name, version, op, a)
    ensures n < p && Slot(NameOf(names, name), p, n) == a
  {
    hide Slot;
    n := SlotsAll(NameOf(names, name), p, a);
  }

  class Database {
    const names: NameTable
    const packages: array<Option<Node>>
    const statuses: array<Option<StatusNode>>
    const packagePrime: nat
    const statusPrime: nat

    ghost predicate Valid()
      reads names.slots, packages, statuses
    {
      && names.Valid() && packages.Length > packagePrime && statuses.Length > statusPrime
      && PackagesOrdered(names.slots[..], packages[..], packagePrime)
      && StatusesOrdered(names.slots[..], packages[..], statuses[..], statusPrime)
      && VersionsFit(names.slots[..], packages[..])
    }

    ghost predicate Understood(name: nat, version: nat)
      reads names.slots
    {
      Known(names.slots[..], name) && Known(names.slots[..], version)
    }

    constructor (names: NameTable, packagePrime: nat, statusPrime: nat)
      requires names.Valid() && IsPrime(packagePrime) && packagePrime >= 3 && IsPrime(statusPrime) && statusPrime >= 3
      ensures Valid() && this.names == names && fresh(packages) && fresh(statuses)
      ensures this.packagePrime == packagePrime && this.statusPrime == statusPrime
      ensures forall a :: 0 <= a < packages.Length ==> packages[a].None?
      ensures forall a :: 0 <= a < statuses.Length ==> statuses[a].None?
    {
      this.names := names;
      this.packagePrime, this.statusPrime := packagePrime, statusPrime;
      packages := new Option<Node>[packagePrime + 1](_ => None);
      statuses := new Option<StatusNode>[statusPrime + 1](_ => None);
    }

    /** `test_version` */
    method TestVersion(version1: nat, version2: nat, op: Operator) returns (r: bool)
      requires Valid() && Understood(version1, version2)
      requires EpochFits(NameOf(names.slots[..], version1)) && EpochFits(NameOf(names.slots[..], version2))
      ensures r == Holds(op, Compared(names.slots[..], version1, version2))
    {
      hide PackagesOrdered, StatusesOrdered, Ordered, VersionOrder, SplitVersion, EpochFits;
      var result := VersionCompare(names.slots[version1].value, names.slots[version2].value);
      match op {
        case VerAny => r := true;
        case VerEqual => r := result == 0;
        case VerLess => r := result < 0;
        case VerLessEqual => r := result <= 0;
        case VerMore => r := result > 0;
        case VerMoreEqual => r := result >= 0;
        case VerNull => r := false;
      }
    }

    /** `search_package_hashtable`: the first matching package along the probe
        sequence, or the free slot that shows there is none. */
    method SearchPackage(name: nat, version: nat, op: Operator) returns (a: nat)
      requires Valid() && Understood(name, version) && EpochFits(NameOf(names.slots[..], version))
      requires exists b :: Stops(names.slots[..], packages[..], packagePrime, name, version, op, b)
      ensures a < packagePrime && exists k :: PackageAt(names.slots[..], packages[..], packagePrime, name, version, op, a, k)
      ensures packages[a].Some? ==> Matches(names.slots[..], packages[a].value, name, version, op)
      ensures packages[a].None? ==> forall b :: 0 <= b < packagePrime && packages[b].Some? ==>
        !Matches(names.slots[..], packages[b].value, name, version, op)
    {
      hide PackagesOrdered, StatusesOrdered, Ordered, MakeHash, Slot, Compared, Linked, EpochFits;
      ghost var ns, ps, p := names.slots[..], packages[..], packagePrime;
      OrderedFacts(ns, ps, p);
      ghost var key := NameOf(ns, name);
      ghost var b :| Stops(ns, ps, p, name, version, op, b);
      ghost var n := PackageSearchEnds(ns, ps, p, name, version, op, b);
      ghost var k := 0;
      var probe := MakeHash(names.slots[name].value, packagePrime);
      a := probe.0;
      SlotIs(key, p, 0);
      while packages[a].Some?
        invariant a == Slot(key, p, k) && k <= n && ns == names.slots[..] && ps == packages[..]
        invariant forall j :: 0 <= j < k ==> ps[Slot(key, p, j)].Some? && !Matches(ns, ps[Slot(key, p, j)].value, name, version, op)
        decreases n - k
      {
        if packages[a].value.name == name {
          if op == VerAny {
            assert PackageAt(ns, ps, p, name, version, op, a, k);
            return;
          }
          var good := TestVersion(packages[a].value.version, version, op);
          if good {
            assert ns == names.slots[..] && ps == packages[..];
            assert PackageAt(ns, ps, p, name, version, op, a, k);
            return;
          }
        }
        SlotIs(key, p, k + 1);
        a := if a >= probe.1 then a - probe.1 else a - probe.1 + packagePrime;
        k := k + 1;
      }
      assert PackageAt(ns, ps, p, name, version, op, a, k);
      NonePackage(ns, ps, p, name, version, op, a, k);
    }

    /** The table update of `fill_package_struct`: a package takes the place of
        one with the same name and an equal version, or a free slot. */
    method AddPackage(n: Node) returns (num: nat)
      requires Valid() && Understood(n.name, n.version) && EpochFits(NameOf(names.slots[..], n.version))
      requires exists b :: Stops(names.slots[..], packages[..], packagePrime, n.name, n.version, VerEqual, b)
      modifies packages
      ensures Valid() && num < packagePrime && packages[..] == old(packages[..])[num := Some(n)]
      ensures old(packages[num]).Some? ==> Matches(names.slots[..], old(packages[num]).value, n.name, n.version, VerEqual)
      ensures old(packages[num]).None? ==> forall b :: 0 <= b < packagePrime && old(packages[b]).Some? ==>
        !Matches(names.slots[..], old(packages[b]).value, n.name, n.version, VerEqual)
    {
      hide PackagesOrdered, StatusesOrdered, Ordered, Compared, Linked, PackageAt, EpochFits;
      num := SearchPackage(n.name, n.version, VerEqual);
      ghost var ns, ps := names.slots[..], packages[..];
      OrderedFacts(ns, ps, packagePrime);
      ghost var k :| PackageAt(ns, ps, packagePrime, n.name, n.version, VerEqual, num, k);
      PackagePlaced(ns, ps, packagePrime, n, num, k);
      StatusesKept(ns, ps, statuses[..], statusPrime, num, n);
      packages[num] := Some(n);
      assert packages[..] == ps[num := Some(n)];
    }

    /** `search_status_hashtable`: where the status of a package of this name is,
        or would be. */
    method SearchStatus(key: cstring) returns (a: nat)
      requires Valid() && StatusRoom(key)
      ensures a < statusPrime && exists k :: FoundAt(Keys(), statusPrime, key, a, k)
      ensures statuses[a].Some? ==> Keys()[a] == Some(key)
      ensures statuses[a].None? ==> !Present(Keys(), statusPrime, key)
    {
      hide PackagesOrdered, Ordered, MakeHash, Slot, Present, HasRoom;
      ghost var keys, p := Keys(), statusPrime;
      OrderedSize(keys, p);
      ghost var n := SearchEnds(keys, p, key);
      ghost var k := 0;
      var probe := MakeHash(key, statusPrime);
      a := probe.0;
      SlotIs(key, p, 0);
      while statuses[a].Some?
        invariant a == Slot(key, p, k) && k <= n && keys == Keys()
        invariant forall j :: 0 <= j < k ==> keys[Slot(key, p, j)].Some? && keys[Slot(key, p, j)].value != key
        decreases n - k
      {
        if key == names.slots[packages[statuses[a].value.pkg].value.name].value {
          assert FoundAt(keys, p, key, a, k);
          break;
        }
        SlotIs(key, p, k + 1);
        a := if a >= probe.1 then a - probe.1 else a - probe.1 + statusPrime;
        k := k + 1;
      }
      assert FoundAt(keys, p, key, a, k);
      if statuses[a].None? {
        NotPresent(keys, p, key, a, k);
      }
    }

    /** The update of the status table in `index_status_file`. */
    method AddStatus(node: StatusNode) returns (num: nat)
      requires Valid() && node.pkg < packages.Length && packages[node.pkg].Some?
      requires StatusRoom(NameOf(names.slots[..], packages[node.pkg].value.name))
      modifies statuses
      ensures Valid() && num < statusPrime && statuses[..] == old(statuses[..])[num := Some(node)]
      ensures Keys()[num] == Some(NameOf(names.slots[..], packages[node.pkg].value.name))
      ensures old(statuses[num]).Some? ==> old(Keys())[num] == Keys()[num]
    {
      hide PackagesOrdered, Ordered, Present, HasRoom, FoundAt, Slot;
      var key := names.slots[packages[node.pkg].value.name].value;
      num := SearchStatus(key);
      ghost var keys, ss := Keys(), statuses[..];
      OrderedSize(keys, statusPrime);
      ghost var k :| FoundAt(keys, statusPrime, key, num, k);
      statuses[num] := Some(node);
      assert statuses[..] == ss[num := Some(node)];
      KeysUpdated(names.slots[..], packages[..], ss, num, node);
      if ss[num].None? {
        Filled(keys, statusPrime, key, num, k);
      } else {
        assert keys[num := Some(key)] == keys;
      }
    }

    ghost function Keys(): Slots
      requires Valid()
      reads names.slots, packages, statuses
    {
      StatusKeys(names.slots[..], packages[..], statuses[..])
    }

    /** A search in the status table ends. */
    ghost predicate StatusRoom(key: cstring)
      requires Valid()
      reads names.slots, packages, statuses
    {
      Present(Keys(), statusPrime, key) || HasRoom(Keys(), statusPrime)
    }
  }

  lemma OrderedFacts(names: Slots, packages: Packages, p: nat)
    requires PackagesOrdered(names, packages, p)
    ensures 3 <= p <= |packages| && AllKnown(names, packages)
  {
  }

  lemma NonePackage(names: Slots, packages: Packages, p: nat, name: nat, version: nat, op: Operator, a: nat, k: nat)
    requires PackagesOrdered(names, packages, p) && Known(names, name) && Known(names, version) && a < p
    requires PackageAt(names, packages, p, name, version, op, a, k) && packages[a].None?
    ensures forall b :: 0 <= b < p && packages[b].Some? ==> !Matches(names, packages[b].value, name, version, op)
  {
    OrderedFacts(names, packages, p);
    hide PackagesOrdered, PackageAt, Matches;
    forall b | 0 <= b < p && packages[b].Some?
      ensures !Matches(names, packages[b].value, name, version, op)
    {
      NoSuchPackage(names, packages, p, name, version, op, a, k, b);
    }
  }

  lemma KeysUpdated(names: Slots, packages: Packages, statuses: Statuses, a: nat, node: StatusNode)
    requires AllKnown(names, packages) && Linked(packages, statuses) && a < |statuses|
    requires node.pkg < |packages| && packages[node.pkg].Some?
    ensures Linked(packages, statuses[a := Some(node)])
    ensures StatusKeys(names, packages, statuses[a := Some(node)])
         == StatusKeys(names, packages, statuses)[a := Some(NameOf(names, packages[node.pkg].value.name))]
  {
  }

  /** The program's tables, before anything is in them. */
  method NewDatabase() returns (db: Database)
    ensures db.Valid() && fresh(db) && fresh(db.names.slots) && fresh(db.packages) && fresh(db.statuses)
    ensures db.names.prime == NAME_HASH_PRIME && db.packagePrime == PACKAGE_HASH_PRIME && db.statusPrime == STATUS_HASH_PRIME
    ensures forall a :: 0 <= a < db.packages.Length ==> db.packages[a].None?
  {
    hide IsPrime, Ordered, PackagesOrdered, StatusesOrdered;
    SizesArePrime();
    var names := new NameTable(NAME_HASH_PRIME);
    db := new Database(names, PACKAGE_HASH_PRIME, STATUS_HASH_PRIME);
  }
}
