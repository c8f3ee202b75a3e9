/** The table that turns strings into numbers: once a string has a number it
    keeps it, and no two strings share one. */
module NameTables {
  import opened Bits
  import opened PrefixCode
  import opened CStrings
  import opened Versions
  import opened Primes
  import opened Probing

  type Slots = seq<Option<cstring>>

  /** The key is found at the k-th probe: other keys fill the slots before. */
  ghost predicate FoundAt(slots: Slots, p: nat, key: cstring, a: nat, k: nat)
    requires 3 <= p <= |slots|
  {
    && k < p && Slot(key, p, k) == a
    && forall j :: 0 <= j < k ==> slots[Slot(key, p, j)].Some? && slots[Slot(key, p, j)].value != key
  }

  ghost predicate Found(slots: Slots, p: nat, key: cstring, a: nat)
    requires 3 <= p <= |slots|
  {
    exists k :: FoundAt(slots, p, key, a, k)
  }

  /** Every string in the table is found by probing for it. */
  ghost predicate Ordered(slots: Slots, p: nat)
  {
    && 3 <= p <= |slots| && IsPrime(p)
    && forall a :: 0 <= a < p && slots[a].Some? ==> Found(slots, p, slots[a].value, a)
  }

  /** No two slots hold the same string. */
  lemma Injective(slots: Slots, p: nat, a: nat, b: nat)
    requires Ordered(slots, p) && a < p && b < p && slots[a].Some? && slots[a] == slots[b]
    ensures a == b
  {
    hide Slot;
    var key := slots[a].value;
    assert Found(slots, p, slots[a].value, a) && Found(slots, p, slots[b].value, b);
    var k :| FoundAt(slots, p, key, a, k);
    var l :| FoundAt(slots, p, key, b, l);
    NotBefore(slots, p, key, a, k, b, l);
    NotBefore(slots, p, key, b, l, a, k);
  }

  lemma NotBefore(slots: Slots, p: nat, key: cstring, a: nat, k: nat, b: nat, l: nat)
    requires 3 <= p <= |slots| && a < p && slots[a] == Some(key)
    requires FoundAt(slots, p, key, a, k) && FoundAt(slots, p, key, b, l)
    ensures l <= k
  {
    hide Slot;
  }

  /** Filling the slot that a search ends at keeps the table in order. */
  lemma Filled(slots: Slots, p: nat, key: cstring, a: nat, k: nat)
    requires Ordered(slots, p) && FoundAt(slots, p, key, a, k) && a < p && slots[a].None?
    ensures Ordered(slots[a := Some(key)], p)
  {
    hide Slot;
    var slots' := slots[a := Some(key)];
    forall b | 0 <= b < p && slots'[b].Some?
      ensures Found(slots', p, slots'[b].value, b)
    {
      if b == a {
        NotYet(slots, p, key, k, a);
        assert FoundAt(slots', p, key, a, k);
      } else {
        assert Found(slots, p, slots[b].value, b);
        var l :| FoundAt(slots, p, slots[b].value, b, l);
        assert FoundAt(slots', p, slots[b].value, b, l);
      }
    }
  }

  lemma NotYet(slots: Slots, p: nat, key: cstring, k: nat, a: nat)
    requires 3 <= p <= |slots| && FoundAt(slots, p, key, a, k) && a < p && slots[a].None?
    ensures forall j :: 0 <= j < k ==> Slot(key, p, j) != a
  {
    hide Slot;
  }

  ghost predicate Present(slots: Slots, p: nat, key: cstring)
  {
    exists a :: 0 <= a < p <= |slots| && slots[a] == Some(key)
  }

  ghost predicate HasRoom(slots: Slots, p: nat)
  {
    exists a :: 0 <= a < p <= |slots| && slots[a].None?
  }

  /** Probing for a string comes to an end if it is there or a slot is free. */
  lemma SearchEnds(slots: Slots, p: nat, key: cstring) returns (n: nat)
    requires Ordered(slots, p) && (Present(slots, p, key) || HasRoom(slots, p))
    ensures n < p && (slots[Slot(key, p, n)].None? || slots[Slot(key, p, n)].value == key)
  {
    hide Slot;
    var a :| 0 <= a < p && (slots[a].None? || slots[a] == Some(key));
    n := SlotsAll(key, p, a);
  }

  /** Otherwise it never does. */
  lemma SearchNeverEnds(slots: Slots, p: nat, key: cstring, k: nat)
    requires Ordered(slots, p) && !Present(slots, p, key) && !HasRoom(slots, p)
    ensures slots[Slot(key, p, k)].Some? && slots[Slot(key, p, k)].value != key
  {
  }

  lemma OrderedSize(slots: Slots, p: nat)
    requires Ordered(slots, p)
    ensures 3 <= p <= |slots|
  {
  }

  lemma SlotIs(key: cstring, p: nat, k: nat)
    requires p >= 3
    ensures k == 0 ==> Slot(key, p, 0) == MakeHash(key, p).0
    ensures k > 0 ==> Slot(key, p, k) == NextProbe(Slot(key, p, k - 1), MakeHash(key, p).1, p)
  {
    hide MakeHash;
  }

  /** A search that comes to a free slot has not missed the string. */
  lemma NotPresent(slots: Slots, p: nat, key: cstring, a: nat, k: nat)
    requires Ordered(slots, p) && FoundAt(slots, p, key, a, k) && slots[a].None?
    ensures !Present(slots, p, key)
  {
    hide Slot;
    if Present(slots, p, key) {
      var b :| 0 <= b < p && slots[b] == Some(key);
      assert Found(slots, p, slots[b].value, b);
      var l :| FoundAt(slots, p, key, b, l);
    }
  }

  class NameTable {
    const slots: array<Option<cstring>>
    const prime: nat

    ghost predicate Valid()
      reads slots
    {
      Ordered(slots[..], prime)
    }

    constructor (prime: nat)
      requires IsPrime(prime) && prime >= 3
      ensures Valid() && this.prime == prime && fresh(slots)
      ensures forall a :: 0 <= a < prime ==> slots[a].None?
    {
      this.prime := prime;
      slots := new Option<cstring>[prime + 1](_ => None);
    }

    /** `search_name_hashtable`: the slot of the string, which is added if it is
        new; every string there already stays where it is. */
    method Search(key: cstring) returns (a: nat)
      requires Valid() && (Present(slots[..], prime, key) || HasRoom(slots[..], prime))
      modifies slots
      ensures Valid() && a < prime <= slots.Length && slots[a] == Some(key)
      ensures slots[..] == old(slots[..])[a := Some(key)]
      ensures old(Present(slots[..], prime, key)) ==> slots[..] == old(slots[..])
      ensures forall b :: 0 <= b < slots.Length && old(slots[b]).Some? ==> slots[b] == old(slots[b])
    {
      hide Ordered, Present, HasRoom, MakeHash, Slot;
      OrderedSize(slots[..], prime);
      var probe := MakeHash(key, prime);
      a := probe.0;
      ghost var s, k := slots[..], 0;
      ghost var n := SearchEnds(s, prime, key);
      SlotIs(key, prime, 0);
      while slots[a].Some?
        invariant a == Slot(key, prime, k) && k <= n && slots[..] == s
        invariant forall j :: 0 <= j < k ==> s[Slot(key, prime, j)].Some? && s[Slot(key, prime, j)].value != key
        decreases n - k
      {
        if slots[a].value == key {
          assert s[a := Some(key)] == s;
          return;
        }
        SlotIs(key, prime, k + 1);
        a := if a >= probe.1 then a - probe.1 else a - probe.1 + prime;
        k := k + 1;
      }
      assert FoundAt(s, prime, key, a, k);
      NotPresent(s, prime, key, a, k);
      Filled(s, prime, key, a, k);
      slots[a] := Some(key);
      assert slots[..] == s[a := Some(key)];
    }
  }
}
