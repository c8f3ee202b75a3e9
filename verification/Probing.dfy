/** Open addressing with double hashing: with a prime table size the probe
    sequence comes to every slot. */
module Probing {
  import opened Bits
  import opened PrefixCode
  import opened CStrings
  import opened Versions
  import opened Primes

  // ----- the probe sequence -----

  /** `probe_address -= probe_decrement`, and once round if that is below 0. */
  function NextProbe(a: nat, d: nat, p: nat): (r: nat)
    requires a < p && 0 < d < p
    ensures r < p
  {
    if a >= d then a - d else a - d + p
  }

  function Probe(start: nat, d: nat, p: nat, k: nat): (a: nat)
    requires start < p && 0 < d < p
    ensures a < p
  {
    if k == 0 then start else NextProbe(Probe(start, d, p, k - 1), d, p)
  }

  /** How many times the sequence has gone round. */
  function Rounds(start: nat, d: nat, p: nat, k: nat): nat
    requires start < p && 0 < d < p
  {
    if k == 0 then 0
    else Rounds(start, d, p, k - 1) + (if Probe(start, d, p, k - 1) >= d then 0 else 1)
  }

  lemma {:induction false} ProbeIs(start: nat, d: nat, p: nat, k: nat)
    requires start < p && 0 < d < p
    ensures Probe(start, d, p, k) + d * k == start + p * Rounds(start, d, p, k)
  {
    if k > 0 {
      hide Probe, Rounds;
      ProbeIs(start, d, p, k - 1);
      ProbeStep(start, d, p, k);
      Distribute(d, k - 1, 1);
      Distribute(p, Rounds(start, d, p, k - 1), Rounds(start, d, p, k) - Rounds(start, d, p, k - 1));
      assert d * 1 == d && p * 1 == p && p * 0 == 0;
    } else {
      assert p * 0 == 0 && d * 0 == 0;
    }
  }

  lemma ProbeStep(start: nat, d: nat, p: nat, k: nat)
    requires start < p && 0 < d < p && k > 0
    ensures var turn := Rounds(start, d, p, k) - Rounds(start, d, p, k - 1);
            turn in {0, 1} && Probe(start, d, p, k) == Probe(start, d, p, k - 1) - d + (if turn == 1 then p else 0)
  {
  }

  lemma {:induction false} RoundsGrow(start: nat, d: nat, p: nat, i: nat, j: nat)
    requires start < p && 0 < d < p && i <= j
    ensures Rounds(start, d, p, i) <= Rounds(start, d, p, j)
  {
    if i < j {
      RoundsGrow(start, d, p, i, j - 1);
    }
  }

  /** The first p slots of the sequence are all different. */
  lemma ProbesDiffer(start: nat, d: nat, p: nat, i: nat, j: nat)
    requires IsPrime(p) && start < p && 0 < d < p && i < j < i + p
    ensures Probe(start, d, p, i) != Probe(start, d, p, j)
  {
    if Probe(start, d, p, i) == Probe(start, d, p, j) {
      ProbeIs(start, d, p, i);
      ProbeIs(start, d, p, j);
      RoundsGrow(start, d, p, i, j);
      var q := Rounds(start, d, p, j) - Rounds(start, d, p, i);
      Distribute(d, j, i);
      assert (j - i) * d == d * (j - i);
      Distribute(p, Rounds(start, d, p, j), Rounds(start, d, p, i));
      NoSmallMultiple(p, d, j - i, q);
    }
  }

  function Visited(start: nat, d: nat, p: nat, n: nat): (s: set<nat>)
    requires start < p && 0 < d < p
    ensures forall a :: a in s ==> a < p
  {
    if n == 0 then {} else Visited(start, d, p, n - 1) + {Probe(start, d, p, n - 1)}
  }

  lemma {:induction false} VisitedAt(start: nat, d: nat, p: nat, n: nat, a: nat) returns (k: nat)
    requires start < p && 0 < d < p && a in Visited(start, d, p, n)
    ensures k < n && Probe(start, d, p, k) == a
  {
    if a == Probe(start, d, p, n - 1) {
      k := n - 1;
    } else {
      k := VisitedAt(start, d, p, n - 1, a);
    }
  }

  lemma {:induction false} VisitedSize(start: nat, d: nat, p: nat, n: nat)
    requires IsPrime(p) && start < p && 0 < d < p && n <= p
    ensures |Visited(start, d, p, n)| == n
  {
    if n > 0 {
      VisitedSize(start, d, p, n - 1);
      var a := Probe(start, d, p, n - 1);
      if a in Visited(start, d, p, n - 1) {
        var k := VisitedAt(start, d, p, n - 1, a);
        ProbesDiffer(start, d, p, k, n - 1);
      }
    }
  }

  lemma {:induction false} AllSize(p: nat)
    ensures |All(p)| == p
  {
    if p > 0 {
      AllSize(p - 1);
    }
  }

  lemma SubsetEqual(s: set<nat>, t: set<nat>)
    requires s <= t && |s| == |t|
    ensures s == t
  {
    assert |t - s| == |t| - |s|;
  }

  /** Every slot is probed within p steps. */
  lemma ProbesAll(start: nat, d: nat, p: nat, a: nat) returns (k: nat)
    requires IsPrime(p) && start < p && 0 < d < p && a < p
    ensures k < p && Probe(start, d, p, k) == a
  {
    VisitedSize(start, d, p, p);
    AllSize(p);
    SubsetEqual(Visited(start, d, p, p), All(p));
    k := VisitedAt(start, d, p, p, a);
  }

  // ----- the hash -----

  type LongBits = n: nat | n == 32 || n == 64 witness 64

  /** The width of `unsigned long`. */
  const ULONG_BITS: LongBits

  /** The sum over the first n characters. */
  function HashNumber(key: cstring, n: nat): nat
    requires n <= |key|
  {
    if n == 0 then 0
    else if n == 1 then key[0]
    else
      var x: nat := key[n - 1];
      (HashNumber(key, n - 1) + Shl(x + key[n - 2], x * (n - 1) % 24)) % Pow2(ULONG_BITS)
  }

  /** `make_hash`: where to start and how far to step. */
  function MakeHash(key: cstring, p: nat): (r: (nat, nat))
    requires p >= 3
    ensures r.0 < p && 0 < r.1 < p
  {
    var h := HashNumber(key, |key|);
    (h % 0x1_0000_0000 % p, 1 + h % (p - 1))
  }

  /** The k-th slot probed for a key. */
  function Slot(key: cstring, p: nat, k: nat): (a: nat)
    requires p >= 3
    ensures a < p
  {
    var (start, d) := MakeHash(key, p);
    Probe(start, d, p, k)
  }

  lemma SlotsAll(key: cstring, p: nat, a: nat) returns (k: nat)
    requires IsPrime(p) && p >= 3 && a < p
    ensures k < p && Slot(key, p, k) == a
  {
    var (start, d) := MakeHash(key, p);
    k := ProbesAll(start, d, p, a);
  }

  lemma SlotsDiffer(key: cstring, p: nat, i: nat, j: nat)
    requires IsPrime(p) && p >= 3 && i < j < i + p
    ensures Slot(key, p, i) != Slot(key, p, j)
  {
    var (start, d) := MakeHash(key, p);
    ProbesDiffer(start, d, p, i, j);
  }
}
