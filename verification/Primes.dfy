/** Prime numbers and what they divide. */
module Primes {
  import opened Bits

  predicate IsPrime(p: nat)
  {
    p >= 2 && forall a :: 2 <= a < p ==> p % a != 0
  }

  lemma AtLeastOnce(p: nat, x: int)
    requires x >= 1
    ensures p * x >= p
  {
  }

  lemma NegativeProduct(p: nat, x: int)
    requires p > 0 && x < 0
    ensures p * x < 0
  {
  }

  lemma MultipleMod(p: nat, x: nat)
    requires p > 0
    ensures (p * x) % p == 0
  {
    var q, r := (p * x) / p, (p * x) % p;
    assert p * x == p * q + r;
    Distribute(p, x, q);
    if x - q >= 1 {
      AtLeastOnce(p, x - q);
    } else if x - q < 0 {
      NegativeProduct(p, x - q);
    }
  }

  /** If p divides k * d, it divides the rest of p by k times d as well. */
  lemma Descent(p: nat, d: nat, k: nat, q: nat)
    requires 0 < k < p && k * d == p * q
    ensures (p % k) * d == p * (d - (p / k) * q)
  {
    var r, m := p % k, p / k;
    assert p == m * k + r;
    assert r * d == (p - m * k) * d == p * d - m * k * d;
    assert m * k * d == m * (k * d) == m * (p * q) == p * (m * q);
    assert p * d - p * (m * q) == p * (d - m * q);
  }

  /** No small multiple of a step is a multiple of a prime. */
  lemma {:induction false} NoSmallMultiple(p: nat, d: nat, k: nat, q: nat)
    requires IsPrime(p) && 0 < d < p && 0 < k < p
    ensures k * d != p * q
    decreases k
  {
    if k * d == p * q {
      Descent(p, d, k, q);
      var r, x := p % k, d - (p / k) * q;
      if k == 1 {
        Between(p, q, d);
      } else {
        assert r != 0;
        NotNegative(p, x, r * d);
        NoSmallMultiple(p, d, r, x);
      }
    }
  }

  lemma Between(p: nat, q: nat, d: nat)
    requires 0 < d < p
    ensures d != p * q
  {
    if q >= 1 {
      AtLeastOnce(p, q);
    }
  }

  lemma NotNegative(p: nat, x: int, y: nat)
    requires p > 0 && y == p * x
    ensures x >= 0
  {
    if x < 0 {
      NegativeProduct(p, x);
    }
  }

  // ----- trial division -----

  /** Nothing below f divides n. */
  predicate Rough(n: nat, f: nat)
  {
    forall d :: 2 <= d < f ==> n % d != 0
  }

  lemma QuotientExact(n: nat, a: nat, b: nat)
    requires n == a * b
    ensures n > 0 ==> b > 0 && n % b == 0
  {
    if n > 0 {
      assert b > 0;
      assert n == b * a;
      MultipleMod(b, a);
    }
  }

  lemma DivisorPair(n: nat, a: nat)
    requires a > 0 && n % a == 0
    ensures n == a * (n / a) && (n > 0 ==> n / a > 0 && n % (n / a) == 0)
  {
    QuotientExact(n, a, n / a);
  }

  lemma ProductGrows(a: nat, b: nat, c: nat, d: nat)
    requires a <= c && b <= d
    ensures a * b <= c * d
  {
    assert a * b <= a * d by { Distribute(a, d, b); SignOfProduct(a, d - b); }
    assert a * d <= c * d by { Distribute(d, c, a); SignOfProduct(d, c - a); }
  }

  lemma SignOfProduct(a: nat, b: nat)
    ensures a * b >= 0
  {
  }

  /** A number without a divisor up to its square root is a prime. */
  lemma RoughIsPrime(n: nat, f: nat)
    requires n >= 2 && Rough(n, f) && n < f * f
    ensures IsPrime(n)
  {
    forall a | 2 <= a < n
      ensures n % a != 0
    {
      if n % a == 0 {
        DivisorPair(n, a);
        var b := n / a;
        assert b != 1;
        ProductGrows(f, f, a, b);
      }
    }
  }

  /** The least divisor of a number is a prime. */
  lemma LeastDivisor(n: nat, f: nat)
    requires n > 0 && f >= 2 && Rough(n, f) && n % f == 0
    ensures IsPrime(f) && n >= f
  {
    DivisorPair(n, f);
    AtLeastOnce(f, n / f);
    forall a | 2 <= a < f
      ensures f % a != 0
    {
      if f % a == 0 {
        DividesOn(n, f, a);
      }
    }
  }

  lemma DividesOn(n: nat, f: nat, a: nat)
    requires a > 0 && f > 0 && n % f == 0 && f % a == 0
    ensures n % a == 0
  {
    var x, y := n / f, f / a;
    assert n == f * x && f == a * y;
    assert n == a * (y * x);
    MultipleMod(a, y * x);
  }

  predicate NoneOfTen(n: nat, f: nat)
    requires f > 0
  {
    && n % f != 0 && n % (f + 1) != 0 && n % (f + 2) != 0 && n % (f + 3) != 0 && n % (f + 4) != 0
    && n % (f + 5) != 0 && n % (f + 6) != 0 && n % (f + 7) != 0 && n % (f + 8) != 0 && n % (f + 9) != 0
  }

  lemma TenMore(n: nat, f: nat)
    requires f > 0 && Rough(n, f) && NoneOfTen(n, f)
    ensures Rough(n, f + 10)
  {
    forall d | 2 <= d < f + 10
      ensures n % d != 0
    {
      if d >= f {
        assert d - f in {0, 1, 2, 3, 4, 5, 6, 7, 8, 9};
      }
    }
  }

  lemma Prime16381()
    ensures IsPrime(16381)
  {
    hide Rough;
    NoneYet(16381);
    TenMore(16381, 2);
    TenMore(16381, 12);
    TenMore(16381, 22);
    TenMore(16381, 32);
    TenMore(16381, 42);
    TenMore(16381, 52);
    TenMore(16381, 62);
    TenMore(16381, 72);
    TenMore(16381, 82);
    TenMore(16381, 92);
    TenMore(16381, 102);
    TenMore(16381, 112);
    TenMore(16381, 122);
    RoughIsPrime(16381, 132);
  }

  lemma Prime10007()
    ensures IsPrime(10007)
  {
    hide Rough;
    NoneYet(10007);
    TenMore(10007, 2);
    TenMore(10007, 12);
    TenMore(10007, 22);
    TenMore(10007, 32);
    TenMore(10007, 42);
    TenMore(10007, 52);
    TenMore(10007, 62);
    TenMore(10007, 72);
    TenMore(10007, 82);
    TenMore(10007, 92);
    RoughIsPrime(10007, 102);
  }

  lemma Prime8191()
    ensures IsPrime(8191)
  {
    hide Rough;
    NoneYet(8191);
    TenMore(8191, 2);
    TenMore(8191, 12);
    TenMore(8191, 22);
    TenMore(8191, 32);
    TenMore(8191, 42);
    TenMore(8191, 52);
    TenMore(8191, 62);
    TenMore(8191, 72);
    TenMore(8191, 82);
    RoughIsPrime(8191, 92);
  }

  lemma NoneYet(n: nat)
    ensures Rough(n, 2)
  {
  }

  // ----- factorizations -----

  function Product(s: seq<nat>): nat
  {
    if s == [] then 1 else Product(s[..|s| - 1]) * s[|s| - 1]
  }

  predicate AllPrime(s: seq<nat>)
  {
    forall i :: 0 <= i < |s| ==> IsPrime(s[i])
  }

  predicate Ascending(s: seq<nat>)
  {
    forall i, j :: 0 <= i <= j < |s| ==> s[i] <= s[j]
  }

  /** Primes in order whose product is n. */
  predicate IsFactorization(s: seq<nat>, n: nat)
  {
    AllPrime(s) && Ascending(s) && Product(s) == n
  }

  /** A prime that divides a product divides one of the factors. */
  lemma Euclid(p: nat, a: nat, b: nat)
    requires IsPrime(p) && (a * b) % p == 0
    ensures a % p == 0 || b % p == 0
  {
    var x, y, r, t := a / p, b / p, a % p, b % p;
    if r != 0 && t != 0 {
      var q, z := (a * b) / p, x * b + y * r;
      CrossProduct(p, x, r, y, t);
      Distribute(p, q, z);
      SignOfProduct(r, t);
      NotNegative(p, q - z, r * t);
      NoSmallMultiple(p, t, r, q - z);
    }
  }

  lemma CrossProduct(p: nat, x: nat, r: nat, y: nat, t: nat)
    ensures (p * x + r) * (p * y + t) == p * (x * (p * y + t) + y * r) + r * t
  {
    var b := p * y + t;
    assert (p * x + r) * b == p * x * b + r * b;
    assert p * x * b == p * (x * b);
    assert r * b == r * (p * y) + r * t;
    assert r * (p * y) == p * (y * r);
    Distribute(p, x * b, y * r);
  }

  lemma {:induction false} PrimeIsFactor(p: nat, s: seq<nat>)
    requires IsPrime(p) && AllPrime(s) && Product(s) % p == 0
    ensures p in s
  {
    if s == [] {
      assert false;
    } else {
      var init, q := s[..|s| - 1], s[|s| - 1];
      Euclid(p, Product(init), q);
      if q % p == 0 {
        assert IsPrime(q);
        assert p <= q;
      } else {
        PrimeIsFactor(p, init);
      }
    }
  }

  lemma {:induction false} ProductPositive(s: seq<nat>)
    requires AllPrime(s)
    ensures Product(s) >= 1 && (s != [] ==> Product(s) >= 2 && Product(s) % s[|s| - 1] == 0)
  {
    if s != [] {
      var x, q := Product(s[..|s| - 1]), s[|s| - 1];
      ProductPositive(s[..|s| - 1]);
      assert IsPrime(q);
      AtLeastOnce(q, x);
      MultipleMod(q, x);
      assert Product(s) == q * x;
    }
  }

  /** There is only one factorization. */
  lemma {:induction false} FactorizationUnique(s: seq<nat>, t: seq<nat>, n: nat)
    requires IsFactorization(s, n) && IsFactorization(t, n)
    ensures s == t
  {
    hide Product, IsPrime;
    ProductPositive(s);
    ProductPositive(t);
    if s == [] || t == [] {
      EmptyProduct();
    } else {
      LastInBoth(s, t);
      LastInBoth(t, s);
      var x, y, q := Product(s[..|s| - 1]), Product(t[..|t| - 1]), s[|s| - 1];
      LastFactor(s);
      LastFactor(t);
      SameFactor(x, y, q);
      FactorizationUnique(s[..|s| - 1], t[..|t| - 1], x);
      assert s == s[..|s| - 1] + [q] && t == t[..|t| - 1] + [q];
    }
  }

  lemma EmptyProduct()
    ensures Product([]) == 1
  {
  }

  lemma LastFactor(s: seq<nat>)
    requires s != [] && AllPrime(s)
    ensures Product(s) == Product(s[..|s| - 1]) * s[|s| - 1] && s[|s| - 1] >= 2
  {
    assert IsPrime(s[|s| - 1]);
  }

  lemma SameFactor(x: nat, y: nat, q: nat)
    requires q > 0 && x * q == y * q
    ensures x == y
  {
    Distribute(q, x, y);
    if x > y {
      AtLeastOnce(q, x - y);
    } else if x < y {
      NegativeProduct(q, x - y);
    }
  }

  lemma LastInBoth(s: seq<nat>, t: seq<nat>)
    requires s != [] && t != [] && AllPrime(s) && AllPrime(t) && Ascending(s) && Ascending(t) && Product(s) == Product(t)
    ensures s[|s| - 1] <= t[|t| - 1]
  {
    hide Product, IsPrime;
    var p := s[|s| - 1];
    ProductPositive(s);
    PrimeIsFactor(p, t);
    var i :| 0 <= i < |t| && t[i] == p;
  }
}
