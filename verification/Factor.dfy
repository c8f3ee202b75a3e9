/** Trial division in factor.c, with three counters in one word that tell which
    candidates are multiples of 3, 5 or 7. */
module Factor {
  import opened Bits
  import opened Primes

  const WIDE: nat := 0x1_0000_0000_0000_0000

  type half = n: nat | n < U32

  /** s is the square root of n, rounded down. */
  predicate IsRoot(n: nat, s: nat)
  {
    s * s <= n < (s + 1) * (s + 1)
  }

  /** From the root of a quarter to the root: twice that, or one more. */
  function NextRoot(n: nat, r: nat): nat
  {
    if (2 * r + 1) * (2 * r + 1) <= n then 2 * r + 1 else 2 * r
  }

  /** `isqrt` */
  function Isqrt(n: nat): nat
  {
    if n == 0 then 0 else NextRoot(n, Isqrt(n / 4))
  }

  lemma {:induction false} IsqrtIs(n: nat)
    ensures IsRoot(n, Isqrt(n))
  {
    if n > 0 {
      hide NextRoot, IsRoot;
      IsqrtIs(n / 4);
      RootStep(n, Isqrt(n / 4));
    }
  }

  lemma RootStep(n: nat, r: nat)
    requires IsRoot(n / 4, r)
    ensures IsRoot(n, NextRoot(n, r))
  {
    assert (2 * r) * (2 * r) == 4 * (r * r);
    assert (2 * r + 2) * (2 * r + 2) == 4 * ((r + 1) * (r + 1));
  }

  lemma RootFits(n: nat, s: nat)
    requires 0 < n < WIDE && IsRoot(n, s)
    ensures 0 < s < U32
  {
    if s >= U32 {
      ProductGrows(U32, U32, s, s);
    }
  }

  lemma IsqrtFits(n: nat)
    requires 0 < n < WIDE
    ensures 0 < Isqrt(n) < U32
  {
    hide Isqrt, IsRoot;
    IsqrtIs(n);
    RootFits(n, Isqrt(n));
  }

  /** The odd one of a number and the one before. */
  function OddBelow(r: half): (s: half)
    requires r > 0
    ensures s % 2 == 1 && s <= r <= s + 1
  {
    r - 1 + (if (r - 1) % 2 == 1 then 0 else 1)
  }

  /** `isqrt_odd`: the root, or one less if that is even. */
  function IsqrtOdd(n: nat): (s: half)
    requires 0 < n < WIDE
    ensures s % 2 == 1 && s <= Isqrt(n) <= s + 1
  {
    hide Isqrt;
    IsqrtFits(n);
    OddBelow(Isqrt(n))
  }

  // ----- the counters -----

  const SHIFT_3 := 1
  const SHIFT_5 := 8
  const SHIFT_7 := 128
  const INCREMENT_EACH := SHIFT_3 + SHIFT_5 + SHIFT_7
  const MULTIPLE_OF_3 := 4
  const MULTIPLE_OF_5 := 64
  const MULTIPLE_OF_7 := 2048

  /** Whether the word has a bit, given as a power of two. */
  predicate Has(word: nat, bit: nat)
    requires bit > 0
  {
    word / bit % 2 == 1
  }

  /** Three counters that count down, each in a field of its own: its top bit is
      set exactly if the counter is 0. */
  ghost predicate Counts(word: nat, c3: nat, c5: nat, c7: nat)
  {
    && c3 <= 3 && c5 <= 6 && c7 <= 9
    && word == (MULTIPLE_OF_3 - c3 * SHIFT_3) + (MULTIPLE_OF_5 - c5 * SHIFT_5) + (MULTIPLE_OF_7 - c7 * SHIFT_7)
  }

  lemma CountersSeen(word: nat, c3: nat, c5: nat, c7: nat)
    requires Counts(word, c3, c5, c7)
    ensures Has(word, MULTIPLE_OF_3) <==> c3 == 0
    ensures Has(word, MULTIPLE_OF_5) <==> c5 == 0
    ensures Has(word, MULTIPLE_OF_7) <==> c7 == 0
  {
    var x, y, z := 4 - c3, 8 - c5, 16 - c7;
    assert word == x + 8 * y + 128 * z;
    assert word / 4 == x / 4 + 2 * y + 32 * z;
    assert word / 64 == (x + 8 * y) / 64 + 2 * z;
    assert word / 2048 == z / 16;
  }

  /** A multiple of q, beyond q, is c steps of two ahead. */
  predicate Ahead(f: nat, q: nat, c: nat)
    requires q > 0
  {
    f + 2 * c > q && (f + 2 * c) % q == 0
  }

  /** The word counts the steps to multiples of 3, 5 and 7. */
  ghost predicate Wheel(f: nat, word: nat, c3: nat, c5: nat, c7: nat)
  {
    Counts(word, c3, c5, c7) && Ahead(f, 3, c3) && Ahead(f, 5, c5) && Ahead(f, 7, c7)
  }

  lemma WheelStep(f: nat, word: nat, c3: nat, c5: nat, c7: nat)
    requires Wheel(f, word, c3, c5, c7) && c3 > 0 && c5 > 0 && c7 > 0
    ensures word + INCREMENT_EACH < U32 && Wheel(f + 2, word + INCREMENT_EACH, c3 - 1, c5 - 1, c7 - 1)
  {
    assert f + 2 + 2 * (c3 - 1) == f + 2 * c3 && f + 2 + 2 * (c5 - 1) == f + 2 * c5 && f + 2 + 2 * (c7 - 1) == f + 2 * c7;
  }

  /** A counter that has come to 0 starts again; the others stay as they are. */
  method ResetCounters(word0: nat, ghost f: nat, ghost c3: nat, ghost c5: nat, ghost c7: nat) returns (word: nat, ghost d3: nat, ghost d5: nat, ghost d7: nat)
    requires Wheel(f, word0, c3, c5, c7)
    ensures Wheel(f, word, d3, d5, d7)
    ensures d3 == (if c3 == 0 then 3 else c3) && d5 == (if c5 == 0 then 5 else c5) && d7 == if c7 == 0 then 7 else c7
  {
    hide Has, Wheel;
    word, d3, d5, d7 := word0, c3, c5, c7;
    WheelSeen(f, word, d3, d5, d7);
    if Has(word, MULTIPLE_OF_3) {
      ResetThree(f, word, d5, d7);
      word, d3 := word - SHIFT_3 * 3, 3;
    }
    WheelSeen(f, word, d3, d5, d7);
    if Has(word, MULTIPLE_OF_5) {
      ResetFive(f, word, d3, d7);
      word, d5 := word - SHIFT_5 * 5, 5;
    }
    WheelSeen(f, word, d3, d5, d7);
    if Has(word, MULTIPLE_OF_7) {
      ResetSeven(f, word, d3, d5);
      word, d7 := word - SHIFT_7 * 7, 7;
    }
  }

  lemma WheelSeen(f: nat, word: nat, c3: nat, c5: nat, c7: nat)
    requires Wheel(f, word, c3, c5, c7)
    ensures Has(word, MULTIPLE_OF_3) <==> c3 == 0
    ensures Has(word, MULTIPLE_OF_5) <==> c5 == 0
    ensures Has(word, MULTIPLE_OF_7) <==> c7 == 0
  {
    hide Has;
    CountersSeen(word, c3, c5, c7);
  }

  lemma ResetThree(f: nat, word: nat, c5: nat, c7: nat)
    requires Wheel(f, word, 0, c5, c7)
    ensures word >= SHIFT_3 * 3 && Wheel(f, word - SHIFT_3 * 3, 3, c5, c7)
  {
    hide Ahead;
    MoreAhead(f, 3);
  }

  lemma ResetFive(f: nat, word: nat, c3: nat, c7: nat)
    requires Wheel(f, word, c3, 0, c7)
    ensures word >= SHIFT_5 * 5 && Wheel(f, word - SHIFT_5 * 5, c3, 5, c7)
  {
    hide Ahead;
    MoreAhead(f, 5);
  }

  lemma ResetSeven(f: nat, word: nat, c3: nat, c5: nat)
    requires Wheel(f, word, c3, c5, 0)
    ensures word >= SHIFT_7 * 7 && Wheel(f, word - SHIFT_7 * 7, c3, c5, 7)
  {
    hide Ahead;
    MoreAhead(f, 7);
  }

  lemma MoreAhead(f: nat, q: nat)
    requires (q == 3 || q == 5 || q == 7) && Ahead(f, q, 0)
    ensures Ahead(f, q, q)
  {
    if q == 3 {
      assert (f + 6) % 3 == f % 3;
    } else if q == 5 {
      assert (f + 10) % 5 == f % 5;
    } else {
      assert (f + 14) % 7 == f % 7;
    }
  }

  /** Where the trial division is: what has been printed, what is left, and that
      nothing below f divides it. */
  ghost predicate Dividing(n0: nat, out: seq<nat>, n: nat, f: nat)
  {
    && 0 < n < WIDE && n % 2 == 1 && f % 2 == 1 && f >= 3
    && AllPrime(out) && Ascending(out) && (out != [] ==> out[|out| - 1] <= f)
    && Product(out) * n == n0 && Rough(n, f)
  }

  /** Nothing left to try: what remains is 1 or a prime. */
  ghost predicate Last(n: nat, f: nat)
  {
    n == 1 || (IsPrime(n) && n >= f)
  }

  lemma OneMorePrime(s: seq<nat>, p: nat, n: nat, n': nat)
    requires AllPrime(s) && Ascending(s) && (s != [] ==> s[|s| - 1] <= p) && IsPrime(p) && n == p * n'
    ensures AllPrime(s + [p]) && Ascending(s + [p])
    ensures Product(s + [p]) * n' == Product(s) * n
  {
    hide IsPrime, Product;
    ProductMore(s, p);
    Regroup(Product(s), p, n');
  }

  lemma ProductMore(s: seq<nat>, p: nat)
    ensures Product(s + [p]) == Product(s) * p
  {
    assert (s + [p])[..|s|] == s;
  }

  lemma Regroup(a: nat, b: nat, c: nat)
    ensures a * b * c == a * (b * c)
  {
  }

  lemma OddDivisor(n: nat, f: nat)
    requires n % 2 == 1 && f % 2 == 1 && f > 0 && n % f == 0
    ensures n / f % 2 == 1 && 0 < n / f <= n && n == f * (n / f)
  {
    DivisorPair(n, f);
    EvenProduct(f, n / f);
    AtLeastOnce(n / f, f);
  }

  lemma EvenProduct(f: nat, q: nat)
    ensures q % 2 == 0 ==> (f * q) % 2 == 0
  {
    var h := q / 2;
    if q == 2 * h {
      assert f * q == 2 * (f * h);
    }
  }

  /** What divides a divisor divides the whole. */
  lemma RoughDivisor(n: nat, f: nat, q: nat)
    requires n > 0 && q > 0 && n % q == 0 && Rough(n, f)
    ensures Rough(q, f)
  {
    forall d | 2 <= d < f
      ensures q % d != 0
    {
      if q % d == 0 {
        DividesOn(n, q, d);
      }
    }
  }

  /** An odd number has no even divisors, so two candidates can be passed at once. */
  lemma Past(n: nat, f: nat)
    requires Tried(n, f)
    ensures Rough(n, f + 2) && 0 < n < WIDE && n % 2 == 1
  {
    forall d | 2 <= d < f + 2
      ensures n % d != 0
    {
      if d == f + 1 && n % d == 0 {
        DividesOn(n, d, 2);
      }
    }
  }

  /** A multiple of a smaller candidate need not be tried. */
  lemma Skipped(n: nat, f: nat, q: nat)
    requires 2 <= q < f && f % q == 0 && Rough(n, f) && 0 < n < WIDE && n % 2 == 1 && f % 2 == 1 && f >= 3
    ensures Tried(n, f)
  {
    if n % f == 0 {
      DividesOn(n, f, q);
    }
  }

  /** A candidate has been tried: it does not divide what is left, nor does
      anything below it. */
  predicate Tried(n: nat, f: nat)
  {
    0 < n < WIDE && n % 2 == 1 && f % 2 == 1 && f >= 3 && Rough(n, f) && n % f != 0
  }

  /** A candidate that the wheel passes over does not divide what is left. */
  lemma WheelSkips(n: nat, f: nat, word: nat, c3: nat, c5: nat, c7: nat)
    requires Wheel(f, word, c3, c5, c7) && (c3 == 0 || c5 == 0 || c7 == 0)
    requires Rough(n, f) && 0 < n < WIDE && n % 2 == 1 && f % 2 == 1
    ensures Tried(n, f)
  {
    hide Counts, Rough, Tried;
    if c3 == 0 {
      Skipped(n, f, 3);
    } else if c5 == 0 {
      Skipped(n, f, 5);
    } else {
      Skipped(n, f, 7);
    }
  }

  lemma EndReached(n: nat, f: nat)
    requires Tried(n, f) && f >= IsqrtOdd(n)
    ensures Last(n, f)
  {
    hide Isqrt, IsqrtOdd;
    Past(n, f);
    if n > 1 {
      var s := Isqrt(n);
      IsqrtIs(n);
      ProductGrows(s + 1, s + 1, f + 2, f + 2);
      RoughIsPrime(n, f + 2);
      assert n % n == 0;
    }
  }

  lemma StartWheel()
    ensures Wheel(3, MULTIPLE_OF_3 - 3 * SHIFT_3 + MULTIPLE_OF_5 - 6 * SHIFT_5 + MULTIPLE_OF_7 - 9 * SHIFT_7, 3, 6, 9)
  {
  }

  /** From one candidate to the next that is not a multiple of 3, 5 or 7; or to the
      end, which is when the candidate has come to the root of what is left. No
      candidate exceeds that root, and no counter runs into the next. */
  method NextFactor(n: nat, f0: half, maxFactor: half, word0: nat, ghost b3: nat, ghost b5: nat, ghost b7: nat)
    returns (done: bool, f: half, word: nat, ghost c3: nat, ghost c5: nat, ghost c7: nat)
    requires 0 < n < WIDE && Tried(n, f0) && f0 % 2 == 1 && f0 >= 3 && maxFactor == IsqrtOdd(n)
    requires Wheel(f0, word0, b3, b5, b7) && b3 > 0 && b5 > 0 && b7 > 0
    ensures f % 2 == 1 && f >= f0
    ensures done ==> Last(n, f)
    ensures !done ==> f0 < f <= maxFactor && Rough(n, f)
    ensures !done ==> Wheel(f, word, c3, c5, c7) && c3 > 0 && c5 > 0 && c7 > 0
  {
    hide Wheel, Rough, IsqrtOdd, Isqrt, Last, Has, Tried;
    done, f, word, c3, c5, c7 := false, f0, word0, b3, b5, b7;
    while true
      invariant f % 2 == 1 && f >= f0 && Tried(n, f)
      invariant Wheel(f, word, c3, c5, c7) && c3 > 0 && c5 > 0 && c7 > 0
      decreases U32 - f
    {
      if f >= maxFactor {
        EndReached(n, f);
        done := true;
        return;
      }
      Past(n, f);
      WheelStep(f, word, c3, c5, c7);
      f := f + 2;
      word := word + INCREMENT_EACH;
      c3, c5, c7 := c3 - 1, c5 - 1, c7 - 1;
      WheelSeen(f, word, c3, c5, c7);
      if !Has(word, MULTIPLE_OF_3) && !Has(word, MULTIPLE_OF_5) && !Has(word, MULTIPLE_OF_7) {
        return;
      }
      WheelSkips(n, f, word, c3, c5, c7);
      word, c3, c5, c7 := ResetCounters(word, f, c3, c5, c7);
    }
  }

  /** Divides by a candidate as often as it goes. */
  method DivideOut(n0: nat, out0: seq<nat>, m: nat, f: half, max0: half) returns (out: seq<nat>, n: nat, maxFactor: half)
    requires 0 < m < WIDE && Dividing(n0, out0, m, f) && max0 == IsqrtOdd(m)
    ensures 0 < n < WIDE && Dividing(n0, out, n, f) && Tried(n, f) && maxFactor == IsqrtOdd(n) && n <= m
  {
    hide IsPrime, IsqrtOdd, Isqrt, AllPrime, Ascending, Product, Rough;
    out, n, maxFactor := out0, m, max0;
    while n % f == 0
      invariant Dividing(n0, out, n, f) && maxFactor == IsqrtOdd(n) && n <= m
      decreases n
    {
      OddDivisor(n, f);
      DivideOnce(n0, out, n, f);
      n := n / f;
      out := out + [f];
      maxFactor := IsqrtOdd(n);
    }
  }

  lemma DivideOnce(n0: nat, out: seq<nat>, n: nat, f: nat)
    requires Dividing(n0, out, n, f) && n % f == 0
    ensures 0 < n / f < n && Dividing(n0, out + [f], n / f, f)
  {
    hide IsPrime, AllPrime, Ascending, Product, Rough;
    OddDivisor(n, f);
    LeastDivisor(n, f);
    OneMorePrime(out, f, n, n / f);
    DivisorPair(n, f);
    RoughDivisor(n, f, n / f);
    Smaller(n, f, n / f);
  }

  /** A new candidate, not below the old one. */
  lemma OnTo(n0: nat, out: seq<nat>, n: nat, g: nat, f: nat)
    requires Dividing(n0, out, n, g) && f >= g && f % 2 == 1 && Rough(n, f)
    ensures Dividing(n0, out, n, f)
  {
    hide IsPrime, AllPrime, Ascending, Product, Rough;
  }

  lemma Whole(n0: nat, out: seq<nat>, n: nat, f: nat)
    requires Dividing(n0, out, n, f)
    ensures 0 < n < WIDE && f >= 3 && f % 2 == 1
  {
  }

  /** The twos come first. */
  method Halve(n0: nat) returns (n: nat, out: seq<nat>)
    requires 4 <= n0 < WIDE
    ensures Dividing(n0, out, n, 3)
  {
    hide IsPrime, Product, AllPrime, Ascending;
    n, out := n0, [];
    NothingYet(n0);
    while n % 2 == 0
      invariant 0 < n <= n0 && Twos(n0, out, n)
      decreases n
    {
      OneTwo(n0, out, n);
      out := out + [2];
      n := n / 2;
    }
    OddIsRough(n);
  }

  ghost predicate Twos(n0: nat, out: seq<nat>, n: nat)
  {
    AllPrime(out) && Ascending(out) && (out != [] ==> out[|out| - 1] <= 2) && Product(out) * n == n0
  }

  lemma NothingYet(n: nat)
    ensures Twos(n, [], n)
  {
    EmptyProduct();
  }

  lemma OneTwo(n0: nat, out: seq<nat>, n: nat)
    requires Twos(n0, out, n) && n % 2 == 0
    ensures Twos(n0, out + [2], n / 2)
  {
    assert IsPrime(2);
    OneMorePrime(out, 2, n, n / 2);
    hide IsPrime, Product, AllPrime, Ascending;
  }

  lemma OddIsRough(n: nat)
    requires n % 2 == 1
    ensures Rough(n, 3)
  {
  }

  lemma SmallCases(n: nat, out: seq<nat>)
    requires n < 4 && out == if n > 1 then [n] else []
    ensures n > 0 ==> forall s :: IsFactorization(s, n) <==> s == out
  {
    if n > 0 {
      if n > 1 {
        assert out[..0] == [];
        assert Product(out) == Product([]) * n;
      }
      EmptyProduct();
      assert IsFactorization(out, n);
      OnlyOne(out, n);
    }
  }

  lemma OnlyOne(out: seq<nat>, n: nat)
    requires IsFactorization(out, n)
    ensures forall s :: IsFactorization(s, n) <==> s == out
  {
    hide IsFactorization;
    forall s | IsFactorization(s, n)
      ensures s == out
    {
      FactorizationUnique(s, out, n);
    }
  }

  /** What is left is 1 or the last prime. */
  lemma Finished(n0: nat, out: seq<nat>, n: nat, g: nat, f: nat)
    requires Dividing(n0, out, n, g) && Last(n, f) && f >= g
    ensures var all := if n > 1 then out + [n] else out;
            forall s :: IsFactorization(s, n0) <==> s == all
  {
    hide IsPrime, Product, AllPrime, Ascending, Rough;
    if n > 1 {
      OneMorePrime(out, n, n, 1);
      OnlyOne(out + [n], n0);
    } else {
      OnlyOne(out, n0);
    }
  }

  lemma Smaller(n: nat, f: nat, q: nat)
    requires n == f * q && f >= 2 && q > 0
    ensures q < n
  {
  }

  /** `factorize`: prints the prime factors in order; for 0 and 1, none. There is
      no other list of primes in order with that product. */
  method Factorize(n0: nat) returns (out: seq<nat>)
    requires n0 < WIDE
    ensures n0 > 0 ==> forall s :: IsFactorization(s, n0) <==> s == out
    ensures n0 == 0 ==> out == []
  {
    hide IsqrtOdd, Isqrt, Rough, Wheel, Dividing, Tried, Last, IsFactorization;
    var n: nat := n0;
    out := [];
    if n < 4 {
      if n > 1 {
        out := out + [n];
      }
      SmallCases(n0, out);
      return;
    }
    n, out := Halve(n0);
    Whole(n0, out, n, 3);
    var maxFactor := IsqrtOdd(n);
    var word: nat := (MULTIPLE_OF_3 - 3 * SHIFT_3) + (MULTIPLE_OF_5 - 6 * SHIFT_5) + (MULTIPLE_OF_7 - 9 * SHIFT_7);
    var f: half := 3;
    ghost var c3: nat, c5: nat, c7: nat := 3, 6, 9;
    StartWheel();
    while true
      invariant 0 < n < WIDE && f % 2 == 1 && f >= 3
      invariant Dividing(n0, out, n, f) && maxFactor == IsqrtOdd(n)
      invariant Wheel(f, word, c3, c5, c7) && c3 > 0 && c5 > 0 && c7 > 0
      decreases U32 - f
    {
      out, n, maxFactor := DivideOut(n0, out, n, f, maxFactor);
      Whole(n0, out, n, f);
      ghost var g := f;
      var done;
      done, f, word, c3, c5, c7 := NextFactor(n, f, maxFactor, word, c3, c5, c7);
      if done {
        Finished(n0, out, n, g, f);
        break;
      }
      OnTo(n0, out, n, g, f);
    }
    if n > 1 {
      out := out + [n];
    }
  }
}
