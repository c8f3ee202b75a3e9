/** Numbers as bit strings, low-order bit first, as section 3.1.1 of RFC 1951
    packs everything except Huffman codes. */
module Bits {

  type byte = n: nat | n < 256

  const U32: nat := 0x1_0000_0000

  /** The numbers below n. */
  function All(n: nat): (s: set<nat>)
    ensures forall x: nat :: x in s <==> x < n
  {
    if n == 0 then {} else All(n - 1) + {n - 1}
  }

  lemma Distribute(a: int, b: int, c: int)
    ensures a * (b + c) == a * b + a * c && (b + c) * a == b * a + c * a && a * (b - c) == a * b - a * c
  {
  }

  function Pow2(n: nat): (r: nat)
    ensures r >= 1
  {
    if n == 0 then 1 else 2 * Pow2(n - 1)
  }

  lemma {:induction false} Pow2Add(a: nat, b: nat)
    ensures Pow2(a + b) == Pow2(a) * Pow2(b)
  {
    if a > 0 {
      Pow2Add(a - 1, b);
      assert Pow2(a + b) == 2 * Pow2(a - 1 + b);
    }
  }

  lemma {:induction false} Pow2Monotone(a: nat, b: nat)
    requires a <= b
    ensures Pow2(a) <= Pow2(b)
  {
    if a < b {
      Pow2Monotone(a, b - 1);
    }
  }

  lemma Pow2Values()
    ensures Pow2(0) == 1 && Pow2(1) == 2 && Pow2(2) == 4 && Pow2(3) == 8 && Pow2(4) == 16
    ensures Pow2(5) == 32 && Pow2(6) == 64 && Pow2(7) == 128 && Pow2(8) == 256
    ensures Pow2(13) == 8192 && Pow2(15) == 32768 && Pow2(16) == 65536
    ensures Pow2(24) == 16777216 && Pow2(32) == 4294967296
  {
    assert Pow2(8) == 256;
    Pow2Add(8, 5);
    Pow2Add(8, 7);
    Pow2Add(8, 8);
    Pow2Add(16, 8);
    Pow2Add(16, 16);
  }

  /** The n low-order bits of v, least significant first. */
  function ToBits(v: nat, n: nat): (s: seq<bool>)
    ensures |s| == n
  {
    if n == 0 then [] else [v % 2 == 1] + ToBits(v / 2, n - 1)
  }

  /** The number whose bits, least significant first, are s. */
  function FromBits(s: seq<bool>): (v: nat)
    ensures v < Pow2(|s|)
  {
    if s == [] then 0 else (if s[0] then 1 else 0) + 2 * FromBits(s[1..])
  }

  lemma {:induction false} FromToBits(v: nat, n: nat)
    requires v < Pow2(n)
    ensures FromBits(ToBits(v, n)) == v
  {
    if n > 0 {
      FromToBits(v / 2, n - 1);
      assert ToBits(v, n)[1..] == ToBits(v / 2, n - 1);
    }
  }

  lemma {:induction false} ToFromBits(s: seq<bool>)
    ensures ToBits(FromBits(s), |s|) == s
  {
    if s != [] {
      ToFromBits(s[1..]);
      assert s == [s[0]] + s[1..];
    }
  }

  /** `v >> k` */
  function Shr(v: nat, k: nat): nat
  {
    if k == 0 then v else Shr(v / 2, k - 1)
  }

  /** `v << k` with no bound on the width */
  function Shl(v: nat, k: nat): nat
  {
    if k == 0 then v else 2 * Shl(v, k - 1)
  }

  /** The value of the k low-order bits of v. */
  function Low(v: nat, k: nat): (r: nat)
    ensures r < Pow2(k)
  {
    if k == 0 then 0 else v % 2 + 2 * Low(v / 2, k - 1)
  }

  /** Bits are written k at a time or all together. */
  lemma {:induction false} SplitBits(v: nat, length: nat, k: nat)
    requires k <= length
    ensures ToBits(v, length) == ToBits(v, k) + ToBits(Shr(v, k), length - k)
  {
    if k > 0 {
      SplitBits(v / 2, length - 1, k - 1);
    }
  }

  lemma {:induction false} ShrFits(v: nat, length: nat, k: nat)
    requires v < Pow2(length) && k <= length
    ensures Shr(v, k) < Pow2(length - k)
  {
    if k > 0 {
      ShrFits(v / 2, length - 1, k - 1);
    }
  }

  lemma {:induction false} LowBits(v: nat, k: nat)
    ensures ToBits(Low(v, k), k) == ToBits(v, k)
  {
    if k > 0 {
      LowBits(v / 2, k - 1);
      assert Low(v, k) / 2 == Low(v / 2, k - 1);
    }
  }

  lemma {:induction false} SameLowBits(v: nat, q: nat, k: nat)
    ensures ToBits(v + q * Pow2(k), k) == ToBits(v, k)
  {
    if k > 0 {
      assert q * Pow2(k) == 2 * (q * Pow2(k - 1));
      SameLowBits(v / 2, q, k - 1);
    }
  }

  lemma {:induction false} LowSmall(v: nat, k: nat)
    requires v < Pow2(k)
    ensures Low(v, k) == v
  {
    if k > 0 {
      LowSmall(v / 2, k - 1);
    }
  }

  /** The bits of a byte string: each byte low-order bit first. */
  function BytesToBits(s: seq<byte>): (r: seq<bool>)
    ensures |r| == 8 * |s|
  {
    if s == [] then [] else BytesToBits(s[..|s| - 1]) + ToBits(s[|s| - 1], 8)
  }

  lemma {:induction false} BytesToBitsAppend(a: seq<byte>, b: seq<byte>)
    ensures BytesToBits(a + b) == BytesToBits(a) + BytesToBits(b)
  {
    if b == [] {
      assert a + b == a;
    } else {
      var last := |b| - 1;
      BytesToBitsAppend(a, b[..last]);
      assert (a + b)[..|a + b| - 1] == a + b[..last];
    }
  }

  lemma {:induction false} BytesToBitsAt(s: seq<byte>, i: nat)
    requires i < |s|
    ensures BytesToBits(s)[8 * i..8 * i + 8] == ToBits(s[i], 8)
  {
    assert s == s[..i] + [s[i]] + s[i + 1..];
    BytesToBitsAppend(s[..i] + [s[i]], s[i + 1..]);
    BytesToBitsAppend(s[..i], [s[i]]);
    assert [s[i]][..0] == [];
    assert BytesToBits([s[i]]) == ToBits(s[i], 8);
  }

  // ----- bitwise operators on unbounded naturals -----

  function Or(a: nat, b: nat): nat
    decreases a + b
  {
    if a == 0 && b == 0 then 0
    else (if a % 2 == 1 || b % 2 == 1 then 1 else 0) + 2 * Or(a / 2, b / 2)
  }

  function Xor(a: nat, b: nat): nat
    decreases a + b
  {
    if a == 0 && b == 0 then 0
    else (if a % 2 != b % 2 then 1 else 0) + 2 * Xor(a / 2, b / 2)
  }

  lemma {:induction false} OrZero(b: nat)
    ensures Or(0, b) == b
  {
    if b > 0 {
      OrZero(b / 2);
    }
  }

  lemma OrShifted(a: nat, n: nat, v: nat, k: nat)
    requires n > 0 && k >= n
    ensures Low(Shl(v, n), k) == 2 * Low(Shl(v, n - 1), k - 1)
    ensures Or(a, Low(Shl(v, n), k)) == a % 2 + 2 * Or(a / 2, Low(Shl(v, n - 1), k - 1))
  {
    var y := Low(Shl(v, n - 1), k - 1);
    assert Shl(v, n) % 2 == 0 && Shl(v, n) / 2 == Shl(v, n - 1);
    assert (2 * y) % 2 == 0 && (2 * y) / 2 == y;
  }

  /** Or-ing v in above n used bits, in a word of n + m bits, appends the
      m low bits of v. */
  lemma {:induction false} OrAppends(a: nat, n: nat, v: nat, m: nat)
    requires a < Pow2(n)
    ensures ToBits(Or(a, Low(Shl(v, n), n + m)), n + m) == ToBits(a, n) + ToBits(v, m)
    ensures Or(a, Low(Shl(v, n), n + m)) < Pow2(n + m)
  {
    hide Or, Low, Shl;
    if n == 0 {
      ShlNone(v);
      OrZero(Low(v, m));
      LowBits(v, m);
    } else {
      OrAppends(a / 2, n - 1, v, m);
      OrShifted(a, n, v, n + m);
      AppendStep(a, n, v, m, Or(a, Low(Shl(v, n), n + m)), Or(a / 2, Low(Shl(v, n - 1), n - 1 + m)));
    }
  }

  lemma AppendStep(a: nat, n: nat, v: nat, m: nat, x: nat, y: nat)
    requires n > 0 && x == a % 2 + 2 * y && ToBits(y, n - 1 + m) == ToBits(a / 2, n - 1) + ToBits(v, m) && y < Pow2(n - 1 + m)
    ensures ToBits(x, n + m) == ToBits(a, n) + ToBits(v, m)
    ensures x < Pow2(n + m)
  {
    BitAndRest(x, a, y);
    assert ToBits(x, n + m) == [x % 2 == 1] + ToBits(y, n + m - 1);
    assert ToBits(a, n) == [a % 2 == 1] + ToBits(a / 2, n - 1);
  }

  lemma ShlNone(v: nat)
    ensures Shl(v, 0) == v
  {
  }

  lemma BitAndRest(x: nat, a: nat, y: nat)
    requires x == a % 2 + 2 * y
    ensures x % 2 == a % 2 && x / 2 == y
  {
  }

  lemma {:induction false} ShlFits(v: nat, m: nat, n: nat)
    requires v < Pow2(m)
    ensures Shl(v, n) < Pow2(n + m)
  {
    if n > 0 {
      ShlFits(v, m, n - 1);
    }
  }

  lemma {:induction false} XorInvolution(a: nat, b: nat)
    ensures Xor(a, Xor(a, b)) == b
    decreases a + b
  {
    if a != 0 || b != 0 {
      XorInvolution(a / 2, b / 2);
    }
  }

  lemma {:induction false} XorZero(b: nat)
    ensures Xor(0, b) == b
  {
    if b > 0 {
      XorZero(b / 2);
    }
  }

  /** Masking to the low n bits distributes over exclusive or. */
  lemma {:induction false} XorLow(a: nat, b: nat, n: nat)
    ensures Low(Xor(a, b), n) == Xor(Low(a, n), Low(b, n))
  {
    if n > 0 {
      XorLow(a / 2, b / 2, n - 1);
      XorStep(a, b);
      XorStep(Low(a, n), Low(b, n));
      LowStep(a, n);
      LowStep(b, n);
      LowStep(Xor(a, b), n);
      hide Xor, Low;
    } else {
      XorZero(0);
    }
  }

  lemma XorStep(a: nat, b: nat)
    ensures Xor(a, b) % 2 == (if a % 2 != b % 2 then 1 else 0)
    ensures Xor(a, b) / 2 == Xor(a / 2, b / 2)
    ensures Xor(a, b) == Xor(a, b) % 2 + 2 * Xor(a / 2, b / 2)
  {
  }

  lemma LowStep(a: nat, n: nat)
    requires n > 0
    ensures Low(a, n) % 2 == a % 2 && Low(a, n) / 2 == Low(a / 2, n - 1)
    ensures Low(a, n) == a % 2 + 2 * Low(a / 2, n - 1)
  {
  }

  /** Ascending bits read the other way round: the n low bits of v, most
      significant first, as Huffman codes are packed. */
  function MsbBits(v: nat, n: nat): (s: seq<bool>)
    ensures |s| == n
  {
    if n == 0 then [] else MsbBits(v / 2, n - 1) + [v % 2 == 1]
  }

  /** The number whose bits, most significant first, are s. */
  function FromMsb(s: seq<bool>): nat
  {
    if s == [] then 0 else 2 * FromMsb(s[..|s| - 1]) + (if s[|s| - 1] then 1 else 0)
  }
}
