/** The rolling hash of gzip.c: each byte shifts the key by H_SHIFT bits, so that
    after three bytes nothing older is left in it. */
module Hashing {
  import opened Bits
  import opened Config

  const H_SHIFT := 5
  const HASH_SIZE: nat := Pow2(HASH_BITS)

  /** The shift is the source's, for each of the three sizes of table. */
  lemma ShiftIsThird()
    ensures H_SHIFT == (HASH_BITS + 3 - 1) / 3 && 3 * H_SHIFT >= HASH_BITS
  {
  }

  /** `UPDATE_HASH` */
  function UpdateHash(h: nat, c: byte): (r: nat)
    ensures r < HASH_SIZE
  {
    Low(Xor(Shl(h, H_SHIFT), c), HASH_BITS)
  }

  /** The key of three bytes. */
  function Hash3(a: byte, b: byte, c: byte): (r: nat)
    ensures r < HASH_SIZE
  {
    UpdateHash(UpdateHash(UpdateHash(0, a), b), c)
  }

  /** The key the next string's third byte is added to: its low bits are those
      that the string's first two bytes make. */
  predicate Rolling(h: nat, a: byte, b: byte)
  {
    Low(h, 10) == Low(UpdateHash(UpdateHash(0, a), b), 10)
  }

  lemma {:induction false} LowOfLow(v: nat, n: nat, k: nat)
    requires k <= n
    ensures Low(Low(v, n), k) == Low(v, k)
  {
    if k > 0 {
      LowOfLow(v / 2, n - 1, k - 1);
      assert Low(v, n) % 2 == v % 2 && Low(v, n) / 2 == Low(v / 2, n - 1);
    }
  }

  /** Low bits of a shifted value are low bits of the value, shifted. */
  lemma {:induction false} LowOfShl(v: nat, s: nat, k: nat)
    ensures Low(Shl(v, s), s + k) == Shl(Low(v, k), s)
    ensures Low(Shl(v, s), s) == 0
  {
    if s > 0 {
      LowOfShl(v, s - 1, k);
      assert Shl(v, s) % 2 == 0 && Shl(v, s) / 2 == Shl(v, s - 1);
    }
  }

  /** The low k + 5 bits of an updated key need only the low k bits of the old one. */
  lemma UpdateLow(h: nat, h': nat, c: byte, k: nat)
    requires Low(h, k) == Low(h', k) && H_SHIFT + k <= HASH_BITS
    ensures Low(UpdateHash(h, c), H_SHIFT + k) == Low(UpdateHash(h', c), H_SHIFT + k)
  {
    hide Low, Shl, Xor;
    LowOfShl(h, H_SHIFT, k);
    LowOfShl(h', H_SHIFT, k);
    LowOfLow(Xor(Shl(h, H_SHIFT), c), HASH_BITS, H_SHIFT + k);
    LowOfLow(Xor(Shl(h', H_SHIFT), c), HASH_BITS, H_SHIFT + k);
    XorLow(Shl(h, H_SHIFT), c, H_SHIFT + k);
    XorLow(Shl(h', H_SHIFT), c, H_SHIFT + k);
  }

  /** Keys that agree in the low 10 bits are equal after one more byte. */
  lemma UpdateAll(h: nat, h': nat, c: byte)
    requires Low(h, 10) == Low(h', 10)
    ensures UpdateHash(h, c) == UpdateHash(h', c)
  {
    LowOfLow(h, 10, HASH_BITS - H_SHIFT);
    LowOfLow(h', 10, HASH_BITS - H_SHIFT);
    UpdateLow(h, h', c, HASH_BITS - H_SHIFT);
    LowSmall(UpdateHash(h, c), HASH_BITS);
    LowSmall(UpdateHash(h', c), HASH_BITS);
    hide Low, UpdateHash;
  }

  /** Two bytes after any key at all start a string. */
  lemma RollingStart(h: nat, a: byte, b: byte)
    ensures Rolling(UpdateHash(UpdateHash(h, a), b), a, b)
  {
    assert Low(h, 0) == Low(0, 0);
    hide UpdateHash, Low;
    UpdateLow(h, 0, a, 0);
    UpdateLow(UpdateHash(h, a), UpdateHash(0, a), b, 5);
  }

  /** The third byte completes the key, and the new key starts the next string. */
  lemma RollingStep(h: nat, a: byte, b: byte, c: byte)
    requires Rolling(h, a, b)
    ensures UpdateHash(h, c) == Hash3(a, b, c)
    ensures Rolling(UpdateHash(h, c), b, c)
  {
    hide Low, UpdateHash;
    UpdateAll(h, UpdateHash(UpdateHash(0, a), b), c);
    RollingStart(UpdateHash(0, a), b, c);
  }

  /** Strings with the same key that agree in their first two bytes agree in the
      third: `longest_match` need not compare it. */
  lemma ThirdByte(a: byte, b: byte, c: byte, d: byte)
    requires Hash3(a, b, c) == Hash3(a, b, d)
    ensures c == d
  {
    var x := Shl(UpdateHash(UpdateHash(0, a), b), H_SHIFT);
    Pow2Values();
    Pow2Monotone(8, HASH_BITS);
    XorLow(x, c, HASH_BITS);
    XorLow(x, d, HASH_BITS);
    LowSmall(c, HASH_BITS);
    LowSmall(d, HASH_BITS);
    XorInvolution(Low(x, HASH_BITS), c);
    XorInvolution(Low(x, HASH_BITS), d);
    hide Low, Shl, Xor, Pow2;
  }
}
