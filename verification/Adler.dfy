/** The checksums of lzop.c: Adler-32 with the division put off for many bytes,
    and CRC-32, both carried along over any number of calls. */
module Adler {
  import opened Bits
  import opened BitWriters
  import opened Input

  const LZO_BASE := 65521
  const LZO_NMAX := 5552

  /** A number that fits 32 bits: assigning anything larger does not verify. */
  type u32 = n: nat | n < U32

  /** One byte, as section 8.2 of RFC 1950 takes it. */
  function AdlerStep(p: (nat, nat), b: byte): (q: (nat, nat))
    ensures q.0 < LZO_BASE && q.1 < LZO_BASE
  {
    var s1 := (p.0 + b) % LZO_BASE;
    (s1, (p.1 + s1) % LZO_BASE)
  }

  function AdlerSteps(p: (nat, nat), s: seq<byte>): (nat, nat)
  {
    if s == [] then p else AdlerStep(AdlerSteps(p, s[..|s| - 1]), s[|s| - 1])
  }

  function Unpack(adler: nat): (p: (nat, nat))
    ensures p.0 < 0x10000 && p.1 < 0x10000
  {
    (adler % 0x10000, adler / 0x10000 % 0x10000)
  }

  function Pack(p: (nat, nat)): nat
  {
    p.1 * 0x10000 + p.0
  }

  /** Adler-32 with both sums reduced at every byte. */
  function Adler32(adler: nat, s: seq<byte>): nat
  {
    Pack(AdlerSteps(Unpack(adler), s))
  }

  lemma {:induction false} AdlerStepsFit(p: (nat, nat), s: seq<byte>)
    requires p.0 < 0x10000 && p.1 < 0x10000
    ensures AdlerSteps(p, s).0 < 0x10000 && AdlerSteps(p, s).1 < 0x10000
  {
    if s != [] {
      AdlerStepsFit(p, s[..|s| - 1]);
    }
  }

  lemma PackUnpack(adler: nat)
    requires adler < U32
    ensures Pack(Unpack(adler)) == adler
  {
  }

  lemma UnpackPack(p: (nat, nat))
    requires p.0 < 0x10000 && p.1 < 0x10000
    ensures Unpack(Pack(p)) == p && Pack(p) < U32
  {
  }

  lemma {:induction false} AdlerStepsAppend(p: (nat, nat), a: seq<byte>, b: seq<byte>)
    ensures AdlerSteps(p, a + b) == AdlerSteps(AdlerSteps(p, a), b)
  {
    hide AdlerStep;
    if b == [] {
      assert a + b == a;
    } else {
      AdlerStepsAppend(p, a, b[..|b| - 1]);
      assert (a + b)[..|a + b| - 1] == a + b[..|b| - 1];
    }
  }

  /** Updating over any split of the data is updating over the whole. */
  lemma Adler32Append(adler: nat, a: seq<byte>, b: seq<byte>)
    ensures Adler32(Adler32(adler, a), b) == Adler32(adler, a + b)
  {
    hide AdlerSteps, Unpack, Pack;
    var p := AdlerSteps(Unpack(adler), a);
    AdlerStepsFit(Unpack(adler), a);
    UnpackPack(p);
    AdlerStepsAppend(Unpack(adler), a, b);
  }

  // ----- the division can wait -----

  /** How large the second sum can be after j bytes without a division. */
  function Bound(j: nat): nat
  {
    if j == 0 then 0xffff else Bound(j - 1) + 0xffff + 255 * j
  }

  lemma {:induction false} BoundIs(j: nat)
    ensures 2 * Bound(j) == 2 * 0xffff * (j + 1) + 255 * j * (j + 1)
  {
    if j > 0 {
      BoundIs(j - 1);
    }
  }

  lemma {:induction false} BoundMonotone(j: nat, k: nat)
    requires j <= k
    ensures Bound(j) <= Bound(k)
  {
    if j < k {
      BoundMonotone(j, k - 1);
    }
  }

  /** Even for sums that start at 65535 each. */
  lemma BoundFits(j: nat)
    requires j <= LZO_NMAX
    ensures Bound(j) < U32
  {
    BoundIs(LZO_NMAX);
    BoundMonotone(j, LZO_NMAX);
    hide Bound;
  }

  /** The constant is as large as it can be: one byte more may overflow. */
  lemma BoundIsTight()
    ensures Bound(LZO_NMAX) < U32 <= Bound(LZO_NMAX + 1)
  {
    BoundIs(LZO_NMAX);
    BoundIs(LZO_NMAX + 1);
    hide Bound;
  }

  /** Whole multiples do not matter. */
  lemma MultipleOff(x: nat, q: nat, z: nat)
    requires x == LZO_BASE * q + z
    ensures x % LZO_BASE == z % LZO_BASE
  {
  }

  /** A summand may be replaced by one that is congruent. */
  lemma SameSum(x: nat, x': nat, y: nat)
    requires x % LZO_BASE == x' % LZO_BASE
    ensures (x + y) % LZO_BASE == (x' + y) % LZO_BASE
  {
    var r := x % LZO_BASE;
    MultipleOff(x + y, x / LZO_BASE, r + y);
    MultipleOff(x' + y, x' / LZO_BASE, r + y);
  }

  /** One byte more on sums that are only congruent to the reduced ones. */
  lemma CongruentStep(s1: nat, s2: nat, p: (nat, nat), b: byte)
    requires s1 % LZO_BASE == p.0 % LZO_BASE && s2 % LZO_BASE == p.1 % LZO_BASE
    ensures (s1 + b) % LZO_BASE == AdlerStep(p, b).0 && (s2 + s1 + b) % LZO_BASE == AdlerStep(p, b).1
  {
    var d: nat := b as nat;
    SameSum(s1, p.0, d);
    SameSum(s2, p.1, s1 + d);
    SameSum(s1 + d, AdlerStep(p, b).0, p.1);
  }

  lemma NextPrefix(p: (nat, nat), s: seq<byte>, i: nat)
    requires i < |s|
    ensures AdlerSteps(p, s[..i + 1]) == AdlerStep(AdlerSteps(p, s[..i]), s[i])
  {
    hide AdlerStep;
    assert s[..i + 1][..i] == s[..i];
  }

  /** One round of at most LZO_NMAX bytes: no sum leaves 32 bits. */
  method SumBytes(buf: array<byte>, start: nat, k: nat, s10: u32, s20: u32, ghost p: (nat, nat)) returns (s1: u32, s2: u32)
    requires start + k <= buf.Length && k <= LZO_NMAX && s10 < 0x10000 && s20 < 0x10000
    requires var q := AdlerSteps(p, buf[..start]); s10 == q.0 && s20 == q.1
    ensures var q := AdlerSteps(p, buf[..start + k]); s1 % LZO_BASE == q.0 % LZO_BASE && s2 % LZO_BASE == q.1 % LZO_BASE
  {
    hide AdlerSteps, AdlerStep, Bound;
    s1, s2 := s10, s20;
    ghost var s := buf[..];
    assert s[..start] == buf[..start];
    var j := 0;
    BoundFits(0);
    assert Bound(0) == 0xffff by { BoundIs(0); }
    while j < k
      invariant 0 <= j <= k && s1 <= 0xffff + 255 * j && s2 <= Bound(j)
      invariant var q := AdlerSteps(p, s[..start + j]); s1 % LZO_BASE == q.0 % LZO_BASE && s2 % LZO_BASE == q.1 % LZO_BASE
    {
      ghost var q := AdlerSteps(p, s[..start + j]);
      NextPrefix(p, s, start + j);
      CongruentStep(s1, s2, q, s[start + j]);
      BoundFits(j + 1);
      BoundNext(j);
      s1 := s1 + buf[start + j];
      s2 := s2 + s1;
      j := j + 1;
    }
    assert s[..start + k] == buf[..start + k];
  }

  lemma BoundNext(j: nat)
    ensures Bound(j + 1) == Bound(j) + 0xffff + 255 * (j + 1)
  {
  }

  /** `lzo_adler32`: the per-byte definition, for every starting value. */
  method LzoAdler32(adler: u32, buf: array?<byte>, len0: nat) returns (r: u32)
    requires buf != null ==> len0 <= buf.Length
    ensures r == if buf == null then 1 else Adler32(adler, buf[..len0])
  {
    hide AdlerSteps, AdlerStep;
    var s1: u32 := adler % 0x10000;
    var s2: u32 := adler / 0x10000 % 0x10000;
    if buf == null {
      return 1;
    }
    ghost var p := Unpack(adler);
    NoSteps(p);
    var i := 0;
    var len := len0;
    assert buf[..0] == [];
    while len > 0
      invariant i + len == len0 && 0 <= i && 0 <= len
      invariant s1 < 0x10000 && s2 < 0x10000 && AdlerSteps(p, buf[..i]) == (s1, s2)
      decreases len
    {
      var k := if len < LZO_NMAX then len else LZO_NMAX;
      len := len - k;
      s1, s2 := SumBytes(buf, i, k, s1, s2, p);
      i := i + k;
      s1 := s1 % LZO_BASE;
      s2 := s2 % LZO_BASE;
      Reduced(p, buf[..i]);
    }
    r := s2 * 0x10000 + s1;
  }

  lemma NoSteps(p: (nat, nat))
    ensures AdlerSteps(p, []) == p
  {
  }

  lemma Reduced(p: (nat, nat), s: seq<byte>)
    requires s != []
    ensures AdlerSteps(p, s).0 < LZO_BASE && AdlerSteps(p, s).1 < LZO_BASE
  {
  }

  /** Both checksums of everything added so far. */
  class Checksums {
    var adler32: u32
    var crc32: u32
    ghost var added: seq<byte>

    ghost predicate Valid()
      reads this
    {
      adler32 == Adler32(1, added) && crc32 == Crc32(added)
    }

    /** `init_chksum` */
    constructor ()
      ensures Valid() && added == []
    {
      NoSteps((1, 0));
      adler32 := 1;
      crc32 := 0;
      added := [];
    }

    /** `add_bytes_to_chksum` */
    method AddBytes(buf: array<byte>, cnt: nat)
      requires Valid() && cnt <= buf.Length
      modifies this
      ensures Valid() && added == old(added) + buf[..cnt]
    {
      hide Adler32, UpdateCrc;
      Adler32Append(1, added, buf[..cnt]);
      adler32 := LzoAdler32(adler32, buf, cnt);
      Crc32Append(added, buf[..cnt]);
      crc32 := U32 - 1 - UpdateCrc(U32 - 1 - crc32, buf[..cnt]);
      added := added + buf[..cnt];
    }

    /** `chksum_getresult`: which of the two the header asks for. */
    method GetResult(flags: nat) returns (r: u32)
      requires Valid()
      ensures r == if flags / 0x1000 % 2 == 1 then Crc32(added) else Adler32(1, added)
    {
      r := if flags / 0x1000 % 2 == 1 then crc32 else adler32;
    }
  }

  /** Complementing before and after does not get in the way of carrying on. */
  lemma Crc32Append(a: seq<byte>, b: seq<byte>)
    ensures U32 - 1 - Crc32(a) < U32
    ensures UpdateCrc(U32 - 1 - Crc32(a), b) < U32 && Crc32(a + b) == U32 - 1 - UpdateCrc(U32 - 1 - Crc32(a), b)
  {
    hide UpdateCrc;
    CrcFits(U32 - 1, a);
    CrcFits(UpdateCrc(U32 - 1, a), b);
    UpdateCrcAppend(U32 - 1, a, b);
  }
}
