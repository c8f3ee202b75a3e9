/** The tables and constants of the formats, each by a rule of its own. */
module FormatTables {
  import opened Bits
  import opened PrefixCode
  import opened Primes
  import Inflate
  import Input
  import Adler

  /** Length codes: eight single lengths, then four codes for each number of extra bits,
      and 258 by itself. */
  lemma LengthTable(c: nat)
    requires c < 29
    ensures |Inflate.LENGTH_BASE| == 29 == |Inflate.LENGTH_EXTRA|
    ensures Inflate.LENGTH_EXTRA[c] == if c < 8 || c == 28 then 0 else c / 4 - 1
    ensures Inflate.LENGTH_BASE[c] == if c < 8 then c + 3 else if c == 28 then 258 else 3 + (4 + c % 4) * Pow2(c / 4 - 1)
  {
    SmallPowers();
    hide Pow2;
  }

  /** Distance codes: four single distances, then two codes for each number of bits. */
  lemma DistanceTable(c: nat)
    requires c < 30
    ensures |Inflate.DIST_BASE| == 30 == |Inflate.DIST_EXTRA|
    ensures Inflate.DIST_EXTRA[c] == if c < 4 then 0 else c / 2 - 1
    ensures Inflate.DIST_BASE[c] == if c < 4 then c + 1 else 1 + (2 + c % 2) * Pow2(c / 2 - 1)
  {
    SmallPowers();
    hide Pow2;
  }

  lemma SmallPowers()
    ensures Pow2(0) == 1 && Pow2(1) == 2 && Pow2(2) == 4 && Pow2(3) == 8 && Pow2(4) == 16 && Pow2(5) == 32 && Pow2(6) == 64
    ensures Pow2(7) == 128 && Pow2(8) == 256 && Pow2(9) == 512 && Pow2(10) == 1024 && Pow2(11) == 2048 && Pow2(12) == 4096
    ensures Pow2(13) == 8192
  {
  }

  /** Code length codes: the repeat codes, 0, and from 8 up and 7 down in turns. */
  lemma OrderTable(i: nat)
    requires i < 19
    ensures |Inflate.CODE_LENGTH_ORDER| == 19
    ensures Inflate.CODE_LENGTH_ORDER[i] ==
      if i < 3 then 16 + i else if i == 3 then 0 else if i % 2 == 0 then 6 + i / 2 else 9 - i / 2
  {
  }

  /** The generator of the CRC, highest power first as the reversed bits have it. */
  lemma GeneratorBits(k: nat)
    requires k < 32
    ensures ToBits(Input.CRC_POLYNOMIAL, 32)[31 - k] <==> k in {26, 23, 22, 16, 12, 11, 10, 8, 7, 5, 4, 2, 1, 0}
  {
    hide ToBits;
    var b, n := ToBits(Input.CRC_POLYNOMIAL, 32), 31 - k;
    FourBits(0xedb88320, 32);
    FourBits(0xedb8832, 28);
    FourBits(0xedb883, 24);
    FourBits(0xedb88, 20);
    FourBits(0xedb8, 16);
    FourBits(0xedb, 12);
    FourBits(0xed, 8);
    FourBits(0xe, 4);
    assert n / 4 in {0, 1, 2, 3, 4, 5, 6, 7} && n % 4 in {0, 1, 2, 3};
  }

  /** The four lowest bits, and the others. */
  lemma FourBits(v: nat, n: nat)
    requires n >= 4
    ensures var b := ToBits(v, n);
            && b[0] == (v % 2 == 1) && b[1] == (v / 2 % 2 == 1) && b[2] == (v / 4 % 2 == 1) && b[3] == (v / 8 % 2 == 1)
            && b[4..] == ToBits(v / 16, n - 4)
    ensures forall i :: 4 <= i < n ==> ToBits(v, n)[i] == ToBits(v / 16, n - 4)[i - 4]
  {
    hide ToBits;
    FirstBit(v, n);
    FirstBit(v / 2, n - 1);
    FirstBit(v / 4, n - 2);
    FirstBit(v / 8, n - 3);
    assert v / 2 / 2 == v / 4 && v / 4 / 2 == v / 8 && v / 8 / 2 == v / 16;
  }

  lemma FirstBit(v: nat, n: nat)
    requires n > 0
    ensures ToBits(v, n)[0] == (v % 2 == 1) && ToBits(v, n)[1..] == ToBits(v / 2, n - 1)
    ensures forall i :: 1 <= i < n ==> ToBits(v, n)[i] == ToBits(v / 2, n - 1)[i - 1]
  {
  }

  /** Each bit of an exclusive or is the difference of the two bits. */
  lemma {:induction false} XorBits(a: nat, b: nat, n: nat, i: nat)
    requires i < n
    ensures ToBits(Xor(a, b), n)[i] <==> ToBits(a, n)[i] != ToBits(b, n)[i]
    decreases n
  {
    XorStep(a, b);
    if i > 0 {
      XorBits(a / 2, b / 2, n - 1, i - 1);
    }
  }

  /** The base of Adler-32 is the largest prime below 65536. */
  lemma BaseIsLargestPrime(n: nat)
    requires n < 65536 && IsPrime(n)
    ensures n <= Adler.LZO_BASE && IsPrime(Adler.LZO_BASE)
  {
    BaseIsPrime();
    assert 65522 % 2 == 0 && 65523 % 3 == 0 && 65524 % 2 == 0 && 65525 % 5 == 0 && 65526 % 2 == 0 && 65527 % 7 == 0;
    assert 65528 % 2 == 0 && 65529 % 3 == 0 && 65530 % 2 == 0 && 65531 % 19 == 0 && 65532 % 2 == 0 && 65533 % 13 == 0;
    assert 65534 % 2 == 0 && 65535 % 3 == 0;
  }

  lemma BaseIsPrime()
    ensures IsPrime(65521)
  {
    hide Rough;
    NoneYet(65521);
    TenMore(65521, 2); TenMore(65521, 12); TenMore(65521, 22); TenMore(65521, 32); TenMore(65521, 42);
    TenMore(65521, 52); TenMore(65521, 62); TenMore(65521, 72); TenMore(65521, 82); TenMore(65521, 92);
    TenMore(65521, 102); TenMore(65521, 112); TenMore(65521, 122); TenMore(65521, 132); TenMore(65521, 142);
    TenMore(65521, 152); TenMore(65521, 162); TenMore(65521, 172); TenMore(65521, 182); TenMore(65521, 192);
    TenMore(65521, 202); TenMore(65521, 212); TenMore(65521, 222); TenMore(65521, 232); TenMore(65521, 242);
    TenMore(65521, 252);
    RoughIsPrime(65521, 262);
  }
}
