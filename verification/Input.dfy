/** The input side of gzip.c: reads that give as many bytes as they please, and
    the running CRC-32 of what has been read. */
module Input {
  import opened Bits
  import opened BitWriters

  /** The reversed generator polynomial of section 8 of RFC 1952. */
  const CRC_POLYNOMIAL := 0xedb88320

  /** One bit through the shift register. */
  function CrcBit(c: nat): nat
  {
    if c % 2 == 1 then Xor(c / 2, CRC_POLYNOMIAL) else c / 2
  }

  function CrcBits(c: nat, k: nat): nat
    decreases k
  {
    if k == 0 then c else CrcBits(CrcBit(c), k - 1)
  }

  /** One byte through the shift register. */
  function CrcByte(c: nat, b: byte): nat
  {
    CrcBits(Xor(c, b), 8)
  }

  /** A run of bytes through the shift register. */
  function UpdateCrc(c: nat, s: seq<byte>): nat
  {
    if s == [] then c
    else CrcByte(UpdateCrc(c, s[..|s| - 1]), s[|s| - 1])
  }

  /** The check value of section 8 of RFC 1952, with the complements before and after. */
  function Crc32(s: seq<byte>): (r: nat)
    ensures r < U32
  {
    CrcFits(U32 - 1, s);
    U32 - 1 - UpdateCrc(U32 - 1, s)
  }

  /** How the bytes are split makes no difference. */
  lemma {:induction false} UpdateCrcAppend(c: nat, a: seq<byte>, b: seq<byte>)
    ensures UpdateCrc(c, a + b) == UpdateCrc(UpdateCrc(c, a), b)
  {
    hide CrcByte;
    if b == [] {
      assert a + b == a;
    } else {
      var last := |b| - 1;
      UpdateCrcAppend(c, a, b[..last]);
      assert (a + b)[..|a + b| - 1] == a + b[..last];
    }
  }

  lemma {:induction false} XorFits(a: nat, b: nat, n: nat)
    requires a < Pow2(n) && b < Pow2(n)
    ensures Xor(a, b) < Pow2(n)
  {
    if n > 0 {
      XorFits(a / 2, b / 2, n - 1);
    } else {
      assert Xor(0, 0) == 0;
    }
  }

  lemma {:induction false} CrcBitsFit(c: nat, k: nat)
    requires c < U32
    ensures CrcBits(c, k) < U32
    decreases k
  {
    hide CrcBit;
    if k > 0 {
      CrcBitFits(c);
      CrcBitsFit(CrcBit(c), k - 1);
    }
  }

  lemma CrcBitFits(c: nat)
    requires c < U32
    ensures CrcBit(c) < U32
  {
    hide Xor, Pow2;
    Pow2Values();
    XorFits(c / 2, CRC_POLYNOMIAL, 32);
  }

  lemma {:induction false} CrcFits(c: nat, s: seq<byte>)
    requires c < U32
    ensures UpdateCrc(c, s) < U32
  {
    if s != [] {
      var init := UpdateCrc(c, s[..|s| - 1]);
      CrcFits(c, s[..|s| - 1]);
      Pow2Values();
      XorFits(init, s[|s| - 1], 32);
      hide Xor, Pow2, CrcBits;
      CrcBitsFit(Xor(init, s[|s| - 1]), 8);
    }
  }

  /** Where the bytes come from. */
  class Source {
    var rest: seq<byte>     // what has not been read yet
    const failing: bool     // whether reading may fail

    constructor (bytes: seq<byte>, failing: bool)
      ensures rest == bytes && this.failing == failing
    {
      rest := bytes;
      this.failing := failing;
    }

    /** Reads any number of bytes that fit; 0 at the end, -1 when reading fails. */
    method Read(buf: array<byte>, start: nat, size: nat) returns (len: int)
      requires start + size <= buf.Length && size > 0
      modifies this, buf
      ensures -1 <= len <= size
      ensures len <= 0 ==> rest == old(rest) && buf[..] == old(buf[..])
      ensures len == -1 ==> failing
      ensures len == 0 ==> rest == []
      ensures len > 0 ==> len <= |old(rest)| && rest == old(rest)[len..]
      ensures len > 0 ==> buf[..] == old(buf[..])[..start] + old(rest)[..len] + old(buf[..])[start + len..]
    {
      if rest == [] {
        return 0;
      }
      if failing {
        if * {
          return -1;
        }
      }
      len :| 1 <= len <= size && len <= |rest|;
      forall i | 0 <= i < len {
        buf[start + i] := rest[i];
      }
      rest := rest[len..];
    }
  }
}
