/** The output side of gzip.c: a byte buffer handed to `xwrite` when full, and
    a 32-bit accumulator that packs values of up to 16 bits. */
module BitWriters {
  import opened Bits
  import opened Config

  /** The zero bits that bring n bits up to a whole number of bytes. */
  function Padding(n: nat): (s: seq<bool>)
  {
    ToBits(0, (8 - n % 8) % 8)
  }

  lemma PaddingSize(pos: nat)
    ensures |Padding(pos)| == (8 - pos % 8) % 8
  {
  }

  lemma PaddingAligns(n: nat)
    ensures (n + |Padding(n)|) % 8 == 0 && |Padding(n)| < 8
  {
    hide Padding;
    PaddingSize(n);
    var q, r := n / 8, n % 8;
    assert n == 8 * q + r;
  }

  /** The four bytes of a 32-bit value, low-order byte first. */
  function LittleEndian32(v: nat): (s: seq<byte>)
    ensures |s| == 4
  {
    [v % 256, v / 256 % 256, v / 65536 % 256, v / 16777216 % 256]
  }

  lemma LittleEndian32Bits(v: nat)
    ensures BytesToBits(LittleEndian32(v)) == ToBits(v, 32)
  {
    LowByte(v, 32);
    LowByte(v / 256, 24);
    LowByte(v / 65536, 16);
    LowByte(v / 16777216, 8);
    FourBytes(v % 256, v / 256 % 256, v / 65536 % 256, v / 16777216 % 256);
    assert v / 256 / 256 == v / 65536 && v / 65536 / 256 == v / 16777216;
  }

  lemma LowByte(v: nat, n: nat)
    requires n >= 8
    ensures ToBits(v, n) == ToBits(v % 256, 8) + ToBits(v / 256, n - 8)
  {
    hide ToBits, Pow2, Shr;
    SplitBits(v, n, 8);
    ShrByte(v);
    assert Pow2(8) == 256 by { Pow2Values(); }
    assert v == v % 256 + (v / 256) * 256;
    SameLowBits(v % 256, v / 256, 8);
  }

  lemma ShrByte(v: nat)
    ensures Shr(v, 8) == v / 256
  {
    hide Shr;
    ShrTwo(v, 6);
    ShrTwo(v / 4, 4);
    ShrTwo(v / 16, 2);
    ShrTwo(v / 64, 0);
    assert v / 4 / 4 == v / 16 && v / 16 / 4 == v / 64 && v / 64 / 4 == v / 256;
  }

  lemma ShrTwo(v: nat, k: nat)
    ensures Shr(v, k + 2) == Shr(v / 4, k) && Shr(v / 4, 0) == v / 4
  {
    assert Shr(v, k + 2) == Shr(v / 2, k + 1) == Shr(v / 2 / 2, k);
    assert v / 2 / 2 == v / 4;
  }

  lemma FourBytes(b0: byte, b1: byte, b2: byte, b3: byte)
    ensures BytesToBits([b0, b1, b2, b3])
         == ToBits(b0, 8) + (ToBits(b1, 8) + (ToBits(b2, 8) + ToBits(b3, 8)))
  {
    hide *;
    SingleByte(b0);
    SingleByte(b1);
    SingleByte(b2);
    SingleByte(b3);
    var low: seq<byte>, high: seq<byte> := [b0, b1], [b2, b3];
    assert low == [b0] + [b1] && high == [b2] + [b3] && [b0, b1, b2, b3] == low + high;
    BytesToBitsAppend([b0], [b1]);
    BytesToBitsAppend([b2], [b3]);
    BytesToBitsAppend(low, high);
  }

  lemma SingleByte(b: byte)
    ensures BytesToBits([b]) == ToBits(b, 8)
  {
    BytesToBitsAt([b], 0);
  }

  class BitWriter {
    var written: seq<byte>          // everything passed to xwrite so far
    const outbuf: array<byte>
    var outcnt: nat                 // bytes in outbuf
    var biBuf: nat                  // bits not yet in outbuf
    var biValid: nat                // how many of them

    ghost predicate Valid()
      reads this, outbuf
    {
      && outbuf.Length == OUTBUFSIZ
      && outcnt < OUTBUFSIZ
      && biValid < 32
      && biBuf < Pow2(biValid)
    }

    /** All bytes put so far, flushed or not. */
    ghost function Bytes(): seq<byte>
      requires outcnt <= outbuf.Length
      reads this, outbuf
    {
      written + outbuf[..outcnt]
    }

    /** All bits sent so far. */
    ghost function Sent(): seq<bool>
      requires outcnt <= outbuf.Length
      reads this, outbuf
    {
      BytesToBits(Bytes()) + ToBits(biBuf, biValid)
    }

    constructor ()
      ensures Valid() && fresh(outbuf)
      ensures written == [] && Bytes() == [] && Sent() == [] && biValid == 0
    {
      outbuf := new byte[OUTBUFSIZ];
      written := [];
      outcnt := 0;
      biBuf := 0;
      biValid := 0;
    }

    method FlushOutbuf()
      requires outbuf.Length == OUTBUFSIZ && outcnt <= OUTBUFSIZ
      modifies `written, `outcnt
      ensures outcnt <= outbuf.Length
      ensures Bytes() == old(Bytes()) && outcnt == 0 && written == Bytes()
    {
      if outcnt == 0 {
        return;
      }
      written := written + outbuf[..outcnt];
      outcnt := 0;
    }

    method Put8(c: nat)
      requires Valid()
      modifies this, outbuf
      ensures Valid() && biBuf == old(biBuf) && biValid == old(biValid)
      ensures Bytes() == old(Bytes()) + [c % 256]
    {
      outbuf[outcnt] := c % 256;
      outcnt := outcnt + 1;
      assert outbuf[..outcnt] == old(outbuf[..outcnt]) + [c % 256];
      if outcnt == OUTBUFSIZ {
        FlushOutbuf();
      }
    }

    method Put16(w: nat)
      requires Valid()
      modifies this, outbuf
      ensures Valid() && biBuf == old(biBuf) && biValid == old(biValid)
      ensures Bytes() == old(Bytes()) + [w % 256, w / 256 % 256]
    {
      var cnt := outcnt;
      outbuf[cnt] := w % 256;
      var hi := w / 256;
      if cnt < OUTBUFSIZ - 2 {
        outbuf[cnt + 1] := hi % 256;
        outcnt := cnt + 2;
        assert outbuf[..outcnt] == old(outbuf[..outcnt]) + [w % 256, hi % 256];
        return;
      }
      outcnt := cnt + 1;
      assert outbuf[..outcnt] == old(outbuf[..outcnt]) + [w % 256];
      if outcnt == OUTBUFSIZ {
        FlushOutbuf();
      }
      Put8(hi);
    }

    method Put32(n: nat)
      requires Valid()
      modifies this, outbuf
      ensures Valid() && biBuf == old(biBuf) && biValid == old(biValid)
      ensures Bytes() == old(Bytes()) + LittleEndian32(n)
    {
      if OPTIMIZED_PUT_32BIT {
        if outcnt < OUTBUFSIZ - 4 {
          Store32(n);
          return;
        }
      }
      Put16(n);
      Put16(n / 65536);
    }

    /** One unaligned store of four bytes, low-order byte first. */
    method Store32(n: nat)
      requires Valid() && outcnt < OUTBUFSIZ - 4
      modifies this, outbuf
      ensures Valid() && biBuf == old(biBuf) && biValid == old(biValid)
      ensures Bytes() == old(Bytes()) + LittleEndian32(n)
    {
      outbuf[outcnt], outbuf[outcnt + 1], outbuf[outcnt + 2], outbuf[outcnt + 3] :=
        n % 256, n / 256 % 256, n / 65536 % 256, n / 16777216 % 256;
      outcnt := outcnt + 4;
      assert outbuf[..outcnt] == old(outbuf[..outcnt]) + LittleEndian32(n);
    }

    method FlushOutbufIf32BitOptimized()
      requires Valid()
      modifies `written, `outcnt
      ensures Valid() && Bytes() == old(Bytes()) && biBuf == old(biBuf) && biValid == old(biValid)
    {
      if OPTIMIZED_PUT_32BIT {
        FlushOutbuf();
      }
    }

    /** Appends the `length` low bits of `value`, least significant first. */
    method SendBits(value: nat, length: nat)
      requires Valid() && length <= 16 && value < Pow2(length)
      modifies this, outbuf
      ensures Valid()
      ensures Sent() == old(Sent()) + ToBits(value, length)
    {
      hide ToBits, BytesToBits, Pow2, Or;
      ghost var sent, bits := BytesToBits(Bytes()), ToBits(biBuf, biValid) + ToBits(value, length);
      assert old(Sent()) + ToBits(value, length) == sent + bits;
      var newBuf := Or(biBuf, Low(Shl(value, biValid), 32));
      var len := length + biValid;
      if len >= 32 {
        var rest := Shr(value, 32 - biValid);
        FullAccumulator(biBuf, biValid, value, length);
        ghost var word := BytesToBits(LittleEndian32(newBuf));
        assert sent + bits == (sent + word) + ToBits(rest, len - 32);
        BytesToBitsAppend(Bytes(), LittleEndian32(newBuf));
        Put32(newBuf);
        newBuf := rest;
        len := len - 32;
      } else {
        PartialAccumulator(biBuf, biValid, value, length);
      }
      biBuf := newBuf;
      biValid := len;
      assert Sent() == sent + bits;
    }

    /** Pads with zero bits to a byte boundary and empties the accumulator. */
    method BiWindup()
      requires Valid()
      modifies this, outbuf
      ensures Valid() && biValid == 0 && biBuf == 0
      ensures Sent() == BytesToBits(Bytes())
      ensures Sent() == old(Sent()) + Padding(|old(Sent())|)
    {
      hide ToBits, BytesToBits, Windup;
      ghost var sent := Sent();
      var bits := biBuf;
      var cnt: int := biValid;
      StartWindup(Bytes(), bits, cnt);
      while cnt > 0
        invariant Valid() && -8 < cnt
        invariant Windup(Bytes(), bits, cnt, sent)
      {
        WindupStep(Bytes(), bits, cnt, sent);
        Put8(bits);
        bits := bits / 256;
        cnt := cnt - 8;
      }
      WindupDone(Bytes(), bits, cnt, sent);
      biBuf := 0;
      biValid := 0;
      assert ToBits(0, 0) == [];
      assert BytesToBits(Bytes()) + [] == BytesToBits(Bytes());
    }

    /** A stored block's byte-aligned part: the length, its one's complement,
        and the bytes themselves. */
    method CopyBlock(buf: array<byte>, start: nat, len: nat)
      requires Valid() && buf != outbuf
      requires start + len <= buf.Length && len < 0x10000
      modifies this, outbuf
      ensures Valid() && biValid == 0
      ensures Sent() == old(Sent()) + Padding(|old(Sent())|)
                        + ToBits(len, 16) + ToBits(0xffff - len, 16)
                        + BytesToBits(buf[start..start + len])
    {
      hide ToBits, BytesToBits, Pow2, Or;
      BiWindup();
      StoredHeader(len);
      var i := 0;
      ghost var header := Bytes();
      while i < len
        invariant 0 <= i <= len
        invariant Valid() && biValid == 0 && biBuf == 0
        invariant Bytes() == header + buf[start..start + i]
      {
        Put8(buf[start + i]);
        assert buf[start..start + i + 1] == buf[start..start + i] + [buf[start + i]];
        i := i + 1;
      }
      BytesToBitsAppend(header, buf[start..start + len]);
      assert ToBits(biBuf, biValid) == [];
      if outcnt % 4 != 0 {
        FlushOutbufIf32BitOptimized();
      }
    }

    /** The two 16-bit length fields of a stored block. */
    method StoredHeader(len: nat)
      requires Valid() && biValid == 0 && biBuf == 0 && len < 0x10000
      modifies this, outbuf
      ensures Valid() && biValid == 0 && biBuf == 0
      ensures Sent() == BytesToBits(Bytes())
      ensures Sent() == old(Sent()) + ToBits(len, 16) + ToBits(0xffff - len, 16)
    {
      hide ToBits, BytesToBits, Pow2, Or, Low, Shl, LittleEndian32;
      var v := Or(Low(len, 16), Low(Shl(U32 - 1 - len, 16), 32));
      StoredLengths(len);
      LittleEndian32Bits(v);
      BytesToBitsAppend(Bytes(), LittleEndian32(v));
      assert ToBits(biBuf, biValid) == [];
      Put32(v);
    }
  }

  /** `bytes` and the cnt bits still to go make up `sent`; once cnt is negative,
      so many zero bits too many are out. */
  ghost predicate Windup(bytes: seq<byte>, bits: nat, cnt: int, sent: seq<bool>)
  {
    && (cnt >= 0 ==> bits < Pow2(cnt) && BytesToBits(bytes) + ToBits(bits, cnt) == sent)
    && (cnt < 0 ==> BytesToBits(bytes) == sent + ToBits(0, -cnt))
  }

  lemma StartWindup(bytes: seq<byte>, bits: nat, cnt: nat)
    requires bits < Pow2(cnt)
    ensures Windup(bytes, bits, cnt, BytesToBits(bytes) + ToBits(bits, cnt))
  {
  }

  lemma WindupStep(bytes: seq<byte>, bits: nat, cnt: int, sent: seq<bool>)
    requires Windup(bytes, bits, cnt, sent) && cnt > 0
    ensures Windup(bytes + [bits % 256], bits / 256, cnt - 8, sent)
  {
    BytesToBitsAppend(bytes, [bits % 256]);
    SingleByte(bits % 256);
    if cnt >= 8 {
      LowByte(bits, cnt);
      ShrFits(bits, cnt, 8);
      ShrByte(bits);
    } else {
      SmallByte(bits, cnt);
    }
    hide ToBits, BytesToBits, Pow2;
  }

  lemma WindupDone(bytes: seq<byte>, bits: nat, cnt: int, sent: seq<bool>)
    requires Windup(bytes, bits, cnt, sent) && -8 < cnt <= 0
    ensures BytesToBits(bytes) == sent + Padding(|sent|)
  {
    if cnt == 0 {
      assert ToBits(bits, 0) == [] == ToBits(0, 0);
      assert sent + [] == sent;
    } else {
      assert (8 - |sent| % 8) % 8 == -cnt;
    }
  }

  /** What a full accumulator and its leftover hold. */
  lemma FullAccumulator(biBuf: nat, n: nat, value: nat, length: nat)
    requires n < 32 <= n + length && biBuf < Pow2(n) && value < Pow2(length)
    ensures Shr(value, 32 - n) < Pow2(n + length - 32)
    ensures ToBits(biBuf, n) + ToBits(value, length)
         == BytesToBits(LittleEndian32(Or(biBuf, Low(Shl(value, n), 32))))
            + ToBits(Shr(value, 32 - n), n + length - 32)
  {
    hide ToBits, Pow2, Or, Low, Shl, Shr, BytesToBits, LittleEndian32;
    SplitBits(value, length, 32 - n);
    ShrFits(value, length, 32 - n);
    OrAppends(biBuf, n, value, 32 - n);
    LittleEndian32Bits(Or(biBuf, Low(Shl(value, n), 32)));
  }

  lemma PartialAccumulator(biBuf: nat, n: nat, value: nat, length: nat)
    requires n + length < 32 && biBuf < Pow2(n) && value < Pow2(length)
    ensures Or(biBuf, Low(Shl(value, n), 32)) < Pow2(n + length)
    ensures ToBits(biBuf, n) + ToBits(value, length)
         == ToBits(Or(biBuf, Low(Shl(value, n), 32)), n + length)
  {
    hide ToBits, Pow2, Or, Low, Shl;
    ShlFits(value, length, n);
    Pow2Monotone(n + length, 32);
    LowSmall(Shl(value, n), 32);
    LowSmall(Shl(value, n), n + length);
    OrAppends(biBuf, n, value, length);
  }

  lemma SmallByte(bits: nat, cnt: nat)
    requires cnt < 8 && bits < Pow2(cnt)
    ensures bits / 256 == 0 && ToBits(bits % 256, 8) == ToBits(bits, cnt) + ToBits(0, 8 - cnt)
  {
    Pow2Monotone(cnt, 8);
    SplitBits(bits, 8, cnt);
    ShrFits(bits, cnt, cnt);
  }

  lemma StoredLengths(len: nat)
    requires len < 0x10000
    ensures var v := Or(Low(len, 16), Low(Shl(U32 - 1 - len, 16), 32));
            ToBits(v, 32) == ToBits(len, 16) + ToBits(0xffff - len, 16)
  {
    Pow2Values();
    LowSmall(len, 16);
    OrAppends(len, 16, U32 - 1 - len, 16);
    SameLowBits(0xffff - len, 0xffff, 16);
  }
}
