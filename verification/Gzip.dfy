/** `zip`: one member of section 2.3 of RFC 1952 around the deflated input, and a
    reader for such members. */
module Gzip {
  import opened Bits
  import opened Config
  import opened BitWriters
  import opened PrefixCode
  import opened Inflate
  import opened Tokens
  import opened Streams
  import opened Input
  import opened BlockWriters
  import opened ChainSearch
  import opened LazyParse
  import opened Deflate

  // ----- the format -----

  /** The position after a zero-terminated string. */
  function AfterZero(bytes: seq<byte>, p: nat): (r: Option<nat>)
    ensures r.Some? ==> p < r.value <= |bytes|
    decreases |bytes| - p
  {
    if p >= |bytes| then None
    else if bytes[p] == 0 then Some(p + 1)
    else AfterZero(bytes, p + 1)
  }

  /** Section 2.3 of RFC 1952: the position after the header, with its optional
      extra field, name, comment and check value. */
  function HeaderEnd(bytes: seq<byte>): (r: Option<nat>)
    ensures r.Some? ==> 10 <= r.value <= |bytes|
  {
    if |bytes| < 10 || bytes[0] != 0x1f || bytes[1] != 0x8b || bytes[2] != 8 || bytes[3] >= 0x20 then None else
    var flags := bytes[3];
    var p1 :- if flags / 4 % 2 == 0 then Some(10)
              else if |bytes| < 12 then None
              else Some(12 + (bytes[10] as int) + 256 * (bytes[11] as int));
    var p2 :- if flags / 8 % 2 == 0 then Some(p1) else AfterZero(bytes, p1);
    var p3 :- if flags / 16 % 2 == 0 then Some(p2) else AfterZero(bytes, p2);
    var p4 := if flags / 2 % 2 == 0 then p3 else p3 + 2;
    if p4 <= |bytes| then Some(p4) else None
  }

  /** What a single member holds; nothing may come after it. */
  function Gunzip(bytes: seq<byte>): Option<seq<byte>>
  {
    var start :- HeaderEnd(bytes);
    var (pos, out) :- InflateBlocks(BytesToBits(bytes), 8 * start, []);
    var p := (pos + 7) / 8;
    if p + 8 == |bytes| && bytes[p..p + 4] == LittleEndian32(Crc32(out)) && bytes[p + 4..] == LittleEndian32(|out| % U32)
    then Some(out) else None
  }

  // ----- zip -----

  /** The ten bytes of the header: no flags, no time, the kind of compression,
      and the operating system. */
  function Header(slowest: bool): (s: seq<byte>)
    ensures |s| == 10
  {
    [0x1f, 0x8b, 8, 0, 0, 0, 0, 0, if slowest then 2 else 0, 3]
  }

  lemma {:induction false} BytesPrefix(a: seq<byte>, b: seq<byte>)
    requires BytesToBits(a) <= BytesToBits(b)
    ensures a <= b
  {
    forall i | 0 <= i < |a|
      ensures a[i] == b[i]
    {
      BytesToBitsAt(a, i);
      BytesToBitsAt(b, i);
      assert BytesToBits(b)[8 * i..8 * i + 8] == BytesToBits(a)[8 * i..8 * i + 8];
      assert Pow2(8) == 256;
      FromToBits(a[i], 8);
      FromToBits(b[i], 8);
    }
  }

  lemma PlainHeader(bytes: seq<byte>, slowest: bool)
    requires Header(slowest) <= bytes
    ensures HeaderEnd(bytes) == Some(10)
  {
    var h := Header(slowest);
    assert bytes[0] == h[0] && bytes[1] == h[1] && bytes[2] == h[2] && bytes[3] == h[3];
  }

  /** A member whose deflated part decodes to the data reads back as the data. */
  lemma MemberReadsBack(slowest: bool, body: seq<byte>, data: seq<byte>, bytes: seq<byte>)
    requires Ended(BytesToBits(Header(slowest)), BytesToBits(body), data)
    requires bytes == body + LittleEndian32(Crc32(data)) + LittleEndian32(|data| % U32)
    ensures Gunzip(bytes) == Some(data)
  {
    hide InflateBlocks, BytesToBits, Crc32, LittleEndian32, HeaderEnd;
    BytesPrefix(Header(slowest), body);
    PlainHeader(bytes, slowest);
    var trailer: seq<byte> := LittleEndian32(Crc32(data)) + LittleEndian32(|data| % U32);
    assert bytes == body + trailer;
    BytesToBitsAppend(body, trailer);
    var pos: nat :| |BytesToBits(body)| - 8 < pos <= |BytesToBits(body)|
                    && EndsAt(BytesToBits(Header(slowest)), BytesToBits(body), data, pos);
    assert InflateBlocks(BytesToBits(body) + BytesToBits(trailer), 80, []) == Some((pos, data));
    assert (pos + 7) / 8 == |body|;
  }

  /** The magic number, the method and no time. */
  method NewMember() returns (w: BitWriter)
    ensures fresh(w) && fresh(w.outbuf) && w.Valid() && w.biValid == 0
    ensures w.Bytes() == Header(false)[..8] && w.Sent() == BytesToBits(w.Bytes())
  {
    hide BytesToBits;
    w := new BitWriter();
    w.Put32(0x00088b1f);
    w.Put32(0);
    assert ToBits(w.biBuf, 0) == [];
  }

  /** The first half of `zip`: the header's first eight bytes and the first reads. */
  method Begin(level: Level, src: Source) returns (bw: BlockWriter, z: Deflater)
    modifies src
    ensures z.bw == bw && z.src == src && z.level == level && fresh(z) && fresh(z.window) && fresh(z.prev) && fresh(z.head)
    ensures fresh(bw) && fresh(bw.Repr)
    ensures z.Reading() && z.base == z.strstart == 0 && z.blockStart == 0 && z.data + src.rest == old(src.rest)
    ensures bw.Valid() && bw.tb.toks == [] && bw.Whole() && bw.PutBytes() == Header(false)[..8]
  {
    hide BytesToBits, BlockWriter.Valid, BitWriter.Valid, Deflater.Reading;
    var w := NewMember();
    bw := NewBlockWriter(w);
    z := new Deflater(level, bw, src);
    z.crc := U32 - 1;
    z.LmInit();
  }

  /** `zip`: whatever the input, however it is read and however hard matches are
      searched for, the output reads back as the input. Between header and trailer it
      consists of blocks whose tokens are those of a lazy parse of the input. */
  method Zip(level: Level, slowest: bool, src: Source)
    returns (output: seq<byte>, ghost input: seq<byte>, ghost trail: seq<Sending>, ghost turns: seq<Turn>)
    modifies src
    ensures input + src.rest == old(src.rest) && (!src.failing ==> src.rest == [])
    ensures Gunzip(output) == Some(input) && |output| >= 8
    ensures Trail(BytesToBits(Header(slowest)), BytesToBits(output[..|output| - 8]), trail)
    ensures LazilyParsed(input, TrailToks(trail), turns, level)
  {
    hide BytesToBits, LittleEndian32, Crc32, BlockWriter.Valid, BlockWriter.PutBytes, BlockWriter.Output, BlockWriter.Whole,
      Ended, Gunzip, Deflater.Reading, Deflater.Windowed, Trail, TrailToks, LazilyParsed;
    var bw, z := Begin(level, src);
    z.Remaining();
    var flags := 0x300;
    if slowest {
      flags := 0x302;
    }
    bw.PutFlags(flags);
    bw.WholeOutput();
    assert bw.PutBytes() == Header(slowest);
    z.Deflate();
    bw.WholeOutput();
    z.Checked();
    ghost var body := bw.PutBytes();
    bw.PutTrailer(U32 - 1 - z.crc, z.isize);
    output := bw.w.written;
    input, trail, turns := z.data, z.trail, z.turns;
    assert output[..|output| - 8] == body;
    MemberReadsBack(slowest, body, input, output);
  }
}
