# Verified models of BusyBox 1.32.1: gzip, lzop, dpkg, expr and factor

Five programs, from the one with the most state to the one with the least. Each is modelled
in the form it has, as methods over arrays and fields, and proved against a specification
that does not follow its steps.

## gzip

`archival/gzip.c` is modelled from the input reads to the last output byte, and what it
writes is proved to be readable again.

- `Config`, `Bits`, `BitWriter`: build-time sizes, numbers as bit strings, the output buffer
  and the 32-bit bit accumulator.
- `Sums`, `Huffman`, `WorstCase`: the theory of Huffman's algorithm: greedy merging is optimal
  over all prefix codes, ties broken by depth give the shortest longest codeword, and cut-off
  lengths exceed Kraft's bound by exactly the number of cut-off inner nodes.
- `Heap`, `Trees`, `Merging`, `HeapLayout`, `CodeLengths`, `TreeBuilder`, `PrefixCode`:
  `pqdownheap`, `build_tree`, `gen_bitlen` with its overflow repair, `gen_codes`, and
  canonical decoding.
- `Histogram`, `LeastCodes`, `RunLength`, `RunForms`, `TreeSender`: frequencies and costs,
  `scan_tree`, `send_tree`, `build_bl_tree`, `send_all_trees`.
- `Tokens`, `TokenBuffers`, `CodeTables`, `BlockBody`, `BlockCosts`, `LeastBodies`, `Blocks`,
  `BlockWriter`: `ct_init`, `ct_tally`, `compress_block`, `flush_block`, what a block decodes to,
  and that it has its cheapest form.
- `Hashing`, `Chains`, `ChainSearch`, `LazyParse`, `Input`, `Streams`, `Deflate`: the rolling hash,
  the hash chains, the sliding window, `longest_match`, what a search must find and the tokens
  that follow from it.
- `FormatTables`: the tables of the formats, each by a rule of its own.
- `Inflate`, `Gzip`: a reference decoder written from section 3.2 of RFC 1951 and section 2.3
  of RFC 1952, `zip`, and the main theorem.

The main theorem is the contract of `Gzip.Zip`: for every input, every way in which reads
split it or fail, every build size and every search level, `Gunzip(output)` is exactly the
input that was read. Nothing is assumed about the bytes behind the valid part of the window.
The same contract says what is sent: the blocks of `trail`, whose tokens are those of a lazy
parse of the input (`LazyParse.LazilyParsed`). Each search finds the longest match among the
strings it has to try; each block ends exactly where a flush is due; and each has the form that
takes the fewest bytes, with codes that no others beat unless some code has the maximum length
(`Streams.GoodSending`, `BlockWriters.Cheapest`).

Sequences of bits and bytes stand for what has been sent; the original's arrays, counters and
buffers are fields and arrays that methods change in place. The decoder is strict: it refuses
incomplete or over-subscribed codes, so the theorem also says that none is ever sent.

## lzop

- `Lzo`: the LZO1X stream format, as instructions and their decoding.
- `LzoEncoding`: instructions written down, for every length and distance there is, and read back.
- `LzoRewrites`, `LzoDecisions`, `LzoOptimizer`: `lzo1x_optimize` of `archival/lzop.c`, which decodes
  a stream and rewrites it in place as it goes. The rewritten stream is proved to decode to the
  same bytes, for every well-formed stream, and to be rewritten exactly where it should
  (`LzoOptimizer.Lzo1xOptimize`).
- `Adler`: `lzo_adler32` with its division put off, and the two running checksums.

## dpkg

- `CStrings`, `Versions`, `VersionPolicy`: the order of version numbers of `archival/dpkg.c`, and that it
  is the one of section 5.6.12 of the Debian Policy Manual, character by character.
- `Primes`, `Probing`, `NameTable`, `PackageDb`: double hashing with prime sizes, and the three
  tables that refer to one another.
- `EdgeLayout`, `Dependencies`: how the relations of a package are laid out as edges, and the
  dependency loop of `check_deps`: it comes to its end if and only if every wanted package has
  all it depends on (`Dependencies.CheckDependencies`).
- `PackageTexts`: what that means for the text of a status and of a relation.

## expr and factor

- `Expressions`, `ExprEvaluator`: the grammar and meaning of `coreutils/expr.c` as trees, and its
  evaluator of seven levels that builds none. It succeeds with a value if and only if the
  arguments are what a tree with that value is written as (`ExprEvaluator.Evaluator.Expr`).
- `ExpressionValues`: what numbers, division and the order of strings are, each by its own law.
- `Primes`, `Factor`: trial division of `coreutils/factor.c` with three counters in one word. Its
  output is the one factorization there is (`Factor.Factorize`).

## Where the code and the text around it differ

The code is followed.

- A code forced by `build_tree` can be 2 (with one symbol, 1, already there), not only 0 or 1
  as the comment at `gzip.c:1348` says; it still has no extra bits
  (`Trees.ForcedSet`, `TreeBuilder.Builder.ForceTwo`). It is if and only if 1 is the only symbol
  (`Trees.TwoForced`).
- The debug assertion at `gzip.c:734` is not an invariant: after the end of the input
  `strstart` may pass that bound. `longest_match` is proved with `MAX_MATCH` bytes of
  arbitrary content behind the window, which the original does not allocate; "Left out" says
  when it needs none.
- A relation with a version but without an operator, such as `foo (1.0)`, leaves the operator of
  its edge as it was allocated, that is unset (`dpkg.c:460-498`, where `offset_ch` is 0). The
  operator is determined exactly if there is no version or there is an operator
  (`EdgeLayout.OperatorDetermined`, `EdgeLayout.OperatorLeftOpen`).
- The usage text of `expr` says that `ARG1 | ARG2` takes ARG2 if ARG1 is null or 0, and likewise
  for `&`. A string that says zero in another way than `0`, such as `00`, is not taken for null;
  that is the only exception (`Expressions.NullIff`, `Expressions.ZeroNotNull`).
- The usage text says that comparisons are lexicographical unless both sides are numbers. A side
  that is a number is compared in its plain decimal form, so `007` counts as `7` and is found
  greater than `1a` (`Expressions.ComparedAsPlain`); with plain forms the text is right
  (`Expressions.ComparedAsText`).
- A line of relations that ends in a comma and a space, such as `foo, `, leaves a field in which
  there is nothing to split, and `dpkg.c:448-453` goes on with NULL. The model has an outcome for
  it, with its exact condition (`EdgeLayout.NothingToSplitIff`, `EdgeLayout.NothingBehindComma`).
- `check_deps` adds packages that are only provided where a search with the operator of the
  relation ends. For `<<` and `>>` that can be behind a package of equal version, which a search
  would find instead; the table stays in order exactly if there is none
  (`PackageDb.VirtualPlaced`), and always for an operator that admits equality (`PackageDb.VirtualKept`).

`dafny verify dfyconfig.toml` checks the whole project.

## Model

| member | source | states |
|---|---|---|
| `BitWriters.BitWriter.SendBits` | build_ramdisk/busybox-1.32.1/archival/gzip.c:539-573 | the bits sent so far, flushed or buffered or still in the 32-bit accumulator, grow by exactly the `length` low bits of `value`, low-order first; every call keeps the accumulator below 2^bi_valid, bi_valid below 32 and the buffer not full |
| `BitWriters.BitWriter.Put16` | build_ramdisk/busybox-1.32.1/archival/gzip.c:443-479 | appends two bytes, low one first, whether or not the buffer fills up in between |
| `BitWriters.BitWriter.Put32` | build_ramdisk/busybox-1.32.1/archival/gzip.c:482-497 | appends four bytes, low one first, with and without the unaligned store |
| `BitWriters.BitWriter.BiWindup` | build_ramdisk/busybox-1.32.1/archival/gzip.c:594-606 | adds only the zero bits that lead to the next byte boundary, and then all bits sent are bytes put |
| `BitWriters.BitWriter.CopyBlock` | build_ramdisk/busybox-1.32.1/archival/gzip.c:613-629 | padding, the length, its one's complement and the bytes, whatever the alignment was |
| `PrefixCode.BiReverse` | build_ramdisk/busybox-1.32.1/archival/gzip.c:579-589 | the reversed code, sent low-order bit first, is the code most significant bit first |
| `PrefixCode.GenCodes` | build_ramdisk/busybox-1.32.1/archival/gzip.c:1252-1286 | every symbol with a length gets the canonical code of section 3.2.2 of RFC 1951 in transmission order, in as many bits as its length says |
| `PrefixCode.FirstCodes` | build_ramdisk/busybox-1.32.1/archival/gzip.c:1255-1265 | the running sum gives the first code of each length |
| `PrefixCode.PrefixFree` | build_ramdisk/busybox-1.32.1/archival/gzip.c:1252-1286 | for lengths with Kraft sum at most 1, no codeword is the start of another, in transmission order |
| `PrefixCode.DecodeEncoded` | build_ramdisk/busybox-1.32.1/archival/gzip.c:1252-1286 | canonical decoding of a symbol's codeword, anywhere in a bit string, gives that symbol and ends behind the codeword |
| `PrefixCode.UsedIsKraft` | build_ramdisk/busybox-1.32.1/archival/gzip.c:1269-1270 | the codes used up by the canonical assignment are the Kraft sum |
| `Heaps.PqDownHeap` | build_ramdisk/busybox-1.32.1/archival/gzip.c:1125-1147 | restores the heap order below k, by frequency and then depth, and permutes the heap |
| `Heaps.RootFirst` | build_ramdisk/busybox-1.32.1/archival/gzip.c:1121-1123 | in a heap the root comes before every element |
| `TreeBuilder.Builder.PqRemove` | build_ramdisk/busybox-1.32.1/archival/gzip.c:1303-1308 | takes out a least node and leaves a heap of the others |
| `TreeBuilder.Builder.CollectLeaves` | build_ramdisk/busybox-1.32.1/archival/gzip.c:1319-1333 | the heap starts as exactly the symbols that occur |
| `TreeBuilder.Builder.ForceTwo` | build_ramdisk/busybox-1.32.1/archival/gzip.c:1335-1350 | at least two codes exist afterwards, those of `ForcedSet`; the forced ones have frequency 1, no extra bits, and are taken out of both sizes in advance |
| `HeapLayout.WellLaidOut` | build_ramdisk/busybox-1.32.1/archival/gzip.c:1358-1385 | the merged nodes, laid out from the end of the heap array, go by non-increasing frequency with every father before its sons, and no frequency sum reaches 65536 |
| `TreeBuilder.Builder.MergeAll` | build_ramdisk/busybox-1.32.1/archival/gzip.c:1358-1385 | the loop is a greedy run of merges of the first two nodes by frequency and then depth; the heap array ends as the nodes by non-increasing frequency, every father before its sons; no frequency sum reaches 65536 |
| `Huffman.MergesAscend` | build_ramdisk/busybox-1.32.1/archival/gzip.c:1361-1383 | later merges are never lighter than earlier ones, so nodes are stored by non-increasing frequency |
| `Huffman.HasFather` | build_ramdisk/busybox-1.32.1/archival/gzip.c:1371 | every node but the root is a son of exactly a later node, so lengths can be assigned from the root down |
| `Huffman.HuffmanIsOptimal` | build_ramdisk/busybox-1.32.1/archival/gzip.c:1149-1158 | lengths read off a greedy run of merges have the smallest sum of frequency times length over all prefix codes, of any codeword lengths |
| `Huffman.PrefixCodeIsKraftOk` | build_ramdisk/busybox-1.32.1/archival/gzip.c:1149-1158 | the word lengths of every prefix code have Kraft sum at most 1 |
| `Huffman.KraftOfRun` | build_ramdisk/busybox-1.32.1/archival/gzip.c:1170-1185 | lengths cut off at max_length have Kraft sum 1 plus one unit for every cut-off inner node |
| `CodeLengths.RepairStep` | build_ramdisk/busybox-1.32.1/archival/gzip.c:1209-1219 | one repair step lowers the scaled Kraft sum by exactly one and keeps the number of leaves |
| `TreeBuilder.Builder.RepairCounts` | build_ramdisk/busybox-1.32.1/archival/gzip.c:1208-1220 | the repair ends, never walks below length 1 and never makes a count negative; the Kraft sum becomes exactly 1 and no leaf is lost |
| `CodeLengths.EnoughCutOff` | build_ramdisk/busybox-1.32.1/archival/gzip.c:1180-1192 | whenever inner nodes were cut off there are more leaves of the maximal length than that, so the repair cannot run out of them |
| `TreeBuilder.Builder.Reassign` | build_ramdisk/busybox-1.32.1/archival/gzip.c:1222-1240 | the second pass deals the repaired lengths to exactly the leaves, and keeps opt_len the sum of frequency times length and extra bits |
| `TreeBuilder.Builder.GenBitlen` | build_ramdisk/busybox-1.32.1/archival/gzip.c:1159-1242 | complete lengths of at most max_length; opt_len and static_len are the exact costs; overflow is twice the number of inner nodes cut off, without it the lengths are optimal, with it some leaf has the maximal length |
| `TreeBuilder.Builder.BuildTree` | build_ramdisk/busybox-1.32.1/archival/gzip.c:1310-1392 | for any frequencies whose sum fits 16 bits: a complete prefix code for every symbol that occurs, its codes set, both size counters exact for the given frequencies in spite of forced codes; one bit for a single symbol; and, for two symbols or more, optimal when the tree had nothing to be cut off, in particular when no symbol has the maximal length: no prefix code costs less, and none that costs the same has a shorter longest word |
| `Histogram.OptCostIsCost` | build_ramdisk/busybox-1.32.1/archival/gzip.c:1196-1200 | the sum over symbols of frequency times cost is the cost of sending the symbols one by one |
| `RunLength.SymsExpand` | build_ramdisk/busybox-1.32.1/archival/gzip.c:1452-1503 | expanding the repeat codes 16, 17 and 18 as section 3.2.7 of RFC 1951 says gives back exactly the lengths |
| `TreeSender.ScanTree` | build_ramdisk/busybox-1.32.1/archival/gzip.c:1400-1446 | counts exactly the symbols that send_tree sends, and puts the guard behind the lengths |
| `TreeSender.SendTree` | build_ramdisk/busybox-1.32.1/archival/gzip.c:1452-1503 | sends exactly the codes of those symbols with their repeat counts, all of which fit their fields |
| `TreeSender.BuildBlTree` | build_ramdisk/busybox-1.32.1/archival/gzip.c:1509-1536 | a complete code of at most 7 bits for all symbols both trees need, and none that costs less unless 7 bits were needed; the last index sent covers it and is the least from 3 on that does; opt_len grows by exactly the size of the tree header |
| `TreeSender.SendAllTrees` | build_ramdisk/busybox-1.32.1/archival/gzip.c:1543-1565 | sends the three counts, the code length code and both lists of lengths |
| `Blocks.ReadsTrees` | build_ramdisk/busybox-1.32.1/archival/gzip.c:1543-1565 | reading the header of a dynamic block by section 3.2.7 of RFC 1951 gives back both lists of code lengths |
| `CodeTables.CodeTables.constructor` | build_ramdisk/busybox-1.32.1/archival/gzip.c:1967-2056 | the tables hold the length and distance codes of section 3.2.5 of RFC 1951, and the static trees are the fixed codes of section 3.2.6 |
| `Tokens.LengthCodeRange` | build_ramdisk/busybox-1.32.1/archival/gzip.c:1980-1996 | every match length lies in the range of its code; 258 has a code of its own |
| `Tokens.DistCodeRange` | build_ramdisk/busybox-1.32.1/archival/gzip.c:1998-2017 | every distance up to 32768 lies in the range of its code |
| `BlockBody.DCodeIs` | build_ramdisk/busybox-1.32.1/archival/gzip.c:1082-1083 | the two-part table gives the distance code |
| `TokenBuffers.TokenBuffer.Store` | build_ramdisk/busybox-1.32.1/archival/gzip.c:1573-1598 | the three buffers hold one token more; flag bytes are filled from their lowest bit |
| `BlockWriters.BlockWriter.CtTally` | build_ramdisk/busybox-1.32.1/archival/gzip.c:1571-1622 | one token more, its symbols counted; a flush is asked for exactly if a buffer is full or, every 4096 tokens, there are few matches and the estimated size is below half the input |
| `BlockBody.CompressBlock` | build_ramdisk/busybox-1.32.1/archival/gzip.c:1628-1671 | sends exactly the bits of the buffered tokens and the end of the block, in the given codes |
| `Tokens.DecodesBody` | build_ramdisk/busybox-1.32.1/archival/gzip.c:1628-1671 | decoding those bits by section 3.2.3 of RFC 1951 appends exactly the tokens' expansion to the output |
| `BlockWriters.BlockWriter.PlanBlock` | build_ramdisk/busybox-1.32.1/archival/gzip.c:1683-1702 | opt_len is exactly the size of the tree header and the body in the dynamic codes, static_len that of the body in the fixed codes; the dynamic codes are the best there are, unless some length is the maximal one, and no trailing zero length is sent |
| `BlockWriters.BlockWriter.EncodeBlock` | build_ramdisk/busybox-1.32.1/archival/gzip.c:1704-1750 | which of the three forms is written, as a condition on the two sizes and the stored length; the dynamic branch sends exactly 3 + opt_len bits, the static one exactly 3 + static_len |
| `BlockWriters.BlockWriter.FlushBlock` | build_ramdisk/busybox-1.32.1/archival/gzip.c:1678-1764 | the bits of one well-formed block that holds the tokens or the window's bytes are sent, in the form of the three that takes the fewest bytes, padded only after the last block, and the counters start anew |
| `Blocks.ReadsBlock` | build_ramdisk/busybox-1.32.1/archival/gzip.c:1736-1755 | inflating any well-formed block, stored, fixed or dynamic, gives its final flag, the position after it and the output extended by what it holds |
| `Hashing.ThirdByte` | build_ramdisk/busybox-1.32.1/archival/gzip.c:747-752 | strings with equal keys that agree in two bytes agree in the third, which longest_match never compares |
| `Hashing.RollingStep` | build_ramdisk/busybox-1.32.1/archival/gzip.c:1772 | after three bytes the key depends on nothing older, whatever it was before |
| `Chains.Inserted` | build_ramdisk/busybox-1.32.1/archival/gzip.c:1801-1806 | inserting a string keeps every chain a descending list of the strings with one key, each linked to the latest one before it |
| `Chains.SlideKeeps` | build_ramdisk/busybox-1.32.1/archival/gzip.c:657-675 | sliding the window keeps the chains, less the strings that became too old |
| `Deflate.Deflater.InsertString` | build_ramdisk/busybox-1.32.1/archival/gzip.c:1801-1806 | the returned head is the latest earlier string with the key of this one, or 0 if there is none |
| `Deflate.Deflater.LongestMatch` | build_ramdisk/busybox-1.32.1/archival/gzip.c:708-782 | returns a true match longer than prev_length within MAX_DIST and leaves match_start at it, or prev_length; unless it stops at a nice length no string it tried matches longer, and it is the nearest that matches so long; the slack bytes behind the window may hold anything |
| `Deflate.Deflater.MakeRoom` | build_ramdisk/busybox-1.32.1/archival/gzip.c:639-678 | there is room for at least two bytes at every read, after a slide if need be, and positions in the input are unchanged |
| `Deflate.Deflater.FillWindow` | build_ramdisk/busybox-1.32.1/archival/gzip.c:639-687 | the window stays the end of the input read so far, the chains stay chains, distances are preserved modulo 2^32 across a slide; bytes are read or the end is noticed |
| `Deflate.Deflater.FillWindowIfNeeded` | build_ramdisk/busybox-1.32.1/archival/gzip.c:689-693 | ends with MIN_LOOKAHEAD bytes ahead or at the end of the input |
| `Deflate.Deflater.FileRead` | build_ramdisk/busybox-1.32.1/archival/gzip.c:520-533 | the running CRC and the size modulo 2^32 are those of all input read so far, however it was split up |
| `Streams.CopyIsData` | build_ramdisk/busybox-1.32.1/archival/gzip.c:1862 | copying a match byte by byte, even onto itself, reproduces the input |
| `Deflate.Deflater.EmitMatch` | build_ramdisk/busybox-1.32.1/archival/gzip.c:1859-1884 | exactly the pending match becomes the next token; it tells the input, and all its strings are put on their chains |
| `Deflate.Deflater.Flush` | build_ramdisk/busybox-1.32.1/archival/gzip.c:1786-1793 | the tokens so far are sent as one block in its cheapest form, the bytes as they are being on offer unless the block is longer than MAX_DIST; afterwards everything sent decodes to the input up to here |
| `Deflate.Deflater.Step` | build_ramdisk/busybox-1.32.1/archival/gzip.c:1816-1908 | one turn of the lazy evaluation keeps all invariants of window, chains, pending match, tokens and output, moves forward, and adds what the search should find and the token that follows from it |
| `Deflate.Deflater.LmInit` | build_ramdisk/busybox-1.32.1/archival/gzip.c:1925-1959 | reading starts with empty chains and a begun key |
| `Deflate.Deflater.Deflate` | build_ramdisk/busybox-1.32.1/archival/gzip.c:1808-1914 | for every input and every way it is read, the bits sent decode to exactly the input, ending in the last byte sent, with one final block; the tokens are those of a lazy parse of the input in which no search misses a match it should find, and each block ends where it must and has its cheapest form |
| `Input.UpdateCrcAppend` | build_ramdisk/busybox-1.32.1/archival/gzip.c:510-513 | the CRC over any split of the data is the CRC over the whole |
| `Gzip.MemberReadsBack` | build_ramdisk/busybox-1.32.1/archival/gzip.c:2062-2101 | a header, a deflated body, the CRC and the size make a member of RFC 1952 that reads back as the data |
| `Gzip.Zip` | build_ramdisk/busybox-1.32.1/archival/gzip.c:2062-2101 | for every input, every way reads split it or fail, and every search level: the output is one member that a strict reader of RFC 1951 and RFC 1952 turns back into exactly the input read, and between header and trailer are the blocks of the lazy parse of it, each in its cheapest form |
| `CodeLengths.SomeLongest` | build_ramdisk/busybox-1.32.1/archival/gzip.c:1208-1240 | a length that is still counted after the repair is the length of some symbol |
| `Trees.TwoForced` | build_ramdisk/busybox-1.32.1/archival/gzip.c:1343-1350 | code 2 is forced if and only if 1 is the only symbol that occurs |
| `Deflate.Deflater.LookaheadSuffices` | build_ramdisk/busybox-1.32.1/archival/gzip.c:727-767 | with MIN_LOOKAHEAD bytes ahead the furthest byte that `longest_match` may read is one of the 2 * WSIZE of the window |
| `ChainSearch.ChainHas` | build_ramdisk/busybox-1.32.1/archival/gzip.c:708-782 | following the links misses nothing: a string with the key that has fewer than k such strings between it and the head is one of the k strings tried, if it is not too old |
| `LazyParse.SearchResult` | build_ramdisk/busybox-1.32.1/archival/gzip.c:1829-1847 | what a search found, stated on the input: unless it stopped at a nice length, no string with the same three-byte key that is near enough and not behind too many others matches longer; a match of three bytes further back than TOO_FAR does not count |
| `LazyParse.NoneToTry` | build_ramdisk/busybox-1.32.1/archival/gzip.c:1829-1833 | if there is nothing to search, there is no such string, or the match of the step before is long enough |
| `Deflate.Deflater.FindMatch` | build_ramdisk/busybox-1.32.1/archival/gzip.c:1838-1847 | the result of the search, cut to the lookahead, without matches of three bytes from too far back |
| `Deflate.Deflater.Search` | build_ramdisk/busybox-1.32.1/archival/gzip.c:1820-1848 | a search is made whenever there is a string to try and the match before is short of max_lazy_match, and its result is what it should be |
| `Deflate.Deflater.Decide` | build_ramdisk/busybox-1.32.1/archival/gzip.c:1849-1898 | the tokens grow by the match of the step before if and only if it has 3 bytes or more and the new one is no longer, else by the literal before if there is one to be told, else by nothing |
| `Deflate.Deflater.Tally` | build_ramdisk/busybox-1.32.1/archival/gzip.c:1858 | exactly one token more; a flush is due exactly if the block must end with it |
| `WorstCase.WorstCaseLeast` | build_ramdisk/busybox-1.32.1/archival/gzip.c:1119-1123 | breaking ties by depth minimizes the worst case: no prefix code that costs no more has a shorter longest word |
| `WorstCase.DepthFits` | build_ramdisk/busybox-1.32.1/archival/gzip.c:1370 | depths stay below 32, so one byte holds them, as long as no frequency sum reaches 65536 |
| `WorstCase.HighIsHeavy` | build_ramdisk/busybox-1.32.1/archival/gzip.c:1370 | the weight of a node doubles with every second level below it |
| `LeastCodes.NoBetterCosts` | build_ramdisk/busybox-1.32.1/archival/gzip.c:1196-1200 | the symbols a tree was built for cost no more with its lengths than with any lengths a reader can decode |
| `LeastBodies.BodyIsLeast` | build_ramdisk/busybox-1.32.1/archival/gzip.c:1683-1690 | a block body in the two codes built for it is no longer than in any two codes a reader can decode, if neither has a length of 15 |
| `TreeSender.HeaderIsLeast` | build_ramdisk/busybox-1.32.1/archival/gzip.c:1517-1518 | the two lists of lengths take no fewer bits in any other code length code a reader can decode, if none has 7 bits |
| `RunForms.SymsSplit` | build_ramdisk/busybox-1.32.1/archival/gzip.c:1410-1444 | where the length changes, the run-length form starts anew |
| `RunForms.ZerosSent` | build_ramdisk/busybox-1.32.1/archival/gzip.c:1406-1437 | a stretch of zeros is sent as repeats of 138 and one of the rest, or single zeros for less than three |
| `RunForms.LengthsSent` | build_ramdisk/busybox-1.32.1/archival/gzip.c:1406-1437 | a stretch of another length is sent as the length, repeats of 6 and one of the rest, or the length itself for less than three |
| `FormatTables.LengthTable` | build_ramdisk/busybox-1.32.1/archival/gzip.c:881-885 | base lengths and extra bits of the length codes follow one rule |
| `FormatTables.DistanceTable` | build_ramdisk/busybox-1.32.1/archival/gzip.c:887-891 | so do those of the distance codes |
| `FormatTables.OrderTable` | build_ramdisk/busybox-1.32.1/archival/gzip.c:897-899 | the order of the code length codes: the repeat codes, 0, and from 8 up and 7 down in turns |
| `Lzo.DecodeGrows` | build_ramdisk/busybox-1.32.1/archival/lzop.c:186-190 | decoding only ever appends, so every prefix of the output the loop writes is a prefix of the decoded data |
| `Lzo.ParseRetailed` | build_ramdisk/busybox-1.32.1/archival/lzop.c:225-227 | the number of literals behind a match can be changed by itself, in its byte for it, for every kind of match |
| `LzoOptimizer.Optimizer.Copy2` | build_ramdisk/busybox-1.32.1/archival/lzop.c:112-119 | the two bytes written are what a copy of two bytes from that distance gives, even onto itself |
| `LzoOptimizer.Optimizer.Copy3` | build_ramdisk/busybox-1.32.1/archival/lzop.c:121-135 | the same for three bytes |
| `LzoOptimizer.Optimizer.ReadMatch` | build_ramdisk/busybox-1.32.1/archival/lzop.c:262-320 | length, distance and end of stream are those of the format, for M2, M3 and M4 matches and continued lengths |
| `LzoRewrites.MatchBecomesLiterals` | build_ramdisk/busybox-1.32.1/archival/lzop.c:326-334 | a short match between two matches turned into literals of the first one leaves the decoded data the same |
| `LzoRewrites.MatchJoinsRun` | build_ramdisk/busybox-1.32.1/archival/lzop.c:336-357 | literals, a short match and a run moved together into one run leave the decoded data the same |
| `LzoRewrites.MatchJoinsRuns` | build_ramdisk/busybox-1.32.1/archival/lzop.c:278-292 | two runs and a match of three bytes between them made one run leave the decoded data the same |
| `LzoOptimizer.Optimizer.Literalize` | build_ramdisk/busybox-1.32.1/archival/lzop.c:222-231 | the in-place writes of the first M1 and M3 rewrites keep what is decoded so far and what is still to come, and change nothing else |
| `LzoOptimizer.Optimizer.JoinRun` | build_ramdisk/busybox-1.32.1/archival/lzop.c:233-256 | the in-place writes of the second M1 and M3 rewrites, with their memmove, do |
| `LzoOptimizer.Optimizer.Bridge` | build_ramdisk/busybox-1.32.1/archival/lzop.c:277-292 | the in-place writes of the M2 rewrite do |
| `LzoOptimizer.Lzo1xOptimize` | build_ramdisk/busybox-1.32.1/archival/lzop.c:143-393 | for every well-formed LZO1X stream the output is its decoding, and decoding the stream as rewritten in place, of unchanged length, gives the same bytes; the stream is rewritten exactly as `LzoDecisions.Optimized` says; the return value tells whether the stream ended with the input |
| `Adler.BoundFits` | build_ramdisk/busybox-1.32.1/archival/lzop.c:512-518 | sums carried for up to 5552 bytes without a division fit 32 bits, whatever they start from |
| `Adler.BoundIsTight` | build_ramdisk/busybox-1.32.1/archival/lzop.c:512-518 | for 5553 bytes they may not, so the constant is the largest there is |
| `Adler.LzoAdler32` | build_ramdisk/busybox-1.32.1/archival/lzop.c:509-536 | the deferred division gives the per-byte definition of section 8.2 of RFC 1950, for every starting value, with no 32-bit overflow |
| `Adler.Adler32Append` | build_ramdisk/busybox-1.32.1/archival/lzop.c:509-536 | updating over any split of the data is updating over the whole |
| `Adler.Checksums.AddBytes` | build_ramdisk/busybox-1.32.1/archival/lzop.c:554-561 | both checksums stay those of all bytes added so far |
| `LzoOptimizer.Optimizer.HighMatch` | build_ramdisk/busybox-1.32.1/archival/lzop.c:261-358 | a match of three bytes without literals behind it is rewritten exactly when what stands around it is as `LzoDecisions.Choice` says: between matches, with literals before a short run, or, for M2, between two runs |
| `LzoOptimizer.Optimizer.ShortMatch` | build_ramdisk/busybox-1.32.1/archival/lzop.c:209-260 | so is an M1 match: behind one literal and before a match, or before a run short enough to be joined |
| `LzoDecisions.LiteralsPassed` | build_ramdisk/busybox-1.32.1/archival/lzop.c:222-231 | after the first rewrite the decoder stands behind the match, with as many more literals in the byte of the match before and every other byte unchanged |
| `LzoDecisions.JoinPassed` | build_ramdisk/busybox-1.32.1/archival/lzop.c:233-256 | after the second it stands behind the run that was joined, whose length is in one byte |
| `LzoDecisions.BridgePassed` | build_ramdisk/busybox-1.32.1/archival/lzop.c:277-292 | likewise after the M2 rewrite |
| `LzoEncoding.ExtendedIs` | build_ramdisk/busybox-1.32.1/archival/lzop.c:178-183 | a continued length is the start plus 255 for every zero byte plus the first other byte, and ends there |
| `LzoEncoding.ExtendedReads` | build_ramdisk/busybox-1.32.1/archival/lzop.c:178-183 | every length above the start has bytes that continue to it |
| `LzoEncoding.RunReads` | build_ramdisk/busybox-1.32.1/archival/lzop.c:176-184 | a run of any number of literals from 4 on has a head, and it is read as that run |
| `LzoEncoding.MiddleReads` | build_ramdisk/busybox-1.32.1/archival/lzop.c:294-304 | a match of any length from 3 on at any distance up to 0x4000 has bytes that are read as it |
| `LzoEncoding.FarthestReads` | build_ramdisk/busybox-1.32.1/archival/lzop.c:305-320 | so has one at any distance from 0x4001 to 0xbfff |
| `LzoEncoding.WrittenDecodes` | build_ramdisk/busybox-1.32.1/archival/lzop.c:143-393 | any sequence of literals and copies the format can express, written down, decodes to what it means, up to its end |
| `LzoEncoding.LiteralStream` | build_ramdisk/busybox-1.32.1/archival/lzop.c:143-393 | so any data of 4 bytes or more is the decoding of a stream |
| `FormatTables.BaseIsLargestPrime` | build_ramdisk/busybox-1.32.1/archival/lzop.c:512-518 | the modulus of the checksum is the largest prime below 65536 |
| `Versions.VersionComparePart` | build_ramdisk/busybox-1.32.1/archival/dpkg.c:240-277 | the sign is the lexicographic order of the two parts as lists of non-digit strings (tilde, end, letters, the rest) and numbers of any size; neither string is read behind its terminating NUL |
| `Versions.VersionCompare` | build_ramdisk/busybox-1.32.1/archival/dpkg.c:283-334 | the sign is the order by epoch, upstream version and revision, for every version, unless a number before a colon does not fit an `int` |
| `Versions.OrderTotal` | build_ramdisk/busybox-1.32.1/archival/dpkg.c:283-334 | of two versions either is at most the other, and turning them round turns the sign |
| `Versions.OrderTransitive` | build_ramdisk/busybox-1.32.1/archival/dpkg.c:283-334 | the order carries over, strictly if one step is strict |
| `PackageDb.Database.TestVersion` | build_ramdisk/busybox-1.32.1/archival/dpkg.c:336-354 | each operator asks for the order of two versions that it names |
| `Primes.NoSmallMultiple` | build_ramdisk/busybox-1.32.1/archival/dpkg.c:74-83 | for a prime size no fewer steps than the size come back to the start, whatever the step |
| `Probing.ProbesDiffer` | build_ramdisk/busybox-1.32.1/archival/dpkg.c:195-203 | the probes of one round are all different |
| `Probing.ProbesAll` | build_ramdisk/busybox-1.32.1/archival/dpkg.c:195-203 | the probes of one round come to every slot, from any start and with any step |
| `PackageDb.SizesArePrime` | build_ramdisk/busybox-1.32.1/archival/dpkg.c:88-116 | the sizes of the three tables are primes |
| `NameTables.SearchEnds` | build_ramdisk/busybox-1.32.1/archival/dpkg.c:195-203 | probing ends if the string is there or a slot is free |
| `NameTables.SearchNeverEnds` | build_ramdisk/busybox-1.32.1/archival/dpkg.c:195-203 | and never ends otherwise, so the condition is exact |
| `NameTables.NotPresent` | build_ramdisk/busybox-1.32.1/archival/dpkg.c:195-205 | a search that comes to a free slot has not missed the string |
| `NameTables.NameTable.Search` | build_ramdisk/busybox-1.32.1/archival/dpkg.c:189-206 | the slot of the string; it is added if it is new, and every other string keeps its slot |
| `NameTables.Injective` | build_ramdisk/busybox-1.32.1/archival/dpkg.c:189-206 | no two slots hold the same string, so strings can be compared by number |
| `PackageDb.NoSuchPackage` | build_ramdisk/busybox-1.32.1/archival/dpkg.c:356-377 | a search that comes to a free slot shows that no package at all satisfies the relation |
| `PackageDb.EqualVersions` | build_ramdisk/busybox-1.32.1/archival/dpkg.c:336-377 | versions that are equal in order, though not as strings, are interchangeable in every comparison for equality |
| `PackageDb.PackagePlaced` | build_ramdisk/busybox-1.32.1/archival/dpkg.c:684-687 | replacing a package by one of the same name and an equal version keeps every package where a search finds it |
| `PackageDb.Database.SearchPackage` | build_ramdisk/busybox-1.32.1/archival/dpkg.c:356-377 | the first package along the probes that satisfies the relation, or a free slot and then there is none |
| `PackageDb.Database.AddPackage` | build_ramdisk/busybox-1.32.1/archival/dpkg.c:684-687 | the new package takes the place of one of equal version or a free slot, nothing else changes, and all three tables stay in order |
| `PackageDb.Database.SearchStatus` | build_ramdisk/busybox-1.32.1/archival/dpkg.c:211-227 | the status of the package of that name, or a free slot and then there is none |
| `PackageDb.Database.AddStatus` | build_ramdisk/busybox-1.32.1/archival/dpkg.c:788-790 | the status goes where the search for its package ends, and the tables stay in order |
| `EdgeLayout.OnlyToken` | build_ramdisk/busybox-1.32.1/archival/dpkg.c:445-453 | comparing a field with its first token tells exactly whether it has alternatives; if not, that token is all there is |
| `EdgeLayout.OnePieceEach` | build_ramdisk/busybox-1.32.1/archival/dpkg.c:443-516 | each dependency of a line becomes one edge by itself or one group of alternatives |
| `EdgeLayout.MakeEdge` | build_ramdisk/busybox-1.32.1/archival/dpkg.c:460-505 | name, version and operator of the edge are those the relation says; it fails exactly if there is an operator and it is not one of the seven spellings |
| `EdgeLayout.FlattenAppend` | build_ramdisk/busybox-1.32.1/archival/dpkg.c:429-519 | the edges of several lines, one behind the other, are laid out as their groups one behind the other |
| `EdgeLayout.AddField` | build_ramdisk/busybox-1.32.1/archival/dpkg.c:448-512 | the counter edge counts exactly the alternatives that follow it; a field without alternatives and an operator that is not legal are told apart |
| `EdgeLayout.AddSplitDependencies` | build_ramdisk/busybox-1.32.1/archival/dpkg.c:429-519 | the edges added are those of the line, laid out as groups of a counter edge and its alternatives; otherwise the outcome is that of the first field that is not as it should be |
| `Dependencies.GetStatus` | build_ramdisk/busybox-1.32.1/archival/dpkg.c:692-712 | the number of the asked-for word of the status |
| `Dependencies.PackageSatisfies` | build_ramdisk/busybox-1.32.1/archival/dpkg.c:963-978 | whether the package is installed, for a pre-dependency, or is to be, for a dependency; false without a status |
| `Dependencies.SearchForProvides` | build_ramdisk/busybox-1.32.1/archival/dpkg.c:395-408 | the next package that provides the name, none being passed over |
| `Dependencies.SatisfyEdge` | build_ramdisk/busybox-1.32.1/archival/dpkg.c:1113-1147 | whether the package looked up or any provider satisfies the dependency |
| `Dependencies.LeaveGroup` | build_ramdisk/busybox-1.32.1/archival/dpkg.c:1165-1174 | skipping the alternatives still counted lands exactly behind the group |
| `Dependencies.NextAlternative` | build_ramdisk/busybox-1.32.1/archival/dpkg.c:1150-1151 | the counter comes to 0 exactly at the last alternative of the group, and then none could be satisfied |
| `Dependencies.CheckPackage` | build_ramdisk/busybox-1.32.1/archival/dpkg.c:1096-1176 | passes if and only if every dependency and every group of alternatives has one that is satisfied |
| `Dependencies.CheckDependencies` | build_ramdisk/busybox-1.32.1/archival/dpkg.c:1065-1177 | comes to its end if and only if that holds for every package wanted as "install" |
| `EdgeLayout.OperatorDetermined` | build_ramdisk/busybox-1.32.1/archival/dpkg.c:474-498 | the operator of an edge is determined exactly if its relation has no version or has an operator |
| `EdgeLayout.DoneIff` | build_ramdisk/busybox-1.32.1/archival/dpkg.c:429-519 | the line is split to its end if and only if it has a field, each field has an alternative, and every operator is legal |
| `EdgeLayout.NothingToSplitIff` | build_ramdisk/busybox-1.32.1/archival/dpkg.c:445-453 | there is nothing to split if and only if the line has no field, or the first field that is not as it should be has no alternative |
| `PackageDb.VirtualPlaced` | build_ramdisk/busybox-1.32.1/archival/dpkg.c:1003-1015 | a package put where a search with any operator ends keeps the table in order if and only if none of its name has an equal version |
| `PackageDb.VirtualKept` | build_ramdisk/busybox-1.32.1/archival/dpkg.c:1003-1015 | which is so, whatever the table holds, for every operator that admits equality |
| `VersionPolicy.CharactersOrdered` | build_ramdisk/busybox-1.32.1/archival/dpkg.c:229-237 | at the first difference letters come before all other characters but the tilde, and each kind goes by its codes |
| `VersionPolicy.TildeFirst` | build_ramdisk/busybox-1.32.1/archival/dpkg.c:229-237 | a tilde comes before everything, even the end |
| `VersionPolicy.EndBefore` | build_ramdisk/busybox-1.32.1/archival/dpkg.c:229-237 | the end comes before every other character that is no digit |
| `VersionPolicy.NumbersOrdered` | build_ramdisk/busybox-1.32.1/archival/dpkg.c:252-275 | at the first difference numbers go by their values, whatever zeros are in front |
| `VersionPolicy.NumberAgainstText` | build_ramdisk/busybox-1.32.1/archival/dpkg.c:240-275 | a number against a non-digit counts as the end of the text |
| `VersionPolicy.WholeVersion` | build_ramdisk/busybox-1.32.1/archival/dpkg.c:283-334 | what is before the colon is the epoch, what is behind the last hyphen the revision |
| `VersionPolicy.WithoutEpoch` | build_ramdisk/busybox-1.32.1/archival/dpkg.c:283-334 | without a colon the epoch is 0 |
| `PackageTexts.WordsAre` | build_ramdisk/busybox-1.32.1/archival/dpkg.c:692-712 | the three words of a status are those between its spaces |
| `PackageTexts.SatisfiedText` | build_ramdisk/busybox-1.32.1/archival/dpkg.c:963-978 | a dependency on the package of a status is satisfied if and only if the first word is "install", a pre-dependency if and only if the third is "installed" |
| `PackageTexts.OneDependency` | build_ramdisk/busybox-1.32.1/archival/dpkg.c:1096-1176 | a package with one edge passes if and only if that is satisfied |
| `PackageTexts.NoStatusNotReady` | build_ramdisk/busybox-1.32.1/archival/dpkg.c:963-971 | a package without a status satisfies no dependency |
| `PackageTexts.NameAlone` | build_ramdisk/busybox-1.32.1/archival/dpkg.c:460-505 | a relation without parentheses is its name, with any version, whatever spaces are around it |
| `PackageTexts.RelationIs` | build_ramdisk/busybox-1.32.1/archival/dpkg.c:460-505 | the name, operator and version of "name (op version)", whatever spaces are around them |
| `PackageTexts.OperatorsSpelled` | build_ramdisk/busybox-1.32.1/archival/dpkg.c:474-487 | the spellings of the operators, prefixes included |
| `Expressions.NumberSurvives` | build_ramdisk/busybox-1.32.1/coreutils/expr.c:177-203 | a number turned into a string by `tostring` is read back as the same number by `toarith`, over all 64 bits |
| `ExprEvaluator.CompareValues` | build_ramdisk/busybox-1.32.1/coreutils/expr.c:491-493 | the comparison asked for, of numbers if both are, else of strings in order; the operator codes added up from two characters never collide |
| `ExprEvaluator.ArithmeticCommon` | build_ramdisk/busybox-1.32.1/coreutils/expr.c:247-266 | the exact result, or the error of the first thing that is wrong; a result outside 64 bits is reported as undefined |
| `ExprEvaluator.Evaluator.SubstrValue` | build_ramdisk/busybox-1.32.1/coreutils/expr.c:383-395 | the part of the string from the position on, cut to the length, empty if either is no number or out of range |
| `Expressions.ReadsChain` | build_ramdisk/busybox-1.32.1/coreutils/expr.c:446-468 | reading on the level of an operator reads a chain of such operators from the left and goes on behind it, for every level |
| `Expressions.ReadsTree` | build_ramdisk/busybox-1.32.1/coreutils/expr.c:315-537 | a tree of any level, written as arguments, is read back with its value and exactly its arguments are consumed, whatever follows that cannot continue it |
| `Expressions.ReadsOnly` | build_ramdisk/busybox-1.32.1/coreutils/expr.c:315-537 | whatever is read without an error was a tree of that level, with its value, and nothing behind it continues it |
| `Expressions.ExpressionRead` | build_ramdisk/busybox-1.32.1/coreutils/expr.c:522-537 | evaluating what a tree is written as gives what the tree means, errors included |
| `Expressions.ValueOfTree` | build_ramdisk/busybox-1.32.1/coreutils/expr.c:522-537 | arguments have a value if and only if they are what some tree with that value is written as |
| `Expressions.MinimalRead` | build_ramdisk/busybox-1.32.1/coreutils/expr.c:522-537 | any expression, over any strings, written with parentheses and `quote` only where needed, evaluates to its meaning |
| `Expressions.MinimalIsGood` | build_ramdisk/busybox-1.32.1/coreutils/expr.c:315-337 | that form associates to the left at each level and has parentheses around lower levels only |
| `ExprEvaluator.Evaluator.Eval7` | build_ramdisk/busybox-1.32.1/coreutils/expr.c:317-337 | operands and parentheses are read as the grammar says; the recursion ends |
| `ExprEvaluator.Evaluator.Eval6` | build_ramdisk/busybox-1.32.1/coreutils/expr.c:341-401 | the five keywords and their operands are read as the grammar says |
| `ExprEvaluator.Evaluator.Eval3` | build_ramdisk/busybox-1.32.1/coreutils/expr.c:448-468 | the loop over additions reads as the grammar says; likewise the loops of the other levels |
| `ExprEvaluator.Evaluator.Expr` | build_ramdisk/busybox-1.32.1/coreutils/expr.c:540-559 | succeeds with v if and only if the arguments are what a tree meaning v is written as; the exit status tells null values and errors |
| `Expressions.NullIff` | build_ramdisk/busybox-1.32.1/coreutils/expr.c:167-173 | null are the empty string and zero, except exactly the strings that say zero in another way than "0" |
| `Expressions.ComparedAsText` | build_ramdisk/busybox-1.32.1/coreutils/expr.c:217-243 | unless both sides are numbers a comparison is that of the strings, if each side that is a number is in plain decimal form |
| `ExpressionValues.DivisionIs` | build_ramdisk/busybox-1.32.1/coreutils/expr.c:263-265 | quotient and remainder: a is b times the one plus the other, which is smaller than b and has the sign of a |
| `ExpressionValues.OnlyDivision` | build_ramdisk/busybox-1.32.1/coreutils/expr.c:263-265 | no other pair is like this |
| `ExpressionValues.ArithmeticIs` | build_ramdisk/busybox-1.32.1/coreutils/expr.c:247-266 | the value of each of the five operations on two numbers, or why there is none |
| `ExpressionValues.NotArithmetic` | build_ramdisk/busybox-1.32.1/coreutils/expr.c:247-253 | without two numbers there is none |
| `ExpressionValues.NumberSaid` | build_ramdisk/busybox-1.32.1/coreutils/expr.c:187-203 | white space, a sign and digits are a number, with its decimal value if that fits |
| `ExpressionValues.NumberIsSaid` | build_ramdisk/busybox-1.32.1/coreutils/expr.c:187-203 | and nothing else is |
| `ExpressionValues.WrittenPlain` | build_ramdisk/busybox-1.32.1/coreutils/expr.c:177-185 | a number turned into a string has no leading zero, and a sign only below 0 |
| `ExpressionValues.StringsOrdered` | build_ramdisk/busybox-1.32.1/coreutils/expr.c:223-227 | strings go by the first character in which they differ, and a string comes before a longer one that starts with it |
| `Factor.IsqrtFits` | build_ramdisk/busybox-1.32.1/coreutils/factor.c:45-52 | the root of a 64-bit number is a nonzero 32-bit number, so the odd root is too |
| `Factor.CountersSeen` | build_ramdisk/busybox-1.32.1/coreutils/factor.c:68-77 | each counter has its own field of the word and shows its top bit exactly when it has come to 0, whatever the others are |
| `Factor.WheelStep` | build_ramdisk/busybox-1.32.1/coreutils/factor.c:139-140 | adding one to every field moves all three counters on, without a carry from field to field |
| `Factor.ResetCounters` | build_ramdisk/busybox-1.32.1/coreutils/factor.c:150-159 | the counters that have come to 0 start again, the others are left alone |
| `Factor.WheelSkips` | build_ramdisk/busybox-1.32.1/coreutils/factor.c:140-160 | a candidate passed over is a multiple of 3, 5 or 7 and does not divide what is left |
| `Factor.NextFactor` | build_ramdisk/busybox-1.32.1/coreutils/factor.c:123-161 | the next candidate never exceeds the odd root of what is left and nothing below it divides that; at the end what is left is 1 or a prime |
| `Factor.EndReached` | build_ramdisk/busybox-1.32.1/coreutils/factor.c:124-125 | once the candidate has come to the odd root, what is left is 1 or a prime |
| `Factor.DivideOut` | build_ramdisk/busybox-1.32.1/coreutils/factor.c:118-122 | what is printed are primes in order whose product with what is left is the number |
| `Primes.FactorizationUnique` | build_ramdisk/busybox-1.32.1/coreutils/factor.c:54-166 | no other ascending list of primes has the same product |
| `Factor.Factorize` | build_ramdisk/busybox-1.32.1/coreutils/factor.c:54-166 | for every 64-bit number except 0 the output is its one ascending list of primes; for 0 it is empty |

## Left out

- `BUF_SIZE` of 16 bits, and the debug code (`Assert`, `Trace`, `check_match`): build variants.
- The unaligned 16-bit store in `put_16bit`: its bytes are those of the portable branch; only the 32-bit store is modelled.
- `prev` and `head` share one allocation in the original; they are two arrays here.
- Frequencies, fathers, codes and lengths are unbounded numbers; the sums of frequencies are proved to stay below 65536, codes below 2 to their length, and window positions are kept in 16 bits.
- `opt_len` and `static_len` are integers: forced codes may make them negative between two steps, where the original wraps; where they are read they are proved to be the sizes of bit strings.
- The table behind CRC-32 (`crc32_block_endian0` is not part of this model): the bitwise definition of section 8 of RFC 1952 is used.
- `flush_block` chooses by whole bytes without counting bit alignment: the form it takes is the one with the fewest bytes counted like this, from exact sizes; that no other choice makes the whole output smaller is not claimed.
- `lzo1x_optimize`: its locals are fields of a class, its labels and jumps a state; the counters of rewrites (`o_m1_a` and so on) and the variants other than LZO1X are left out, and the length extension `t` is unbounded.
- `lzo1x_*_compress`, `lzo1x_decompress_safe` and the block and header code of lzop: library code that is not part of this model, and plumbing.
- `version_compare`: a number before a colon that does not fit an `int` has no meaning in C and is excluded; versions without a colon are not restricted.
- `make_hash`: characters are taken as unsigned and shifts as unsigned.
- `check_deps`: the conflict part but for how it adds provided packages (which can leave the package table out of order, see above; the dependency check is proved for tables in order), and which message is printed; that a check fails is modelled, not its text. The bit-field widths of edges and nodes are not modelled.
- `fill_package_struct`, `index_status_file`: how fields are split into names and values, and the freeing of memory; the table updates are modelled.
- `add_split_dependencies`: what happens behind the outcome `NothingToSplit`, which has no meaning in C.
- `MAX_MATCH` bytes behind the window: the original allocates `2 * WSIZE` bytes (`gzip.c:2248`) and no more. `longest_match` is proved for any window longer than `strstart + MAX_MATCH`, so it stays within those if `strstart + MAX_MATCH < 2 * WSIZE`, as it is with `MIN_LOOKAHEAD` bytes ahead (`Deflate.Deflater.LookaheadSuffices`). At the end of the input it may read further, and that it does not is not claimed.
- The tables of dpkg: a lookup that could not end is excluded, by asking that what is looked up is there or has room; that it would not end otherwise is proved.
- `expr`: regular expressions are a parameter, a function from string and pattern to a value or an error; overflow, which C leaves undefined, is an outcome of its own; memory is not modelled.
- `factor`: `isqrt` is a function with its defining bounds, reading of numbers is left out, and a bit of the counter word is read off by division.
- Installing, removing and status files of dpkg, options, archive front ends and the remaining applets of the repository are not modelled.
- Options, file names, the decompression front end and the system calls behind reading and writing: plumbing.
