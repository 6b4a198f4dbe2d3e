# Model and proofs of the codecs the application is built on

The application reads and writes PNG pictures with LodePNG and checks installed
packages with PicoSHA2.  This project models that vendored code, loop by loop and
array by array, and proves what its documentation and the formats promise:

* **Deflate and zlib.**  Bit reader and writer, canonical Huffman codes and the
  two-level decoding table, boundary package-merge with its garbage-collected node
  pool, the hash-chain LZ77 encoder with lazy matching, run-length coding of code
  lengths, all three block types, the inflater and the zlib wrapper.  Inflating what
  was deflated gives the input; the inflater is total on every byte string, and what it
  accepts differs from RFC 1951 in just the ways listed below; the deflater writes only
  what RFC 1951 allows; code lengths, and so the trees of each block, are the cheapest
  possible.
* **PNG scanlines.**  Filters with their unrolled Paeth loops, padding bits and Adam7
  interlacing, with the decoder working in place on overlapping parts of one buffer.
  Encoding and decoding restores every bit.
* **Colour conversion.**  All colour modes, the bulk loops against the pixel by pixel
  definition, the sixteen-way colour tree as a map.  A picture survives a conversion
  exactly if its colours fit the other mode.
* **Adler-32** with deferred reduction, and **streaming SHA-256** on machine words that
  may be wider than 32 bits.

## How it is built

Numbers are unbounded; where the code depends on a width (the 8-bit position of the bit
writer, the 32-bit buffer of the reader, Adler sums, SHA words of any multiple of 32
bits) the wrap-around or mask is written out.  Bit operations are functions on naturals
(`Bits`).  Objects that are updated in place are classes or arrays: the bit reader and
writer, Huffman trees, the node pool, the hash chains, colour trees, byte buffers and
the hasher.  Growing vectors are sequences that the methods reassign.

The deflate format has its own definition, independent of both directions:
`DeflateFormat` says which bits a list of blocks has and which bytes it expands to, as wide
as the program is; `Rfc1951` says which blocks the standard allows, their bits and their
meaning, in its own terms, and `StrictFormat` where the two agree;
`InflateSpec` says what reading any bit stream gives, with the error codes of the
program.  The encoder is proved to write bits of the format, the inflater to compute the
reading, `FormatDecodes` that reading written bits expands them, `FormatAccepted` that
nothing else is accepted, and `Conformance` how both relate to the standard.

Tables, constants and definitions that both sides of a round trip share are compared with
definitions made from the standards: `Rfc1951`, `Rfc1950`, `Rfc2083`, `Fips180`, and
`ColorRules` for the bytes of colours.  Of the program these use only the shapes of tokens,
blocks and colour modes.

Where the C code does something that has no defined result (a division by zero, an access
outside an array), the call ends in `Undefined`, and where a loop never ends, in `Endless`;
a contract says exactly when.

| part | modules |
|---|---|
| bits and buffers | Outcomes, Bits, BitWriter, BitReader, ByteVectors, Buffers, MsbStream |
| codes and trees | CanonicalCode, HuffmanTable, HuffmanTree |
| code lengths | LeafSort, PackageLists, PackageMerge, PackageOptimal, NodePool, SymbolLeaves, CheapestLengths, CodeLengths |
| the format | DeflateFormat, InflateSpec, FormatDecodes, FormatAccepted, OutputLimit, SmallInputs, Rfc1951, StrictFormat, Conformance, KnownAnswers |
| reading deflate | Inflate |
| writing deflate | HashChain, Lz77, RunLength, DeflateBits, BlockTrees, Deflate, DeflateStream, RoundTrip |
| zlib | Primes, PrimeList, Rfc1950, Adler32, Zlib |
| scanlines | Filters, FilterImage, Adam7, Interlace, Scanlines, Rfc2083, FilterConforms, ScanlinesConform |
| colours | ColorModes, ColorTrees, PixelAccess, BulkColors, ColorConvert, ColorRoundTrip, ColorRules, ColorConforms |
| SHA-256 | Sha256Words, Sha256, Fips180, Sha256Conforms, Sha256Constants, Sha256Standard, Sha256Stream |

`dafny verify dfyconfig.toml` checks everything.

## Where code and documentation differ

The model follows the code.

* An empty stored block that ends exactly where the input ends is refused with error 52,
  because the length check wants one byte more (lodepng.cpp:1366).  RFC 1951 allows such
  a stream.  `FormatDecodes.StreamDecodes` states exactly when this happens, and
  `SmallInputs.EmptyStoredBlock` shows one; the encoder never writes one.
* The comment of `searchCodeIndex` says that it returns the array size if no entry is
  small enough; it returns 0 (lodepng.cpp:1450-1464).
* The comment of `color_tree_add` does not allow a colour to exist already, but
  `lodepng_convert` adds all palette entries: of equal ones the last one counts.
* Counting the symbols per length also counts those of length 0; masking the codes
  removes the effect (`HuffmanTree.MaskedNextCode`).
* The test `maxlen < l` for second-level tables (lodepng.cpp:766) can never be true, and
  overlaps inside those tables are not looked for.  `HuffmanTable.AcceptedIsValid` shows
  that oversubscribed sets are refused all the same.
* The end code of a block may lie partly behind the end of the input: the position is
  checked after other symbols only (lodepng.cpp:1333-1344).  The input [3] inflates to
  nothing.  `FormatAccepted.PastTheEnd` says exactly when a stream is accepted that way.
* Five kinds of blocks are read that RFC 1951 does not allow: a header with 287 or 288
  literal and length codes (section 3.2.7 ends at 286; lodepng.cpp:1146), a literal tree
  with the end code only and a single distance code of more than one bit (one symbol is
  let through with any length, lodepng.cpp:776-791), length 258 spelled with code 284 (section
  3.2.5 ends at 257 for it), and, with `ignore_nlen`, stored blocks without the inverted
  length.  `StrictFormat.BlockExactly` shows that there are no others, and `Conformance` has a
  witness for each.  A code for the code lengths of one symbol would be let through as
  well, but no header can use it (`StrictFormat.RunCodeIsFull`).
* Behind a good zlib header the input [3] ends before a checksum, and the four bytes that
  are read as one start before the input (lodepng.cpp:2207).
  `Zlib.ZlibDecompressv` shows that no other input does this.
* The code lengths of a single symbol are two (lodepng.cpp:996-999); `CodeLengths`
  shows that only this case writes outside the lengths.  The encoder never asks for it.
* An empty input has no deflate stream for block types 0 and 1: type 0 writes no block,
  type 1 divides by the block size 0 (lodepng.cpp:2085, 2093).
* A hasher with machine words of 32 bits loses count in pieces of about 2^32 bytes;
  `Sha256Stream.HashOneByOne.Process` says exactly when, `Sha256Stream.NarrowWordsLoseCount`
  has a witness.
* With a buffer of size 0 the hash of a stream never ends (picosha2.h:304-314).
* Errors 64 and 80 (for the encoder's own trees), 81 and 86 cannot occur.

## Model

| member | source | states |
|---|---|---|
| RoundTrip.DeflateThenInflate | External/lodepng-master/lodepng.cpp:2074-2113 | inflating what deflating wrote gives error 0 and exactly the input whenever the encoder makes a stream and the decoder's limit allows the input: every block type, every window size that is a power of two up to 32768, every minmatch, nicematch, lazymatching and use_lz77, over all blocks; 109 exactly above the limit; no stream exactly for the encoder's own errors 61, 60 and 90, for an empty input of type 0 (nothing is written, and reading nothing gives 52) and of type 1 (a division by zero) |
| RoundTrip.CompressedInflates | External/lodepng-master/lodepng.cpp:1388-1411 | every compressed stream is inflated to its data, whatever bytes follow it, or refused with 109 if these are larger than the limit |
| Zlib.ZlibCompressThenDecompress | External/lodepng-master/lodepng.cpp:2255-2290 | the zlib wrapper round trip: header accepted, Adler-32 correct, input restored, error 0, for the same inputs, settings and limits; 109 above the limit, 52 for an empty input of type 0 |
| Scanlines.ScanlinesThereAndBack | External/lodepng-master/lodepng.cpp:5709-5780 | filtering, padding and interlacing an image and undoing it restores all w * h * bpp bits, for every choice of filter types and both interlace methods |
| ColorRoundTrip.ConvertThereAndBack | External/lodepng-master/lodepng.cpp:3524-3596 | RGBA8 to any mode and back: error 82 exactly if a palette lacks a colour of the picture (an empty one lacks every colour), otherwise the picture is restored exactly if every colour fits the mode (for a palette always); the way back gives 107 exactly for a palette that was never allocated, and then there are no pixels |
| Sha256Stream.Hash256 | External/PicoSHA2-master/picosha2.h:298-317 | hashing in pieces of any buffer size from 0 to the largest int gives the digest of the whole message as FIPS 180-4 defines it, constants and bit operations included; it never ends if and only if the buffer has size 0 and there is something to hash |
| Sha256Stream.HashRound | External/PicoSHA2-master/picosha2.h:304-314 | one round of the loop moves on by a piece; with a buffer of size 0, and only then, it moves nowhere and leaves buffer, count and state of the hasher as they are |
| Sha256Stream.Hash256AtOnce | External/PicoSHA2-master/picosha2.h:288-296 | hashing in one piece: the message length is cut to a machine word, and the digest is that of the standard if eight times the cut length is right modulo 2^64 |
| BitWriter.PutBitCorrect | External/lodepng-master/lodepng.cpp:421-430 | one step of the writer appends the lowest bit of its argument to the stream held by the bytes, zeros filling the last byte, if and only if no other bit of the argument gets into the byte; for 0 and 1 always |
| BitWriter.BitWriter.WriteBit | External/lodepng-master/lodepng.cpp:421-430 | the stream grows by the bit, is still well formed exactly under that condition, and bytes from before the writer are untouched, although the 8-bit bit position wraps around |
| BitWriter.BitWriter.WriteBits | External/lodepng-master/lodepng.cpp:432-442 | appends the low bits of the value, least significant first; the one-bit path does not mask, which spoils the stream exactly if other bits of the value get into the byte |
| BitWriter.BitWriter.WriteBitsReversed | External/lodepng-master/lodepng.cpp:445-451 | appends the bits most significant first |
| BitReader.LoadBytesValue | External/lodepng-master/lodepng.cpp:494-526 | or-ing shifted bytes gives the number that the bits of the stream stand for |
| BitReader.Window32Correct | External/lodepng-master/lodepng.cpp:547-565 | the fifth byte fills the gap at the top of the 32-bit word, so the buffer holds the next 32 stream bits |
| BitReader.BitReader.EnsureBits9 | External/lodepng-master/lodepng.cpp:494-507 | at least 9 bits of the zero-padded stream are buffered on the fast and on the slow path; the result says whether nbits are left |
| BitReader.BitReader.EnsureBits17 | External/lodepng-master/lodepng.cpp:510-525 | the same for 17 bits |
| BitReader.BitReader.EnsureBits25 | External/lodepng-master/lodepng.cpp:528-544 | the same for 25 bits |
| BitReader.BitReader.EnsureBits32 | External/lodepng-master/lodepng.cpp:547-565 | the same for 32 bits, at every bit position |
| BitReader.BitReader.PeekBits | External/lodepng-master/lodepng.cpp:568-571 | the value of the next bits, zeros past the end |
| BitReader.BitReader.ReadBits | External/lodepng-master/lodepng.cpp:580-584 | reads the field that writing with the same width put there, and moves on by its width |
| CanonicalCode.PrefixFree | External/lodepng-master/lodepng.cpp:690-803 | in an allowed tree at most one symbol's code comes next |
| CanonicalCode.SomeMatch | External/lodepng-master/lodepng.cpp:792-800 | in a complete tree some symbol's code comes next, whatever the bits |
| CanonicalCode.KraftIsSum | External/lodepng-master/lodepng.cpp:792-800 | the slices of all codes together are the Kraft sum of the lengths |
| CanonicalCode.UnderSubscribed | External/lodepng-master/lodepng.cpp:792-800 | an incomplete set of lengths leaves some bits without a symbol |
| CanonicalCode.OverSubscribed | External/lodepng-master/lodepng.cpp:745-773 | with up to 288 symbols an oversubscribed set always has a short code that another code starts with, so the missing overlap check in second-level tables does no harm |
| HuffmanTable.ConflictForbidden | External/lodepng-master/lodepng.cpp:745-755 | a head table entry that is already taken means the lengths are not an allowed tree |
| HuffmanTable.HoleForbidden | External/lodepng-master/lodepng.cpp:792-800 | an entry left unused means the lengths are not complete |
| HuffmanTable.AcceptedIsValid | External/lodepng-master/lodepng.cpp:735-800 | a table filled without conflict and without hole comes from an allowed tree |
| HuffmanTable.SymbolAtUnique | External/lodepng-master/lodepng.cpp:1098-1112 | in an allowed tree, decoding at a code gives its symbol |
| HuffmanTable.LookupShort | External/lodepng-master/lodepng.cpp:1098-1104 | a head entry of up to 9 bits decodes to the symbol whose code comes next, and its length is that of the code |
| HuffmanTable.LookupLong | External/lodepng-master/lodepng.cpp:1105-1111 | so does the entry of the second-level table, which is inside the table |
| HuffmanTree.ReverseBits | External/lodepng-master/lodepng.cpp:607-611 | the value whose least-significant-first bits are the code's bits most significant first |
| HuffmanTree.CountLengths | External/lodepng-master/lodepng.cpp:823-824 | how many symbols have each length |
| HuffmanTree.ComputeCodes | External/lodepng-master/lodepng.cpp:823-836 | the codes of RFC 1951 section 3.2.2 for every symbol that occurs, although symbols of length 0 are counted too |
| HuffmanTree.MaskedNextCode | External/lodepng-master/lodepng.cpp:832-834 | masking to the code's length removes what the counted zero lengths added |
| HuffmanTree.FillEntries | External/lodepng-master/lodepng.cpp:745-773 | fills exactly the entries that end in the code's bits, and fails exactly if one is taken and that is checked |
| HuffmanTree.HuffmanTree.MakeTable | External/lodepng-master/lodepng.cpp:690-803 | error 55 exactly if neither at most one symbol occurs nor the Kraft sum is 1; otherwise a table that decodes every stream |
| HuffmanTree.HuffmanTree.MakeFromLengths2 | External/lodepng-master/lodepng.cpp:810-844 | the same from lengths alone: accepted if and only if at most one symbol is present or the Kraft sum is exactly 1 |
| HuffmanTree.HuffmanTree.MakeFromLengths | External/lodepng-master/lodepng.cpp:851-860 | the same for lengths given by the caller, which are copied |
| HuffmanTree.HuffmanTree.DecodeSymbol | External/lodepng-master/lodepng.cpp:1098-1112 | with 15 bits ensured, the symbol whose code is next in the stream, through both table levels; moves by exactly its length and never more than was ensured |
| PackageLists.MergeIsLightest | External/lodepng-master/lodepng.cpp:942-965 | merging by weight is optimal: no other choice of as many leaves and packages weighs less than a prefix of the merged list |
| PackageLists.SumOfMerge | External/lodepng-master/lodepng.cpp:942-965 | a prefix of a merged list weighs what its leaves and its packages weigh |
| PackageLists.ListAscends | External/lodepng-master/lodepng.cpp:942-965 | every list of package-merge ascends |
| PackageMerge.PackageIsReal | External/lodepng-master/lodepng.cpp:950-957 | a package whose items do not exist any more is never taken while a leaf is left, so running past the exhausted first list is harmless |
| PackageMerge.LeafPrefix | External/lodepng-master/lodepng.cpp:953-955 | taking a leaf turns the chain for r items of a list into the one for r + 1 items |
| PackageMerge.PackagePrefix | External/lodepng-master/lodepng.cpp:957 | taking a package does so too |
| PackageMerge.StepInv | External/lodepng-master/lodepng.cpp:942-965 | one step, with its two recursive calls, asks for one more item of its list and keeps all lists below in order |
| PackageMerge.FinalChainCounted | External/lodepng-master/lodepng.cpp:1019-1028 | after 2n - 2 items the last chain stands for exactly the first 2n - 2 items of the last list, provided n <= 2^maxbitlen |
| PackageMerge.SpreadOfChain | External/lodepng-master/lodepng.cpp:1030-1032 | the counting argument: the lengths a chain of k items gives spread to k half widths |
| PackageMerge.ChainIsComplete | External/lodepng-master/lodepng.cpp:1030-1032 | the lengths of that chain have Kraft sum exactly 1 and give every leaf a code |
| PackageOptimal.CostOfChain | External/lodepng-master/lodepng.cpp:942-965 | the bits a chain costs are the weight of the items it stands for |
| PackageOptimal.LevelsWeigh | External/lodepng-master/lodepng.cpp:942-965 | any lengths, cut into levels, cost at least the lightest items of the lists |
| PackageOptimal.EnoughChosen | External/lodepng-master/lodepng.cpp:1027-1028 | lengths with a Kraft sum of at most 1 choose at least 2n - 2 items of the last list |
| PackageOptimal.FinalChainIsCheapest | External/lodepng-master/lodepng.cpp:942-1032 | no lengths of at most L bits with a Kraft sum of at most 1 cost less than those of the final chain |
| CheapestLengths.ChainIsCheapest | External/lodepng-master/lodepng.cpp:1000-1032 | the same for the symbols, through the sorted leaves |
| SymbolLeaves.ChainGivesGoodLengths | External/lodepng-master/lodepng.cpp:1030-1032 | complete code within the limit, every symbol that occurs has a code, a more frequent one never a longer code |
| SymbolLeaves.AssignKraft | External/lodepng-master/lodepng.cpp:1030-1032 | the Kraft sum of the symbols' lengths is that of the leaves' lengths, at any scale |
| SymbolLeaves.SpaceFits | External/lodepng-master/lodepng.cpp:1030-1032 | lengths make a code, or a complete one, within any limit that they keep to exactly if they do so within 15 bits |
| SymbolLeaves.SortedIsArranged | External/lodepng-master/lodepng.cpp:980-1004 | sorting the collected leaves lists every symbol that occurs exactly once, by weight |
| CodeLengths.SpellLengths | External/lodepng-master/lodepng.cpp:1030-1032 | walking the last chain through the node pool adds up exactly the lengths of its leaves |
| CodeLengths.CodeLengths | External/lodepng-master/lodepng.cpp:967-1043 | undefined exactly for a single symbol (a write behind the lengths) or a limit of 32 or more (a shift of a 32-bit word); error 80 exactly if there are no symbols or more than 2^maxbitlen; otherwise good lengths of minimal total cost, also when fewer than two symbols occur |
| CodeLengths.OtherOutside | External/lodepng-master/lodepng.cpp:996-999 | with at most one symbol that occurs, the second symbol that gets a code of one bit lies behind the lengths if and only if there is one symbol in all |
| CodeLengths.SingleSymbolOutside | External/lodepng-master/lodepng.cpp:996-999 | for the frequencies [1] it is symbol 1 |
| CodeLengths.MakeFromFrequencies | External/lodepng-master/lodepng.cpp:1046-1058 | trims absent symbols from the end and makes an accepted tree with such lengths; error 55 cannot occur |
| LeafSort.Merge | External/lodepng-master/lodepng.cpp:926-934 | merging two neighbouring runs is stable: sorted by weight and then symbol, same leaves, nothing else changed |
| LeafSort.BpmnodeSort | External/lodepng-master/lodepng.cpp:919-939 | the bottom-up merge sort leaves a sorted permutation in the original array, whichever buffer came last |
| NodePool.ChainUnchanged | External/lodepng-master/lodepng.cpp:890-916 | a chain whose own nodes are unchanged keeps its weights, indices and tails |
| NodePool.AllReachSize | External/lodepng-master/lodepng.cpp:1006-1007 | at most L * (L + 1) nodes are reachable, half of the pool |
| NodePool.BPMLists.MarkAll | External/lodepng-master/lodepng.cpp:896-902 | marks exactly the nodes reachable from the two chains of every list |
| NodePool.BPMLists.Collect | External/lodepng-master/lodepng.cpp:894-909 | after a collection the free list is not empty, holds only nodes that no chain reaches, and all chains are as before |
| NodePool.BPMLists.Create | External/lodepng-master/lodepng.cpp:890-916 | the new node is one that no live chain reaches, holds the weight and index in front of the tail, and leaves all chains as they are, although its tail is passed in before the collection |
| NodePool.BPMLists.BoundaryPM | External/lodepng-master/lodepng.cpp:942-965 | the in-place step with the pool does what the step on chains does |
| Inflate.CopyMatch | External/lodepng-master/lodepng.cpp:1317-1332 | the two-part copy, block first and then byte by byte from where the block was taken, gives the overlapping copy of the format |
| Inflate.ReadClLengths | External/lodepng-master/lodepng.cpp:1157-1168 | the code length code lengths in the order of RFC 1951 section 3.2.7 (by `StrictFormat.OrderIs`), zeros for those not sent |
| StrictFormat.OrderIs | External/lodepng-master/lodepng.cpp:649-650 | the order of the table: 16, 17, 18, 0, then 8 + k at place 4 + 2k and 8 - k at place 3 + 2k |
| Inflate.StoreRun | External/lodepng-master/lodepng.cpp:1201-1230 | a repeat that runs over the end of the two tables is refused; one that crosses from literal to distance lengths is split between them |
| Inflate.GetTreeInflateDynamic | External/lodepng-master/lodepng.cpp:1130-1260 | both trees of a dynamic block or the error code that the format reading gives, on every input |
| Inflate.InflateHuffmanBlock | External/lodepng-master/lodepng.cpp:1263-1354 | output, position and error code of a compressed block, on every input; never copies from before the start of the output |
| Inflate.InflateNoCompression | External/lodepng-master/lodepng.cpp:1356-1386 | the same for a stored block |
| Inflate.Inflatev | External/lodepng-master/lodepng.cpp:1388-1411 | total on every byte string: ends, reads only inside the input and the tables, and gives the output or the error of the format reading |
| FormatDecodes.TokenHere | External/lodepng-master/lodepng.cpp:1275-1316 | a written token is read back |
| FormatDecodes.TokensHere | External/lodepng-master/lodepng.cpp:1275-1348 | the written tokens of a block are read back and expanded, up to the end code |
| FormatDecodes.RunsHere | External/lodepng-master/lodepng.cpp:1180-1241 | written length runs are read back |
| FormatDecodes.HeaderHere | External/lodepng-master/lodepng.cpp:1130-1260 | a written dynamic header is read back as its two trees, each filled up with zeros |
| FormatDecodes.FixedTreesValid | External/lodepng-master/lodepng.cpp:1062-1095 | both fixed trees are complete |
| FormatDecodes.StoredHere | External/lodepng-master/lodepng.cpp:1356-1386 | a stored block is read back, except an empty one that ends where the input ends, which is refused with error 52 |
| FormatDecodes.BlockHere | External/lodepng-master/lodepng.cpp:1397-1408 | the same for every kind of block |
| FormatDecodes.StreamDecodes | External/lodepng-master/lodepng.cpp:1388-1411 | a written stream is inflated to what its blocks expand to, even if the end of the input cuts off zeros of its last end code, and refused exactly if it ends in an empty stored block with no byte behind it |
| FormatAccepted.TokenAccepted | External/lodepng-master/lodepng.cpp:1275-1316 | a token that is read is valid, has codes in both trees, and the bits it was read from are its bits: the converse of TokenHere |
| FormatAccepted.TokensAccepted | External/lodepng-master/lodepng.cpp:1275-1348 | decoding up to the end code succeeds only on the bits of a list of tokens, which stands for what was decoded |
| FormatAccepted.RunsAccepted | External/lodepng-master/lodepng.cpp:1180-1241 | code lengths are read only from the bits of runs that expand to them |
| FormatAccepted.HeaderAccepted | External/lodepng-master/lodepng.cpp:1130-1260 | trees are accepted only from the bits of a valid dynamic header that has them |
| FormatAccepted.StoredAccepted | External/lodepng-master/lodepng.cpp:1356-1386 | a stored block is accepted only from its own bits, whatever fills up the byte before its length, with the inverted length behind it unless that is ignored, and not if it is empty and ends the input |
| FormatAccepted.StreamAccepted | External/lodepng-master/lodepng.cpp:1388-1411 | what inflates was read from the bits of a valid stream, final bit on the last block only, that expands to the output |
| FormatAccepted.InflatesExactly | External/lodepng-master/lodepng.cpp:1388-1411 | the inflater succeeds with a position and an output if and only if the bits are those of a stream of the format as modelled, up to that position, that expands to that output, is within the limit, has inverted lengths unless they are ignored, and does not end in an empty stored block at the end of the input |
| FormatAccepted.LimitOnlyRefuses | External/lodepng-master/lodepng.cpp:1388-1411 | a limit on the output refuses larger outputs and changes nothing else |
| OutputLimit.LimitCutsOff | External/lodepng-master/lodepng.cpp:1388-1411 | what comes out without a limit comes out within one, or is refused with 109 exactly if it is too large; a stream with an error gives that error, or 109 |
| FormatAccepted.PastTheEnd | External/lodepng-master/lodepng.cpp:1333-1348 | the bits of an accepted stream are those of the input continued with zeros, and they go past its end if and only if the last block is a Huffman block whose end code is cut off by the end and lacks only zeros |
| SmallInputs.OneByteInflates | External/lodepng-master/lodepng.cpp:1388-1411 | of all inputs of one byte just the byte 3 inflates, to nothing and up to bit 10 of 8 |
| SmallInputs.EndCodePastTheEnd | External/lodepng-master/lodepng.cpp:1333-1348 | the witness: inflating [3] succeeds at bit 10 |
| SmallInputs.EmptyStoredBlock | External/lodepng-master/lodepng.cpp:1356-1386 | the final empty stored block [1, 0, 0, 255, 255] is refused with 52, and accepted with any byte behind it |
| StrictFormat.FullTreeExactly | External/lodepng-master/lodepng.cpp:792-800 | a code fills a tree, with just one code for whatever comes, as section 3.2.1 of RFC 1951 describes it, if and only if its Kraft sum is 1 |
| StrictFormat.AllRfcExactly | External/lodepng-master/lodepng.cpp:1275-1316 | tokens keep to the ranges of lengths and distances that section 3.2.5 lists for the codes if and only if they are those of the program and none is code 284 with extra bits 31 |
| StrictFormat.RunCodeIsFull | External/lodepng-master/lodepng.cpp:1170-1241 | the code for the code lengths of an accepted header always fills its tree, although a single code would pass the check: all lengths would be the same then, and no tree has between 257 and 288 such codes |
| StrictFormat.CodeOfIs | External/lodepng-master/lodepng.cpp:810-844 | the code of each symbol is the one that RFC 1951 section 3.2.2 gives it: shorter codes and smaller symbols come first |
| StrictFormat.BlockExactly | External/lodepng-master/lodepng.cpp:1130-1411 | with the order of code lengths, fixed codes, ranges and bit fields as RFC 1951 words them: a block has these bits there if and only if it is a block of the program with the same bits, at most 286 literal and length codes, some code besides that of the end, no single distance code of more than one bit, no code 284 for length 258, and an inverted stored length |
| StrictFormat.StreamExactly | External/lodepng-master/lodepng.cpp:1388-1411 | the same for streams: final bit on the last block only, types in two bits |
| StrictFormat.StreamMeansExpand | External/lodepng-master/lodepng.cpp:1317-1332 | a stream means, byte for byte as section 3.2.3 describes repeating, exactly what it expands to |
| Conformance.AcceptedExactly | External/lodepng-master/lodepng.cpp:1388-1411 | what is accepted means the output that is given, and the bits that were read, with zeros behind the input, are those of a stream of RFC 1951 if and only if its blocks are like that |
| Conformance.StandardIsRead | External/lodepng-master/lodepng.cpp:1388-1411 | every stream of RFC 1951, at any bit of any input, is read to its end and gives what it means, whatever the settings; only an output above the limit is not covered, and an empty stored block at the end of the input gives 52 |
| Conformance.CutOffIsRead | External/lodepng-master/lodepng.cpp:1333-1348 | the same if the input ends inside the last end code |
| Conformance.CompressedIsStandard | External/lodepng-master/lodepng.cpp:2074-2113 | everything the compressor writes is a stream of RFC 1951 that means the input, filled up with zeros to a byte |
| KnownAnswers.FixedCodesAre | External/lodepng-master/lodepng.cpp:1062-1078 | the fixed literal and length codes are those listed in section 3.2.6, number by number |
| KnownAnswers.LettersAre | External/lodepng-master/lodepng.cpp:810-844 | the lengths 3, 3, 3, 3, 3, 2, 4, 4 get the codes of the example in section 3.2.2 |
| KnownAnswers.StoredByteIsRead | External/lodepng-master/lodepng.cpp:1356-1386 | the bytes 1, 1, 0, 254, 255, 65 inflate to the byte 65 |
| KnownAnswers.TenLettersAreRead | External/lodepng-master/lodepng.cpp:1263-1354 | the bytes 75, 132, 3, 0, a fixed block with a literal and a match, inflate to ten times 97, up to bit 30 |
| Conformance.OddLengthIsRead | External/lodepng-master/lodepng.cpp:1287-1292 | a witness: some input is read as a match of length 258 spelled with code 284 |
| Conformance.LongCodesAreRead | External/lodepng-master/lodepng.cpp:1146 | a witness: some input is read as a block with 287 literal and length codes |
| Conformance.EndAloneIsRead | External/lodepng-master/lodepng.cpp:776-791 | a witness: some input is read as a block whose literal tree has the end code only |
| Conformance.LoneDistanceIsRead | External/lodepng-master/lodepng.cpp:776-791 | a witness: some input is read as a block with a single distance code of two bits |
| Conformance.WrongCheckIsRead | External/lodepng-master/lodepng.cpp:1370-1373 | a witness: with ignore_nlen some input is read as a stored block whose length is not repeated inverted |
| DeflateFormat.ExpandAppend | External/lodepng-master/lodepng.cpp:1317-1332 | expanding one more token applies it to what was expanded before |
| HashChain.CountZeros | External/lodepng-master/lodepng.cpp:1563-1572 | the exact run of zeros, up to 258 and the end of the data |
| HashChain.NextZeros | External/lodepng-master/lodepng.cpp:1626-1631 | the count carried on from the previous position never exceeds the true run of zeros |
| HashChain.SlotByMask | External/lodepng-master/lodepng.cpp:1621 | masking with a power of two minus one gives the slot in the circular buffers |
| HashChain.OffsetIsLatest | External/lodepng-master/lodepng.cpp:1647 | the distance computed from two slots leads to the latest position written to the slot, and not before the start of the data |
| HashChain.StreaksNext | External/lodepng-master/lodepng.cpp:1574-1582 | entering a position keeps every slot's zeros within the run at its latest position, also when the position is entered twice |
| HashChain.Hash.Update | External/lodepng-master/lodepng.cpp:1574-1582 | what each of the six arrays holds afterwards, and that all buffers stay valid |
| HashChain.Hash.Forget | External/lodepng-master/lodepng.cpp:1705-1709 | what the rewind of a lazy match resets, and that all buffers stay valid |
| Lz77.StreakFact | External/lodepng-master/lodepng.cpp:1656-1662 | the bytes skipped without comparing are zeros at both places |
| Lz77.CopyRepeats | External/lodepng-master/lodepng.cpp:1317-1332 | copying back from where the data repeats gives the data, also when the copy overlaps itself |
| Lz77.MatchLength | External/lodepng-master/lodepng.cpp:1651-1668 | the length found is exactly how far the data agree, although zeros are skipped |
| Lz77.LongestMatch | External/lodepng-master/lodepng.cpp:1635-1689 | the match lies in the window and in the data; it is a longest one among the chain entries looked at, and the search stops only for one of the reasons the code has |
| Lz77.SearchCodeIndex | External/lodepng-master/lodepng.cpp:1450-1464 | the last entry that does not exceed the value, 0 if all do |
| Lz77.LengthDistance | External/lodepng-master/lodepng.cpp:1466-1487 | codes and extra bits that stand for exactly this length and distance |
| Lz77.Emit | External/lodepng-master/lodepng.cpp:1713-1736 | the tokens go on to expand to the data, as a pair or as a literal where a match is too short or too far |
| Lz77.EncodeLZ77 | External/lodepng-master/lodepng.cpp:1593-1740 | the tokens expand to exactly data[inpos..insize] behind data[..inpos], through lazy matching and the step back; matches respect minmatch and the window; errors only 60 and 90, so 81 and 86 never occur, and the loop ends |
| RunLength.RunLengthEncode | External/lodepng-master/lodepng.cpp:1905-1942 | the written runs expand to exactly the lengths given, across the literal and distance boundary, and need no more room than the lengths |
| RunLength.CountRunSymbols | External/lodepng-master/lodepng.cpp:1944-1950 | the frequencies of the run symbols, skipping the repeat counts |
| DeflateBits.PadKeepsCode | External/lodepng-master/lodepng.cpp:1173-1178 | filling a tree up with zero lengths changes no code |
| DeflateBits.PadKeepsKraft | External/lodepng-master/lodepng.cpp:1173-1178 | nor the Kraft sum |
| DeflateBits.CloseStream | External/lodepng-master/lodepng.cpp:2099-2107 | the last block with its final bit completes the stream |
| BlockTrees.CountSymbols | External/lodepng-master/lodepng.cpp:1876-1886 | the frequencies of all literal, length and distance symbols of the tokens |
| BlockTrees.TokenAtFacts | External/lodepng-master/lodepng.cpp:1782-1804 | four numbers per match and one per literal are read back in step with the tokens |
| BlockTrees.MakeBlockTrees | External/lodepng-master/lodepng.cpp:1888-1896 | both trees are complete, have a code for every symbol of the block and for its end, and no other code of at most 15 bits spends fewer bits on these symbols |
| BlockTrees.BlockSize | External/lodepng-master/lodepng.cpp:1782-1804 | the bits of a block's tokens and end code are the lengths of the codes of its symbols and the extra bits |
| BlockTrees.CheapestForBoth | External/lodepng-master/lodepng.cpp:1806-1810 | trees that are cheapest for the symbols of both alphabets write the tokens in no more bits than any other trees of deflate |
| Deflate.HeaderOfTrees | External/lodepng-master/lodepng.cpp:1956-2002 | a header with these trees is one the inflater accepts, and it gives the trees back |
| Deflate.WriteLZ77Data | External/lodepng-master/lodepng.cpp:1782-1804 | writes exactly the bits of the tokens |
| Deflate.WriteHeader | External/lodepng-master/lodepng.cpp:1982-2002 | writes exactly the bits of the header, which are those of RFC 1951 (by `StrictFormat.HeaderBitsAre`) |
| StrictFormat.HeaderBitsAre | External/lodepng-master/lodepng.cpp:1982-2002 | three counts, the code length code lengths in the order of the standard, and the runs: the header's bits as section 3.2.7 lists them |
| Deflate.WindowErrorExactly | External/lodepng-master/lodepng.cpp:1615-1616 | the window sizes without error are the powers of two from 1 to 32768; error 60 exactly for 0 and above 32768, else 90 |
| Deflate.DeflateDynamic | External/lodepng-master/lodepng.cpp:1807-2027 | writes a block with its own trees that expands to data[datapos..dataend], is one of RFC 1951, and whose tokens no other trees write in fewer bits; errors only 60 and 90 |
| Deflate.DeflateFixed | External/lodepng-master/lodepng.cpp:2029-2072 | the same for a block with the fixed trees, with or without LZ77 |
| DeflateStream.DeflateNoCompression | External/lodepng-master/lodepng.cpp:1744-1775 | stored blocks of 65535 bytes each, the last one taking the rest, that expand to the data; nothing for empty data |
| DeflateStream.WriteBlocks | External/lodepng-master/lodepng.cpp:2093-2107 | all blocks in order, each of the type asked for, with its own part of the data and with optimal trees, only the last one final, expand to the data |
| DeflateStream.Deflatev | External/lodepng-master/lodepng.cpp:2074-2113 | appends a stream that expands to the input, in blocks of the type asked for that each cover one block size of it; error 61 for a block type above 2, else 60 and 90 for the window size, and a division by zero exactly for an empty input of type 1 |
| Adler32.NoOverflow | External/lodepng-master/lodepng.cpp:2149-2155 | neither sum exceeds 2^32 - 1 within a run of 5552 bytes |
| Adler32.ByByteIsAdler | External/lodepng-master/lodepng.cpp:2143-2161 | reducing at the end is reducing after every byte, as RFC 1950 section 8.2 defines it |
| Adler32.AdlerConcat | External/lodepng-master/lodepng.cpp:2143-2161 | updating over a concatenation is updating twice |
| Adler32.AddRun | External/lodepng-master/lodepng.cpp:2152-2155 | 32-bit additions give the unreduced sums of a run |
| Adler32.UpdateAdler32 | External/lodepng-master/lodepng.cpp:2143-2161 | continues the checksum with the deferred reduction; from 1 on the result is the checksum of RFC 1950 section 8.2 |
| Adler32.BaseConforms | External/lodepng-master/lodepng.cpp:2156-2157 | 65521 is the largest prime below 65536: it is prime and no number in between is |
| Adler32.AdlerConforms | External/lodepng-master/lodepng.cpp:2143-2166 | the checksum in closed form: one plus the sum of the bytes below, and above the number of bytes plus each byte times the bytes from it on, both modulo the largest prime below 65536 |
| Adler32.KnownChecksum | External/lodepng-master/lodepng.cpp:2143-2166 | the checksum of the letters abc is 0x024d0127 |
| Zlib.HeaderFields | External/lodepng-master/lodepng.cpp:2187-2190 | the shifts and masks are the header fields |
| Zlib.HeaderExactly | External/lodepng-master/lodepng.cpp:2180-2202 | the two bytes pass if and only if they are 16 * window + 8 and 64 * level + check, without dictionary bit, and a multiple of 31 together, as RFC 1950 section 2.2 has it |
| Zlib.Read32Conforms | External/lodepng-master/lodepng.cpp:322-325 | the number in four bytes, the highest one first |
| Zlib.ZlibConforms | External/lodepng-master/lodepng.cpp:2255-2290 | what is written has a header of RFC 1950, a stream of RFC 1951 that means the input, and the checksum of the input in four bytes, highest first |
| Zlib.ZlibDecompressv | External/lodepng-master/lodepng.cpp:2174-2213 | error code for every header, every deflate error and every checksum, output otherwise; the checksum is read before the input if and only if the input is a good header and the byte 3, checksums count and the limit allows what is there already |
| Zlib.ChecksumBeforeInput | External/lodepng-master/lodepng.cpp:2206-2209 | the witness: [0x78, 0x01, 0x03] |
| Zlib.ZlibCompress | External/lodepng-master/lodepng.cpp:2255-2290 | the header 0x78, 0x01, the deflate stream and the big-endian checksum of the input; header and checksum 1 alone for an empty input of type 0 |
| Zlib.ZlibStreamInflates | External/lodepng-master/lodepng.cpp:2203-2209 | such a stream has a good header, inflates to the data or is refused with 109 above the limit, and ends in its checksum |
| Filters.PaethAgrees | External/lodepng-master/lodepng.cpp:3974-3981 | the predictor equals the definition of RFC 2083 section 6.6 |
| Filters.ReconFilter | External/lodepng-master/lodepng.cpp:4101-4196 | undoing a filtered line, byte after byte, gives the line back for each filter type, with or without a line above |
| Filters.PaethFour | External/lodepng-master/lodepng.cpp:4143-4156 | the loop that handles four bytes at a time gives the same bytes as the simple one |
| FilterConforms.PredictConforms | External/lodepng-master/lodepng.cpp:4101-4196 | the prediction of each filter type as RFC 2083 section 6 has it: nothing, left, above, the p with 2p <= left + above <= 2p + 1, and the nearest of the three to left + above - above left |
| FilterConforms.FilterLineConforms | External/lodepng-master/lodepng.cpp:5379-5421 | what filtering takes from every byte of a line, modulo 256, is that prediction from its neighbours |
| FilterConforms.ReconConforms | External/lodepng-master/lodepng.cpp:4101-4196 | what undoing a filter adds to every byte is that prediction from the bytes it gives |
| FilterConforms.OnlyRecon | External/lodepng-master/lodepng.cpp:4101-4196 | the standard leaves no choice: a line that a filtered line stands for is the one that is reconstructed |
| Filters.UnfilterScanline | External/lodepng-master/lodepng.cpp:4101-4196 | reconstructs one line (`FilterConforms.ReconConforms` says which), also in place or when both lie in one buffer; error 36 above type 4, and then nothing has changed |
| Filters.FilterScanline | External/lodepng-master/lodepng.cpp:5379-5421 | filters one line (`FilterConforms.FilterLineConforms` says how); nothing changes above type 4 |
| Filters.UnfilterFilter | External/lodepng-master/lodepng.cpp:4198-4226 | reconstructing the filtered rows of an image gives the image |
| FilterConforms.FilterConforms | External/lodepng-master/lodepng.cpp:5444-5490 | the filtered rows of an image are lines with their types in front that stand for its lines, each with the line above as neighbour, none above the first |
| FilterConforms.UnfilterConforms | External/lodepng-master/lodepng.cpp:4198-4226 | the rows that are reconstructed are those that the data stand for |
| FilterImage.RawSizeIsLines | External/lodepng-master/lodepng.cpp:2808-2814 | the size computed without overflow of w * bpp is that of the lines with their filter bytes |
| FilterImage.Unfilter | External/lodepng-master/lodepng.cpp:4198-4226 | reconstructs all rows, also when output and input start at the same address or the output lies before the input; error 36 exactly if some row has a filter type above 4 |
| FilterImage.Filter | External/lodepng-master/lodepng.cpp:5444-5490 | writes filter bytes and filtered rows for given filter types; a line with a type above 4 gets its filter byte and keeps what was in its place |
| MsbStream.StreamUpdate | External/lodepng-master/lodepng.cpp:2455-2460 | setting or clearing one bit by masking changes that bit of the buffer only |
| MsbStream.RemovePaddingBits | External/lodepng-master/lodepng.cpp:4279-4301 | moves the used bits of each line together, also within one buffer |
| MsbStream.AddPaddingBits | External/lodepng-master/lodepng.cpp:5638-5655 | fills every line up with zero bits |
| MsbStream.UnpaddedPadded | External/lodepng-master/lodepng.cpp:5638-5655 | removing the padding undoes adding it |
| Adam7.PixelInPass | External/lodepng-master/lodepng.cpp:4005-4016 | every pixel of an image lies in its pass at its place |
| Adam7.PassPixel | External/lodepng-master/lodepng.cpp:4005-4016 | every place of a pass is a pixel of the image that belongs to no other place: the passes partition the pixels |
| Adam7.StartsOrdered | External/lodepng-master/lodepng.cpp:4018-4027 | packed starts never lie behind padded ones, nor those behind filtered ones, so data move down only |
| Adam7.ExpectedIsActual | External/lodepng-master/lodepng.cpp:4918-4932 | the decoder's expected size is where the seventh pass ends |
| Interlace.Adam7Interlace | External/lodepng-master/lodepng.cpp:5668-5705 | every pixel's bits get to its place in its pass, by bytes and by bits |
| Interlace.Adam7Deinterlace | External/lodepng-master/lodepng.cpp:4239-4277 | and back |
| Scanlines.PreProcessScanlines | External/lodepng-master/lodepng.cpp:5709-5780 | the filtered data stand for the image, and each line has the filter type given for it |
| Scanlines.UnpackPass | External/lodepng-master/lodepng.cpp:4332-4341 | undoing one pass in place destroys neither the passes undone before nor those still to come |
| Scanlines.PostProcessScanlines | External/lodepng-master/lodepng.cpp:4306-4347 | error 31 for 0 bits per pixel, 36 exactly if a filter type is above 4, else the pixels that the data stand for, in place |
| Scanlines.ScanlinesDecode | External/lodepng-master/lodepng.cpp:4306-4347 | data that stand for an image are decoded to that image, without error |
| ScanlinesConform.PassConforms | External/lodepng-master/lodepng.cpp:3985-3988 | the pass of each pixel is the one in the 8 by 8 table of RFC 2083 section 2.6 |
| ScanlinesConform.PlaceConforms | External/lodepng-master/lodepng.cpp:4005-4016 | a pixel's place in its pass is the number of columns to the left, and of rows above, that the pass has |
| ScanlinesConform.SizesConform | External/lodepng-master/lodepng.cpp:4005-4016 | the width and the height of a pass are the numbers of its columns and rows, both 0 if either is |
| ScanlinesConform.PixelsConform | External/lodepng-master/lodepng.cpp:4306-4347 | the pixels found in filtered lines are those RFC 2083 says they show: lines of whole bytes, filters with neighbours a whole pixel apart, the leftmost pixel in the high bits |
| ScanlinesConform.WrittenConforms | External/lodepng-master/lodepng.cpp:5709-5780 | what is written shows the image as RFC 2083 has it; interlaced, as seven images of their own, one behind the other, that have each pixel of their pass |
| ScanlinesConform.ReadConforms | External/lodepng-master/lodepng.cpp:4306-4347 | what is read is the image that the data show, interlaced or not |
| ColorModes.RawSizeHolds | External/lodepng-master/lodepng.cpp:2792-2800 | the buffer size has room for all pixels and less than a byte more |
| ColorModes.IndexIn | External/lodepng-master/lodepng.cpp:3561-3567 | the last palette entry with the colour, or none |
| ColorModes.FitsExactly | External/lodepng-master/lodepng.cpp:3167-3218 | a colour is read back from the samples stored for it exactly if it is grey where the mode is, on the scale of the bit depth, transparent exactly if it is the key, and in the palette |
| ColorModes.ShallowSamplesKept | External/lodepng-master/lodepng.cpp:3254-3322 | samples of at most eight bits, other than palette indices, survive widening to eight bits and cutting back |
| ColorTrees.PathInjective | External/lodepng-master/lodepng.cpp:3131-3139 | different colours have different paths in the tree |
| ColorTrees.ColorTree.Get | External/lodepng-master/lodepng.cpp:3131-3139 | what is stored for the colour, or -1 |
| ColorTrees.ColorTree.Add | External/lodepng-master/lodepng.cpp:3150-3164 | stores the index for this colour and changes nothing else, adding the missing nodes |
| PixelAccess.AddColorBits | External/lodepng-master/lodepng.cpp:3092-3100 | the first group of a byte replaces the whole byte, the others are or-ed into what is there; bits of the value that do not fit are dropped |
| PixelAccess.OredIsPut | External/lodepng-master/lodepng.cpp:3092-3100 | where nothing is set yet, that puts the group, keeps what comes before and leaves the rest of the byte clean for the next |
| PixelAccess.ReadBitsFromReversedStream | External/lodepng-master/lodepng.cpp:2445-2453 | the bits from the most significant one on |
| PixelAccess.GetPixelColorRGBA8 | External/lodepng-master/lodepng.cpp:3254-3322 | the colour of the pixel's samples, in every mode and with the transparent key |
| PixelAccess.GetPixelColorRGBA16 | External/lodepng-master/lodepng.cpp:3498-3522 | the same with sixteen bits per channel |
| PixelAccess.Rgba8ToPixel | External/lodepng-master/lodepng.cpp:3167-3218 | stores the colour's samples in the pixel and keeps the pixels before it; error 82 exactly if the palette lacks it, and then nothing has changed |
| PixelAccess.Rgba16ToPixel | External/lodepng-master/lodepng.cpp:3221-3251 | the same for sixteen bits per channel |
| PixelAccess.PixelKept | External/lodepng-master/lodepng.cpp:3092-3100 | a pixel is unchanged by writing later ones, also inside one byte |
| BulkColors.GetPixelColors8 | External/lodepng-master/lodepng.cpp:3328-3495 | the bulk loops, with their second pass for the key, give the colours of all pixels as the pixel routine does, in every mode |
| BulkColors.ColorsAt | External/lodepng-master/lodepng.cpp:3328-3421 | where the colour of pixel i lies among all colours |
| ColorConvert.BuildTree | External/lodepng-master/lodepng.cpp:3542-3568 | the tree finds what a search of the palette entries that the bit depth can name finds, the last one of equal entries |
| ColorConforms.LevelConforms | External/lodepng-master/lodepng.cpp:3254-3322 | samples of 1, 2, 4 and 8 bits are cut out of the bytes from the high bits down |
| ColorConforms.ReadConforms | External/lodepng-master/lodepng.cpp:3254-3322 | the colour that is read, in bytes: red, green, blue and alpha in this order, the high byte of two, grey on the full scale in all three channels, the palette's four bytes, alpha 0 exactly for the key |
| ColorConforms.WriteConforms | External/lodepng-master/lodepng.cpp:3167-3218 | the bytes that are written for a colour: the channels in this order, doubled for sixteen bits, the part of the scale in which the red lies for grey, the last palette entry with the four bytes |
| ColorConforms.ReadDeepConforms | External/lodepng-master/lodepng.cpp:3498-3522 | the eight bytes of the colour that is read with sixteen bits per channel |
| ColorConforms.WriteDeepConforms | External/lodepng-master/lodepng.cpp:3221-3251 | and which of them are written |
| ColorConvert.Convert | External/lodepng-master/lodepng.cpp:3524-3596 | error 107 without an input palette, 82 exactly if a pixel's colour is missing, and otherwise every pixel becomes the samples of its colour, by way of sixteen bits if both modes have them (`ColorConforms.ConvertConforms` says so in bytes); equal modes are copied |
| ColorConforms.ConvertConforms | External/lodepng-master/lodepng.cpp:3524-3596 | every pixel that is converted is written for the colour that was read, in bytes, for every pair of modes |
| ColorConforms.RgbBecomesRgba | External/lodepng-master/lodepng.cpp:3359-3364 | eight-bit RGB without key becomes its three bytes and 255 |
| ColorConforms.RgbaBecomesRgb | External/lodepng-master/lodepng.cpp:3481-3485 | eight-bit RGBA becomes its first three bytes |
| ColorRoundTrip.PictureThereAndBack | External/lodepng-master/lodepng.cpp:3524-3596 | a picture survives another mode exactly if all its colours fit |
| ColorRoundTrip.SamplesThereAndBack | External/lodepng-master/lodepng.cpp:3524-3596 | a picture without palette comes back with the same samples from RGBA8 if it has at most eight bits per sample, and from RGBA16 if it has sixteen |
| Sha256Words.WideRotrIsRotr | External/PicoSHA2-master/picosha2.h:73-76 | rotation in a wide word, masked, is rotation of 32 bits |
| Sha256Words.WideChIsCh | External/PicoSHA2-master/picosha2.h:67 | choice with the complement of a wide word is choice of 32 bits |
| Sha256Words.MaskAddition | External/PicoSHA2-master/picosha2.h:48 | adding in a wide word and masking is addition modulo 2^32 |
| Sha256Words.OrBytes | External/PicoSHA2-master/picosha2.h:97-102 | four bytes or-ed together are the big-endian word |
| Sha256.RoundMasked | External/PicoSHA2-master/picosha2.h:117-128 | one round on wide words, masked, is the round of FIPS 180-4 section 6.2.2 |
| Sha256.ScheduleMasked | External/PicoSHA2-master/picosha2.h:103-106 | so is the message schedule |
| Sha256Conforms.SigmasConform | External/PicoSHA2-master/picosha2.h:78-89 | each of the four sigma functions, bit by bit, as FIPS 180-4 section 4.1.2 adds rotations and shifts |
| Sha256Conforms.ChConforms | External/PicoSHA2-master/picosha2.h:67 | bit by bit, the choice of the second or the third |
| Sha256Conforms.MajConforms | External/PicoSHA2-master/picosha2.h:69-71 | bit by bit, the majority of the three |
| Sha256Constants.PrimesAreFirst | External/PicoSHA2-master/picosha2.h:50-61 | the list of primes has the first 64, all of them and in order |
| Sha256Constants.ConstantsConform | External/PicoSHA2-master/picosha2.h:50-65 | each round constant is the first 32 bits of the fraction of the cube root of its prime, and each word of the first state that of the square root (FIPS 180-4 sections 4.2.2 and 5.3.3) |
| Sha256Conforms.CompressConforms | External/PicoSHA2-master/picosha2.h:91-140 | the compression as sequences of values: 64 schedule words and the values of a and e, each from earlier ones, added to the state before |
| Sha256Standard.PaddingConforms | External/PicoSHA2-master/picosha2.h:205-222 | the padding is a bit 1, as few zeros as possible, and the bit length in eight bytes, in whole blocks |
| Sha256Standard.DigestConforms | External/PicoSHA2-master/picosha2.h:288-296 | the digest is one of FIPS 180-4 with constants, padding, chain of states and byte order as the standard has them |
| Sha256.HashBlock | External/PicoSHA2-master/picosha2.h:91-140 | the compression function of section 6.2.2, bit by bit (`Fips180.Hashes`), for every word size that is a multiple of 32 bits |
| Sha256.PaddedExactly | External/PicoSHA2-master/picosha2.h:205-222 | padding with a wrong byte count is the padding of section 5.1.1 if and only if the bit lengths agree modulo 2^64 |
| Sha256.PaddedInjective | External/PicoSHA2-master/picosha2.h:205-222 | different messages of less than 2^61 bytes have different paddings |
| Sha256.AddDigitsOk | External/PicoSHA2-master/picosha2.h:235-247 | adding with carries is addition modulo 2^64 |
| Sha256.ShiftDigitsOk | External/PicoSHA2-master/picosha2.h:253-261 | shifting the four digits with carries multiplies by 8 modulo 2^64 |
| Sha256.DigitBytesOk | External/PicoSHA2-master/picosha2.h:263-267 | the digits written from the top are the number, big-endian |
| Sha256.AbsorbConcat | External/PicoSHA2-master/picosha2.h:194-203 | absorbing whole blocks and then the rest is absorbing everything |
| Sha256Stream.HashOneByOne.AddToDataLength | External/PicoSHA2-master/picosha2.h:235-247 | the digits count the bytes modulo 2^64, with a loop that stops at the first digit without carry, except for what wraps around in the lowest digit |
| Sha256Stream.HashOneByOne.Process | External/PicoSHA2-master/picosha2.h:194-203 | the state is that of everything processed so far, however it was cut; the count stays right if and only if what wraps around is a multiple of 2^64 |
| Sha256Stream.WideWordsCount | External/PicoSHA2-master/picosha2.h:235-247 | with machine words of 64 bits nothing that counts is lost |
| Sha256Stream.NarrowWordsLoseCount | External/PicoSHA2-master/picosha2.h:235-247 | with machine words of 32 bits a first piece of 2^32 bytes is: the witness |
| Sha256Stream.HashOneByOne.WriteDataBitLength | External/PicoSHA2-master/picosha2.h:248-268 | eight times the counted length, big-endian, at the end of the block |
| Sha256Stream.HashOneByOne.Finish | External/PicoSHA2-master/picosha2.h:205-222 | the state has absorbed the whole message, padded with the counted length, with one block more if fewer than eight bytes are left; with a right count that is the padding of the standard |
| Sha256Stream.HashOneByOne.GetHashBytes | External/PicoSHA2-master/picosha2.h:225-232 | the words of the state in big-endian order, as many bytes as are asked for |

## Left out

- Memory: allocation always succeeds (no error 83) and sizes do not overflow (no errors 77, 92, 105); sums of leaf weights in package-merge are not cut to the width of int.
- Output after an error: what the output vector holds is not described, except where a row above says so.
- Adler32: the length argument is not cut to 32 bits.
- Sha256Stream.Hash256AtOnce: which digest a wrongly counted message has is stated, not that it differs from the right one.
- Lz77.LongestMatch: says which of the entries looked at is taken and why the search ended, not how good the hash values are at leading to matches.
- Lz77.EncodeLZ77: which of two neighbouring matches lazy matching prefers is not stated, only that either choice expands to the data.
- ColorConvert.Convert: what happens to bytes of the output buffer behind the image is not stated.
- HashChain.GetHash: only the range of the hash value is stated; no property depends on its value.
- FilterImage.Filter: filter types are given; the heuristics that choose them are not modelled, nor is the automatic choice of a colour mode.
- Scanlines.PreProcessScanlines: the filter types given are at most 4, as the ones the heuristics choose always are.
- CodeLengths.MakeFromFrequencies: `mincodes` is at least 2 and `maxbitlen` at most 15, as in all calls of the program.
- Interlace.Adam7Interlace: both directions share one loop, which copies a pixel by bytes or by bits as the two loops of the code do.
- BulkColors.GetPixelColors8: the RGBA and the RGB routine are one method with the number of channels as a parameter; copying whole images is a loop over the pixels.
- HashChain.Hash.Update: entries of `chain` are not cut to 16 bits, which cannot happen for window sizes up to 32768; a failing hash_init for larger sizes is not modelled, the window is checked first.
- PNG chunks, CRC-32, text, ICC profiles, background and other ancillary data: container parsing with little to prove.
- Custom inflate, deflate and zlib hooks, file access and the C++ wrappers.
- lodepng_convert_rgb and the statistics for choosing a colour mode.
- Hex strings and the container overloads of PicoSHA2.
- GPIO, user interface, web server, discovery, scheduling, settings and installation of the application: input, output and library calls.
