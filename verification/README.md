# Compression core: Huffman and LZW codecs, their file formats, integer helpers

This project models the pure core of a file compressor that offers two codecs.

- **Huffman codec.**
  - Counts byte frequencies.
  - Builds a tree by repeatedly merging the two nodes that pop first from a priority queue.
  - Reads a code table off the tree (left = 0, right = 1; a lone leaf gets the code `0`).
  - Packs the codes most significant bit first, padded with zeros.
  - Decoding rebuilds the same tree from the stored table and walks it bit by bit.
- **LZW codec.**
  - Greedy longest-match encoding over a dictionary seeded with the 256 single bytes, capped at 4096 entries.
  - The decoder handles the code that names the entry being defined (the KwKwK case).
  - The decoder resizes its output to the recorded size.
- **Binary framing** for both codecs.
  - Preamble: 4-byte magic `GHUF`/`GHAR`/`GLZW`/`GLZA`, version byte 1, three padding bytes.
  - Little-endian fixed-width fields.
  - Single-file headers; a single file is the header followed by the payload.
  - Multi-file archives of length-prefixed records.
- **Integer helpers.**
  - Big-endian serialisation of 32-bit ints.
  - Square-and-multiply modular exponentiation.
  - The brute-force modular inverse.

Streams are `seq<byte>`, where `byte`, `u16`, `u32` and `u64` are subset types of `int`. Parsers are functions that return a `Result` holding the value and the unread rest of the stream. Every exception the source throws on a parse or decode path is a `Failure` with its own error value.

Files, in dependency order:

| file | module | content |
|---|---|---|
| `results.dfy` | `Results` | `Result` and `Option` |
| `bytes.dfy` | `Bytes` | the integer widths, and little-endian `readValue`/`writeValue` |
| `framing.dfy` | `Framing` | preamble, length-prefixed path, and generic "read n records" |
| `bit_stream.dfy` | `BitStream` | `BitWriter` and `BitReader` |
| `huffman_types.dfy`, `huffman_tree.dfy`, `huffman_codes.dfy`, `huffman_codec.dfy` | | tree builder, code table and codec |
| `huffman_archive.dfy`, `huffman_file.dfy` | | Huffman headers, archives, and whole single files |
| `lzw_types.dfy`, `lzw_codec.dfy` | | LZW codec |
| `lzw_round_trip.dfy` | | reference dictionary and the LZW round trip |
| `lzw_archive.dfy`, `lzw_file.dfy` | | LZW headers, archives, and whole single files |
| `utils.dfy` | `Utils` | the integer helpers |

The LZW round trip is proved through an independent reference dictionary, `LzwRoundTrip.Grow`:
- Given the strings the encoder emitted, `Grow` lists the dictionary both sides build: the 256 single bytes, then every emitted string extended by the first byte of the next, up to 4096 entries.
- The encoder is shown to emit codes naming the strings of a parse of its input in that dictionary (`EncodeParse`).
- The decoder is shown to rebuild the same dictionary and concatenate the parse (`DecodeParse`).

## Model

| member | source | states |
|---|---|---|
| Bytes.ReadValue | src/compression/huffman/archive.cpp:22-31 | `readValue` of a `width`-byte field succeeds exactly when `width` bytes remain; the field is then the little-endian encoding of the value read, followed by the rest |
| Bytes.ReadValueOfEncode | src/compression/huffman/archive.cpp:13-31 | reading a field back from what `writeValue` wrote gives the value and leaves exactly what followed |
| Framing.ReadPreamble | src/compression/huffman/archive.cpp:49-69 | the preamble is accepted exactly when 8 bytes are present with the right magic and version; a short magic, a wrong magic, a wrong version, a missing version byte and short padding are each reported as their own error, in the source's order |
| Framing.ReadPreambleIgnoresPadding | src/compression/huffman/archive.cpp:65-69 | replacing the three padding bytes by any three bytes does not change the result: padding is read but never checked |
| Framing.ReadPreambleOfWrite | src/compression/huffman/archive.cpp:78-95 | a written preamble reads back, leaving exactly the bytes after it |
| Framing.WritePath | src/compression/huffman/archive.cpp:114-128 | a path is written only when its length fits a u32, otherwise the write fails with PathTooLong; the record is 4 + length bytes and ends with the path |
| Framing.ReadPath | src/compression/huffman/archive.cpp:170-177 | with fewer than 4 bytes the length field fails; when fewer bytes follow than the length announces the path is truncated (ShortPath); otherwise exactly that many bytes are the path |
| Framing.ReadPathOfWrite | src/compression/huffman/archive.cpp:114-128 | a written path reads back as itself, leaving exactly what follows |
| Framing.ReadPathAppend | src/compression/huffman/archive.cpp:170-177 | reading a path never looks past its own bytes: extra bytes only lengthen the rest |
| Framing.ReadManyOfWrite | src/compression/huffman/archive.cpp:169-194 | if every record reads back from its own writing, a sequence of written records reads back as that sequence, in order, leaving the rest |
| Framing.ReadManyAppend | src/compression/huffman/archive.cpp:169-194 | a loop of record readers that ignore trailing bytes also ignores trailing bytes |
| Framing.ReadManyIsWrite | src/compression/huffman/archive.cpp:169-194 | whatever a loop of exact readers accepts is the writing of the records it returns |
| Framing.ReadManyFixedWidth | src/compression/huffman/archive.cpp:40-45 | `count` fixed-width reads succeed exactly when `width * count` bytes are present, and consume exactly that many |
| BitStream.WriteBit | src/compression/huffman/bit_stream.cpp:7-16 | `writeBit` keeps fewer than 8 pending bits and emits one byte exactly when the eighth bit arrives; earlier bytes are unchanged |
| BitStream.WriteBitAppends | src/compression/huffman/bit_stream.cpp:7-16 | `writeBit` appends exactly its bit to the written stream, most significant bit first within each byte |
| BitStream.WriteCodeAppends | src/compression/huffman/bit_stream.cpp:18-23 | `writeCode` appends exactly its bits, in order, i.e. it is `writeBit` on each bit |
| BitStream.WriteCodeAppend | src/compression/huffman/bit_stream.cpp:18-23 | writing two codes in turn equals writing their concatenation |
| BitStream.Finish | src/compression/huffman/bit_stream.cpp:25-34 | `finish` adds one byte exactly when bits are pending; the output's bits are the written bits followed by zero padding up to the byte boundary |
| BitStream.PackLayout | src/compression/huffman/bit_stream.cpp:25-34 | packing n bits takes ceil(n/8) bytes, adds no byte when n is a multiple of 8, and pads with fewer than 8 zero bits |
| BitStream.ReadBit | src/compression/huffman/bit_stream.cpp:42-56 | `readBit` fails exactly once all `8 * size` bits are consumed; otherwise it returns the next bit of the buffer, most significant first, and advances by one bit |
| BitStream.UnpackAt | src/compression/huffman/bit_stream.cpp:48-55 | bit p of the stream is bit `p % 8`, counted from the top, of byte `p / 8` |
| BitStream.ReadAll | src/compression/huffman/bit_stream.cpp:42-56 | calling `readBit` until it fails yields exactly the unread bits of the buffer |
| BitStream.ReadBackFinish | src/compression/huffman/bit_stream.cpp:7-56 | reading back what a writer finished gives its bits, then its zero padding |
| BitStream.ReadBackPack | src/compression/huffman/bit_stream.cpp:7-56 | reading back a packed bit string gives the bits, then fewer than 8 zero bits, then the end |
| HuffmanTree.Insert | src/compression/huffman/codec.cpp:21-29 | a push adds exactly the pushed node to the queue's multiset |
| HuffmanTree.InsertSorted | src/compression/huffman/codec.cpp:21-29 | a push keeps the queue in the comparator's pop order: ascending frequency, then ascending symbol, with internal nodes at symbol -1 |
| HuffmanTree.PopTwoSmallest | src/compression/huffman/codec.cpp:60-70 | the two nodes a merge pops are no later than every other node, and pushing their parent keeps the queue ordered |
| HuffmanTree.NonzeroSymbols | src/compression/huffman/codec.cpp:49-55 | the symbols that get a leaf are exactly those with a nonzero frequency |
| HuffmanTree.MergeLeaves | src/compression/huffman/codec.cpp:60-70 | merging keeps exactly the multiset of leaves of the queue |
| HuffmanTree.MergeSum | src/compression/huffman/codec.cpp:60-70 | the root's frequency is the queue's total frequency |
| HuffmanTree.MergeWellFormed | src/compression/huffman/codec.cpp:39-43 | every internal node's frequency is the sum of its children's, and every leaf carries its symbol's nonzero frequency |
| HuffmanTree.HeightBound | src/compression/huffman/codec.cpp:45-71 | a tree with n leaves has fewer than n levels, so every code is shorter than 256 bits |
| HuffmanTree.EmptyQueue | src/compression/huffman/codec.cpp:56-58 | no node is queued exactly when every frequency is zero |
| HuffmanTree.BuildTree | src/compression/huffman/codec.cpp:45-71 | `buildTree` returns no tree exactly for an all-zero table; otherwise a well-formed tree whose root frequency is the sum of the table |
| HuffmanTree.BuildTreeLeaves | src/compression/huffman/codec.cpp:45-71 | the leaves are exactly the symbols with nonzero frequency, each once; the root is a leaf exactly when one symbol occurs |
| HuffmanCodes.BuildCodeTable | src/compression/huffman/codec.cpp:77-98 | building codes for a subtree leaves the entries of every symbol outside it unchanged |
| HuffmanCodes.BuildCodeTableSpec | src/compression/huffman/codec.cpp:77-98 | each leaf's entry is the prefix followed by its path from the subtree's root, compared against the independent `Path` definition |
| HuffmanCodes.CodeTableOfSpec | src/compression/huffman/codec.cpp:83-97 | symbols without a leaf get the empty code; a single-leaf tree gives its symbol the code `[0]`; otherwise every code is the symbol's path (left = 0, right = 1) |
| HuffmanCodes.PathReachesLeaf | src/compression/huffman/codec.cpp:77-98 | following a symbol's code from the root passes only internal nodes and stops at that symbol's leaf |
| HuffmanCodes.PrefixFree | src/compression/huffman/codec.cpp:77-98 | no symbol's code is a prefix of another symbol's code |
| HuffmanCodes.PathLength | src/compression/huffman/codec.cpp:77-98 | a code is shorter than the tree's number of leaves |
| HuffmanCodec.Tally | src/compression/huffman/codec.cpp:111-114 | each u32 counter is the number of occurrences of its byte, modulo 2^32 |
| HuffmanCodec.WriteSymbols | src/compression/huffman/codec.cpp:128-134 | the encoding loop fails with InvalidCodeTableEntry exactly when some input byte has an empty code |
| HuffmanCodec.WriteSymbolsWritten | src/compression/huffman/codec.cpp:128-134 | a successful loop appends the codes of the input bytes, in input order, to the written bits |
| HuffmanCodec.EncodeBuffer | src/compression/huffman/codec.cpp:102-138 | originalSize is the input length; an empty input gives an all-zero table and no payload; otherwise the table holds each byte's count modulo 2^32; if every counter wrapped to zero, no tree is built and the payload is empty |
| HuffmanCodec.Walk | src/compression/huffman/codec.cpp:162-177 | a successful walk extends the output to exactly the requested size with leaf symbols of the tree; its only errors are the end of the stream and a broken traversal, and a walk that starts from internal nodes can only fail with the end of the stream |
| HuffmanCodec.WalkRunsOut | src/compression/huffman/codec.cpp:162-168 | each bit yields at most one symbol, so a walk that needs more symbols than there are unread bits fails with the end of the stream |
| HuffmanCodec.DecodeBuffer | src/compression/huffman/codec.cpp:140-180 | any successful output has exactly originalSize bytes, a zero size never fails, and the only errors are the empty tree and the end of the stream: the corrupted-traversal error cannot occur for a tree built from a table |
| HuffmanCodec.DecodeRunsOut | src/compression/huffman/codec.cpp:162-168 | with two or more symbols in the table, a payload of fewer bits than originalSize fails with the end of the stream |
| HuffmanCodec.DecodeEmptyTree | src/compression/huffman/codec.cpp:151-154 | the empty-tree error arises exactly for a nonzero size with an all-zero table |
| HuffmanCodec.DecodeSingleSymbol | src/compression/huffman/codec.cpp:156-160 | with one nonzero frequency the payload is ignored and the output is that symbol repeated originalSize times |
| HuffmanCodec.DecodedSymbolsOccur | src/compression/huffman/codec.cpp:140-180 | every decoded byte has a nonzero frequency in the table |
| HuffmanCodec.WalkSymbols | src/compression/huffman/codec.cpp:164-177 | walking a concatenation of codes from the root decodes exactly its symbols, whatever bits follow |
| HuffmanCodec.RoundTrip | src/compression/huffman/codec.cpp:102-180 | for inputs shorter than 2^32 bytes encoding succeeds (the table-entry error is unreachable) and decoding its result gives the input back |
| HuffmanCodec.DecodeEncode | src/compression/huffman/codec.cpp:102-180 | whenever encoding succeeds and not every counter wrapped, decoding gives the input back: encoder and decoder build the same tree from the same table |
| HuffmanCodec.WrappedInputIsLost | src/compression/huffman/codec.cpp:111-121 | as written: when every counter of a non-empty input wraps to zero, encoding succeeds with an empty payload and decoding its result fails with the empty-tree error |
| HuffmanCodec.ZerosWrapAround | src/compression/huffman/codec.cpp:111-121 | 2^32 zero bytes are such an input |
| HuffmanCodec.EncodeBufferChecked | src/compression/huffman/codec.cpp:102-138 | corrected encoder: fails with CounterOverflow exactly on inputs whose counters all wrapped, otherwise behaves as `encodeBuffer` |
| HuffmanCodec.CheckedRoundTrip | src/compression/huffman/codec.cpp:102-180 | whatever the corrected encoder accepts decodes back to the input |
| HuffmanCodec.CheckedAgreesOnSmallInput | src/compression/huffman/codec.cpp:102-138 | below 2^32 bytes the corrected encoder equals the original and succeeds |
| HuffmanArchive.ReadFrequencies | src/compression/huffman/archive.cpp:40-45 | reading n counters succeeds exactly when 4n bytes are present, and consumes exactly 4n |
| HuffmanArchive.ReadFrequenciesOfWrite | src/compression/huffman/archive.cpp:33-45 | counters written by `writeFrequencies` read back unchanged |
| HuffmanArchive.ReadFrequenciesIsWrite | src/compression/huffman/archive.cpp:33-45 | whatever the reader accepts is the writing of the counters it returns |
| HuffmanArchive.WriteFileHeader | src/compression/huffman/archive.cpp:78-95 | the header is 1048 bytes and starts with the `GHUF` version-1 preamble |
| HuffmanArchive.ReadFileHeader | src/compression/huffman/archive.cpp:49-76 | succeeds exactly when 1048 bytes are present with the right magic and version, consuming exactly 1048; a short or wrong magic and a wrong version are rejected before any field is read |
| HuffmanArchive.ReadFileHeaderOfWrite | src/compression/huffman/archive.cpp:49-95 | `readFileHeader(writeFileHeader(m, n) ++ rest)` returns `(m, n)` and leaves exactly `rest` |
| HuffmanArchive.FileHeaderIgnoresPadding | src/compression/huffman/archive.cpp:65-69 | the header's padding bytes do not affect what is read |
| HuffmanArchive.WriteArchiveHeader | src/compression/huffman/archive.cpp:97-112 | 12 bytes: the `GHAR` version-1 preamble and the u32 file count |
| HuffmanArchive.WriteArchiveEntry | src/compression/huffman/archive.cpp:114-140 | fails with PathTooLong exactly when the path does not fit a u32; otherwise the record is path length, path, the two sizes, the counters and the payload |
| HuffmanArchive.ReadEntryOfOnto | src/compression/huffman/archive.cpp:114-194 | a written record of an entry whose lengths fit reads back as that entry, leaving the rest |
| HuffmanArchive.ReadEntryIsOnto | src/compression/huffman/archive.cpp:169-194 | whatever the record reader accepts is the record of the entry it returns |
| HuffmanArchive.ReadArchive | src/compression/huffman/archive.cpp:142-197 | rejects a short or wrong `GHAR` magic and a wrong version; every other error is a short field, path or payload; on success it returns exactly file-count entries |
| HuffmanArchive.WriteArchive | src/compression/huffman.cpp:104-107 | succeeds exactly when every path fits, and starts with the archive header for the number of entries cast to u32, that is modulo 2^32 |
| HuffmanArchive.ReadArchiveOfWriteWrapped | src/compression/huffman.cpp:104-107 | any written archive reads back as its first entry-count-modulo-2^32 entries in order, so from 2^32 entries on the wrapped count hides the rest |
| HuffmanArchive.ReadArchiveOfWrite | src/compression/huffman/archive.cpp:97-197 | an archive written for k entries reads back as those k entries, in order, with the same paths, metadata and payloads |
| HuffmanArchive.ReadArchiveIgnoresTrailing | src/compression/huffman/archive.cpp:164-196 | reading stops after file-count records: appended bytes change nothing |
| HuffmanFile.CompressFile | src/compression/huffman.cpp:40-59 | the file is the header followed by the payload, of length 1048 plus the payload's length, starting with the `GHUF` preamble |
| HuffmanFile.ReadFilePayload | src/compression/huffman.cpp:24-34 | reads exactly `size` bytes, or fails with ShortPayload when fewer remain |
| HuffmanFile.DecompressFile | src/compression/huffman.cpp:61-72 | header errors are passed on unchanged; any output has the size recorded in the header |
| HuffmanFile.FileRoundTrip | src/compression/huffman.cpp:40-72 | decompressing a compressed file gives the original bytes |
| HuffmanFile.DecompressIgnoresTrailing | src/compression/huffman.cpp:61-72 | bytes after the payload do not change the result |
| LzwCodec.InitialDictionary | src/compression/lzw/codec.cpp:22-24 | the seed dictionary maps exactly the 256 one-byte strings to their byte value |
| LzwCodec.EncodeStep | src/compression/lzw/codec.cpp:29-50 | a byte that extends a known string only extends `current`; otherwise the code of `current` is emitted, the new string is added under `nextCode` while fewer than 4096 entries exist, and `current` restarts at the byte |
| LzwCodec.EncodeLoopKeepsEntries | src/compression/lzw/codec.cpp:43-45 | an entry, once in the dictionary, stays there with the same code until the end of the input |
| LzwCodec.FlushCodes | src/compression/lzw/codec.cpp:52-54 | a non-empty `current` is flushed as its code; an empty one adds nothing |
| LzwCodec.EncodeBuffer | src/compression/lzw/codec.cpp:10-58 | originalSize is the input length; an empty input gives no codes and dictionarySize 0 |
| LzwCodec.EncodeExample | src/compression/lzw/codec.cpp:29-56 | `ABABABA` encodes to codes `[65, 66, 256, 258]` with dictionarySize 259 |
| LzwCodec.DecodeLoop | src/compression/lzw/codec.cpp:100-120 | the loop only appends to the output, and its only error is an invalid code |
| LzwCodec.DecodeLoopEmits | src/compression/lzw/codec.cpp:101-112 | a code already in the dictionary emits its entry, the code about to be assigned emits the previous string plus its own first byte, and a larger code fails with InvalidCode |
| LzwCodec.DecodeLoopRejects | src/compression/lzw/codec.cpp:104-110 | a code above 4096 anywhere after the first position makes the loop fail with InvalidCode |
| LzwCodec.Resize | src/compression/lzw/codec.cpp:122-124 | the output is truncated or padded with zero bytes to exactly the requested length, keeping its prefix |
| LzwCodec.DecodeBuffer | src/compression/lzw/codec.cpp:60-127 | size 0 gives an empty output whatever the codes; a nonzero size with no codes, or with a first code of 256 or more, fails; every other error is InvalidCode; any output has exactly originalSize bytes |
| LzwCodec.DecodeRejectsOutOfRange | src/compression/lzw/codec.cpp:100-110 | a code above 4096 in the stream makes decoding of a nonzero size fail |
| LzwRoundTrip.Grow | src/compression/lzw/codec.cpp:43-45 | reference dictionary: the 256 single bytes, then each emitted string extended by the first byte of the next, never more than 4096 entries |
| LzwRoundTrip.GrowLast | src/compression/lzw/codec.cpp:106-107 | the dictionary after a string depends only on that string's first byte, which is why the decoder can add an entry before it knows the full next string |
| LzwRoundTrip.DecodeStep | src/compression/lzw/codec.cpp:104-117 | at each later code of a valid parse, a known code names the next string, an unknown one is exactly `nextCode` and names `current + current[0]`, and the entry the decoder adds is the reference dictionary's next entry |
| LzwRoundTrip.DecodeLoopParse | src/compression/lzw/codec.cpp:100-120 | given a parse whose codes name their strings in the reference dictionary, the decoding loop outputs exactly the concatenation of the remaining strings |
| LzwRoundTrip.DecodeParse | src/compression/lzw/codec.cpp:60-127 | decoding a valid parse gives its concatenation, resized to originalSize |
| LzwRoundTrip.StepKeeps | src/compression/lzw/codec.cpp:29-50 | each encoder step succeeds (the empty-current error is unreachable) and keeps the encoder invariant: the emitted codes name their strings in the reference dictionary, which the encoder's map mirrors |
| LzwRoundTrip.EncodeLoopKeeps | src/compression/lzw/codec.cpp:29-50 | the whole encoding loop succeeds and ends in a state satisfying the invariant |
| LzwRoundTrip.EncodeParse | src/compression/lzw/codec.cpp:10-58 | a non-empty input encodes to codes naming, in the final dictionary, strings whose concatenation is exactly the input; dictionarySize is the reference dictionary's size |
| LzwRoundTrip.RoundTrip | src/compression/lzw/codec.cpp:10-127 | for every input, encoding succeeds and decoding its result gives the input back |
| LzwRoundTrip.CodesBelowDictionarySize | src/compression/lzw/codec.cpp:42-56 | dictionarySize is min(255 + number of codes, 4096), and every emitted code is below it |
| LzwRoundTrip.CodesAtMostInput | src/compression/lzw/codec.cpp:29-54 | there are never more codes than input bytes |
| LzwRoundTrip.DecodeIgnoresDictionarySize | src/compression/lzw/codec.cpp:60-127 | the decoder never consults dictionarySize: any metadata with a nonzero size decodes the codes to the input resized to that size |
| LzwRoundTrip.DecodeExample | src/compression/lzw/codec.cpp:60-127 | codes `[65, 66, 256, 258]` decode to `ABABABA` |
| LzwRoundTrip.DecodeExampleLastStep | src/compression/lzw/codec.cpp:104-117 | at the last step of that example the dictionary holds 258 entries, so code 258 is not yet in it; it decodes as the previous string `AB` followed by its own first byte, completing `ABABABA` |
| LzwArchive.ReadCode | src/compression/lzw.cpp:25-35 | one code is two little-endian bytes; it needs two bytes |
| LzwArchive.ReadCodeOfOnto | src/compression/lzw.cpp:25-35 | a written code reads back as itself, leaving the rest |
| LzwArchive.ReadCodeStream | src/compression/lzw.cpp:25-35 | `count` codes are read exactly when `2 * count` bytes remain, otherwise ShortPayload |
| LzwArchive.ReadCodeStreamOfWrite | src/compression/lzw.cpp:25-59 | a written code stream reads back as the same codes, leaving exactly the rest |
| LzwArchive.ReadCodeStreamIsWrite | src/compression/lzw.cpp:25-35 | whatever the stream reader accepts is the writing of the codes it returns |
| LzwArchive.WriteFileHeader | src/compression/lzw/archive.cpp:65-82 | the header is 26 bytes and starts with the `GLZW` version-1 preamble |
| LzwArchive.ReadFileHeader | src/compression/lzw/archive.cpp:35-63 | succeeds exactly when 26 bytes are present with the right magic and version, consuming exactly 26; a short or wrong magic and a wrong version are rejected |
| LzwArchive.ReadFileHeaderOfWrite | src/compression/lzw/archive.cpp:35-82 | `readFileHeader(writeFileHeader(m, c) ++ rest)` returns `m` and `c` and leaves exactly `rest` |
| LzwArchive.FileHeaderIgnoresPadding | src/compression/lzw/archive.cpp:52-56 | the padding bytes do not affect what is read |
| LzwArchive.WriteArchiveHeader | src/compression/lzw/archive.cpp:84-99 | 12 bytes: the `GLZA` version-1 preamble and the u32 file count |
| LzwArchive.WriteArchiveEntry | src/compression/lzw/archive.cpp:101-128 | fails with PathTooLong exactly when the path does not fit a u32; otherwise the record is path length, path, 18 bytes of sizes and two bytes per code |
| LzwArchive.ReadEntryOfOnto | src/compression/lzw/archive.cpp:101-185 | a written record of an entry whose lengths fit reads back as that entry, leaving the rest |
| LzwArchive.ReadEntryIsOnto | src/compression/lzw/archive.cpp:158-185 | whatever the record reader accepts is the record of the entry it returns |
| LzwArchive.ReadArchive | src/compression/lzw/archive.cpp:130-186 | rejects a short or wrong `GLZA` magic and a wrong version; every other error is a short field, a truncated path or a truncated code stream; on success it returns exactly file-count entries |
| LzwArchive.WriteArchive | src/compression/lzw.cpp:105-108 | succeeds exactly when every path fits, and starts with the archive header for the number of entries cast to u32, that is modulo 2^32 |
| LzwArchive.ReadArchiveOfWriteWrapped | src/compression/lzw.cpp:105-108 | any written archive reads back as its first entry-count-modulo-2^32 entries in order, so from 2^32 entries on the wrapped count hides the rest |
| LzwArchive.ReadArchiveOfWrite | src/compression/lzw/archive.cpp:84-186 | an archive written for k entries reads back as those k entries, in write order, unchanged |
| LzwArchive.ReadArchiveIgnoresTrailing | src/compression/lzw/archive.cpp:158-185 | reading stops after file-count records: appended bytes change nothing |
| LzwFile.CompressFile | src/compression/lzw.cpp:41-60 | the file is the header followed by two bytes per code, starting with the `GLZW` preamble |
| LzwFile.DecompressFile | src/compression/lzw.cpp:62-73 | header errors are passed on unchanged; any output has the size recorded in the header |
| LzwFile.FileRoundTrip | src/compression/lzw.cpp:41-73 | every input compresses, and decompressing the file gives it back |
| LzwFile.DecompressIgnoresTrailing | src/compression/lzw.cpp:62-73 | bytes after the code stream do not change the result |
| Utils.CRem | src/utils/Utils.cpp:73-80 | C++ `%`: smaller in magnitude than the divisor, non-negative for a non-negative dividend, and the Euclidean remainder when both operands are non-negative |
| Utils.CRemCong | src/utils/Utils.cpp:73-80 | the truncated remainder is congruent to the dividend modulo the divisor |
| Utils.PowerModulus | src/utils/Utils.cpp:58-85 | an exponent of 0 or below gives 1, even for m = 1; for a positive exponent the result is congruent to b^e modulo abs(m) and smaller than abs(m) in magnitude; for b ≥ 0 and m ≥ 1 it is exactly b^e mod m (for e > 0, or m > 1) |
| Utils.ModInverse | src/utils/Utils.cpp:87-102 | returns -1 exactly when no d in [2, phi) passes the test `(e * d) % phi == 1`; otherwise it returns the least such d, which is never 1 |
| Utils.SolvesIsInverse | src/utils/Utils.cpp:96-99 | when `e * phi` fits an int and e ≥ 0, the test is the mathematical `e * d ≡ 1 (mod phi)` |
| Utils.SerializeNumbers | src/utils/Utils.cpp:105-122 | exactly four bytes per number |
| Utils.IntBytesBigEndian | src/utils/Utils.cpp:115-120 | a number's four bytes, read most significant first, are its 32-bit two's-complement pattern |
| Utils.DeserializeNumbers | src/utils/Utils.cpp:186-210 | defined exactly for lengths that are a multiple of 4, giving one number per four bytes |
| Utils.DeserializeSerialize | src/utils/Utils.cpp:105-122 | `deserializeNumbers(serializeNumbers(xs)) == xs` for all 32-bit ints |
| Utils.SerializeDeserialize | src/utils/Utils.cpp:186-210 | every buffer whose length is a multiple of 4 is the serialisation of what it deserialises to |

## Left out

- I/O, concurrency and orchestration are not modelled:
  - file I/O, directory walking and the resource context;
  - the thread pool;
  - the command line;
  - `compressDirectory`/`decompressDirectory`;
  - the stream-failure exceptions of `writeValue` and the other writers.

  The model starts from a byte sequence and produces a byte sequence.
- RSA, base64 conversion, `createFreqMap` and the C-string helpers of `Utils` are not modelled.
  - They depend on foreign library calls, parallel loops and raw memory.
  - The arithmetic RSA needs is `PowerModulus` and `ModInverse`.
- Assumptions about the host and paths:
  - Fixed-width fields are little-endian, i.e. a little-endian host is assumed.
  - Archive paths are opaque byte strings; path conversion is not modelled.
- The priority queue's order between two internal nodes of equal frequency is not pinned down by the comparator. `HuffmanTree.Insert` places a node after every node it does not pop before. Encoder and decoder call the same `BuildTree`.
- The `resolve` lambda in the LZW decoder is never called. Only the inline branch that the loop uses is modelled.
- Allocation failure is not modelled: buffers sized from 64-bit fields (`resize`, a code count times 2) are taken as always allocatable.
- HuffmanFile.FileRoundTrip: the payload is assumed shorter than 2^64 bytes, because its length is stored as a u64.
- HuffmanFile.CompressFile: builds on the corrected encoder `EncodeBufferChecked` (see Findings), not on the encoder as written.
- LzwCodec.DecodeLoop: its own contract states only prefix growth and the error kind. `LzwCodec.DecodeLoopEmits` states what one code emits, and the whole output is stated against the reference dictionary in `LzwRoundTrip.DecodeStep` and `LzwRoundTrip.DecodeLoopParse`, for code streams the encoder can produce.
- LzwCodec.DecodeBuffer: once the dictionary is full (`nextCode == 4096`), code 4096 is accepted through the KwKwK branch. It decodes as `current + current[0]`, and the model keeps that behaviour.
- Utils.PowerModulus: for a negative base or modulus, only congruence modulo |m| and the magnitude bound are proved, not the exact sign of the truncated remainder. m = 0 divides by zero in the source, and base = -2^31 with m = -1 makes the first 32-bit `base % m` undefined behaviour; the precondition excludes both.
- Utils.ModInverse: the product `e * d` is computed in `int`. Signed overflow is undefined in C++, and the model wraps it to 32 bits as common compilers do. `Utils.SolvesIsInverse` gives the mathematical meaning when no overflow can occur.
- Utils.DeserializeNumbers: a length that is not a multiple of 4 makes the source read past the end of the buffer, which is undefined behaviour; the model returns `None`.
  - The shift `value << 8` overflowing `int` is taken on the 32-bit pattern, which is then read as two's complement.

## Findings

| source | as written | input that shows it | evidently intended | confidence | as-written member | corrected member |
|---|---|---|---|---|---|---|
| src/compression/huffman/codec.cpp:111-121 | frequencies are u32 counters; when every counter of a non-empty input wraps to 0, `buildTree` returns no tree and `encodeBuffer` returns an empty payload with a nonzero originalSize, which `decodeBuffer` then rejects as an empty tree | 2^32 zero bytes | an input whose counters all wrap to 0 is refused at encoding time instead of producing an undecodable file; an input with some surviving counter is encoded as before and still round-trips | not executed | HuffmanCodec.WrappedInputIsLost, HuffmanCodec.ZerosWrapAround | HuffmanCodec.EncodeBufferChecked, HuffmanCodec.CheckedRoundTrip |
