/** Constants and records of the frequency-tree codec (`huffman/types.hpp`). */
module HuffmanTypes {
  import opened Bytes

  /** "GHUF": a single compressed file. */
  const FileMagic: seq<byte> := [0x47, 0x48, 0x55, 0x46]
  /** "GHAR": a multi-file archive. */
  const ArchiveMagic: seq<byte> := [0x47, 0x48, 0x41, 0x52]
  const FormatVersion: byte := 1

  /** One 32-bit counter per byte value. */
  type FrequencyTable = f: seq<u32> | |f| == 256 witness seq(256, _ => 0)

  /** The table of an empty input: every counter zero. */
  function ZeroTable(): (f: FrequencyTable)
    ensures forall v :: 0 <= v < 256 ==> f[v] == 0
  {
    seq(256, _ => 0)
  }

  datatype HuffmanMetadata = HuffmanMetadata(frequencies: FrequencyTable, originalSize: u64)

  datatype CompressionResult = CompressionResult(metadata: HuffmanMetadata, compressed: seq<byte>)

  datatype ParsedFileHeader = ParsedFileHeader(metadata: HuffmanMetadata, compressedSize: u64)

  /** A file to be written into an archive; the path is an opaque byte string. */
  datatype ArchiveEntry = ArchiveEntry(relativePath: seq<byte>, result: CompressionResult)

  /** A record read back from an archive. */
  datatype PendingArchiveEntry = PendingArchiveEntry(relativePath: seq<byte>, metadata: HuffmanMetadata, compressed: seq<byte>)
}
