/** Constants and records of the dictionary codec (`lzw/types.hpp`). */
module LzwTypes {
  import opened Bytes

  /** "GLZW": a single compressed file. */
  const FileMagic: seq<byte> := [0x47, 0x4C, 0x5A, 0x57]
  /** "GLZA": a multi-file archive. */
  const ArchiveMagic: seq<byte> := [0x47, 0x4C, 0x5A, 0x41]
  const FormatVersion: byte := 1

  /** Codes 0..255 stand for the single bytes. */
  const InitialDictionarySize: nat := 256
  /** The dictionary never grows past this many entries. */
  const MaxDictionarySize: nat := 4096

  /** `dictionarySize` keeps its default 0 for an empty input. */
  datatype LzwMetadata = LzwMetadata(originalSize: u64, dictionarySize: u16)

  datatype CompressionResult = CompressionResult(metadata: LzwMetadata, codes: seq<u16>)

  datatype ParsedFileHeader = ParsedFileHeader(metadata: LzwMetadata, codeCount: u64)

  /** A file to be written into an archive; the path is an opaque byte string. */
  datatype ArchiveEntry = ArchiveEntry(relativePath: seq<byte>, metadata: LzwMetadata, codes: seq<u16>)

  /** A record read back from an archive. */
  datatype PendingArchiveEntry = PendingArchiveEntry(relativePath: seq<byte>, metadata: LzwMetadata, codes: seq<u16>)
}
