/**
  A complete compressed file (`compressFile`/`decompressFile` in
  `compression/huffman.cpp`): the 1048-byte header followed by the packed
  payload. Opening, reading and writing the files themselves is left out;
  a file is its byte string.
*/
module HuffmanFile {
  import opened Results
  import opened Bytes
  import opened Framing
  import opened HuffmanTypes
  import opened HuffmanArchive
  import opened HuffmanCodec

  /** What `compressFile` and `decompressFile` can throw, by origin. */
  datatype FileError =
    | CodecFailure(codecError: CodecError)
    | FramingFailure(framingError: FramingError)

  /**
    `compressFile`: the header (with the payload length cast to u64), then the
    payload. The encoder is the corrected one that refuses an input whose
    every counter wrapped to zero.
  */
  function CompressFile(input: seq<byte>): (r: Result<seq<byte>, FileError>)
    requires |input| < U64_LIMIT
    ensures r.Success? <==> EncodeBufferChecked(input).Success?
    ensures r.Failure? ==> r.error.CodecFailure?
    ensures r.Success? ==> |r.value| == FileHeaderSize + |EncodeBufferChecked(input).value.compressed|
    ensures r.Success? ==> r.value[..PreambleSize] == Preamble(FileMagic, FormatVersion)
  {
    match EncodeBufferChecked(input)
    case Failure(e) => Failure(CodecFailure(e))
    case Success(result) =>
      var header := WriteFileHeader(result.metadata, |result.compressed| % U64_LIMIT);
      assert (header + result.compressed)[..PreambleSize] == header[..PreambleSize];
      Success(header + result.compressed)
  }

  /** `readFilePayload`: exactly `size` bytes, or an error when fewer are left. */
  function ReadFilePayload(s: seq<byte>, size: u64): (r: Result<seq<byte>, FramingError>)
    ensures r.Success? <==> |s| >= size
    ensures r.Success? ==> r.value == s[..size]
    ensures r.Failure? ==> r.error == ShortPayload
  {
    var p :- ReadBytes(s, size, ShortPayload);
    Success(p.0)
  }

  /**
    `decompressFile`: the header, then `compressedSize` payload bytes, then
    `decodeBuffer`. Bytes after the payload are never read.
  */
  function DecompressFile(s: seq<byte>): (r: Result<seq<byte>, FileError>)
    ensures ReadFileHeader(s).Failure? ==> r == Failure(FramingFailure(ReadFileHeader(s).error))
    ensures r.Success? ==> ReadFileHeader(s).Success? && |r.value| == ReadFileHeader(s).value.0.metadata.originalSize
    ensures r.Failure? && r.error.FramingFailure? ==> r.error.framingError in {ShortMagic, BadMagic, BadVersion, ShortValue, ShortPadding, ShortPayload}
  {
    match ReadFileHeader(s)
    case Failure(e) => Failure(FramingFailure(e))
    case Success((header, rest)) =>
      match ReadFilePayload(rest, header.compressedSize)
      case Failure(e) => Failure(FramingFailure(e))
      case Success(payload) =>
        match DecodeBuffer(header.metadata, payload)
        case Failure(e) => Failure(CodecFailure(e))
        case Success(output) => Success(output)
  }

  /**
    A compressed file decompresses to the original input, as long as the
    payload length fits the u64 field.
  */
  lemma FileRoundTrip(input: seq<byte>)
    requires |input| < U64_LIMIT && CompressFile(input).Success?
    requires |EncodeBufferChecked(input).value.compressed| < U64_LIMIT
    ensures DecompressFile(CompressFile(input).value) == Success(input)
  {
    var result := EncodeBufferChecked(input).value;
    var size := |result.compressed|;
    ModBelow(size, U64_LIMIT);
    ReadFileHeaderOfWrite(result.metadata, size, result.compressed);
    ReadBytesOfPrefix(result.compressed, [], ShortPayload);
    assert result.compressed + [] == result.compressed;
    CheckedRoundTrip(input);
  }

  /** Anything after the payload is ignored. */
  lemma DecompressIgnoresTrailing(s: seq<byte>, t: seq<byte>)
    requires DecompressFile(s).Success?
    ensures DecompressFile(s + t) == DecompressFile(s)
  {
    var v := ReadFileHeader(s).value;
    ReadFileHeaderAppend(s, t);
    ReadBytesAppend(v.1, v.0.compressedSize, ShortPayload, t);
  }
}
