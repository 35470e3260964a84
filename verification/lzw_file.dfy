/**
  A complete compressed file (`compressFile`/`decompressFile` in
  `compression/lzw.cpp`): the 26-byte header followed by the code stream.
  Opening, reading and writing the files themselves is left out; a file is
  its byte string.
*/
module LzwFile {
  import opened Results
  import opened Bytes
  import opened Framing
  import opened LzwTypes
  import opened LzwCodec
  import opened LzwArchive
  import opened LzwRoundTrip

  /** What `compressFile` and `decompressFile` can throw, by origin. */
  datatype FileError =
    | CodecFailure(codecError: LzwError)
    | FramingFailure(framingError: FramingError)

  /** `compressFile`: the header (with the code count cast to u64), then the codes. */
  function CompressFile(input: seq<byte>): (r: Result<seq<byte>, FileError>)
    requires |input| < U64_LIMIT
    ensures r.Success? <==> EncodeBuffer(input).Success?
    ensures r.Failure? ==> r.error.CodecFailure?
    ensures r.Success? ==> |r.value| == FileHeaderSize + 2 * |EncodeBuffer(input).value.codes|
    ensures r.Success? ==> r.value[..PreambleSize] == Preamble(FileMagic, FormatVersion)
  {
    match EncodeBuffer(input)
    case Failure(e) => Failure(CodecFailure(e))
    case Success(result) =>
      var header := WriteFileHeader(result.metadata, |result.codes| % U64_LIMIT);
      var codes := CodesOnto(result.codes, []);
      CodesOntoLength(result.codes, []);
      assert (header + codes)[..PreambleSize] == header[..PreambleSize];
      Success(header + codes)
  }

  /**
    `decompressFile`: the header, then `codeCount` codes (`readCodeStream`),
    then `decodeBuffer`. Bytes after the codes are never read.
  */
  function DecompressFile(s: seq<byte>): (r: Result<seq<byte>, FileError>)
    ensures ReadFileHeader(s).Failure? ==> r == Failure(FramingFailure(ReadFileHeader(s).error))
    ensures r.Success? ==> ReadFileHeader(s).Success? && |r.value| == ReadFileHeader(s).value.0.metadata.originalSize
    ensures r.Failure? && r.error.FramingFailure? ==> r.error.framingError in {ShortMagic, BadMagic, BadVersion, ShortValue, ShortPadding, ShortPayload}
  {
    match ReadFileHeader(s)
    case Failure(e) => Failure(FramingFailure(e))
    case Success((header, rest)) =>
      match ReadCodeStream(rest, header.codeCount)
      case Failure(e) => Failure(FramingFailure(e))
      case Success((codes, _)) =>
        match DecodeBuffer(header.metadata, codes)
        case Failure(e) => Failure(CodecFailure(e))
        case Success(output) => Success(output)
  }

  /** Every input survives a trip through a compressed file. */
  lemma FileRoundTrip(input: seq<byte>)
    requires |input| < U64_LIMIT
    ensures CompressFile(input).Success?
    ensures DecompressFile(CompressFile(input).value) == Success(input)
  {
    RoundTrip(input);
    CodesAtMostInput(input);
    var result := EncodeBuffer(input).value;
    var count := |result.codes|;
    ModBelow(count, U64_LIMIT);
    var codes := CodesOnto(result.codes, []);
    ReadFileHeaderOfWrite(result.metadata, count, codes);
    ReadCodeStreamOfWrite(result.codes, []);
  }

  /** Anything after the code stream is ignored. */
  lemma DecompressIgnoresTrailing(s: seq<byte>, t: seq<byte>)
    requires DecompressFile(s).Success?
    ensures DecompressFile(s + t) == DecompressFile(s)
  {
    var v := ReadFileHeader(s).value;
    ReadFileHeaderAppend(s, t);
    ReadCodeStreamAppend(v.1, v.0.codeCount, t);
  }
}
