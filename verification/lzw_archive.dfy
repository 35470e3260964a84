/**
  The binary framing of `lzw/archive.cpp`: the 26-byte single-file header
  ("GLZW"), the 12-byte archive header ("GLZA"), archive entries, and
  `readArchive`. Every multi-byte field is a little-endian `writeValue`, and
  a code stream is the codes' memory, two little-endian bytes per code.
*/
module LzwArchive {
  import opened Results
  import opened Bytes
  import opened Framing
  import opened LzwTypes

  /** Preamble, u64 originalSize, u16 dictionarySize, u64 codeCount. */
  const FileHeaderSize: nat := 26
  /** Preamble, u32 file count. */
  const ArchiveHeaderSize: nat := 12
  /** Bytes after the preamble in a file header; the same fields follow the path of an archive entry. */
  const FieldsSize: nat := 18

  // ---------------------------------------------------------------------------
  // Code streams

  /** One code of a stream, followed by `rest`. */
  function CodeOnto(code: u16, rest: seq<byte>): (r: seq<byte>)
    ensures |r| == 2 + |rest|
  {
    Pow256Widths();
    EncodeLE(code, 2) + rest
  }

  /** One code read back from a stream. */
  function ReadCode(s: seq<byte>): (r: Result<(u16, seq<byte>), FramingError>)
    ensures r.Success? <==> |s| >= 2
    ensures r.Failure? ==> r.error == ShortValue
    ensures r.Success? ==> |r.value.1| == |s| - 2
  {
    Pow256Widths();
    var v :- ReadValue(s, 2);
    Success((v.0 as u16, v.1))
  }

  lemma ReadCodeOfOnto(code: u16, rest: seq<byte>)
    ensures ReadCode(CodeOnto(code, rest)) == Success((code, rest))
  {
    Pow256Widths();
    ReadValueOfEncode(code, 2, rest);
  }

  lemma ReadCodeIsOnto(s: seq<byte>)
    requires ReadCode(s).Success?
    ensures s == CodeOnto(ReadCode(s).value.0, ReadCode(s).value.1)
  {
    Pow256Widths();
  }

  /** The codes of a stream written in front of `rest`. */
  function CodesOnto(codes: seq<u16>, rest: seq<byte>): seq<byte> {
    WriteMany(CodeOnto, codes, rest)
  }

  lemma {:induction false} CodesOntoLength(codes: seq<u16>, rest: seq<byte>)
    ensures |CodesOnto(codes, rest)| == 2 * |codes| + |rest|
  {
    if |codes| > 0 {
      CodesOntoLength(codes[1..], rest);
    }
  }

  lemma {:induction false} CodesOntoAppend(codes: seq<u16>, rest: seq<byte>, t: seq<byte>)
    ensures CodesOnto(codes, rest) + t == CodesOnto(codes, rest + t)
  {
    if |codes| > 0 {
      CodesOntoAppend(codes[1..], rest, t);
    }
  }

  /**
    The code stream of a file or an archive entry: one read of `2 * count`
    bytes, failing with `ShortPayload` when fewer are left.
  */
  function ReadCodeStream(s: seq<byte>, count: nat): (r: Result<(seq<u16>, seq<byte>), FramingError>)
    ensures r.Success? <==> |s| >= 2 * count
    ensures r.Failure? ==> r.error == ShortPayload
    ensures r.Success? ==> |r.value.0| == count && |r.value.1| == |s| - 2 * count
  {
    if |s| < 2 * count then Failure(ShortPayload)
    else
      ReadManyFixedWidth(ReadCode, 2, s, count);
      ReadMany(ReadCode, s, count)
  }

  /** A stream of codes reads back as those codes, leaving exactly what follows. */
  lemma ReadCodeStreamOfWrite(codes: seq<u16>, rest: seq<byte>)
    ensures ReadCodeStream(CodesOnto(codes, rest), |codes|) == Success((codes, rest))
  {
    CodesOntoLength(codes, rest);
    forall i, t | 0 <= i < |codes|
      ensures ReadCode(CodeOnto(codes[i], t)) == Success((codes[i], t))
    {
      ReadCodeOfOnto(codes[i], t);
    }
    ReadManyOfWrite(ReadCode, CodeOnto, codes, rest);
  }

  /** Whatever the stream reader accepts is the serialisation of the codes it returns. */
  lemma ReadCodeStreamIsWrite(s: seq<byte>, count: nat)
    requires ReadCodeStream(s, count).Success?
    ensures s == CodesOnto(ReadCodeStream(s, count).value.0, ReadCodeStream(s, count).value.1)
  {
    forall u | ReadCode(u).Success?
      ensures u == CodeOnto(ReadCode(u).value.0, ReadCode(u).value.1)
    {
      ReadCodeIsOnto(u);
    }
    ReadManyIsWrite(ReadCode, CodeOnto, s, count);
  }

  /** A stream read does not look past its `2 * count` bytes. */
  lemma ReadCodeStreamAppend(s: seq<byte>, count: nat, t: seq<byte>)
    requires ReadCodeStream(s, count).Success?
    ensures ReadCodeStream(s + t, count) == Success((ReadCodeStream(s, count).value.0, ReadCodeStream(s, count).value.1 + t))
  {
    var v := ReadCodeStream(s, count).value;
    ReadCodeStreamIsWrite(s, count);
    CodesOntoAppend(v.0, v.1, t);
    ReadCodeStreamOfWrite(v.0, v.1 + t);
  }

  // ---------------------------------------------------------------------------
  // The fields a single-file header and an archive record share

  /** u64 originalSize, u16 dictionarySize and u64 codeCount, followed by `rest`. */
  function FieldsOnto(metadata: LzwMetadata, codeCount: u64, rest: seq<byte>): (r: seq<byte>)
    ensures |r| == FieldsSize + |rest|
  {
    Pow256Widths();
    EncodeLE(metadata.originalSize, 8) + (EncodeLE(metadata.dictionarySize, 2) + (EncodeLE(codeCount, 8) + rest))
  }

  /** The reading side: `readValue` of a u64, a u16 and a u64. */
  function ReadFields(s: seq<byte>): (r: Result<(LzwMetadata, u64, seq<byte>), FramingError>)
    ensures r.Success? <==> |s| >= FieldsSize
    ensures r.Failure? ==> r.error == ShortValue
    ensures r.Success? ==> |r.value.2| == |s| - FieldsSize
  {
    Pow256Widths();
    var size :- ReadValue(s, 8);
    var dictionary :- ReadValue(size.1, 2);
    var count :- ReadValue(dictionary.1, 8);
    Success((LzwMetadata(size.0 as u64, dictionary.0 as u16), count.0 as u64, count.1))
  }

  lemma FieldsOntoAppend(metadata: LzwMetadata, codeCount: u64, rest: seq<byte>, t: seq<byte>)
    ensures FieldsOnto(metadata, codeCount, rest) + t == FieldsOnto(metadata, codeCount, rest + t)
  {
  }

  lemma ReadFieldsOfOnto(metadata: LzwMetadata, codeCount: u64, rest: seq<byte>)
    ensures ReadFields(FieldsOnto(metadata, codeCount, rest)) == Success((metadata, codeCount, rest))
  {
    Pow256Widths();
    var t2 := EncodeLE(codeCount, 8) + rest;
    var t1 := EncodeLE(metadata.dictionarySize, 2) + t2;
    ReadValueOfEncode(metadata.originalSize, 8, t1);
    ReadValueOfEncode(metadata.dictionarySize, 2, t2);
    ReadValueOfEncode(codeCount, 8, rest);
  }

  lemma ReadFieldsIsOnto(s: seq<byte>)
    requires ReadFields(s).Success?
    ensures s == FieldsOnto(ReadFields(s).value.0, ReadFields(s).value.1, ReadFields(s).value.2)
  {
    Pow256Widths();
  }

  // ---------------------------------------------------------------------------
  // Single-file header

  /** `writeFileHeader`: preamble "GLZW" v1, originalSize, dictionarySize, codeCount. */
  function WriteFileHeader(metadata: LzwMetadata, codeCount: u64): (r: seq<byte>)
    ensures |r| == FileHeaderSize
    ensures r[..PreambleSize] == Preamble(FileMagic, FormatVersion)
  {
    Preamble(FileMagic, FormatVersion) + FieldsOnto(metadata, codeCount, [])
  }

  /**
    `readFileHeader`: the header and the unread rest. Succeeds exactly when
    26 bytes are there and the magic and version match; the magic is checked
    before the version, and both before any field is read.
  */
  function ReadFileHeader(s: seq<byte>): (r: Result<(ParsedFileHeader, seq<byte>), FramingError>)
    ensures r.Success? <==> |s| >= FileHeaderSize && s[..4] == FileMagic && s[4] == FormatVersion
    ensures r.Success? ==> |r.value.1| == |s| - FileHeaderSize
    ensures |s| < 4 ==> r == Failure(ShortMagic)
    ensures |s| >= 4 && s[..4] != FileMagic ==> r == Failure(BadMagic)
    ensures |s| >= 5 && s[..4] == FileMagic && s[4] != FormatVersion ==> r == Failure(BadVersion)
    ensures r.Failure? ==> r.error in {ShortMagic, BadMagic, BadVersion, ShortValue, ShortPadding}
  {
    var body :- ReadPreamble(s, FileMagic, FormatVersion, ShortMagic, BadMagic);
    var fields :- ReadFields(body);
    Success((ParsedFileHeader(fields.0, fields.1), fields.2))
  }

  /** `readFileHeader(writeFileHeader(m, n) ++ rest)` returns `(m, n)` and leaves exactly `rest`. */
  lemma ReadFileHeaderOfWrite(metadata: LzwMetadata, codeCount: u64, rest: seq<byte>)
    ensures ReadFileHeader(WriteFileHeader(metadata, codeCount) + rest) == Success((ParsedFileHeader(metadata, codeCount), rest))
  {
    var t := FieldsOnto(metadata, codeCount, rest);
    FieldsOntoAppend(metadata, codeCount, [], rest);
    assert [] + rest == rest;
    assert WriteFileHeader(metadata, codeCount) + rest == Preamble(FileMagic, FormatVersion) + t;
    ReadPreambleOfWrite(FileMagic, FormatVersion, t, ShortMagic, BadMagic);
    ReadFieldsOfOnto(metadata, codeCount, rest);
  }

  /** The header read does not look past its 26 bytes. */
  lemma ReadFileHeaderAppend(s: seq<byte>, t: seq<byte>)
    requires ReadFileHeader(s).Success?
    ensures ReadFileHeader(s + t) == Success((ReadFileHeader(s).value.0, ReadFileHeader(s).value.1 + t))
  {
    var body := ReadPreamble(s, FileMagic, FormatVersion, ShortMagic, BadMagic).value;
    ReadPreambleAppend(s, t, FileMagic, FormatVersion, ShortMagic, BadMagic);
    var f := ReadFields(body).value;
    ReadFieldsIsOnto(body);
    FieldsOntoAppend(f.0, f.1, f.2, t);
    ReadFieldsOfOnto(f.0, f.1, f.2 + t);
  }

  /** The three padding bytes are consumed but never checked. */
  lemma FileHeaderIgnoresPadding(s: seq<byte>, pad: seq<byte>)
    requires |s| >= PreambleSize && |pad| == 3
    ensures ReadFileHeader(s[..5] + pad + s[PreambleSize..]) == ReadFileHeader(s)
  {
    ReadPreambleIgnoresPadding(s, pad, FileMagic, FormatVersion, ShortMagic, BadMagic);
  }

  // ---------------------------------------------------------------------------
  // Archives

  /** `writeArchiveHeader`: preamble "GLZA" v1, then the u32 file count. */
  function WriteArchiveHeader(fileCount: u32): (r: seq<byte>)
    ensures |r| == ArchiveHeaderSize
    ensures r[..PreambleSize] == Preamble(ArchiveMagic, FormatVersion)
  {
    Pow256Widths();
    Preamble(ArchiveMagic, FormatVersion) + EncodeLE(fileCount, 4)
  }

  /** The record read back for an entry that was written. */
  function Pending(e: ArchiveEntry): PendingArchiveEntry {
    PendingArchiveEntry(e.relativePath, e.metadata, e.codes)
  }

  /**
    The bytes of one record, followed by `rest`: u32 path length, path, u64
    originalSize, u16 dictionarySize, u64 code count (a `static_cast` of the
    vector size), codes. The path length is truncated to 32 bits the same
    way; `WriteArchiveEntry` rejects the paths for which that matters.
  */
  function EntryOnto(e: PendingArchiveEntry, rest: seq<byte>): (r: seq<byte>)
  {
    Pow256Widths();
    EncodeLE(|e.relativePath| % U32_LIMIT, 4) + (e.relativePath + FieldsOnto(e.metadata, |e.codes| % U64_LIMIT, CodesOnto(e.codes, rest)))
  }

  lemma EntryOntoLength(e: PendingArchiveEntry, rest: seq<byte>)
    ensures |EntryOnto(e, rest)| == 4 + |e.relativePath| + FieldsSize + 2 * |e.codes| + |rest|
  {
    CodesOntoLength(e.codes, rest);
  }

  lemma EntryOntoAppend(e: PendingArchiveEntry, rest: seq<byte>, t: seq<byte>)
    ensures EntryOnto(e, rest) + t == EntryOnto(e, rest + t)
  {
    CodesOntoAppend(e.codes, rest, t);
    FieldsOntoAppend(e.metadata, |e.codes| % U64_LIMIT, CodesOnto(e.codes, rest), t);
  }

  /** `writeArchiveEntry`: rejects a path longer than the largest u32, otherwise emits the record. */
  function WriteArchiveEntry(e: ArchiveEntry): (r: Result<seq<byte>, FramingError>)
    ensures r.Success? <==> |e.relativePath| < U32_LIMIT
    ensures r.Failure? ==> r.error == PathTooLong
    ensures r.Success? ==> |r.value| == 4 + |e.relativePath| + FieldsSize + 2 * |e.codes|
  {
    if |e.relativePath| >= U32_LIMIT then Failure(PathTooLong)
    else
      EntryOntoLength(Pending(e), []);
      Success(EntryOnto(Pending(e), []))
  }

  /** One iteration of `readArchive`'s loop: path, metadata, code count, codes. */
  function ReadEntry(s: seq<byte>): (r: Result<(PendingArchiveEntry, seq<byte>), FramingError>)
    ensures r.Failure? ==> r.error in {ShortValue, ShortPath, ShortPayload}
    ensures r.Success? ==> |r.value.1| < |s|
  {
    var path :- ReadPath(s);
    var fields :- ReadFields(path.1);
    var codes :- ReadCodeStream(fields.2, fields.1);
    Success((PendingArchiveEntry(path.0, fields.0, codes.0), codes.1))
  }

  /** Entries whose path length and code count fit their fields. */
  predicate EntryFits(e: PendingArchiveEntry) {
    |e.relativePath| < U32_LIMIT && |e.codes| < U64_LIMIT
  }

  /** A record written for an entry that fits reads back as that entry. */
  lemma ReadEntryOfOnto(e: PendingArchiveEntry, rest: seq<byte>)
    requires EntryFits(e)
    ensures ReadEntry(EntryOnto(e, rest)) == Success((e, rest))
  {
    Pow256Widths();
    ModBelow(|e.relativePath|, U32_LIMIT);
    ModBelow(|e.codes|, U64_LIMIT);
    var codes := CodesOnto(e.codes, rest);
    ReadPathOfPrefix(e.relativePath, FieldsOnto(e.metadata, |e.codes|, codes));
    ReadFieldsOfOnto(e.metadata, |e.codes|, codes);
    ReadCodeStreamOfWrite(e.codes, rest);
  }

  /** Whatever `ReadEntry` accepts is the record of the entry it returns. */
  lemma ReadEntryIsOnto(s: seq<byte>)
    requires ReadEntry(s).Success?
    ensures EntryFits(ReadEntry(s).value.0)
    ensures s == EntryOnto(ReadEntry(s).value.0, ReadEntry(s).value.1)
  {
    var path := ReadPath(s).value;
    var fields := ReadFields(path.1).value;
    ReadFieldsIsOnto(path.1);
    ReadCodeStreamIsWrite(fields.2, fields.1);
    ModBelow(|path.0|, U32_LIMIT);
    ModBelow(fields.1, U64_LIMIT);
  }

  /** A record read does not look past its codes. */
  lemma ReadEntryAppend(s: seq<byte>, t: seq<byte>)
    requires ReadEntry(s).Success?
    ensures ReadEntry(s + t) == Success((ReadEntry(s).value.0, ReadEntry(s).value.1 + t))
  {
    var v := ReadEntry(s).value;
    ReadEntryIsOnto(s);
    EntryOntoAppend(v.0, v.1, t);
    ReadEntryOfOnto(v.0, v.1 + t);
  }

  /** `readArchive`'s loop: exactly `count` records, in order. */
  function ReadEntries(s: seq<byte>, count: nat): (r: Result<(seq<PendingArchiveEntry>, seq<byte>), FramingError>)
    ensures r.Success? ==> |r.value.0| == count
    ensures r.Failure? ==> r.error in {ShortValue, ShortPath, ShortPayload}
  {
    ReadManyError(ReadEntry, s, count, {ShortValue, ShortPath, ShortPayload});
    ReadMany(ReadEntry, s, count)
  }

  /** The records of `entries`, one after another, followed by `rest`. */
  function EntriesOnto(entries: seq<PendingArchiveEntry>, rest: seq<byte>): seq<byte> {
    WriteMany(EntryOnto, entries, rest)
  }

  /** Records of entries that fit read back as those entries, leaving exactly `rest`. */
  lemma ReadEntriesOfOnto(entries: seq<PendingArchiveEntry>, rest: seq<byte>)
    requires forall i :: 0 <= i < |entries| ==> EntryFits(entries[i])
    ensures ReadEntries(EntriesOnto(entries, rest), |entries|) == Success((entries, rest))
  {
    forall i, t | 0 <= i < |entries|
      ensures ReadEntry(EntryOnto(entries[i], t)) == Success((entries[i], t))
    {
      ReadEntryOfOnto(entries[i], t);
    }
    ReadManyOfWrite(ReadEntry, EntryOnto, entries, rest);
  }

  /** The loop reads exactly its records: extra bytes only lengthen the rest. */
  lemma ReadEntriesAppend(s: seq<byte>, count: nat, t: seq<byte>)
    requires ReadEntries(s, count).Success?
    ensures ReadEntries(s + t, count) == Success((ReadEntries(s, count).value.0, ReadEntries(s, count).value.1 + t))
  {
    forall u | ReadEntry(u).Success?
      ensures ReadEntry(u + t) == Success((ReadEntry(u).value.0, ReadEntry(u).value.1 + t))
    {
      ReadEntryAppend(u, t);
    }
    ReadManyAppend(ReadEntry, s, count, t);
  }

  /** `readArchive`: preamble "GLZA" v1, the u32 file count, then that many records. */
  function ReadArchive(s: seq<byte>): (r: Result<seq<PendingArchiveEntry>, FramingError>)
    ensures |s| < 4 ==> r == Failure(ShortMagic)
    ensures |s| >= 4 && s[..4] != ArchiveMagic ==> r == Failure(BadMagic)
    ensures |s| >= 5 && s[..4] == ArchiveMagic && s[4] != FormatVersion ==> r == Failure(BadVersion)
    ensures r.Failure? ==> r.error in {ShortMagic, BadMagic, BadVersion, ShortPadding, ShortValue, ShortPath, ShortPayload}
    ensures r.Success? ==> |s| >= ArchiveHeaderSize && |r.value| == DecodeLE(s[PreambleSize..ArchiveHeaderSize])
  {
    var body :- ReadPreamble(s, ArchiveMagic, FormatVersion, ShortMagic, BadMagic);
    var count :- ReadValue(body, 4);
    assert body[..4] == s[PreambleSize..ArchiveHeaderSize];
    EncodeDecodeLE(body[..4]);
    var entries :- ReadEntries(count.1, count.0);
    Success(entries.0)
  }

  /** The records of `entries`, one after another; fails on the first path that is too long. */
  function WriteEntries(entries: seq<ArchiveEntry>): (r: Result<seq<byte>, FramingError>)
    ensures r.Success? <==> forall i :: 0 <= i < |entries| ==> |entries[i].relativePath| < U32_LIMIT
    ensures r.Failure? ==> r.error == PathTooLong
  {
    if |entries| == 0 then Success([])
    else
      var first :- WriteArchiveEntry(entries[0]);
      var others :- WriteEntries(entries[1..]);
      assert forall i :: 1 <= i < |entries| ==> entries[i] == entries[1..][i - 1];
      Success(first + others)
  }

  /** The records read back for `entries`. */
  function PendingAll(entries: seq<ArchiveEntry>): (r: seq<PendingArchiveEntry>)
    ensures |r| == |entries|
    ensures forall i :: 0 <= i < |entries| ==> r[i] == Pending(entries[i])
  {
    if |entries| == 0 then [] else [Pending(entries[0])] + PendingAll(entries[1..])
  }

  /** The records `WriteEntries` emits are those of the entries, in order. */
  lemma {:induction false} WriteEntriesOnto(entries: seq<ArchiveEntry>)
    requires WriteEntries(entries).Success?
    ensures WriteEntries(entries).value == EntriesOnto(PendingAll(entries), [])
  {
    if |entries| > 0 {
      WriteEntriesOnto(entries[1..]);
      var others := WriteEntries(entries[1..]).value;
      EntryOntoAppend(Pending(entries[0]), [], others);
      assert [] + others == others;
      assert PendingAll(entries)[1..] == PendingAll(entries[1..]);
    }
  }

  /**
    A whole archive: the archive header followed by one record per entry. The
    header's count is the entry count cast to u32, so it wraps modulo 2^32.
  */
  function WriteArchive(entries: seq<ArchiveEntry>): (r: Result<seq<byte>, FramingError>)
    ensures r.Success? <==> WriteEntries(entries).Success?
    ensures r.Success? ==> |r.value| >= ArchiveHeaderSize && r.value[..ArchiveHeaderSize] == WriteArchiveHeader(|entries| % U32_LIMIT)
  {
    var body :- WriteEntries(entries);
    Success(WriteArchiveHeader(|entries| % U32_LIMIT) + body)
  }

  /**
    Reading back any written archive gives its first `|entries| % 2^32` entries
    in order: with 2^32 entries or more the wrapped count hides the others.
  */
  lemma ReadArchiveOfWriteWrapped(entries: seq<ArchiveEntry>)
    requires WriteArchive(entries).Success?
    requires forall i :: 0 <= i < |entries| ==> |entries[i].codes| < U64_LIMIT
    ensures ReadArchive(WriteArchive(entries).value) == Success(PendingAll(entries)[..|entries| % U32_LIMIT])
  {
    var k := |entries| % U32_LIMIT;
    ModAtMost(|entries|, U32_LIMIT);
    Pow256Widths();
    var body := WriteEntries(entries).value;
    var t := EncodeLE(k, 4) + body;
    assert WriteArchive(entries).value == Preamble(ArchiveMagic, FormatVersion) + t;
    ReadPreambleOfWrite(ArchiveMagic, FormatVersion, t, ShortMagic, BadMagic);
    assert ReadPreamble(WriteArchive(entries).value, ArchiveMagic, FormatVersion, ShortMagic, BadMagic) == Success(t);
    ReadValueOfEncode(k, 4, body);
    assert ReadValue(t, 4) == Success((k, body));
    ReadEntriesOfWritePrefix(entries, k);
  }

  /** The first `k` records of a written run read back as the first `k` entries. */
  lemma ReadEntriesOfWritePrefix(entries: seq<ArchiveEntry>, k: nat)
    requires k <= |entries| && WriteEntries(entries).Success?
    requires forall i :: 0 <= i < |entries| ==> |entries[i].codes| < U64_LIMIT
    ensures ReadEntries(WriteEntries(entries).value, k).Success?
    ensures ReadEntries(WriteEntries(entries).value, k).value.0 == PendingAll(entries)[..k]
  {
    var pending := PendingAll(entries);
    WriteEntriesOnto(entries);
    var kept, hidden := pending[..k], pending[k..];
    assert pending == kept + hidden;
    WriteManyConcat(EntryOnto, kept, hidden, []);
    forall i | 0 <= i < |kept|
      ensures EntryFits(kept[i])
    {
      assert kept[i] == pending[i];
    }
    ReadEntriesOfOnto(kept, EntriesOnto(hidden, []));
  }

  /**
    Reading an archive written as `writeArchiveHeader(k)` and k records gives
    back the k entries in the same order, with the same path, metadata and codes.
  */
  lemma ReadArchiveOfWrite(entries: seq<ArchiveEntry>)
    requires |entries| < U32_LIMIT && WriteArchive(entries).Success?
    requires forall i :: 0 <= i < |entries| ==> |entries[i].codes| < U64_LIMIT
    ensures ReadArchive(WriteArchive(entries).value) == Success(PendingAll(entries))
  {
    ReadArchiveOfWriteWrapped(entries);
    ModBelow(|entries|, U32_LIMIT);
    assert PendingAll(entries)[..|entries| % U32_LIMIT] == PendingAll(entries);
  }

  /** `readArchive` reads exactly `fileCount` records and never looks at what follows them. */
  lemma ReadArchiveIgnoresTrailing(s: seq<byte>, t: seq<byte>)
    requires ReadArchive(s).Success?
    ensures ReadArchive(s + t) == ReadArchive(s)
  {
    var body := ReadPreamble(s, ArchiveMagic, FormatVersion, ShortMagic, BadMagic).value;
    ReadPreambleAppend(s, t, ArchiveMagic, FormatVersion, ShortMagic, BadMagic);
    var count := ReadValue(body, 4).value;
    ReadValueAppend(body, 4, t);
    ReadEntriesAppend(count.1, count.0, t);
  }
}
