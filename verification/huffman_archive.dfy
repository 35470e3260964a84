/**
  The binary framing of `huffman/archive.cpp`: the 1048-byte single-file
  header ("GHUF"), the 12-byte archive header ("GHAR"), archive entries, and
  `readArchive`. Every multi-byte field is a little-endian `writeValue`.
*/
module HuffmanArchive {
  import opened Results
  import opened Bytes
  import opened Framing
  import opened HuffmanTypes

  /** Preamble, u64 originalSize, u64 compressedSize, 256 u32 counters. */
  const FileHeaderSize: nat := 1048
  /** Preamble, u32 file count. */
  const ArchiveHeaderSize: nat := 12

  // ---------------------------------------------------------------------------
  // Frequency tables

  /** `writeFrequencies`: each counter as a 4-byte `writeValue`, in symbol order. */
  function WriteFrequencies(f: seq<u32>): (r: seq<byte>)
    ensures |r| == 4 * |f|
  {
    Pow256Widths();
    if |f| == 0 then [] else EncodeLE(f[0], 4) + WriteFrequencies(f[1..])
  }

  /** `readFrequencies`: `n` 4-byte counters, each a `readValue<uint32_t>`. */
  function ReadFrequencies(s: seq<byte>, n: nat): (r: Result<(seq<u32>, seq<byte>), FramingError>)
    ensures r.Success? <==> |s| >= 4 * n
    ensures r.Failure? ==> r.error == ShortValue
    ensures r.Success? ==> |r.value.0| == n && |r.value.1| == |s| - 4 * n
  {
    Pow256Widths();
    if n == 0 then Success(([], s))
    else
      var v :- ReadValue(s, 4);
      var rest :- ReadFrequencies(v.1, n - 1);
      Success(([v.0 as u32] + rest.0, rest.1))
  }

  /** Reading the counters back from what was written gives the same counters. */
  lemma {:induction false} ReadFrequenciesOfWrite(f: seq<u32>, rest: seq<byte>)
    ensures ReadFrequencies(WriteFrequencies(f) + rest, |f|) == Success((f, rest))
  {
    Pow256Widths();
    if |f| > 0 {
      var tail := WriteFrequencies(f[1..]) + rest;
      assert WriteFrequencies(f) + rest == EncodeLE(f[0], 4) + tail;
      ReadValueOfEncode(f[0], 4, tail);
      ReadFrequenciesOfWrite(f[1..], rest);
      assert [f[0]] + f[1..] == f;
    } else {
      assert WriteFrequencies(f) + rest == rest;
    }
  }

  /** Whatever the reader accepts is the serialisation of what it returns. */
  lemma {:induction false} ReadFrequenciesIsWrite(s: seq<byte>, n: nat)
    requires ReadFrequencies(s, n).Success?
    ensures s == WriteFrequencies(ReadFrequencies(s, n).value.0) + ReadFrequencies(s, n).value.1
  {
    Pow256Widths();
    if n > 0 {
      var v := ReadValue(s, 4).value;
      var r := ReadFrequencies(v.1, n - 1).value;
      ReadFrequenciesIsWrite(v.1, n - 1);
      var f := ReadFrequencies(s, n).value.0;
      assert f == [v.0 as u32] + r.0;
      assert f[1..] == r.0;
    }
  }

  // ---------------------------------------------------------------------------
  // The fields a single-file header and an archive record share

  /** u64 originalSize, u64 payload length and the 256 counters, followed by `rest`. */
  function FieldsOnto(metadata: HuffmanMetadata, size: u64, rest: seq<byte>): (r: seq<byte>)
    ensures |r| == 1040 + |rest|
  {
    Pow256Widths();
    EncodeLE(metadata.originalSize, 8) + (EncodeLE(size, 8) + (WriteFrequencies(metadata.frequencies) + rest))
  }

  /** The reading side: two `readValue<uint64_t>` and `readFrequencies`. */
  function ReadFields(s: seq<byte>): (r: Result<(HuffmanMetadata, u64, seq<byte>), FramingError>)
    ensures r.Success? <==> |s| >= 1040
    ensures r.Failure? ==> r.error == ShortValue
    ensures r.Success? ==> |r.value.2| == |s| - 1040
  {
    Pow256Widths();
    var size :- ReadValue(s, 8);
    var compressed :- ReadValue(size.1, 8);
    var freqs :- ReadFrequencies(compressed.1, 256);
    Success((HuffmanMetadata(freqs.0, size.0 as u64), compressed.0 as u64, freqs.1))
  }

  lemma FieldsOntoAppend(metadata: HuffmanMetadata, size: u64, rest: seq<byte>, t: seq<byte>)
    ensures FieldsOnto(metadata, size, rest) + t == FieldsOnto(metadata, size, rest + t)
  {
  }

  lemma ReadFieldsOfOnto(metadata: HuffmanMetadata, size: u64, rest: seq<byte>)
    ensures ReadFields(FieldsOnto(metadata, size, rest)) == Success((metadata, size, rest))
  {
    Pow256Widths();
    var t2 := WriteFrequencies(metadata.frequencies) + rest;
    var t1 := EncodeLE(size, 8) + t2;
    ReadValueOfEncode(metadata.originalSize, 8, t1);
    ReadValueOfEncode(size, 8, t2);
    ReadFrequenciesOfWrite(metadata.frequencies, rest);
  }

  lemma ReadFieldsIsOnto(s: seq<byte>)
    requires ReadFields(s).Success?
    ensures s == FieldsOnto(ReadFields(s).value.0, ReadFields(s).value.1, ReadFields(s).value.2)
  {
    Pow256Widths();
    var size := ReadValue(s, 8).value;
    var compressed := ReadValue(size.1, 8).value;
    ReadFrequenciesIsWrite(compressed.1, 256);
  }

  // ---------------------------------------------------------------------------
  // Single-file header

  /** `writeFileHeader`: preamble "GHUF" v1, originalSize, compressedSize, frequencies. */
  function WriteFileHeader(metadata: HuffmanMetadata, compressedSize: u64): (r: seq<byte>)
    ensures |r| == FileHeaderSize
    ensures r[..PreambleSize] == Preamble(FileMagic, FormatVersion)
  {
    Preamble(FileMagic, FormatVersion) + FieldsOnto(metadata, compressedSize, [])
  }

  /**
    `readFileHeader`: the header and the unread rest. Succeeds exactly when
    1048 bytes are there and the magic and version match; the magic is checked
    before the version, and both before any metadata is read.
  */
  function ReadFileHeader(s: seq<byte>): (r: Result<(ParsedFileHeader, seq<byte>), FramingError>)
    ensures r.Success? <==> |s| >= FileHeaderSize && s[..4] == FileMagic && s[4] == FormatVersion
    ensures r.Success? ==> |r.value.1| == |s| - FileHeaderSize
    ensures |s| < 4 ==> r == Failure(ShortMagic)
    ensures |s| >= 4 && s[..4] != FileMagic ==> r == Failure(BadMagic)
    ensures |s| >= 5 && s[..4] == FileMagic && s[4] != FormatVersion ==> r == Failure(BadVersion)
    ensures r.Failure? ==> r.error in {ShortMagic, BadMagic, BadVersion, ShortValue, ShortPadding}
  {
    var body :- ReadPreamble(s, FileMagic, FormatVersion, ShortMagic, BadMagic);
    var fields :- ReadFields(body);
    Success((ParsedFileHeader(fields.0, fields.1), fields.2))
  }

  /** `readFileHeader(writeFileHeader(m, n) ++ rest)` returns `(m, n)` and leaves exactly `rest`. */
  lemma ReadFileHeaderOfWrite(metadata: HuffmanMetadata, compressedSize: u64, rest: seq<byte>)
    ensures ReadFileHeader(WriteFileHeader(metadata, compressedSize) + rest) == Success((ParsedFileHeader(metadata, compressedSize), rest))
  {
    var t := FieldsOnto(metadata, compressedSize, rest);
    FieldsOntoAppend(metadata, compressedSize, [], rest);
    assert [] + rest == rest;
    assert WriteFileHeader(metadata, compressedSize) + rest == Preamble(FileMagic, FormatVersion) + t;
    ReadPreambleOfWrite(FileMagic, FormatVersion, t, ShortMagic, BadMagic);
    ReadFieldsOfOnto(metadata, compressedSize, rest);
  }

  /** The header read does not look past its 1048 bytes. */
  lemma ReadFileHeaderAppend(s: seq<byte>, t: seq<byte>)
    requires ReadFileHeader(s).Success?
    ensures ReadFileHeader(s + t) == Success((ReadFileHeader(s).value.0, ReadFileHeader(s).value.1 + t))
  {
    var body := ReadPreamble(s, FileMagic, FormatVersion, ShortMagic, BadMagic).value;
    ReadPreambleAppend(s, t, FileMagic, FormatVersion, ShortMagic, BadMagic);
    var f := ReadFields(body).value;
    ReadFieldsIsOnto(body);
    FieldsOntoAppend(f.0, f.1, f.2, t);
    ReadFieldsOfOnto(f.0, f.1, f.2 + t);
  }

  /** The three padding bytes are consumed but never checked. */
  lemma FileHeaderIgnoresPadding(s: seq<byte>, pad: seq<byte>)
    requires |s| >= PreambleSize && |pad| == 3
    ensures ReadFileHeader(s[..5] + pad + s[PreambleSize..]) == ReadFileHeader(s)
  {
    ReadPreambleIgnoresPadding(s, pad, FileMagic, FormatVersion, ShortMagic, BadMagic);
  }

  // ---------------------------------------------------------------------------
  // Archives

  /** `writeArchiveHeader`: preamble "GHAR" v1, then the u32 file count. */
  function WriteArchiveHeader(fileCount: u32): (r: seq<byte>)
    ensures |r| == ArchiveHeaderSize
    ensures r[..PreambleSize] == Preamble(ArchiveMagic, FormatVersion)
  {
    Pow256Widths();
    Preamble(ArchiveMagic, FormatVersion) + EncodeLE(fileCount, 4)
  }

  /** The record read back for an entry that was written. */
  function Pending(e: ArchiveEntry): PendingArchiveEntry {
    PendingArchiveEntry(e.relativePath, e.result.metadata, e.result.compressed)
  }

  /**
    The bytes of one record, followed by `rest`: u32 path length, path, u64
    originalSize, u64 payload length (a `static_cast` of the vector size),
    counters, payload. The path length is truncated to 32 bits the same way;
    `WriteArchiveEntry` rejects the paths for which that matters.
  */
  function EntryOnto(e: PendingArchiveEntry, rest: seq<byte>): (r: seq<byte>)
    ensures |r| == 4 + |e.relativePath| + 1040 + |e.compressed| + |rest|
  {
    Pow256Widths();
    EncodeLE(|e.relativePath| % U32_LIMIT, 4) + (e.relativePath + FieldsOnto(e.metadata, |e.compressed| % U64_LIMIT, e.compressed + rest))
  }

  lemma EntryOntoAppend(e: PendingArchiveEntry, rest: seq<byte>, t: seq<byte>)
    ensures EntryOnto(e, rest) + t == EntryOnto(e, rest + t)
  {
    FieldsOntoAppend(e.metadata, |e.compressed| % U64_LIMIT, e.compressed + rest, t);
  }

  /** `writeArchiveEntry`: rejects a path longer than the largest u32, otherwise emits the record. */
  function WriteArchiveEntry(e: ArchiveEntry): (r: Result<seq<byte>, FramingError>)
    ensures r.Success? <==> |e.relativePath| < U32_LIMIT
    ensures r.Failure? ==> r.error == PathTooLong
    ensures r.Success? ==> |r.value| == 4 + |e.relativePath| + 1040 + |e.result.compressed|
  {
    if |e.relativePath| >= U32_LIMIT then Failure(PathTooLong) else Success(EntryOnto(Pending(e), []))
  }

  /** One iteration of `readArchive`'s loop: path, sizes, counters, payload. */
  function ReadEntry(s: seq<byte>): (r: Result<(PendingArchiveEntry, seq<byte>), FramingError>)
    ensures r.Failure? ==> r.error in {ShortValue, ShortPath, ShortPayload}
    ensures r.Success? ==> |r.value.1| < |s|
  {
    var path :- ReadPath(s);
    var fields :- ReadFields(path.1);
    var payload :- ReadBytes(fields.2, fields.1, ShortPayload);
    Success((PendingArchiveEntry(path.0, fields.0, payload.0), payload.1))
  }

  /** Entries whose path and payload lengths fit their fields. */
  predicate EntryFits(e: PendingArchiveEntry) {
    |e.relativePath| < U32_LIMIT && |e.compressed| < U64_LIMIT
  }

  /** A record written for an entry that fits reads back as that entry. */
  lemma ReadEntryOfOnto(e: PendingArchiveEntry, rest: seq<byte>)
    requires EntryFits(e)
    ensures ReadEntry(EntryOnto(e, rest)) == Success((e, rest))
  {
    Pow256Widths();
    ModBelow(|e.relativePath|, U32_LIMIT);
    ModBelow(|e.compressed|, U64_LIMIT);
    ReadPathOfPrefix(e.relativePath, FieldsOnto(e.metadata, |e.compressed|, e.compressed + rest));
    ReadFieldsOfOnto(e.metadata, |e.compressed|, e.compressed + rest);
    ReadBytesOfPrefix(e.compressed, rest, ShortPayload);
  }

  /** Whatever `ReadEntry` accepts is the record of the entry it returns. */
  lemma ReadEntryIsOnto(s: seq<byte>)
    requires ReadEntry(s).Success?
    ensures EntryFits(ReadEntry(s).value.0)
    ensures s == EntryOnto(ReadEntry(s).value.0, ReadEntry(s).value.1)
  {
    var path := ReadPath(s).value;
    ReadFieldsIsOnto(path.1);
    ModBelow(|path.0|, U32_LIMIT);
    ModBelow(ReadFields(path.1).value.1, U64_LIMIT);
  }

  /** A record read does not look past its payload. */
  lemma ReadEntryAppend(s: seq<byte>, t: seq<byte>)
    requires ReadEntry(s).Success?
    ensures ReadEntry(s + t) == Success((ReadEntry(s).value.0, ReadEntry(s).value.1 + t))
  {
    var v := ReadEntry(s).value;
    ReadEntryIsOnto(s);
    EntryOntoAppend(v.0, v.1, t);
    ReadEntryOfOnto(v.0, v.1 + t);
  }

  /** `readArchive`'s loop: exactly `count` records, in order. */
  function ReadEntries(s: seq<byte>, count: nat): (r: Result<(seq<PendingArchiveEntry>, seq<byte>), FramingError>)
    ensures r.Success? ==> |r.value.0| == count
    ensures r.Failure? ==> r.error in {ShortValue, ShortPath, ShortPayload}
  {
    ReadManyError(ReadEntry, s, count, {ShortValue, ShortPath, ShortPayload});
    ReadMany(ReadEntry, s, count)
  }

  /** The records of `entries`, one after another, followed by `rest`. */
  function EntriesOnto(entries: seq<PendingArchiveEntry>, rest: seq<byte>): seq<byte> {
    WriteMany(EntryOnto, entries, rest)
  }

  /** Records of entries that fit read back as those entries, leaving exactly `rest`. */
  lemma ReadEntriesOfOnto(entries: seq<PendingArchiveEntry>, rest: seq<byte>)
    requires forall i :: 0 <= i < |entries| ==> EntryFits(entries[i])
    ensures ReadEntries(EntriesOnto(entries, rest), |entries|) == Success((entries, rest))
  {
    forall i, t | 0 <= i < |entries|
      ensures ReadEntry(EntryOnto(entries[i], t)) == Success((entries[i], t))
    {
      ReadEntryOfOnto(entries[i], t);
    }
    ReadManyOfWrite(ReadEntry, EntryOnto, entries, rest);
  }

  /** The loop reads exactly its records: extra bytes only lengthen the rest. */
  lemma ReadEntriesAppend(s: seq<byte>, count: nat, t: seq<byte>)
    requires ReadEntries(s, count).Success?
    ensures ReadEntries(s + t, count) == Success((ReadEntries(s, count).value.0, ReadEntries(s, count).value.1 + t))
  {
    forall u | ReadEntry(u).Success?
      ensures ReadEntry(u + t) == Success((ReadEntry(u).value.0, ReadEntry(u).value.1 + t))
    {
      ReadEntryAppend(u, t);
    }
    ReadManyAppend(ReadEntry, s, count, t);
  }

  /** `readArchive`: preamble "GHAR" v1, the u32 file count, then that many records. */
  function ReadArchive(s: seq<byte>): (r: Result<seq<PendingArchiveEntry>, FramingError>)
    ensures |s| < 4 ==> r == Failure(ShortMagic)
    ensures |s| >= 4 && s[..4] != ArchiveMagic ==> r == Failure(BadMagic)
    ensures |s| >= 5 && s[..4] == ArchiveMagic && s[4] != FormatVersion ==> r == Failure(BadVersion)
    ensures r.Failure? ==> r.error in {ShortMagic, BadMagic, BadVersion, ShortPadding, ShortValue, ShortPath, ShortPayload}
    ensures r.Success? ==> |s| >= ArchiveHeaderSize && |r.value| == DecodeLE(s[PreambleSize..ArchiveHeaderSize])
  {
    var body :- ReadPreamble(s, ArchiveMagic, FormatVersion, ShortMagic, BadMagic);
    var count :- ReadValue(body, 4);
    assert body[..4] == s[PreambleSize..ArchiveHeaderSize];
    EncodeDecodeLE(body[..4]);
    var entries :- ReadEntries(count.1, count.0);
    Success(entries.0)
  }

  /** The records of `entries`, one after another; fails on the first path that is too long. */
  function WriteEntries(entries: seq<ArchiveEntry>): (r: Result<seq<byte>, FramingError>)
    ensures r.Success? <==> forall i :: 0 <= i < |entries| ==> |entries[i].relativePath| < U32_LIMIT
    ensures r.Failure? ==> r.error == PathTooLong
  {
    if |entries| == 0 then Success([])
    else
      var first :- WriteArchiveEntry(entries[0]);
      var others :- WriteEntries(entries[1..]);
      assert forall i :: 1 <= i < |entries| ==> entries[i] == entries[1..][i - 1];
      Success(first + others)
  }

  /** The records read back for `entries`. */
  function PendingAll(entries: seq<ArchiveEntry>): (r: seq<PendingArchiveEntry>)
    ensures |r| == |entries|
    ensures forall i :: 0 <= i < |entries| ==> r[i] == Pending(entries[i])
  {
    if |entries| == 0 then [] else [Pending(entries[0])] + PendingAll(entries[1..])
  }

  /** The records `WriteEntries` emits are those of the entries, in order. */
  lemma {:induction false} WriteEntriesOnto(entries: seq<ArchiveEntry>)
    requires WriteEntries(entries).Success?
    ensures WriteEntries(entries).value == EntriesOnto(PendingAll(entries), [])
  {
    if |entries| > 0 {
      WriteEntriesOnto(entries[1..]);
      var others := WriteEntries(entries[1..]).value;
      EntryOntoAppend(Pending(entries[0]), [], others);
      assert [] + others == others;
      assert PendingAll(entries)[1..] == PendingAll(entries[1..]);
    }
  }

  /**
    A whole archive: the archive header followed by one record per entry. The
    header's count is the entry count cast to u32, so it wraps modulo 2^32.
  */
  function WriteArchive(entries: seq<ArchiveEntry>): (r: Result<seq<byte>, FramingError>)
    ensures r.Success? <==> WriteEntries(entries).Success?
    ensures r.Success? ==> |r.value| >= ArchiveHeaderSize && r.value[..ArchiveHeaderSize] == WriteArchiveHeader(|entries| % U32_LIMIT)
  {
    var body :- WriteEntries(entries);
    Success(WriteArchiveHeader(|entries| % U32_LIMIT) + body)
  }

  /**
    Reading back any written archive gives its first `|entries| % 2^32` entries
    in order: with 2^32 entries or more the wrapped count hides the others.
  */
  lemma ReadArchiveOfWriteWrapped(entries: seq<ArchiveEntry>)
    requires WriteArchive(entries).Success?
    requires forall i :: 0 <= i < |entries| ==> |entries[i].result.compressed| < U64_LIMIT
    ensures ReadArchive(WriteArchive(entries).value) == Success(PendingAll(entries)[..|entries| % U32_LIMIT])
  {
    var k := |entries| % U32_LIMIT;
    ModAtMost(|entries|, U32_LIMIT);
    Pow256Widths();
    var body := WriteEntries(entries).value;
    var t := EncodeLE(k, 4) + body;
    assert WriteArchive(entries).value == Preamble(ArchiveMagic, FormatVersion) + t;
    ReadPreambleOfWrite(ArchiveMagic, FormatVersion, t, ShortMagic, BadMagic);
    assert ReadPreamble(WriteArchive(entries).value, ArchiveMagic, FormatVersion, ShortMagic, BadMagic) == Success(t);
    ReadValueOfEncode(k, 4, body);
    assert ReadValue(t, 4) == Success((k, body));
    ReadEntriesOfWritePrefix(entries, k);
  }

  /** The first `k` records of a written run read back as the first `k` entries. */
  lemma ReadEntriesOfWritePrefix(entries: seq<ArchiveEntry>, k: nat)
    requires k <= |entries| && WriteEntries(entries).Success?
    requires forall i :: 0 <= i < |entries| ==> |entries[i].result.compressed| < U64_LIMIT
    ensures ReadEntries(WriteEntries(entries).value, k).Success?
    ensures ReadEntries(WriteEntries(entries).value, k).value.0 == PendingAll(entries)[..k]
  {
    var pending := PendingAll(entries);
    WriteEntriesOnto(entries);
    var kept, hidden := pending[..k], pending[k..];
    assert pending == kept + hidden;
    WriteManyConcat(EntryOnto, kept, hidden, []);
    forall i | 0 <= i < |kept|
      ensures EntryFits(kept[i])
    {
      assert kept[i] == pending[i];
    }
    ReadEntriesOfOnto(kept, EntriesOnto(hidden, []));
  }

  /**
    Reading an archive written as `writeArchiveHeader(k)` and k records gives
    back the k entries in the same order, with the same path, metadata and payload.
  */
  lemma ReadArchiveOfWrite(entries: seq<ArchiveEntry>)
    requires |entries| < U32_LIMIT && WriteArchive(entries).Success?
    requires forall i :: 0 <= i < |entries| ==> |entries[i].result.compressed| < U64_LIMIT
    ensures ReadArchive(WriteArchive(entries).value) == Success(PendingAll(entries))
  {
    ReadArchiveOfWriteWrapped(entries);
    ModBelow(|entries|, U32_LIMIT);
    assert PendingAll(entries)[..|entries| % U32_LIMIT] == PendingAll(entries);
  }

  /** `readArchive` reads exactly `fileCount` records and never looks at what follows them. */
  lemma ReadArchiveIgnoresTrailing(s: seq<byte>, t: seq<byte>)
    requires ReadArchive(s).Success?
    ensures ReadArchive(s + t) == ReadArchive(s)
  {
    var body := ReadPreamble(s, ArchiveMagic, FormatVersion, ShortMagic, BadMagic).value;
    ReadPreambleAppend(s, t, ArchiveMagic, FormatVersion, ShortMagic, BadMagic);
    var count := ReadValue(body, 4).value;
    ReadValueAppend(body, 4, t);
    ReadEntriesAppend(count.1, count.0, t);
  }
}
