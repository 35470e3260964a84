/**
  The pieces both archive formats share: an 8-byte preamble (4 magic bytes,
  a version byte, 3 padding bytes) in front of every single-file header and
  every archive, and the length-prefixed relative path of an archive entry.
*/
module Framing {
  import opened Results
  import opened Bytes

  /** Bytes in a preamble: magic, version, padding. */
  const PreambleSize: nat := 8

  /** The three zero bytes the writers put after the version. */
  const Padding: seq<byte> := [0, 0, 0]

  lemma Pow256Widths()
    ensures Pow256(1) == 0x100
    ensures Pow256(2) == 0x1_0000
    ensures Pow256(4) == U32_LIMIT
    ensures Pow256(8) == U64_LIMIT
  {
    assert Pow256(2) == 0x1_0000;
    assert Pow256(4) == 0x1_0000 * Pow256(2) by {
      assert Pow256(4) == 256 * 256 * Pow256(2);
    }
    assert Pow256(8) == Pow256(4) * Pow256(4) by {
      assert Pow256(8) == 256 * 256 * 256 * 256 * Pow256(4);
    }
  }

  /** A `writeValue` of a one-byte value is that byte. */
  lemma EncodeByte(b: byte)
    ensures b < Pow256(1) && EncodeLE(b, 1) == [b]
  {
  }

  /** Magic, `writeValue(version)`, then three zero bytes. */
  function Preamble(magic: seq<byte>, version: byte): (r: seq<byte>)
    requires |magic| == 4
    ensures |r| == PreambleSize
    ensures r[..4] == magic && r[4] == version && r[5..] == Padding
  {
    EncodeByte(version);
    magic + EncodeLE(version, 1) + Padding
  }

  /**
    The reading side of a preamble: the magic (`short` on a short read,
    `bad` when it differs), `readValue<uint8_t>` for the version, then three
    padding bytes that are consumed without being looked at.
  */
  function ReadPreamble(s: seq<byte>, magic: seq<byte>, version: byte, short: FramingError, bad: FramingError): (r: Result<seq<byte>, FramingError>)
    requires |magic| == 4
    ensures r.Success? <==> |s| >= PreambleSize && s[..4] == magic && s[4] == version
    ensures r.Success? ==> r.value == s[PreambleSize..]
    ensures |s| < 4 ==> r == Failure(short)
    ensures |s| >= 4 && s[..4] != magic ==> r == Failure(bad)
    ensures |s| >= 5 && s[..4] == magic && s[4] != version ==> r == Failure(BadVersion)
    ensures |s| == 4 && s[..4] == magic ==> r == Failure(ShortValue)
    ensures 5 <= |s| < PreambleSize && s[..4] == magic && s[4] == version ==> r == Failure(ShortPadding)
  {
    var m :- ReadBytes(s, 4, short);
    if m.0 != magic then Failure(bad)
    else
      var v :- ReadValue(m.1, 1);
      if v.0 != version as nat then Failure(BadVersion)
      else
        var p :- ReadBytes(v.1, 3, ShortPadding);
        assert m.1 == s[4..] && v.1 == s[5..] && p.1 == s[8..];
        Success(p.1)
  }

  /** Reading a preamble that carries any three padding bytes succeeds and leaves exactly the rest. */
  lemma ReadPreambleAnyPadding(magic: seq<byte>, version: byte, pad: seq<byte>, rest: seq<byte>, short: FramingError, bad: FramingError)
    requires |magic| == 4 && |pad| == 3
    ensures ReadPreamble(magic + [version] + pad + rest, magic, version, short, bad) == Success(rest)
  {
    var s := magic + [version] + pad + rest;
    assert s[..4] == magic && s[4] == version && s[PreambleSize..] == rest;
  }

  /** Only the magic and the version decide a preamble; the padding bytes never matter. */
  lemma ReadPreambleIgnoresPadding(s: seq<byte>, pad: seq<byte>, magic: seq<byte>, version: byte, short: FramingError, bad: FramingError)
    requires |magic| == 4 && |s| >= PreambleSize && |pad| == 3
    ensures ReadPreamble(s[..5] + pad + s[PreambleSize..], magic, version, short, bad) == ReadPreamble(s, magic, version, short, bad)
  {
    var s' := s[..5] + pad + s[PreambleSize..];
    assert s'[..4] == s[..4] && s'[4] == s[4] && s'[PreambleSize..] == s[PreambleSize..];
  }

  /** A preamble read does not look past its 8 bytes. */
  lemma ReadPreambleAppend(s: seq<byte>, t: seq<byte>, magic: seq<byte>, version: byte, short: FramingError, bad: FramingError)
    requires |magic| == 4 && ReadPreamble(s, magic, version, short, bad).Success?
    ensures ReadPreamble(s + t, magic, version, short, bad) == Success(ReadPreamble(s, magic, version, short, bad).value + t)
  {
    assert (s + t)[..4] == s[..4] && (s + t)[4] == s[4] && (s + t)[PreambleSize..] == s[PreambleSize..] + t;
  }

  /** What the writers emit reads back. */
  lemma ReadPreambleOfWrite(magic: seq<byte>, version: byte, rest: seq<byte>, short: FramingError, bad: FramingError)
    requires |magic| == 4
    ensures ReadPreamble(Preamble(magic, version) + rest, magic, version, short, bad) == Success(rest)
  {
    EncodeByte(version);
    assert Preamble(magic, version) + rest == magic + [version] + Padding + rest;
    ReadPreambleAnyPadding(magic, version, Padding, rest, short, bad);
  }

  /**
    `writeArchiveEntry`'s path prefix: a u32 length, then the path bytes;
    a path longer than the largest u32 is rejected.
  */
  function WritePath(path: seq<byte>): (r: Result<seq<byte>, FramingError>)
    ensures r.Success? <==> |path| < U32_LIMIT
    ensures r.Failure? ==> r.error == PathTooLong
    ensures r.Success? ==> |r.value| == 4 + |path| && r.value[4..] == path
  {
    Pow256Widths();
    if |path| >= U32_LIMIT then Failure(PathTooLong)
    else Success(EncodeLE(|path|, 4) + path)
  }

  /** The reading side: `readValue<uint32_t>` for the length, then that many bytes or `ShortPath`. */
  function ReadPath(s: seq<byte>): (r: Result<(seq<byte>, seq<byte>), FramingError>)
    ensures r.Failure? ==> r.error == ShortValue || r.error == ShortPath
    ensures |s| < 4 ==> r == Failure(ShortValue)
    ensures |s| >= 4 && |s| - 4 < DecodeLE(s[..4]) ==> r == Failure(ShortPath)
    ensures |s| >= 4 && |s| - 4 >= DecodeLE(s[..4]) ==> r.Success? && |r.value.0| == DecodeLE(s[..4])
    ensures r.Success? ==> |r.value.0| < U32_LIMIT && s == EncodeLE(|r.value.0|, 4) + (r.value.0 + r.value.1)
  {
    Pow256Widths();
    var n :- ReadValue(s, 4);
    var p :- ReadBytes(n.1, n.0, ShortPath);
    Success(p)
  }

  /** A length-prefixed path reads back as the path, leaving exactly what follows it. */
  lemma ReadPathOfPrefix(path: seq<byte>, rest: seq<byte>)
    requires |path| < U32_LIMIT
    ensures |path| < Pow256(4)
    ensures ReadPath(EncodeLE(|path|, 4) + (path + rest)) == Success((path, rest))
  {
    Pow256Widths();
    ReadValueOfEncode(|path|, 4, path + rest);
    ReadBytesOfPrefix(path, rest, ShortPath);
  }

  lemma ReadPathOfWrite(path: seq<byte>, rest: seq<byte>)
    requires WritePath(path).Success?
    ensures ReadPath(WritePath(path).value + rest) == Success((path, rest))
  {
    Pow256Widths();
    assert WritePath(path).value + rest == EncodeLE(|path|, 4) + (path + rest);
    ReadPathOfPrefix(path, rest);
  }

  /** A path read does not look past the path. */
  lemma ReadPathAppend(s: seq<byte>, t: seq<byte>)
    requires ReadPath(s).Success?
    ensures ReadPath(s + t) == Success((ReadPath(s).value.0, ReadPath(s).value.1 + t))
  {
    var v := ReadPath(s).value;
    Pow256Widths();
    assert s + t == EncodeLE(|v.0|, 4) + (v.0 + (v.1 + t));
    ReadPathOfPrefix(v.0, v.1 + t);
  }

  // ---------------------------------------------------------------------------
  // Runs of records

  /**
    `count` records read one after another by `read`, as the archive readers'
    loops do: the first failure ends the run and is reported.
  */
  function ReadMany<T>(read: seq<byte> -> Result<(T, seq<byte>), FramingError>, s: seq<byte>, count: nat): (r: Result<(seq<T>, seq<byte>), FramingError>)
    ensures r.Success? ==> |r.value.0| == count
    decreases count
  {
    if count == 0 then Success(([], s))
    else
      var first :- read(s);
      var others :- ReadMany(read, first.1, count - 1);
      Success(([first.0] + others.0, others.1))
  }

  /** The records of `xs`, one after another, written by `write` in front of `rest`. */
  function WriteMany<T>(write: (T, seq<byte>) -> seq<byte>, xs: seq<T>, rest: seq<byte>): (r: seq<byte>)
    ensures |xs| == 0 ==> r == rest
  {
    if |xs| == 0 then rest else write(xs[0], WriteMany(write, xs[1..], rest))
  }

  /** Writing `xs + ys` is writing `xs` in front of the writing of `ys`. */
  lemma {:induction false} WriteManyConcat<T>(write: (T, seq<byte>) -> seq<byte>, xs: seq<T>, ys: seq<T>, rest: seq<byte>)
    ensures WriteMany(write, xs + ys, rest) == WriteMany(write, xs, WriteMany(write, ys, rest))
    decreases |xs|
  {
    if |xs| > 0 {
      assert (xs + ys)[0] == xs[0];
      assert (xs + ys)[1..] == xs[1..] + ys;
      WriteManyConcat(write, xs[1..], ys, rest);
    } else {
      assert xs + ys == ys;
    }
  }

  /** A run fails only with an error its record reader can produce. */
  lemma {:induction false} ReadManyError<T>(read: seq<byte> -> Result<(T, seq<byte>), FramingError>, s: seq<byte>, count: nat, errors: set<FramingError>)
    requires forall u :: read(u).Failure? ==> read(u).error in errors
    ensures ReadMany(read, s, count).Failure? ==> ReadMany(read, s, count).error in errors
    decreases count
  {
    if count > 0 && read(s).Success? {
      ReadManyError(read, read(s).value.1, count - 1, errors);
    }
  }

  /** When each record reads back, so does the whole run, leaving exactly `rest`. */
  lemma {:induction false} ReadManyOfWrite<T>(read: seq<byte> -> Result<(T, seq<byte>), FramingError>, write: (T, seq<byte>) -> seq<byte>, xs: seq<T>, rest: seq<byte>)
    requires forall i, t :: 0 <= i < |xs| ==> read(write(xs[i], t)) == Success((xs[i], t))
    ensures ReadMany(read, WriteMany(write, xs, rest), |xs|) == Success((xs, rest))
  {
    if |xs| > 0 {
      var others := WriteMany(write, xs[1..], rest);
      assert read(write(xs[0], others)) == Success((xs[0], others));
      forall i, t | 0 <= i < |xs[1..]|
        ensures read(write(xs[1..][i], t)) == Success((xs[1..][i], t))
      {
        assert xs[1..][i] == xs[i + 1];
      }
      ReadManyOfWrite(read, write, xs[1..], rest);
      assert [xs[0]] + xs[1..] == xs;
    }
  }

  /** When no record looks past its own bytes, neither does the run. */
  lemma {:induction false} ReadManyAppend<T>(read: seq<byte> -> Result<(T, seq<byte>), FramingError>, s: seq<byte>, count: nat, t: seq<byte>)
    requires forall u :: read(u).Success? ==> read(u + t) == Success((read(u).value.0, read(u).value.1 + t))
    requires ReadMany(read, s, count).Success?
    ensures ReadMany(read, s + t, count) == Success((ReadMany(read, s, count).value.0, ReadMany(read, s, count).value.1 + t))
    decreases count
  {
    if count > 0 {
      var first := read(s).value;
      assert read(s + t) == Success((first.0, first.1 + t));
      ReadManyAppend(read, first.1, count - 1, t);
    }
  }

  /** Whatever a run reads is the serialisation of the records it returns, when that holds of each record. */
  lemma {:induction false} ReadManyIsWrite<T>(read: seq<byte> -> Result<(T, seq<byte>), FramingError>, write: (T, seq<byte>) -> seq<byte>, s: seq<byte>, count: nat)
    requires forall u :: read(u).Success? ==> u == write(read(u).value.0, read(u).value.1)
    requires ReadMany(read, s, count).Success?
    ensures s == WriteMany(write, ReadMany(read, s, count).value.0, ReadMany(read, s, count).value.1)
    decreases count
  {
    if count > 0 {
      var first := read(s).value;
      ReadManyIsWrite(read, write, first.1, count - 1);
      var xs := ReadMany(read, s, count).value.0;
      var others := ReadMany(read, first.1, count - 1).value;
      assert xs == [first.0] + others.0;
      assert xs[1..] == others.0;
    }
  }

  /**
    A run of records that each take exactly `width` bytes succeeds exactly
    when `width * count` bytes are there, and consumes that many.
  */
  lemma {:induction false} ReadManyFixedWidth<T>(read: seq<byte> -> Result<(T, seq<byte>), FramingError>, width: nat, s: seq<byte>, count: nat)
    requires forall u :: read(u).Success? <==> |u| >= width
    requires forall u :: read(u).Success? ==> |read(u).value.1| == |u| - width
    ensures ReadMany(read, s, count).Success? <==> |s| >= width * count
    ensures ReadMany(read, s, count).Success? ==> |ReadMany(read, s, count).value.1| == |s| - width * count
    decreases count
  {
    if count > 0 {
      assert width * count == width + width * (count - 1);
      if |s| >= width {
        ReadManyFixedWidth(read, width, read(s).value.1, count - 1);
      }
    }
  }
}
