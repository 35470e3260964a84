/**
  Fixed-width unsigned integers and the little-endian field codec behind the
  binary framing. The source copies host memory with `writeValue`/`readValue`;
  this model assumes a little-endian host, so a `width`-byte field holds its
  least significant byte first.
*/
module Bytes {
  import opened Results

  type byte = x: int | 0 <= x < 0x100
  type u16 = x: int | 0 <= x < 0x1_0000
  type u32 = x: int | 0 <= x < 0x1_0000_0000
  type u64 = x: int | 0 <= x < 0x1_0000_0000_0000_0000

  const U32_LIMIT: int := 0x1_0000_0000
  const U64_LIMIT: int := 0x1_0000_0000_0000_0000

  /** Everything a parser of the framing can throw. */
  datatype FramingError =
    | ShortMagic      // fewer than 4 magic bytes
    | BadMagic        // magic differs from the expected constant
    | ShortValue      // `readValue` got fewer than sizeof(T) bytes
    | BadVersion      // version byte is not the supported format version
    | ShortPadding    // fewer than 3 padding bytes
    | ShortPath       // an archive path is cut short
    | ShortPayload    // a payload or code stream is cut short
    | PathTooLong     // a path longer than the largest u32

  /** 256 to the power `n`: one more than the largest `n`-byte value. */
  function Pow256(n: nat): (r: nat)
    ensures r > 0
  {
    if n == 0 then 1 else 256 * Pow256(n - 1)
  }

  /** The value of a little-endian byte string. */
  function DecodeLE(s: seq<byte>): (r: nat)
    ensures r < Pow256(|s|)
  {
    if |s| == 0 then 0 else s[0] + 256 * DecodeLE(s[1..])
  }

  /** `writeValue`: the `width` bytes of `x`, least significant first. */
  function EncodeLE(x: nat, width: nat): (r: seq<byte>)
    requires x < Pow256(width)
    ensures |r| == width
    ensures DecodeLE(r) == x
  {
    if width == 0 then []
    else
      assert x / 256 < Pow256(width - 1);
      [x % 256] + EncodeLE(x / 256, width - 1)
  }

  /** Truncating never makes a value larger. */
  lemma ModAtMost(x: nat, m: nat)
    requires m > 0
    ensures x % m <= x
  {
  }

  /** Truncating a value that already fits leaves it unchanged. */
  lemma ModBelow(x: nat, m: nat)
    requires x < m
    ensures x % m == x
  {
  }

  /** Decoding then re-encoding a field gives back the same bytes. */
  lemma {:induction false} EncodeDecodeLE(s: seq<byte>)
    ensures EncodeLE(DecodeLE(s), |s|) == s
  {
    if |s| > 0 {
      EncodeDecodeLE(s[1..]);
      var d := DecodeLE(s);
      assert d % 256 == s[0] && d / 256 == DecodeLE(s[1..]);
    }
  }

  /** `readValue<T>` with sizeof(T) == width: the field's value and the unread rest. */
  function ReadValue(s: seq<byte>, width: nat): (r: Result<(nat, seq<byte>), FramingError>)
    ensures r.Success? <==> |s| >= width
    ensures r.Failure? ==> r.error == ShortValue
    ensures r.Success? ==> r.value.0 < Pow256(width) && s == EncodeLE(r.value.0, width) + r.value.1
  {
    if |s| < width then Failure(ShortValue)
    else
      EncodeDecodeLE(s[..width]);
      assert s == s[..width] + s[width..];
      Success((DecodeLE(s[..width]), s[width..]))
  }

  /** Reading a field back from what `EncodeLE` wrote yields the value and leaves the rest. */
  lemma ReadValueOfEncode(x: nat, width: nat, rest: seq<byte>)
    requires x < Pow256(width)
    ensures ReadValue(EncodeLE(x, width) + rest, width) == Success((x, rest))
  {
    var s := EncodeLE(x, width) + rest;
    assert s[..width] == EncodeLE(x, width);
    assert s[width..] == rest;
  }

  /** A raw `input.read` of `n` bytes: the bytes and the rest, or `err` on a short read. */
  function ReadBytes(s: seq<byte>, n: nat, err: FramingError): (r: Result<(seq<byte>, seq<byte>), FramingError>)
    ensures r.Success? <==> |s| >= n
    ensures r.Failure? ==> r.error == err
    ensures r.Success? ==> |r.value.0| == n && s == r.value.0 + r.value.1
  {
    if |s| < n then Failure(err)
    else
      assert s == s[..n] + s[n..];
      Success((s[..n], s[n..]))
  }

  lemma ReadBytesOfPrefix(p: seq<byte>, rest: seq<byte>, err: FramingError)
    ensures ReadBytes(p + rest, |p|, err) == Success((p, rest))
  {
    assert (p + rest)[..|p|] == p;
    assert (p + rest)[|p|..] == rest;
  }

  /** A field read does not look past its width: extra bytes only lengthen the rest. */
  lemma ReadValueAppend(s: seq<byte>, width: nat, t: seq<byte>)
    requires ReadValue(s, width).Success?
    ensures ReadValue(s + t, width) == Success((ReadValue(s, width).value.0, ReadValue(s, width).value.1 + t))
  {
    var v := ReadValue(s, width).value;
    assert s + t == EncodeLE(v.0, width) + (v.1 + t);
    ReadValueOfEncode(v.0, width, v.1 + t);
  }

  lemma ReadBytesAppend(s: seq<byte>, n: nat, err: FramingError, t: seq<byte>)
    requires ReadBytes(s, n, err).Success?
    ensures ReadBytes(s + t, n, err) == Success((ReadBytes(s, n, err).value.0, ReadBytes(s, n, err).value.1 + t))
  {
    var v := ReadBytes(s, n, err).value;
    assert s + t == v.0 + (v.1 + t);
    ReadBytesOfPrefix(v.0, v.1 + t, err);
  }
}
