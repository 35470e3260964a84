/**
  The MSB-first bit packer and reader of the frequency-tree codec
  (`BitWriter` and `BitReader`). A writer is a buffer of complete bytes plus
  a partial byte `current` holding `bitCount` bits; a reader is a cursor
  `(byteIndex, bitIndex)` into a byte buffer.
*/
module BitStream {
  import opened Results
  import opened Bytes

  function Pow2(n: nat): (r: nat)
    ensures r > 0
  {
    if n == 0 then 1 else 2 * Pow2(n - 1)
  }

  function BitValue(b: bool): nat {
    if b then 1 else 0
  }

  /** The low `k` bits of `v`, most significant first. */
  function LowBits(v: nat, k: nat): (r: seq<bool>)
    ensures |r| == k
  {
    if k == 0 then [] else LowBits(v / 2, k - 1) + [v % 2 == 1]
  }

  /** Bit `i` of `b` counting from the most significant, extracted as `(b >> (7 - i)) & 1`. */
  function BitAt(b: byte, i: nat): bool
    requires i < 8
  {
    (b / Pow2(7 - i)) % 2 == 1
  }

  /** Every bit of a byte buffer, most significant bit of each byte first. */
  function Unpack(data: seq<byte>): (r: seq<bool>)
    ensures |r| == 8 * |data|
  {
    if |data| == 0 then [] else Unpack(data[..|data| - 1]) + LowBits(data[|data| - 1], 8)
  }

  function Zeros(n: nat): (r: seq<bool>)
    ensures |r| == n
    ensures forall i :: 0 <= i < n ==> !r[i]
  {
    seq(n, _ => false)
  }

  // ---------------------------------------------------------------------------
  // Arithmetic facts about bits

  lemma DivUnique(v: int, d: int, q: int, r: int)
    requires d > 0 && 0 <= r < d && v == d * q + r
    ensures v / d == q && v % d == r
  {
    var q', r' := v / d, v % d;
    assert v == d * q' + r';
    if q' > q {
      MulAtLeast(d, q' - q);
      assert false;
    } else if q' < q {
      MulAtLeast(d, q - q');
      assert false;
    }
  }

  lemma MulAtLeast(d: int, k: int)
    requires d > 0 && k >= 1
    ensures d * k >= d
  {
  }

  lemma Pow2Eight()
    ensures Pow2(8) == 256
  {
    assert Pow2(2) == 4;
    assert Pow2(4) == 16;
    assert Pow2(6) == 64;
  }

  lemma MulLess(a: nat, b: nat, c: nat)
    requires a < b && c > 0
    ensures a * c < b * c
  {
    assert b * c - a * c == (b - a) * c;
  }

  lemma DivDiv(v: nat, p: nat)
    requires p > 0
    ensures (v / 2) / p == v / (2 * p)
  {
    var q := v / 2;
    var a, c := q / p, q % p;
    assert v == (2 * p) * a + (2 * c + v % 2) by {
      assert v == 2 * q + v % 2;
      assert q == p * a + c;
    }
    DivUnique(v, 2 * p, a, 2 * c + v % 2);
  }

  lemma Pow2Add(a: nat, b: nat)
    ensures Pow2(a) * Pow2(b) == Pow2(a + b)
  {
    if a > 0 {
      Pow2Add(a - 1, b);
    }
  }

  lemma Pow2Mono(a: nat, b: nat)
    requires a <= b
    ensures Pow2(a) <= Pow2(b)
  {
    if a < b {
      Pow2Mono(a, b - 1);
    }
  }

  /** Appending bit `b` below `v` appends it to the bit string. */
  lemma LowBitsShiftIn(v: nat, k: nat, b: bool)
    ensures LowBits(2 * v + BitValue(b), k + 1) == LowBits(v, k) + [b]
  {
    var x := 2 * v + BitValue(b);
    assert x / 2 == v && (x % 2 == 1) == b;
  }

  /** The `i`-th bit of `LowBits(v, k)` is `(v >> (k - 1 - i)) & 1`. */
  lemma {:induction false} LowBitsAt(v: nat, k: nat, i: nat)
    requires i < k
    ensures LowBits(v, k)[i] == ((v / Pow2(k - 1 - i)) % 2 == 1)
  {
    if i < k - 1 {
      LowBitsAt(v / 2, k - 1, i);
      DivDiv(v, Pow2(k - 2 - i));
    }
  }

  /** The eight bits `readBit` extracts from a byte are its `LowBits`. */
  lemma ByteBits(b: byte)
    ensures Unpack([b]) == LowBits(b, 8)
  {
    assert [b][..0] == [];
  }

  /** Appending a byte appends its eight bits. */
  lemma UnpackSnoc(a: seq<byte>, c: byte)
    ensures Unpack(a + [c]) == Unpack(a) + LowBits(c, 8)
  {
    assert (a + [c])[..|a|] == a;
  }

  lemma {:induction false} UnpackAppend(a: seq<byte>, x: seq<byte>)
    ensures Unpack(a + x) == Unpack(a) + Unpack(x)
    decreases |x|
  {
    if |x| == 0 {
      assert a + x == a;
    } else {
      var init := x[..|x| - 1];
      assert (a + x)[..|a + x| - 1] == a + init;
      UnpackAppend(a, init);
    }
  }

  /** Bit `p` of the unpacked buffer is bit `p % 8` of byte `p / 8`, as `readBit` extracts it. */
  lemma {:induction false} UnpackAt(data: seq<byte>, p: nat)
    requires p < 8 * |data|
    ensures Unpack(data)[p] == BitAt(data[p / 8], p % 8)
  {
    var n := |data| - 1;
    var init := data[..n];
    if p < 8 * n {
      UnpackAt(init, p);
      DivUnique(p, 8, p / 8, p % 8);
    } else {
      var i := p - 8 * n;
      DivUnique(p, 8, n, i);
      LowBitsAt(data[n], 8, i);
    }
  }

  lemma {:induction false} LowBitsShiftLeft(v: nat, k: nat, m: nat)
    ensures LowBits(v * Pow2(m), k + m) == LowBits(v, k) + Zeros(m)
  {
    if m > 0 {
      LowBitsShiftLeft(v, k, m - 1);
      var x := v * Pow2(m - 1);
      DoubleShift(v, m);
      LowBitsShiftIn(x, k + m - 1, false);
      assert Zeros(m - 1) + [false] == Zeros(m);
    }
  }

  lemma DoubleShift(v: nat, m: nat)
    requires m > 0
    ensures v * Pow2(m) == 2 * (v * Pow2(m - 1)) + BitValue(false)
  {
    assert Pow2(m) == 2 * Pow2(m - 1);
  }

  // ---------------------------------------------------------------------------
  // BitWriter

  datatype BitWriter = BitWriter(buffer: seq<byte>, current: byte, bitCount: nat)

  /** The writer's invariant: fewer than 8 pending bits, and no stray high bits in `current`. */
  predicate WriterValid(w: BitWriter) {
    w.bitCount < 8 && w.current < Pow2(w.bitCount)
  }

  /** The bits a writer holds: its complete bytes, then its pending bits. */
  function Written(w: BitWriter): (r: seq<bool>)
    ensures |r| == 8 * |w.buffer| + w.bitCount
  {
    Unpack(w.buffer) + LowBits(w.current, w.bitCount)
  }

  const EmptyWriter: BitWriter := BitWriter([], 0, 0)

  /** Shifting a bit into fewer than 8 bits stays below 2^(k+1) and fits a byte. */
  lemma ShiftInFits(c: nat, k: nat, bit: bool)
    requires k < 8 && c < Pow2(k)
    ensures 2 * c + BitValue(bit) < Pow2(k + 1)
    ensures 2 * c + BitValue(bit) < 256
  {
    Pow2Mono(k + 1, 8);
    Pow2Eight();
  }

  /**
    `BitWriter::writeBit`: shift the bit in at the bottom, flush after the
    eighth. The source truncates the shifted value to 8 bits; with fewer than 8
    bits pending it is below 256, so the truncation never drops a bit.
  */
  function WriteBit(w: BitWriter, bit: bool): (r: BitWriter)
    requires WriterValid(w)
    ensures WriterValid(r)
    ensures r.bitCount == if w.bitCount == 7 then 0 else w.bitCount + 1
    ensures |r.buffer| == |w.buffer| + (if w.bitCount == 7 then 1 else 0)
    ensures w.buffer <= r.buffer
  {
    ShiftInFits(w.current, w.bitCount, bit);
    var c := w.current * 2 + BitValue(bit);
    if w.bitCount + 1 == 8 then BitWriter(w.buffer + [c], 0, 0)
    else BitWriter(w.buffer, c, w.bitCount + 1)
  }

  /** Shifting a bit into a partial byte appends it to the written stream. */
  lemma ShiftAppends(buffer: seq<byte>, c: byte, k: nat, bit: bool, c': byte)
    requires c' == 2 * c + BitValue(bit)
    ensures Written(BitWriter(buffer, c', k + 1)) == Written(BitWriter(buffer, c, k)) + [bit]
  {
    LowBitsShiftIn(c, k, bit);
  }

  /** Completing a byte moves its eight bits into the buffer, in the same order. */
  lemma FlushAppends(buffer: seq<byte>, c: byte, bit: bool, c': byte)
    requires c' == 2 * c + BitValue(bit)
    ensures Written(BitWriter(buffer + [c'], 0, 0)) == Written(BitWriter(buffer, c, 7)) + [bit]
  {
    LowBitsShiftIn(c, 7, bit);
    UnpackSnoc(buffer, c');
    assert LowBits(0, 0) == [];
  }

  /** `writeBit` appends exactly its bit to the written stream. */
  lemma WriteBitAppends(w: BitWriter, bit: bool)
    requires WriterValid(w)
    ensures Written(WriteBit(w, bit)) == Written(w) + [bit]
  {
    ShiftInFits(w.current, w.bitCount, bit);
    var c' := 2 * w.current + BitValue(bit);
    if w.bitCount == 7 {
      FlushAppends(w.buffer, w.current, bit, c');
    } else {
      ShiftAppends(w.buffer, w.current, w.bitCount, bit, c');
    }
  }

  /** `BitWriter::writeCode`: `writeBit` on every bit, in order. */
  function WriteCode(w: BitWriter, bits: seq<bool>): (r: BitWriter)
    requires WriterValid(w)
    ensures WriterValid(r)
    ensures |r.buffer| * 8 + r.bitCount == |w.buffer| * 8 + w.bitCount + |bits|
    decreases |bits|
  {
    if |bits| == 0 then w else WriteCode(WriteBit(w, bits[0]), bits[1..])
  }

  /** `writeCode` appends exactly its bits to the written stream. */
  lemma {:induction false} WriteCodeAppends(w: BitWriter, bits: seq<bool>)
    requires WriterValid(w)
    ensures Written(WriteCode(w, bits)) == Written(w) + bits
    decreases |bits|
  {
    if |bits| > 0 {
      var w1 := WriteBit(w, bits[0]);
      WriteBitAppends(w, bits[0]);
      WriteCodeAppends(w1, bits[1..]);
      AppendFirst(Written(w), bits);
    }
  }

  lemma AppendFirst<T>(a: seq<T>, x: seq<T>)
    requires |x| > 0
    ensures a + [x[0]] + x[1..] == a + x
  {
    assert [x[0]] + x[1..] == x;
  }

  /** Writing two codes in turn is writing their concatenation. */
  lemma {:induction false} WriteCodeAppend(w: BitWriter, a: seq<bool>, b: seq<bool>)
    requires WriterValid(w)
    ensures WriteCode(w, a + b) == WriteCode(WriteCode(w, a), b)
    decreases |a|
  {
    if |a| > 0 {
      assert (a + b)[0] == a[0] && (a + b)[1..] == a[1..] + b;
      WriteCodeAppend(WriteBit(w, a[0]), a[1..], b);
    } else {
      assert a + b == b;
    }
  }

  /** `BitWriter::finish`: flush a partial byte, its free low bits left at zero. */
  function Finish(w: BitWriter): (r: seq<byte>)
    requires WriterValid(w)
    ensures |r| == |w.buffer| + (if w.bitCount > 0 then 1 else 0)
    ensures Unpack(r) == Written(w) + Zeros(if w.bitCount > 0 then 8 - w.bitCount else 0)
  {
    if w.bitCount > 0 then
      FinishBits(w);
      w.buffer + [LastByte(w.current, w.bitCount)]
    else
      w.buffer
  }

  /** The flushed partial byte: `current << (8 - bitCount)`, truncated to 8 bits. */
  function LastByte(c: byte, k: nat): byte
    requires 0 < k < 8
  {
    (c * Pow2(8 - k)) % 256
  }

  lemma FinishBits(w: BitWriter)
    requires WriterValid(w) && w.bitCount > 0
    ensures Unpack(w.buffer + [LastByte(w.current, w.bitCount)]) == Written(w) + Zeros(8 - w.bitCount)
  {
    var last := LastByte(w.current, w.bitCount);
    PadByte(w.current, w.bitCount);
    assert last == w.current * Pow2(8 - w.bitCount);
    ByteBits(last);
    UnpackAppend(w.buffer, [last]);
  }

  /** Left-aligning `k` pending bits in a byte keeps them and adds `8 - k` zero bits. */
  lemma PadByte(c: nat, k: nat)
    requires 0 < k < 8 && c < Pow2(k)
    ensures c * Pow2(8 - k) < 256
    ensures LowBits(c * Pow2(8 - k), 8) == LowBits(c, k) + Zeros(8 - k)
  {
    Pow2Add(k, 8 - k);
    Pow2Eight();
    MulLess(c, Pow2(k), Pow2(8 - k));
    LowBitsShiftLeft(c, k, 8 - k);
  }

  /** The bytes a fresh writer produces for `bits`. */
  function Pack(bits: seq<bool>): seq<byte> {
    Finish(WriteCode(EmptyWriter, bits))
  }

  /** Packing uses ceil(|bits| / 8) bytes and pads with fewer than 8 zero bits. */
  lemma PackLayout(bits: seq<bool>)
    ensures |Pack(bits)| == (|bits| + 7) / 8
    ensures |bits| % 8 == 0 ==> 8 * |Pack(bits)| == |bits|
    ensures 8 * |Pack(bits)| - |bits| < 8
    ensures Unpack(Pack(bits)) == bits + Zeros(8 * |Pack(bits)| - |bits|)
  {
    var w := WriteCode(EmptyWriter, bits);
    WriteCodeAppends(EmptyWriter, bits);
    assert Written(EmptyWriter) == [];
    assert Written(w) == bits;
    assert |bits| == 8 * |w.buffer| + w.bitCount;
    if w.bitCount == 0 {
      assert |Pack(bits)| == |w.buffer|;
      DivUnique(|bits| + 7, 8, |w.buffer|, 7);
      DivUnique(|bits|, 8, |w.buffer|, 0);
    } else {
      assert |Pack(bits)| == |w.buffer| + 1;
      DivUnique(|bits| + 7, 8, |w.buffer| + 1, w.bitCount - 1);
      DivUnique(|bits|, 8, |w.buffer|, w.bitCount);
    }
  }

  // ---------------------------------------------------------------------------
  // BitReader

  datatype BitReader = BitReader(data: seq<byte>, byteIndex: nat, bitIndex: nat)

  /** The number of bits consumed so far. */
  function Position(r: BitReader): nat {
    8 * r.byteIndex + r.bitIndex
  }

  predicate ReaderValid(r: BitReader) {
    r.bitIndex < 8 && Position(r) <= 8 * |r.data|
  }

  function NewReader(data: seq<byte>): (r: BitReader)
    ensures ReaderValid(r) && Position(r) == 0 && r.data == data
  {
    BitReader(data, 0, 0)
  }

  /** `BitReader::readBit`: the next bit, or `None` once all `8 * size` bits are consumed. */
  function ReadBit(r: BitReader): (res: Option<(bool, BitReader)>)
    requires ReaderValid(r)
    ensures res.None? <==> Position(r) == 8 * |r.data|
    ensures res.Some? ==> res.value.0 == Unpack(r.data)[Position(r)]
    ensures res.Some? ==> ReaderValid(res.value.1) && res.value.1.data == r.data
    ensures res.Some? ==> Position(res.value.1) == Position(r) + 1
  {
    if r.byteIndex >= |r.data| then None
    else
      var bit := BitAt(r.data[r.byteIndex], r.bitIndex);
      DivUnique(Position(r), 8, r.byteIndex, r.bitIndex);
      UnpackAt(r.data, Position(r));
      if r.bitIndex + 1 == 8 then Some((bit, BitReader(r.data, r.byteIndex + 1, 0)))
      else Some((bit, BitReader(r.data, r.byteIndex, r.bitIndex + 1)))
  }

  /** Calling `readBit` until it returns false collects exactly the unread bits. */
  function ReadAll(r: BitReader): (bits: seq<bool>)
    requires ReaderValid(r)
    ensures bits == Unpack(r.data)[Position(r)..]
    decreases 8 * |r.data| - Position(r)
  {
    match ReadBit(r)
    case None => []
    case Some((bit, next)) => [bit] + ReadAll(next)
  }

  /** Reading back a finished writer yields its bits, then the zero padding. */
  lemma ReadBackFinish(w: BitWriter)
    requires WriterValid(w)
    ensures ReadAll(NewReader(Finish(w))) == Written(w) + Zeros(if w.bitCount > 0 then 8 - w.bitCount else 0)
  {
    assert Unpack(Finish(w))[0..] == Unpack(Finish(w));
  }

  /** Reading back a packed bit string yields the bits, then fewer than 8 zero bits, then the end. */
  lemma ReadBackPack(bits: seq<bool>)
    ensures exists pad: nat :: pad < 8 && ReadAll(NewReader(Pack(bits))) == bits + Zeros(pad)
  {
    PackLayout(bits);
    var pad := 8 * |Pack(bits)| - |bits|;
    assert ReadAll(NewReader(Pack(bits))) == bits + Zeros(pad);
  }
}
