/**
  `encodeBuffer` and `decodeBuffer` of `huffman/codec.cpp`: byte counting into
  32-bit counters, tree and code table construction, bit packing, and the
  tree walk that reads the bits back.
*/
module HuffmanCodec {
  import opened Results
  import opened Bytes
  import opened BitStream
  import opened HuffmanTypes
  import opened HuffmanTree
  import opened HuffmanCodes

  /** The exceptions the codec throws. */
  datatype CodecError =
    | InvalidCodeTableEntry   // a symbol of the input has no code
    | EmptyTree               // nonzero original size but no nonzero frequency
    | UnexpectedEndOfStream   // the bits ran out before `originalSize` symbols
    | CorruptedTraversal      // a step was taken from a leaf
    | CounterOverflow         // every 32-bit counter wrapped to zero (corrected encoder only)

  // ---------------------------------------------------------------------------
  // Counting

  lemma ModSucc(a: nat, m: nat)
    requires m > 0
    ensures (a % m + 1) % m == (a + 1) % m
  {
    var q, r := a / m, a % m;
    assert a == m * q + r;
    if r + 1 < m {
      DivUnique(a + 1, m, q, r + 1);
    } else {
      assert r + 1 == m;
      assert a + 1 == m * (q + 1) + 0;
      DivUnique(a + 1, m, q + 1, 0);
    }
  }

  /** `++frequencies[value]` over the input: each counter is the occurrence count modulo 2^32. */
  function Tally(x: seq<byte>): (f: FrequencyTable)
    ensures forall v: byte :: f[v] == multiset(x)[v] % U32_LIMIT
  {
    if |x| == 0 then ZeroTable()
    else
      var init, v := x[..|x| - 1], x[|x| - 1];
      assert x == init + [v];
      var prev := Tally(init);
      TallyStep(init, v, prev);
      prev[v := (prev[v] + 1) % U32_LIMIT]
  }

  /** One `++frequencies[v]` keeps every counter equal to its count modulo 2^32. */
  lemma TallyStep(init: seq<byte>, v: byte, prev: FrequencyTable)
    requires forall u: byte :: prev[u] == multiset(init)[u] % U32_LIMIT
    ensures forall u: byte :: prev[v := (prev[v] + 1) % U32_LIMIT][u] == multiset(init + [v])[u] % U32_LIMIT
  {
    assert multiset(init + [v]) == multiset(init) + multiset{v};
    ModSucc(multiset(init)[v], U32_LIMIT);
  }

  /** No symbol occurs more often than the sequence is long. */
  lemma {:induction false} CountBound(x: seq<byte>, v: byte)
    ensures multiset(x)[v] <= |x|
  {
    if |x| > 0 {
      CountBound(x[1..], v);
      assert x == [x[0]] + x[1..];
      assert multiset(x) == multiset{x[0]} + multiset(x[1..]);
    }
  }

  /** Every counter wrapped to zero although the input is not empty. */
  predicate AllCountsWrapped(x: seq<byte>) {
    |x| > 0 && forall v: byte :: multiset(x)[v] % U32_LIMIT == 0
  }

  // ---------------------------------------------------------------------------
  // Encoding

  /** The concatenated codes of `x`, in input order. */
  function Encoded(table: CodeTable, x: seq<byte>): seq<bool> {
    if |x| == 0 then [] else table[x[0]] + Encoded(table, x[1..])
  }

  /** The loop of `encodeBuffer`: `writeCode` per input byte, throwing on an empty entry. */
  function WriteSymbols(w: BitWriter, table: CodeTable, x: seq<byte>): (r: Result<BitWriter, CodecError>)
    requires WriterValid(w)
    decreases |x|
    ensures r.Success? <==> forall i :: 0 <= i < |x| ==> table[x[i]] != []
    ensures r.Failure? ==> r.error == InvalidCodeTableEntry
    ensures r.Success? ==> WriterValid(r.value)
  {
    if |x| == 0 then Success(w)
    else if table[x[0]] == [] then Failure(InvalidCodeTableEntry)
    else
      var r := WriteSymbols(WriteCode(w, table[x[0]]), table, x[1..]);
      assert forall i :: 1 <= i < |x| ==> x[i] == x[1..][i - 1];
      r
  }

  /** A successful loop leaves the writer as one `writeCode` of all the codes would. */
  lemma {:induction false} WriteSymbolsIsWriteCode(w: BitWriter, table: CodeTable, x: seq<byte>)
    requires WriterValid(w) && WriteSymbols(w, table, x).Success?
    ensures WriteSymbols(w, table, x).value == WriteCode(w, Encoded(table, x))
    decreases |x|
  {
    if |x| > 0 {
      WriteSymbolsIsWriteCode(WriteCode(w, table[x[0]]), table, x[1..]);
      WriteCodeAppend(w, table[x[0]], Encoded(table, x[1..]));
    }
  }

  /** A successful loop appends the codes of the input, in order, to the written bits. */
  lemma WriteSymbolsWritten(w: BitWriter, table: CodeTable, x: seq<byte>)
    requires WriterValid(w) && WriteSymbols(w, table, x).Success?
    ensures Written(WriteSymbols(w, table, x).value) == Written(w) + Encoded(table, x)
  {
    WriteSymbolsIsWriteCode(w, table, x);
    WriteCodeAppends(w, Encoded(table, x));
  }

  /**
    `encodeBuffer`: counts, builds the tree and the code table, and packs the
    codes. An empty input, or counters that all wrapped to zero, give an empty
    payload.
  */
  function EncodeBuffer(input: seq<byte>): (r: Result<CompressionResult, CodecError>)
    requires |input| < U64_LIMIT
    ensures r.Success? ==> r.value.metadata.originalSize == |input|
    ensures |input| == 0 ==> r.Success? && r.value.metadata.frequencies == ZeroTable() && r.value.compressed == []
    ensures |input| > 0 && r.Success? ==> forall v: byte :: r.value.metadata.frequencies[v] == multiset(input)[v] % U32_LIMIT
    ensures AllCountsWrapped(input) ==> r.Success? && r.value.compressed == []
    ensures r.Failure? ==> r.error == InvalidCodeTableEntry
  {
    if |input| == 0 then
      Success(CompressionResult(HuffmanMetadata(ZeroTable(), 0), []))
    else
      var freqs := Tally(input);
      var metadata := HuffmanMetadata(freqs, |input|);
      match BuildTree(freqs)
      case None => Success(CompressionResult(metadata, []))
      case Some(root) =>
        var w :- WriteSymbols(EmptyWriter, CodeTableOf(root), input);
        Success(CompressionResult(metadata, Finish(w)))
  }

  // ---------------------------------------------------------------------------
  // Decoding

  /**
    The loop of `decodeBuffer` over a bit reader: step left on 0 and right on 1,
    emit the symbol at a leaf and restart at the root, until `n` symbols are out.
  */
  function Walk(root: Tree, current: Tree, reader: BitReader, output: seq<byte>, n: nat): (r: Result<seq<byte>, CodecError>)
    requires ReaderValid(reader) && |output| <= n
    requires forall x :: x in LeafSymbols(current) ==> x in LeafSymbols(root)
    ensures r.Success? ==> |r.value| == n && output <= r.value
    ensures r.Success? ==> forall i :: |output| <= i < n ==> r.value[i] in LeafSymbols(root)
    ensures r.Failure? ==> r.error == UnexpectedEndOfStream || r.error == CorruptedTraversal
    ensures r.Failure? && root.Node? && current.Node? ==> r.error == UnexpectedEndOfStream
    decreases 8 * |reader.data| - Position(reader)
  {
    if |output| >= n then Success(output)
    else match ReadBit(reader)
      case None => Failure(UnexpectedEndOfStream)
      case Some((bit, next)) =>
        if current.Leaf? then Failure(CorruptedTraversal)
        else
          var child := if bit then current.right else current.left;
          if child.Leaf? then
            assert child.symbol in LeafSymbols(current);
            Walk(root, root, next, output + [child.symbol], n)
          else Walk(root, child, next, output, n)
  }

  /**
    Each bit yields at most one symbol, so a walk that needs more symbols
    than there are unread bits runs out of stream.
  */
  lemma {:induction false} WalkRunsOut(root: Tree, current: Tree, reader: BitReader, output: seq<byte>, n: nat)
    requires ReaderValid(reader) && |output| <= n
    requires forall x :: x in LeafSymbols(current) ==> x in LeafSymbols(root)
    requires root.Node? && current.Node?
    requires n - |output| > 8 * |reader.data| - Position(reader)
    ensures Walk(root, current, reader, output, n) == Failure(UnexpectedEndOfStream)
    decreases 8 * |reader.data| - Position(reader)
  {
    match ReadBit(reader)
    case None =>
    case Some((bit, next)) =>
      var child := if bit then current.right else current.left;
      if child.Leaf? {
        WalkRunsOut(root, root, next, output + [child.symbol], n);
      } else {
        WalkRunsOut(root, child, next, output, n);
      }
  }

  /** The same loop over the sequence of unread bits. */
  function WalkBits(root: Tree, current: Tree, bits: seq<bool>, output: seq<byte>, n: nat): Result<seq<byte>, CodecError>
    decreases |bits|
  {
    if |output| >= n then Success(output)
    else if |bits| == 0 then Failure(UnexpectedEndOfStream)
    else if current.Leaf? then Failure(CorruptedTraversal)
    else
      var child := if bits[0] then current.right else current.left;
      if child.Leaf? then WalkBits(root, root, bits[1..], output + [child.symbol], n)
      else WalkBits(root, child, bits[1..], output, n)
  }

  /** Walking the reader is walking the bits it has left. */
  lemma {:induction false} WalkReadsBits(root: Tree, current: Tree, reader: BitReader, output: seq<byte>, n: nat)
    requires ReaderValid(reader) && |output| <= n
    requires forall x :: x in LeafSymbols(current) ==> x in LeafSymbols(root)
    ensures Walk(root, current, reader, output, n) == WalkBits(root, current, ReadAll(reader), output, n)
    decreases 8 * |reader.data| - Position(reader)
  {
    if |output| < n {
      match ReadBit(reader)
      case None =>
      case Some((bit, next)) =>
        assert ReadAll(reader) == [bit] + ReadAll(next);
        if current.Node? {
          var child := if bit then current.right else current.left;
          if child.Leaf? {
            WalkReadsBits(root, root, next, output + [child.symbol], n);
          } else {
            WalkReadsBits(root, child, next, output, n);
          }
        }
    }
  }

  /**
    `decodeBuffer`: nothing for size 0, an error for an empty tree, `n` copies of
    the only symbol of a one-leaf tree, and otherwise the tree walk.
  */
  function DecodeBuffer(metadata: HuffmanMetadata, compressed: seq<byte>): (r: Result<seq<byte>, CodecError>)
    ensures r.Success? ==> |r.value| == metadata.originalSize
    ensures r.Failure? ==> metadata.originalSize > 0
    ensures r.Failure? ==> r.error == EmptyTree || r.error == UnexpectedEndOfStream
  {
    if metadata.originalSize == 0 then Success([])
    else match BuildTree(metadata.frequencies)
      case None => Failure(EmptyTree)
      case Some(root) =>
        if root.Leaf? then
          Success(seq(metadata.originalSize, _ => root.symbol))
        else
          Walk(root, root, NewReader(compressed), [], metadata.originalSize)
  }

  /**
    With two or more symbols in the table every symbol costs at least one bit,
    so a payload of fewer than `originalSize` bits is cut short.
  */
  lemma DecodeRunsOut(metadata: HuffmanMetadata, compressed: seq<byte>)
    requires |NonzeroSymbols(metadata.frequencies, 256)| >= 2
    requires 8 * |compressed| < metadata.originalSize
    ensures DecodeBuffer(metadata, compressed) == Failure(UnexpectedEndOfStream)
  {
    assert NonzeroSymbols(metadata.frequencies, 256)[0] in NonzeroSymbols(metadata.frequencies, 256);
    EmptyQueue(metadata.frequencies);
    var root := BuildTree(metadata.frequencies).value;
    BuildTreeLeaves(metadata.frequencies);
    WalkRunsOut(root, root, NewReader(compressed), [], metadata.originalSize);
  }

  /** Every decoded byte is a leaf of the tree rebuilt from the table. */
  lemma DecodedSymbolsAreLeaves(metadata: HuffmanMetadata, compressed: seq<byte>)
    requires DecodeBuffer(metadata, compressed).Success? && metadata.originalSize > 0
    ensures BuildTree(metadata.frequencies).Some?
    ensures forall i :: 0 <= i < |DecodeBuffer(metadata, compressed).value| ==>
              DecodeBuffer(metadata, compressed).value[i] in LeafSymbols(BuildTree(metadata.frequencies).value)
  {
    var root := BuildTree(metadata.frequencies).value;
    if root.Leaf? {
      assert LeafSymbols(root) == [root.symbol];
    }
  }

  /** Every decoded byte is a symbol with a nonzero frequency. */
  lemma DecodedSymbolsOccur(metadata: HuffmanMetadata, compressed: seq<byte>)
    requires DecodeBuffer(metadata, compressed).Success?
    ensures forall i :: 0 <= i < |DecodeBuffer(metadata, compressed).value| ==>
              metadata.frequencies[DecodeBuffer(metadata, compressed).value[i]] != 0
  {
    if metadata.originalSize > 0 {
      DecodedSymbolsAreLeaves(metadata, compressed);
      BuildTreeLeaves(metadata.frequencies);
    }
  }

  /** The empty-tree error is thrown exactly for a nonzero size with an all-zero table. */
  lemma DecodeEmptyTree(metadata: HuffmanMetadata, compressed: seq<byte>)
    ensures DecodeBuffer(metadata, compressed) == Failure(EmptyTree) <==>
              metadata.originalSize > 0 && forall v: byte :: metadata.frequencies[v] == 0
  {
  }

  /** With a single nonzero frequency the payload is ignored: the output repeats that symbol. */
  lemma DecodeSingleSymbol(metadata: HuffmanMetadata, compressed: seq<byte>)
    requires metadata.originalSize > 0 && |NonzeroSymbols(metadata.frequencies, 256)| == 1
    ensures DecodeBuffer(metadata, compressed) == Success(seq(metadata.originalSize, _ => NonzeroSymbols(metadata.frequencies, 256)[0]))
  {
    assert metadata.frequencies[NonzeroSymbols(metadata.frequencies, 256)[0]] != 0;
    LeafRootSymbol(metadata.frequencies);
  }

  lemma LeafRootSymbol(freqs: FrequencyTable)
    requires BuildTree(freqs).Some? && |NonzeroSymbols(freqs, 256)| == 1
    ensures BuildTree(freqs).value.Leaf?
    ensures NonzeroSymbols(freqs, 256)[0] == BuildTree(freqs).value.symbol
    ensures freqs[BuildTree(freqs).value.symbol] != 0
  {
    var root := BuildTree(freqs).value;
    BuildTreeLeaves(freqs);
    assert LeafSymbols(root) == [root.symbol];
    assert NonzeroSymbols(freqs, 256)[0] in LeafSymbols(root);
  }

  // ---------------------------------------------------------------------------
  // Decoding what was encoded

  /** Reading a symbol's code from anywhere on its path emits the symbol and returns to the root. */
  lemma {:induction false} WalkOneSymbol(root: Tree, t: Tree, s: byte, more: seq<bool>, output: seq<byte>, n: nat)
    requires t.Node? && s in LeafSymbols(t) && |output| < n
    ensures WalkBits(root, t, Path(t, s) + more, output, n) == WalkBits(root, root, more, output + [s], n)
  {
    var p := Path(t, s);
    var child := if s in LeafSymbols(t.left) then t.left else t.right;
    assert (p + more)[0] == p[0];
    assert (p + more)[1..] == Path(child, s) + more;
    if child.Node? {
      WalkOneSymbol(root, child, s, more, output, n);
    } else {
      assert Path(child, s) + more == more;
    }
  }

  /** The walk decodes a whole concatenation of codes, ignoring whatever follows it. */
  lemma {:induction false} WalkSymbols(root: Tree, x: seq<byte>, more: seq<bool>, output: seq<byte>)
    requires root.Node? && Distinct(LeafSymbols(root))
    requires forall i :: 0 <= i < |x| ==> x[i] in LeafSymbols(root)
    ensures WalkBits(root, root, Encoded(CodeTableOf(root), x) + more, output, |output| + |x|) == Success(output + x)
  {
    var n := |output| + |x|;
    if |x| == 0 {
      assert output + x == output;
    } else {
      var table := CodeTableOf(root);
      var rest := x[1..];
      var tail := Encoded(table, rest) + more;
      NodeCode(root, x[0]);
      assert Encoded(table, x) + more == Path(root, x[0]) + tail;
      WalkOneSymbol(root, root, x[0], tail, output, n);
      assert forall i :: 0 <= i < |rest| ==> rest[i] == x[i + 1];
      WalkSymbols(root, rest, more, output + [x[0]]);
      AppendFirst(output, x);
    }
  }

  /** A loop that found a code for every byte saw only the tree's symbols. */
  lemma EncodedSymbolsAreLeaves(input: seq<byte>, root: Tree)
    requires WriteSymbols(EmptyWriter, CodeTableOf(root), input).Success?
    ensures forall i :: 0 <= i < |input| ==> input[i] in LeafSymbols(root)
  {
    forall i | 0 <= i < |input|
      ensures input[i] in LeafSymbols(root)
    {
      assert CodeTableOf(root)[input[i]] != [];
    }
  }

  /** The walk over a packed concatenation of codes yields the symbols back. */
  lemma WalkDecodesPacked(root: Tree, input: seq<byte>, w: BitWriter)
    requires root.Node? && Distinct(LeafSymbols(root))
    requires forall i :: 0 <= i < |input| ==> input[i] in LeafSymbols(root)
    requires WriterValid(w) && Written(w) == Encoded(CodeTableOf(root), input)
    ensures Walk(root, root, NewReader(Finish(w)), [], |input|) == Success(input)
  {
    var pad := Zeros(if w.bitCount > 0 then 8 - w.bitCount else 0);
    var reader := NewReader(Finish(w));
    WalkReadsBits(root, root, reader, [], |input|);
    ReadBackFinish(w);
    WalkSymbolsFromRoot(root, input, pad);
  }

  /** From the root with nothing decoded yet, the walk decodes a whole concatenation of codes. */
  lemma WalkSymbolsFromRoot(root: Tree, x: seq<byte>, more: seq<bool>)
    requires root.Node? && Distinct(LeafSymbols(root))
    requires forall i :: 0 <= i < |x| ==> x[i] in LeafSymbols(root)
    ensures WalkBits(root, root, Encoded(CodeTableOf(root), x) + more, [], |x|) == Success(x)
  {
    var none: seq<byte> := [];
    WalkSymbols(root, x, more, none);
    assert none + x == x;
  }

  /** A one-leaf tree: every input byte is its symbol. */
  lemma SingleLeafInput(input: seq<byte>, root: Tree)
    requires root.Leaf? && forall i :: 0 <= i < |input| ==> input[i] in LeafSymbols(root)
    ensures seq(|input|, _ => root.symbol) == input
  {
    assert LeafSymbols(root) == [root.symbol];
  }

  /**
    Decoding inverts a successful encoding, unless every counter wrapped to
    zero: then the payload is empty and the tree cannot be rebuilt.
  */
  lemma DecodeEncode(input: seq<byte>)
    requires |input| < U64_LIMIT && EncodeBuffer(input).Success? && !AllCountsWrapped(input)
    ensures DecodeBuffer(EncodeBuffer(input).value.metadata, EncodeBuffer(input).value.compressed) == Success(input)
  {
    if |input| > 0 {
      var freqs := Tally(input);
      var enc := EncodeBuffer(input).value;
      assert enc.metadata == HuffmanMetadata(freqs, |input|);
      var v: byte :| multiset(input)[v] % U32_LIMIT != 0;
      assert freqs[v] != 0;
      var root := BuildTree(freqs).value;
      var table := CodeTableOf(root);
      var ws := WriteSymbols(EmptyWriter, table, input);
      assert ws.Success? && enc.compressed == Finish(ws.value);
      EncodedSymbolsAreLeaves(input, root);
      BuildTreeLeaves(freqs);
      if root.Leaf? {
        SingleLeafInput(input, root);
      } else {
        WriteSymbolsWritten(EmptyWriter, table, input);
        assert Written(EmptyWriter) == [];
        WalkDecodesPacked(root, input, ws.value);
      }
    }
  }

  /** Below 2^32 bytes every present symbol keeps a nonzero counter. */
  lemma SmallInputNoWrap(input: seq<byte>)
    requires |input| < U32_LIMIT
    ensures forall i :: 0 <= i < |input| ==> multiset(input)[input[i]] % U32_LIMIT != 0
  {
    forall i | 0 <= i < |input|
      ensures multiset(input)[input[i]] % U32_LIMIT != 0
    {
      assert input[i] in multiset(input);
      CountBound(input, input[i]);
    }
  }

  /** Every symbol of the tree has a nonempty code. */
  lemma TableCoversLeaves(root: Tree)
    requires Distinct(LeafSymbols(root))
    ensures forall s: byte :: s in LeafSymbols(root) ==> CodeTableOf(root)[s] != []
  {
    CodeTableOfSpec(root);
    if root.Leaf? {
      assert LeafSymbols(root) == [root.symbol];
    }
  }

  /** Below 2^32 bytes no counter wraps: encoding succeeds and decoding gives the input back. */
  lemma RoundTrip(input: seq<byte>)
    requires |input| < U32_LIMIT
    ensures EncodeBuffer(input).Success?
    ensures DecodeBuffer(EncodeBuffer(input).value.metadata, EncodeBuffer(input).value.compressed) == Success(input)
  {
    if |input| > 0 {
      var freqs := Tally(input);
      SmallInputNoWrap(input);
      assert !AllCountsWrapped(input) by {
        assert multiset(input)[input[0]] % U32_LIMIT != 0;
      }
      var root := BuildTree(freqs).value;
      BuildTreeLeaves(freqs);
      TableCoversLeaves(root);
      assert WriteSymbols(EmptyWriter, CodeTableOf(root), input).Success?;
      DecodeEncode(input);
    }
  }

  // ---------------------------------------------------------------------------
  // Counters that all wrap to zero

  /** `n` copies of one byte: that byte occurs `n` times and no other byte occurs. */
  lemma {:induction false} RepeatCount(n: nat, b: byte, v: byte)
    ensures multiset(seq(n, _ => b))[v] == if v == b then n else 0
  {
    if n > 0 {
      RepeatCount(n - 1, b, v);
      assert seq(n, _ => b) == seq(n - 1, _ => b) + [b];
    }
  }

  /**
    As written, an input whose counters all wrap (every byte occurring a
    multiple of 2^32 times) is "encoded" to an empty payload with an all-zero
    table, which the decoder rejects as an empty tree.
  */
  lemma WrappedInputIsLost(input: seq<byte>)
    requires |input| < U64_LIMIT && AllCountsWrapped(input)
    ensures EncodeBuffer(input).Success?
    ensures EncodeBuffer(input).value.compressed == []
    ensures DecodeBuffer(EncodeBuffer(input).value.metadata, EncodeBuffer(input).value.compressed) == Failure(EmptyTree)
  {
    var m := EncodeBuffer(input).value.metadata;
    assert forall v: byte :: m.frequencies[v] == 0;
    DecodeEmptyTree(m, []);
  }

  /** The smallest such input: 2^32 zero bytes. */
  lemma ZerosWrapAround()
    ensures AllCountsWrapped(seq(U32_LIMIT, _ => 0 as byte))
    ensures DecodeBuffer(EncodeBuffer(seq(U32_LIMIT, _ => 0 as byte)).value.metadata,
                         EncodeBuffer(seq(U32_LIMIT, _ => 0 as byte)).value.compressed) == Failure(EmptyTree)
  {
    var input := seq(U32_LIMIT, _ => 0 as byte);
    forall v: byte
      ensures multiset(input)[v] % U32_LIMIT == 0
    {
      RepeatCount(U32_LIMIT, 0, v);
    }
    WrappedInputIsLost(input);
  }

  /**
    The corrected encoder: when every counter wrapped it reports an error
    instead of a payload nobody can decode; otherwise it is `encodeBuffer`.
  */
  function EncodeBufferChecked(input: seq<byte>): (r: Result<CompressionResult, CodecError>)
    requires |input| < U64_LIMIT
    ensures r.Failure? <==> AllCountsWrapped(input) || EncodeBuffer(input).Failure?
    ensures r.Failure? ==> r.error == CounterOverflow || r.error == InvalidCodeTableEntry
    ensures AllCountsWrapped(input) <==> r == Failure(CounterOverflow)
    ensures !AllCountsWrapped(input) ==> r == EncodeBuffer(input)
  {
    if AllCountsWrapped(input) then Failure(CounterOverflow) else EncodeBuffer(input)
  }

  /** Whatever the corrected encoder accepts, the decoder gives back. */
  lemma CheckedRoundTrip(input: seq<byte>)
    requires |input| < U64_LIMIT && EncodeBufferChecked(input).Success?
    ensures DecodeBuffer(EncodeBufferChecked(input).value.metadata, EncodeBufferChecked(input).value.compressed) == Success(input)
  {
    DecodeEncode(input);
  }

  /** Below 2^32 bytes the correction changes nothing. */
  lemma CheckedAgreesOnSmallInput(input: seq<byte>)
    requires |input| < U32_LIMIT
    ensures EncodeBufferChecked(input) == EncodeBuffer(input)
    ensures EncodeBufferChecked(input).Success?
  {
    RoundTrip(input);
    if |input| > 0 {
      SmallInputNoWrap(input);
      assert multiset(input)[input[0]] % U32_LIMIT != 0;
    }
  }
}
