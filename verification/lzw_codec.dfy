/**
  The dictionary codec of `lzw/codec.cpp`: a greedy longest-match encoder
  whose dictionary maps byte strings to codes, and a decoder that rebuilds
  the dictionary as a list indexed by code, one step behind the encoder.
*/
module LzwCodec {
  import opened Results
  import opened Bytes
  import opened LzwTypes

  /** What the encoder and decoder can throw. */
  datatype LzwError =
    | EmptyCurrentSequence    // encoder: a miss with nothing matched yet
    | MissingDictionaryEntry  // encoder: `dictionary.at` on an absent string
    | EmptyCodeStream         // decoder: nonzero size but no codes
    | InvalidFirstCode        // decoder: the first code is not a single byte
    | InvalidCode             // decoder: a later code is neither known nor the next one

  // ---------------------------------------------------------------------------
  // Encoder

  /** The encoder's seed: each single byte maps to its own value. */
  function InitialDictionary(): (d: map<seq<byte>, u16>)
    ensures forall b: byte :: [b] in d && d[[b]] == b
    ensures forall w :: w in d ==> |w| == 1 && d[w] == w[0]
  {
    map b: byte | 0 <= b < 0x100 :: [b] := b as u16
  }

  /** The encoder's variables between two iterations of its loop. */
  datatype EncoderState = EncoderState(dictionary: map<seq<byte>, u16>, nextCode: u16, current: seq<byte>, codes: seq<u16>)

  function InitialEncoder(): EncoderState {
    EncoderState(InitialDictionary(), InitialDictionarySize as u16, [], [])
  }

  /**
    One iteration of the encoder's loop on `b`: extend the match when the
    longer string is known; otherwise emit the code of the match, add the
    longer string under `nextCode` while there is room, and restart from `b`.
  */
  function EncodeStep(st: EncoderState, b: byte): (r: Result<EncoderState, LzwError>)
    ensures st.current + [b] in st.dictionary ==> r == Success(st.(current := st.current + [b]))
    ensures r.Success? && st.current + [b] !in st.dictionary ==>
      && r.value.current == [b]
      && st.current in st.dictionary
      && r.value.codes == st.codes + [st.dictionary[st.current]]
    ensures r.Success? ==> r.value.nextCode as int == if st.current + [b] !in st.dictionary && st.nextCode as int < MaxDictionarySize then st.nextCode as int + 1 else st.nextCode as int
    ensures r.Success? && r.value.nextCode != st.nextCode ==> r.value.dictionary == st.dictionary[st.current + [b] := st.nextCode]
    ensures r.Success? && r.value.nextCode == st.nextCode ==> r.value.dictionary == st.dictionary
  {
    var combined := st.current + [b];
    if combined in st.dictionary then Success(st.(current := combined))
    else if |st.current| == 0 then Failure(EmptyCurrentSequence)
    else if st.current !in st.dictionary then Failure(MissingDictionaryEntry)
    else
      var codes := st.codes + [st.dictionary[st.current]];
      if st.nextCode as int < MaxDictionarySize then
        Success(EncoderState(st.dictionary[combined := st.nextCode], st.nextCode + 1, [b], codes))
      else
        Success(EncoderState(st.dictionary, st.nextCode, [b], codes))
  }

  /** A step never drops or renumbers a string the dictionary already holds. */
  lemma EncodeStepKeepsEntries(st: EncoderState, b: byte, w: seq<byte>)
    requires EncodeStep(st, b).Success? && w in st.dictionary
    ensures w in EncodeStep(st, b).value.dictionary && EncodeStep(st, b).value.dictionary[w] == st.dictionary[w]
  {
  }

  /** The encoder's loop over `input[i..]`. */
  function EncodeLoop(st: EncoderState, input: seq<byte>, i: nat): (r: Result<EncoderState, LzwError>)
    requires i <= |input|
    decreases |input| - i
  {
    if i == |input| then Success(st)
    else
      var next :- EncodeStep(st, input[i]);
      EncodeLoop(next, input, i + 1)
  }

  /** Over the whole loop, no string the dictionary held is dropped or renumbered. */
  lemma {:induction false} EncodeLoopKeepsEntries(st: EncoderState, input: seq<byte>, i: nat, w: seq<byte>)
    requires i <= |input| && EncodeLoop(st, input, i).Success? && w in st.dictionary
    ensures w in EncodeLoop(st, input, i).value.dictionary
    ensures EncodeLoop(st, input, i).value.dictionary[w] == st.dictionary[w]
    decreases |input| - i
  {
    if i < |input| {
      EncodeStepKeepsEntries(st, input[i], w);
      EncodeLoopKeepsEntries(EncodeStep(st, input[i]).value, input, i + 1, w);
    }
  }

  /** After the loop: the code of the last match, if there is one. */
  function FlushCodes(st: EncoderState): (r: Result<seq<u16>, LzwError>)
    ensures |st.current| == 0 ==> r == Success(st.codes)
    ensures |st.current| > 0 && st.current in st.dictionary ==> r == Success(st.codes + [st.dictionary[st.current]])
  {
    if |st.current| == 0 then Success(st.codes)
    else if st.current in st.dictionary then Success(st.codes + [st.dictionary[st.current]])
    else Failure(MissingDictionaryEntry)
  }

  /**
    `encodeBuffer`: an empty input gives no codes and leaves `dictionarySize`
    at 0; otherwise `dictionarySize` is the encoder's final `nextCode`.
  */
  function EncodeBuffer(input: seq<byte>): (r: Result<CompressionResult, LzwError>)
    requires |input| < U64_LIMIT
    ensures r.Success? ==> r.value.metadata.originalSize == |input|
    ensures |input| == 0 ==> r == Success(CompressionResult(LzwMetadata(0, 0), []))
  {
    if |input| == 0 then Success(CompressionResult(LzwMetadata(0, 0), []))
    else
      var st :- EncodeLoop(InitialEncoder(), input, 0);
      var codes :- FlushCodes(st);
      Success(CompressionResult(LzwMetadata(|input| as u64, st.nextCode), codes))
  }

  // ---------------------------------------------------------------------------
  // Decoder

  /** The decoder's seed: entry `i` is the single byte `i`. */
  function InitialEntries(): (d: seq<seq<byte>>)
    ensures |d| == InitialDictionarySize
    ensures forall i :: 0 <= i < |d| ==> d[i] == [i as byte]
  {
    seq(InitialDictionarySize, i requires 0 <= i < InitialDictionarySize => [i as byte])
  }

  /** Every dictionary entry is a nonempty string. */
  predicate NonEmptyEntries(d: seq<seq<byte>>) {
    forall i :: 0 <= i < |d| ==> |d[i]| > 0
  }

  /**
    The decoder's loop from `codes[index]` on. A known code emits its entry;
    the code `nextCode` emits `current` followed by its first byte; anything
    else is an error. While there is room, `current` followed by the first
    byte of the new entry is appended.
  */
  function DecodeLoop(codes: seq<u16>, index: nat, dictionary: seq<seq<byte>>, nextCode: u16, current: seq<byte>, output: seq<byte>): (r: Result<seq<byte>, LzwError>)
    requires 1 <= index <= |codes|
    requires |dictionary| == nextCode as int <= MaxDictionarySize
    requires NonEmptyEntries(dictionary) && |current| > 0
    ensures r.Success? ==> output <= r.value
    ensures r.Failure? ==> r.error == InvalidCode
    decreases |codes| - index
  {
    if index == |codes| then Success(output)
    else
      var code := codes[index];
      var entry :-
        if (code as int) < |dictionary| then Success(dictionary[code])
        else if code == nextCode then Success(current + [current[0]])
        else Failure(InvalidCode);
      if nextCode as int < MaxDictionarySize then
        DecodeLoop(codes, index + 1, dictionary + [current + [entry[0]]], nextCode + 1, entry, output + entry)
      else
        DecodeLoop(codes, index + 1, dictionary, nextCode, entry, output + entry)
  }

  /**
    What one code contributes: a known code emits its entry, the code about
    to be assigned emits `current` followed by its own first byte, and any
    larger code is an error.
  */
  lemma DecodeLoopEmits(codes: seq<u16>, index: nat, dictionary: seq<seq<byte>>, nextCode: u16, current: seq<byte>, output: seq<byte>)
    requires 1 <= index < |codes|
    requires |dictionary| == nextCode as int <= MaxDictionarySize
    requires NonEmptyEntries(dictionary) && |current| > 0
    ensures codes[index] > nextCode ==> DecodeLoop(codes, index, dictionary, nextCode, current, output) == Failure(InvalidCode)
    ensures codes[index] < nextCode && DecodeLoop(codes, index, dictionary, nextCode, current, output).Success? ==>
      output + dictionary[codes[index]] <= DecodeLoop(codes, index, dictionary, nextCode, current, output).value
    ensures codes[index] == nextCode && DecodeLoop(codes, index, dictionary, nextCode, current, output).Success? ==>
      output + current + [current[0]] <= DecodeLoop(codes, index, dictionary, nextCode, current, output).value
  {
  }

  /** A code above the largest the dictionary can ever reach makes the loop fail. */
  lemma {:induction false} DecodeLoopRejects(codes: seq<u16>, index: nat, dictionary: seq<seq<byte>>, nextCode: u16, current: seq<byte>, output: seq<byte>, k: nat)
    requires 1 <= index <= k < |codes| && codes[k] as int > MaxDictionarySize
    requires |dictionary| == nextCode as int <= MaxDictionarySize
    requires NonEmptyEntries(dictionary) && |current| > 0
    ensures DecodeLoop(codes, index, dictionary, nextCode, current, output) == Failure(InvalidCode)
    decreases |codes| - index
  {
    var code := codes[index];
    if (code as int) < |dictionary| || code == nextCode {
      var entry := if (code as int) < |dictionary| then dictionary[code] else current + [current[0]];
      if nextCode as int < MaxDictionarySize {
        DecodeLoopRejects(codes, index + 1, dictionary + [current + [entry[0]]], nextCode + 1, entry, output + entry, k);
      } else {
        DecodeLoopRejects(codes, index + 1, dictionary, nextCode, entry, output + entry, k);
      }
    }
  }

  /** `output.resize(n)`: cut to `n` bytes, or pad with zero bytes up to `n`. */
  function Resize(output: seq<byte>, n: nat): (r: seq<byte>)
    ensures |r| == n
    ensures forall i :: 0 <= i < n && i < |output| ==> r[i] == output[i]
    ensures forall i :: |output| <= i < n ==> r[i] == 0
  {
    if |output| >= n then output[..n] else output + seq(n - |output|, _ => 0)
  }

  /**
    `decodeBuffer`: an empty original decodes to nothing whatever the codes;
    otherwise the codes must be nonempty and start with a single byte, and
    the output is reconciled with `originalSize`. The stored
    `dictionarySize` is never consulted.
  */
  function DecodeBuffer(metadata: LzwMetadata, codes: seq<u16>): (r: Result<seq<byte>, LzwError>)
    ensures r.Success? ==> |r.value| == metadata.originalSize
    ensures metadata.originalSize == 0 ==> r == Success([])
    ensures metadata.originalSize > 0 && |codes| == 0 ==> r == Failure(EmptyCodeStream)
    ensures metadata.originalSize > 0 && |codes| > 0 && codes[0] as int >= InitialDictionarySize ==> r == Failure(InvalidFirstCode)
    ensures r.Failure? && metadata.originalSize > 0 && |codes| > 0 && codes[0] as int < InitialDictionarySize ==> r.error == InvalidCode
  {
    if metadata.originalSize == 0 then Success([])
    else if |codes| == 0 then Failure(EmptyCodeStream)
    else if codes[0] as int >= InitialDictionarySize then Failure(InvalidFirstCode)
    else
      var current := InitialEntries()[codes[0]];
      var output :- DecodeLoop(codes, 1, InitialEntries(), InitialDictionarySize as u16, current, current);
      Success(Resize(output, metadata.originalSize))
  }

  /**
    A stream holding a code above 4096 anywhere never decodes (unless the
    recorded size is 0, when the codes are not looked at).
  */
  lemma DecodeRejectsOutOfRange(metadata: LzwMetadata, codes: seq<u16>, k: nat)
    requires metadata.originalSize > 0 && k < |codes| && codes[k] as int > MaxDictionarySize
    ensures DecodeBuffer(metadata, codes).Failure?
  {
    if k > 0 && codes[0] as int < InitialDictionarySize {
      DecodeLoopRejects(codes, 1, InitialEntries(), InitialDictionarySize as u16, InitialEntries()[codes[0]], InitialEntries()[codes[0]], k);
    }
  }

  /** The loop of the worked example below, for any seed that knows A and B but no longer string of them. */
  lemma ExampleLoop(d0: map<seq<byte>, u16>)
    requires [65] in d0 && [66] in d0 && d0[[65]] == 65 && d0[[66]] == 66
    requires [65, 66] !in d0 && [66, 65] !in d0 && [65, 66, 65] !in d0
    ensures EncodeLoop(EncoderState(d0, 256, [], []), [65, 66, 65, 66, 65, 66, 65], 0)
      == Success(EncoderState(d0[[65, 66] := 256][[66, 65] := 257][[65, 66, 65] := 258], 259, [65, 66, 65], [65, 66, 256]))
    ensures FlushCodes(EncoderState(d0[[65, 66] := 256][[66, 65] := 257][[65, 66, 65] := 258], 259, [65, 66, 65], [65, 66, 256]))
      == Success([65, 66, 256, 258])
  {
    var input: seq<byte> := [65, 66, 65, 66, 65, 66, 65];
    var s0 := EncoderState(d0, 256, [], []);
    var s1 := EncoderState(d0, 256, [65], []);
    var d1 := d0[[65, 66] := 256];
    var s2 := EncoderState(d1, 257, [66], [65]);
    var d2 := d1[[66, 65] := 257];
    var s3 := EncoderState(d2, 258, [65], [65, 66]);
    var s4 := s3.(current := [65, 66]);
    var d3 := d2[[65, 66, 65] := 258];
    var s5 := EncoderState(d3, 259, [65], [65, 66, 256]);
    var s6 := s5.(current := [65, 66]);
    var s7 := s6.(current := [65, 66, 65]);
    var a: seq<byte>, b: seq<byte> := [65], [66];
    assert s0.current + a == a;
    assert EncodeStep(s0, 65) == Success(s1);
    assert a + b == [65, 66];
    assert EncodeStep(s1, 66) == Success(s2);
    assert b + a == [66, 65];
    assert EncodeStep(s2, 65) == Success(s3);
    assert EncodeStep(s3, 66) == Success(s4);
    assert [65, 66] + a == [65, 66, 65] && s4.codes + [256] == [65, 66, 256];
    assert EncodeStep(s4, 65) == Success(s5);
    assert EncodeStep(s5, 66) == Success(s6);
    assert EncodeStep(s6, 65) == Success(s7);
    assert EncodeLoop(s7, input, 7) == Success(s7);
    assert EncodeLoop(s6, input, 6) == Success(s7);
    assert EncodeLoop(s5, input, 5) == Success(s7);
    assert EncodeLoop(s4, input, 4) == Success(s7);
    assert EncodeLoop(s3, input, 3) == Success(s7);
    assert EncodeLoop(s2, input, 2) == Success(s7);
    assert EncodeLoop(s1, input, 1) == Success(s7);
    assert s7.codes + [258] == [65, 66, 256, 258];
  }

  /**
    A worked example: "ABABABA" is cut into A, B, AB, ABA; the last segment is
    the string the encoder added only one step earlier.
  */
  lemma EncodeExample()
    ensures EncodeBuffer([65, 66, 65, 66, 65, 66, 65]) == Success(CompressionResult(LzwMetadata(7, 259), [65, 66, 256, 258]))
  {
    var d0 := InitialDictionary();
    assert [65] in d0 && [66] in d0;
    ExampleLoop(d0);
  }
}
