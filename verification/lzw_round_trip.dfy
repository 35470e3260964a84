/**
  Why the dictionary codec round-trips. The encoder cuts its input into
  segments, one per code. The dictionary that a list of segments determines
  (`Grow`) is the reference both sides are measured against: the encoder's
  map is always the inverse of it, and the decoder rebuilds it one entry
  behind, which is exactly the gap the "code == nextCode" case closes.
*/
module LzwRoundTrip {
  import opened Results
  import opened Bytes
  import opened LzwTypes
  import opened LzwCodec

  predicate NonEmptySegments(s: seq<seq<byte>>) {
    forall j :: 0 <= j < |s| ==> |s[j]| > 0
  }

  /** The segments written one after another. */
  function Concat(s: seq<seq<byte>>): seq<byte> {
    if |s| == 0 then [] else s[0] + Concat(s[1..])
  }

  lemma {:induction false} ConcatSnoc(s: seq<seq<byte>>, w: seq<byte>)
    ensures Concat(s + [w]) == Concat(s) + w
  {
    if |s| == 0 {
      assert [w][1..] == [];
    } else {
      assert (s + [w])[1..] == s[1..] + [w];
      ConcatSnoc(s[1..], w);
    }
  }

  /** The dictionary size after `n` entries would have been made, given the cap. */
  function Capacity(n: nat): nat {
    if n < MaxDictionarySize then n else MaxDictionarySize
  }

  /** Entries added for `n` segments: one per pair of consecutive segments, while there is room. */
  function Added(n: nat): nat {
    if n == 0 then 0 else Capacity(255 + n) - InitialDictionarySize
  }

  /**
    The dictionary a list of segments determines: the 256 single bytes, then,
    while there is room, each segment followed by the first byte of the next.
  */
  function Grow(s: seq<seq<byte>>): (d: seq<seq<byte>>)
    requires NonEmptySegments(s)
    ensures |d| == InitialDictionarySize + Added(|s|)
    ensures NonEmptyEntries(d)
    ensures forall i :: 0 <= i < InitialDictionarySize ==> d[i] == [i as byte]
    ensures forall i :: InitialDictionarySize <= i < |d| ==> d[i] == s[i - InitialDictionarySize] + [s[i - 255][0]]
  {
    InitialEntries() + seq(Added(|s|), k requires 0 <= k < Added(|s|) => s[k] + [s[k + 1][0]])
  }

  /** One more segment adds at most one entry, built from the last two segments. */
  lemma GrowSnoc(t: seq<seq<byte>>, w: seq<byte>)
    requires NonEmptySegments(t) && |w| > 0 && |t| >= 1
    ensures NonEmptySegments(t + [w])
    ensures Grow(t + [w]) == if |Grow(t)| < MaxDictionarySize then Grow(t) + [t[|t| - 1] + [w[0]]] else Grow(t)
  {
    var g, g' := Grow(t), Grow(t + [w]);
    var e := if |g| < MaxDictionarySize then g + [t[|t| - 1] + [w[0]]] else g;
    assert |g'| == |e|;
    forall i | 0 <= i < |g'|
      ensures g'[i] == e[i]
    {
      if i >= InitialDictionarySize {
        assert (t + [w])[i - InitialDictionarySize] == t[i - InitialDictionarySize];
      }
    }
  }

  /** The last segment matters only through its first byte. */
  lemma GrowLast(t: seq<seq<byte>>, u: seq<byte>, v: seq<byte>)
    requires NonEmptySegments(t) && |u| > 0 && |v| > 0 && u[0] == v[0]
    ensures NonEmptySegments(t + [u]) && NonEmptySegments(t + [v])
    ensures Grow(t + [u]) == Grow(t + [v])
  {
    assert NonEmptySegments(t + [u]) && NonEmptySegments(t + [v]);
    if |t| > 0 {
      GrowSnoc(t, u);
      GrowSnoc(t, v);
    } else {
      assert Grow(t + [u]) == InitialEntries() == Grow(t + [v]);
    }
  }

  /**
    `codes` encodes the segments `s`: code `j` was below the dictionary size
    the encoder had when it emitted it, and names segment `j`.
  */
  predicate ValidParse(s: seq<seq<byte>>, codes: seq<u16>) {
    && |s| == |codes|
    && NonEmptySegments(s)
    && forall j {:trigger codes[j]} :: 0 <= j < |s| ==> codes[j] as int < Capacity(256 + j) && codes[j] as int < |Grow(s)| && Grow(s)[codes[j]] == s[j]
  }

  // ---------------------------------------------------------------------------
  // Decoder

  lemma ConcatCons(s: seq<seq<byte>>, index: nat)
    requires index < |s|
    ensures Concat(s[index..]) == s[index] + Concat(s[index + 1..])
  {
    assert s[index..][1..] == s[index + 1..];
  }

  /** The entry the decoder makes at code `index` is the one the reference has there. */
  lemma DecoderEntry(s: seq<seq<byte>>, index: nat)
    requires NonEmptySegments(s) && 1 <= index < |s| && 255 + index < MaxDictionarySize
    ensures 255 + index < |Grow(s)| && Grow(s)[255 + index] == s[index - 1] + [s[index][0]]
  {
  }

  /**
    What the decoder finds at code `index`: either an entry it already has, or
    the one it is about to make, which is the last segment followed by its own
    first byte. The entry it then makes keeps its list a prefix of the reference.
  */
  lemma DecodeStep(s: seq<seq<byte>>, codes: seq<u16>, index: nat, d: seq<seq<byte>>)
    requires ValidParse(s, codes) && 1 <= index < |codes|
    requires d <= Grow(s) && |d| == Capacity(255 + index)
    ensures codes[index] as int < |d| ==> d[codes[index]] == s[index]
    ensures codes[index] as int >= |d| ==> codes[index] as int == |d| && s[index] == s[index - 1] + [s[index - 1][0]]
    ensures |d| < MaxDictionarySize ==> d + [s[index - 1] + [s[index][0]]] <= Grow(s)
    ensures |d| < MaxDictionarySize ==> |d| + 1 == Capacity(255 + index + 1)
  {
    var g := Grow(s);
    var code := codes[index] as int;
    assert code < Capacity(256 + index) && g[code] == s[index];
    if code < |d| {
      assert d[code] == g[code];
    }
    if |d| < MaxDictionarySize {
      DecoderEntry(s, index);
      assert g[..|d| + 1] == g[..|d|] + [g[|d|]];
    }
  }

  /**
    From code `index` on, a decoder holding a prefix of the reference with the
    size it has at that point, and the segment it emitted last, writes out the
    remaining segments.
  */
  lemma {:induction false} DecodeLoopParse(s: seq<seq<byte>>, codes: seq<u16>, index: nat, d: seq<seq<byte>>, output: seq<byte>)
    requires ValidParse(s, codes) && 1 <= index <= |codes|
    requires d <= Grow(s) && |d| == Capacity(255 + index) && NonEmptyEntries(d)
    ensures DecodeLoop(codes, index, d, |d| as u16, s[index - 1], output) == Success(output + Concat(s[index..]))
    decreases |codes| - index
  {
    if index == |codes| {
      assert s[index..] == [];
      assert output + [] == output;
    } else {
      var entry := s[index];
      DecodeStep(s, codes, index, d);
      if |d| < MaxDictionarySize {
        var d' := d + [s[index - 1] + [entry[0]]];
        DecodeLoopParse(s, codes, index + 1, d', output + entry);
      } else {
        DecodeLoopParse(s, codes, index + 1, d, output + entry);
      }
      ConcatCons(s, index);
      assert output + entry + Concat(s[index + 1..]) == output + Concat(s[index..]);
    }
  }

  lemma ResizeSame(x: seq<byte>)
    ensures Resize(x, |x|) == x
  {
  }

  /**
    The decoder inverts any valid parse: it outputs the concatenated segments,
    cut or zero-padded to the recorded size.
  */
  lemma DecodeParse(s: seq<seq<byte>>, codes: seq<u16>, metadata: LzwMetadata)
    requires ValidParse(s, codes) && |codes| > 0 && metadata.originalSize > 0
    ensures DecodeBuffer(metadata, codes) == Success(Resize(Concat(s), metadata.originalSize))
  {
    var g := Grow(s);
    var init := InitialEntries();
    assert init <= g by {
      assert g[..|init|] == init;
    }
    assert init[codes[0]] == s[0];
    DecodeLoopParse(s, codes, 1, init, s[0]);
    ConcatCons(s, 0);
    assert s[0..] == s;
  }

  // ---------------------------------------------------------------------------
  // Encoder

  /** The encoder's map is the inverse of the list `e`: same strings, same codes. */
  predicate MapMatches(dictionary: map<seq<byte>, u16>, e: seq<seq<byte>>) {
    && (forall i :: 0 <= i < |e| ==> e[i] in dictionary && dictionary[e[i]] as int == i)
    && (forall w :: w in dictionary ==> dictionary[w] as int < |e| && e[dictionary[w]] == w)
  }

  lemma MapMatchesInitial()
    ensures MapMatches(InitialDictionary(), InitialEntries())
  {
    var d, e := InitialDictionary(), InitialEntries();
    forall i | 0 <= i < |e|
      ensures e[i] in d && d[e[i]] as int == i
    {
      assert e[i] == [i as byte];
    }
  }

  /** Adding a new string under the next code keeps the map the inverse of the extended list. */
  lemma MapMatchesAdd(dictionary: map<seq<byte>, u16>, e: seq<seq<byte>>, w: seq<byte>, code: u16)
    requires MapMatches(dictionary, e) && w !in dictionary && code as int == |e|
    ensures MapMatches(dictionary[w := code], e + [w])
  {
    var d' := dictionary[w := code];
    var e' := e + [w];
    forall i | 0 <= i < |e'|
      ensures e'[i] in d' && d'[e'[i]] as int == i
    {
      if i < |e| {
        assert e'[i] == e[i] && e[i] != w;
      }
    }
  }

  /** The list the encoder's map stands for: the dictionary of the segments so far and the current match. */
  function Entries(s: seq<seq<byte>>, current: seq<byte>): (e: seq<seq<byte>>)
    requires NonEmptySegments(s)
    ensures |current| == 0 ==> e == InitialEntries()
    ensures |current| > 0 ==> NonEmptySegments(s + [current]) && e == Grow(s + [current]) && |e| == Capacity(256 + |s|)
  {
    if |current| == 0 then InitialEntries()
    else
      assert NonEmptySegments(s + [current]);
      Grow(s + [current])
  }

  /**
    What holds between two iterations of the encoder's loop, for the segments
    `s` already emitted: they and the current match spell the input read so
    far; each code names its segment; the map is the inverse of `Entries`.
  */
  predicate EncoderInvariant(st: EncoderState, input: seq<byte>, i: nat, s: seq<seq<byte>>) {
    && i <= |input|
    && NonEmptySegments(s)
    && |s| == |st.codes|
    && Concat(s) + st.current == input[..i]
    && (i == 0 <==> |st.current| == 0)
    && (i == 0 ==> |s| == 0)
    && (|st.current| > 0 ==> st.current in st.dictionary)
    && MapMatches(st.dictionary, Entries(s, st.current))
    && st.nextCode as int == |Entries(s, st.current)|
    && (forall j {:trigger st.codes[j]} :: 0 <= j < |s| ==>
          st.codes[j] as int < Capacity(256 + j) && st.codes[j] as int < |Entries(s, st.current)| && Entries(s, st.current)[st.codes[j]] == s[j])
  }

  lemma EncoderStartsValid(input: seq<byte>)
    ensures EncoderInvariant(InitialEncoder(), input, 0, [])
  {
    MapMatchesInitial();
  }

  /** A step that extends the match changes neither the segments nor the map. */
  lemma ExtendKeeps(st: EncoderState, input: seq<byte>, i: nat, s: seq<seq<byte>>)
    requires EncoderInvariant(st, input, i, s) && i < |input|
    requires st.current + [input[i]] in st.dictionary
    ensures EncoderInvariant(st.(current := st.current + [input[i]]), input, i + 1, s)
  {
    var b := input[i];
    var combined := st.current + [b];
    assert input[..i + 1] == input[..i] + [b];
    assert Concat(s) + combined == Concat(s) + st.current + [b];
    if |st.current| > 0 {
      GrowLast(s, st.current, combined);
    } else {
      assert Entries(s, combined) == Grow([combined]);
    }
  }

  /** A step that misses emits the current match as a new segment and starts over from the byte. */
  lemma EmitKeeps(st: EncoderState, input: seq<byte>, i: nat, s: seq<seq<byte>>)
    requires EncoderInvariant(st, input, i, s) && i < |input|
    requires st.current + [input[i]] !in st.dictionary
    ensures |st.current| > 0 && st.current in st.dictionary
    ensures EncodeStep(st, input[i]).Success?
    ensures EncoderInvariant(EncodeStep(st, input[i]).value, input, i + 1, s + [st.current])
  {
    var b := input[i];
    assert input[..i + 1] == input[..i] + [b];
    var e := Entries(s, st.current);
    assert e[b] == [b] && [b] in st.dictionary;
    var empty: seq<byte> := [];
    assert empty + [b] == [b];
    var combined := st.current + [b];
    var st' := EncodeStep(st, b).value;
    var s' := s + [st.current];
    GrowSnoc(s', [b]);
    var e' := Entries(s', [b]);
    assert e == Grow(s');
    if st.nextCode as int < MaxDictionarySize {
      MapMatchesAdd(st.dictionary, e, combined, st.nextCode);
    }
    assert forall c :: 0 <= c < |e| ==> e'[c] == e[c];
    ConcatSnoc(s, st.current);
    assert e'[b] == [b];
  }

  /** One iteration keeps the invariant and never throws. */
  lemma StepKeeps(st: EncoderState, input: seq<byte>, i: nat, s: seq<seq<byte>>) returns (s': seq<seq<byte>>)
    requires EncoderInvariant(st, input, i, s) && i < |input|
    ensures EncodeStep(st, input[i]).Success?
    ensures EncoderInvariant(EncodeStep(st, input[i]).value, input, i + 1, s')
  {
    if st.current + [input[i]] in st.dictionary {
      ExtendKeeps(st, input, i, s);
      s' := s;
    } else {
      EmitKeeps(st, input, i, s);
      s' := s + [st.current];
    }
  }

  /** The loop keeps the invariant to the end of the input and never throws. */
  lemma {:induction false} EncodeLoopKeeps(st: EncoderState, input: seq<byte>, i: nat, s: seq<seq<byte>>) returns (st': EncoderState, s': seq<seq<byte>>)
    requires EncoderInvariant(st, input, i, s)
    ensures EncodeLoop(st, input, i) == Success(st')
    ensures EncoderInvariant(st', input, |input|, s')
    decreases |input| - i
  {
    if i == |input| {
      st', s' := st, s;
    } else {
      var s1 := StepKeeps(st, input, i, s);
      st', s' := EncodeLoopKeeps(EncodeStep(st, input[i]).value, input, i + 1, s1);
    }
  }

  /** Flushing the last match completes the parse. */
  lemma FinishParse(st: EncoderState, input: seq<byte>, s: seq<seq<byte>>)
    requires EncoderInvariant(st, input, |input|, s) && |input| > 0
    ensures |st.current| > 0 && st.current in st.dictionary && NonEmptySegments(s + [st.current])
    ensures ValidParse(s + [st.current], st.codes + [st.dictionary[st.current]])
    ensures Concat(s + [st.current]) == input
    ensures MapMatches(st.dictionary, Grow(s + [st.current]))
    ensures st.nextCode as int == |Grow(s + [st.current])|
  {
    var s' := s + [st.current];
    assert NonEmptySegments(s');
    assert Entries(s, st.current) == Grow(s');
    ConcatSnoc(s, st.current);
    assert input[..|input|] == input;
  }

  /**
    The encoder never throws, and cuts a nonempty input into segments that its
    codes name: concatenating the strings of the emitted codes gives back the
    input. Its final map is the inverse of the dictionary those segments
    determine, whose size is the recorded `dictionarySize`.
  */
  lemma EncodeParse(input: seq<byte>) returns (s: seq<seq<byte>>)
    requires 0 < |input| < U64_LIMIT
    ensures EncodeBuffer(input).Success?
    ensures ValidParse(s, EncodeBuffer(input).value.codes) && Concat(s) == input
    ensures MapMatches(EncodeLoop(InitialEncoder(), input, 0).value.dictionary, Grow(s))
    ensures EncodeBuffer(input).value.metadata.dictionarySize as int == |Grow(s)|
  {
    EncoderStartsValid(input);
    var st, segments := EncodeLoopKeeps(InitialEncoder(), input, 0, []);
    FinishParse(st, input, segments);
    s := segments + [st.current];
  }

  /** `decodeBuffer(encodeBuffer(x)) == x` for every input. */
  lemma RoundTrip(input: seq<byte>)
    requires |input| < U64_LIMIT
    ensures EncodeBuffer(input).Success?
    ensures DecodeBuffer(EncodeBuffer(input).value.metadata, EncodeBuffer(input).value.codes) == Success(input)
  {
    if |input| > 0 {
      var s := EncodeParse(input);
      var r := EncodeBuffer(input).value;
      DecodeParse(s, r.codes, r.metadata);
      ResizeSame(input);
    }
  }

  /**
    Every emitted code is below the recorded `dictionarySize`, which is 255
    plus the number of codes, capped at 4096: one entry per code but the last.
  */
  lemma CodesBelowDictionarySize(input: seq<byte>)
    requires 0 < |input| < U64_LIMIT
    ensures EncodeBuffer(input).Success?
    ensures EncodeBuffer(input).value.metadata.dictionarySize as int == Capacity(255 + |EncodeBuffer(input).value.codes|)
    ensures forall j :: 0 <= j < |EncodeBuffer(input).value.codes| ==>
      EncodeBuffer(input).value.codes[j] < EncodeBuffer(input).value.metadata.dictionarySize
  {
    var s := EncodeParse(input);
  }

  /**
    The decoder trusts only `originalSize`: with any other recorded size and
    any `dictionarySize`, the same codes decode to the input cut or padded
    with zeros to that size.
  */
  lemma DecodeIgnoresDictionarySize(input: seq<byte>, metadata: LzwMetadata)
    requires 0 < |input| < U64_LIMIT && metadata.originalSize > 0
    ensures EncodeBuffer(input).Success?
    ensures DecodeBuffer(metadata, EncodeBuffer(input).value.codes) == Success(Resize(input, metadata.originalSize))
  {
    var s := EncodeParse(input);
    DecodeParse(s, EncodeBuffer(input).value.codes, metadata);
  }

  /**
    The worked example decoded: code 258 arrives while the decoder's next
    free code is 258, so it is rebuilt from the previous segment.
  */
  lemma DecodeExample()
    ensures DecodeBuffer(LzwMetadata(7, 259), [65, 66, 256, 258]) == Success([65, 66, 65, 66, 65, 66, 65])
  {
    EncodeExample();
    RoundTrip([65, 66, 65, 66, 65, 66, 65]);
  }

  /**
    The last step of the worked example: after `AB`, `B`, `AB` the dictionary
    holds 258 entries, so code 258 is not yet in it and decodes as the
    previous string `AB` followed by its own first byte.
  */
  lemma DecodeExampleLastStep()
    ensures var dictionary := InitialEntries() + [[65, 66], [66, 65]];
      |dictionary| == 258 && NonEmptyEntries(dictionary) &&
      DecodeLoop([65, 66, 256, 258], 3, dictionary, 258, [65, 66], [65, 66, 65, 66]) == Success([65, 66, 65, 66, 65, 66, 65])
  {
    var dictionary := InitialEntries() + [[65, 66], [66, 65]];
    var codes: seq<u16> := [65, 66, 256, 258];
    assert NonEmptyEntries(dictionary);
    assert codes[3] as int == |dictionary|;
    var entry: seq<byte> := [65, 66] + [65];
    assert NonEmptyEntries(dictionary + [[65, 66] + [entry[0]]]);
    assert DecodeLoop(codes, 4, dictionary + [[65, 66] + [entry[0]]], 259, entry, [65, 66, 65, 66] + entry)
      == Success([65, 66, 65, 66] + entry);
    assert DecodeLoop(codes, 3, dictionary, 258, [65, 66], [65, 66, 65, 66])
      == DecodeLoop(codes, 4, dictionary + [[65, 66] + [entry[0]]], 259, entry, [65, 66, 65, 66] + entry);
    assert [65, 66, 65, 66] + entry == [65, 66, 65, 66, 65, 66, 65];
  }

  lemma {:induction false} ConcatLength(s: seq<seq<byte>>)
    requires NonEmptySegments(s)
    ensures |Concat(s)| >= |s|
  {
    if |s| > 0 {
      ConcatLength(s[1..]);
    }
  }

  /** Every code stands for at least one input byte, so there are never more codes than bytes. */
  lemma CodesAtMostInput(input: seq<byte>)
    requires |input| < U64_LIMIT
    ensures EncodeBuffer(input).Success?
    ensures |EncodeBuffer(input).value.codes| <= |input|
  {
    if |input| > 0 {
      var s := EncodeParse(input);
      ConcatLength(s);
    }
  }
}
