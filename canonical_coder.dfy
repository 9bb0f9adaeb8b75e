/** `CanonicalHuffmanCoder` (huffman_coding.py:127-189): a Huffman coder that
    sends only the code lengths and rebuilds canonical codes from them. */
module CanonicalCoder {
  import opened Results
  import opened Bits
  import opened Dicts
  import opened FrequencyTable
  import opened HuffmanTree
  import opened TreeBuilder
  import opened SimpleCoder
  import opened CanonicalCodes
  import opened CanonicalDecode
  import opened CanonicalRoundTrip
  import opened CanonicalExamples
  import opened FittedCodeLengths

  /** The error `_make_canonical_dict(lengths)` raises, if any. */
  function CanonicalError(lengths: Dict<char, nat>): (err: Option<Error>)
    ensures err.Some? <==> lengths == [] || (|lengths| >= 2 && SortedLengths(lengths)[0].1 == 0)
    ensures lengths == [] ==> err == Some(IndexError)
  {
    match CanonicalArr(SortedLengths(lengths))
    case Err(e) => Some(e)
    case Ok(_) => None
  }

  /** What `_make_canonical_dict(lengths)` leaves behind: on success the
      canonical pairs and the code dict made from them; on an error the
      pairs and the code dict as they were. */
  predicate CanonicalState(lengths: Dict<char, nat>,
                           arr0: Option<seq<(char, string)>>, dict0: Dict<char, string>,
                           arr1: Option<seq<(char, string)>>, dict1: Dict<char, string>)
  {
    match CanonicalArr(SortedLengths(lengths))
    case Err(_) => arr1 == arr0 && dict1 == dict0
    case Ok(codes) => arr1 == Some(codes) && dict1 == FromPairs(codes)
  }

  // ---- Steps of the loops ----

  /** One more item of the code dict recorded by the loop of lines 137-138. */
  lemma CodeLengthsStep(d: Dict<char, nat>, codes: Dict<char, string>, i: nat)
    requires i < |codes|
    ensures CodeLengths(d, codes[..i + 1]) == Put(CodeLengths(d, codes[..i]), codes[i].0, |codes[i].1|)
  {
    assert codes[..i + 1][..i] == codes[..i];
  }

  /** One turn of the loop of lines 181-188. */
  lemma DecodeFromStep(table: string, lengths: Dict<char, nat>, m: nat, bits: string, v: nat, l: nat)
    requires TableOk(table, lengths, m) && bits != []
    requires ParseBinary(Window(bits, m)) == Ok(v) && v < |table|
    requires Get(lengths, table[v]) == Some(l)
    ensures l >= 1
    ensures var cut := if l <= |bits| then l else |bits|;
      DecodeFrom(table, lengths, m, bits) == Prefixed([table[v]], DecodeFrom(table, lengths, m, bits[cut..]))
  {
    StepAdvances(table, lengths, m, bits, v, l);
  }

  /** A symbol found through a window of at least one bit advances the stream. */
  lemma StepAdvances(table: string, lengths: Dict<char, nat>, m: nat, bits: string, v: nat, l: nat)
    requires TableOk(table, lengths, m)
    requires ParseBinary(Window(bits, m)) == Ok(v) && v < |table|
    requires Get(lengths, table[v]) == Some(l)
    ensures l >= 1
  {
    assert m >= 1 by {
      assert Window(bits, m) != [];
    }
    assert Get(lengths, table[v]) != Some(0);
  }

  /** `max_length` (line 173): the length of the last code. */
  function MaxLength(codes: seq<(char, string)>): nat {
    if codes == [] then 0 else |codes[|codes| - 1].1|
  }

  /** The decoder's view of a successful `_make_canonical_dict`: the `max_length`
      of line 173 bounds every code, every symbol of the table advances the
      stream, and decoding is the loop over that table. */
  lemma DecodingSetup(lengths: Dict<char, nat>, codes: seq<(char, string)>, bits: string)
    requires IsDict(lengths) && CanonicalArr(SortedLengths(lengths)) == Ok(codes)
    ensures codes != []
    ensures var m := MaxLength(codes);
      CodesWithin(codes, m) && TableOk(Expansion(codes, m), lengths, m) &&
      CanonicalDecoding(lengths, bits) == DecodeFrom(Expansion(codes, m), lengths, m, bits)
  {
    var p := SortedLengths(lengths);
    assert |codes| == |p| by {
      assert |Keys(codes)| == |Keys(p)|;
    }
    var last := |p| - 1;
    LastLength(codes, last);
    DecodingTable(lengths, codes, last);
    DecodingUnfolds(lengths, codes, |codes[last].1|, bits);
  }

  lemma DecodingTable(lengths: Dict<char, nat>, codes: seq<(char, string)>, last: nat)
    requires IsDict(lengths) && CanonicalArr(SortedLengths(lengths)) == Ok(codes)
    requires last + 1 == |SortedLengths(lengths)|
    ensures last < |codes|
    ensures CodesWithin(codes, |codes[last].1|)
    ensures TableOk(Expansion(codes, |codes[last].1|), lengths, |codes[last].1|)
  {
    var p := SortedLengths(lengths);
    assert |codes| == |p| by {
      assert |Keys(codes)| == |Keys(p)|;
    }
    var m := |codes[last].1|;
    ArrWithinAt(p, last);
    SortedTableOk(lengths, codes, m);
  }

  lemma LastLength(codes: seq<(char, string)>, last: nat)
    requires last + 1 == |codes|
    ensures MaxLength(codes) == |codes[last].1|
  {
  }

  /** A failing `_make_canonical_dict` fails the decoder. */
  lemma DecodingError(lengths: Dict<char, nat>, bits: string)
    requires IsDict(lengths) && CanonicalError(lengths).Some?
    ensures CanonicalDecoding(lengths, bits) == Err(CanonicalError(lengths).value)
  {
  }

  // ---- A freshly fitted coder ----

  /** Fitting a fresh coder on a non-empty text never fails in
      `_make_canonical_dict`: there is at least one symbol, and with two or
      more no code length is 0. The canonical pairs have distinct symbols,
      so `dict(pairs)` holds exactly those pairs. */
  lemma FittedCodes(data: string)
    requires data != ""
    ensures var arr := CanonicalArr(SortedLengths(FittedLengths(data)));
      arr.Ok? && IsDict(arr.value) && FromPairs(arr.value) == arr.value &&
      Keys(arr.value) == Keys(SortedLengths(FittedLengths(data)))
  {
    var lengths := FittedLengths(data);
    var p := SortedLengths(lengths);
    assert data[0] in Distinct(data);
    SortedLengthsOfDict(lengths);
    if |p| >= 2 {
      KraftFirstLength(p);
    }
    FromPairsOfDict(CanonicalArr(p).value);
  }

  /** A fitted coder has a code for every symbol of its text. */
  lemma FittedEncodes(data: string)
    requires data != ""
    ensures CanonicalArr(SortedLengths(FittedLengths(data))).Ok?
    ensures EncodeWith(CanonicalArr(SortedLengths(FittedLengths(data))).value, data).Ok?
  {
    var lengths := FittedLengths(data);
    var p := SortedLengths(lengths);
    FittedCodes(data);
    var codes := CanonicalArr(p).value;
    assert forall k :: 0 <= k < |data| ==> data[k] in Keys(lengths);
    SortedKeys(lengths, data);
    assert forall k :: 0 <= k < |data| ==> data[k] in Keys(codes);
  }

  /** The round trip of the coder as written, from fit to decode: for a text
      of two or more distinct symbols whose sorted code lengths step by at
      most one, every string over the text's symbols comes back. */
  lemma FittedCanonicalRoundTrip(data: string, s: string)
    requires |Distinct(data)| >= 2
    requires SmallSteps(SortedLengths(FittedLengths(data)))
    requires forall k :: 0 <= k < |s| ==> s[k] in data
    ensures var arr := CanonicalArr(SortedLengths(FittedLengths(data)));
      arr.Ok? && EncodeWith(arr.value, s).Ok? &&
      CanonicalDecoding(FittedLengths(data), EncodeWith(arr.value, s).value) == Ok(s)
  {
    assert data != [] by {
      if data == [] {
        FrequenciesOfEmpty();
      }
    }
    CanonicalRoundTrip.CanonicalRoundTrip(FittedLengths(data), s);
  }

  /** The same round trip with the corrected codes holds for every text of
      two or more distinct symbols. */
  lemma FittedPaddedRoundTrip(data: string, s: string)
    requires |Distinct(data)| >= 2
    requires forall k :: 0 <= k < |s| ==> s[k] in data
    ensures var arr := PaddedArr(SortedLengths(FittedLengths(data)));
      arr.Ok? && EncodeWith(arr.value, s).Ok? &&
      PaddedDecoding(FittedLengths(data), EncodeWith(arr.value, s).value) == Ok(s)
  {
    assert data != [] by {
      if data == [] {
        FrequenciesOfEmpty();
      }
    }
    PaddedRoundTrip(FittedLengths(data), s);
  }

  /** A text of one distinct symbol records the length 0 for it. */
  lemma FittedOneSymbol(data: string)
    requires |Distinct(data)| == 1
    ensures data != "" && FittedLengths(data) == [(data[0], 0)]
    ensures data == Repeat(data[0], |data|)
  {
    OneSymbolText(data);
    CodeTreeFacts(data);
    var t := CodeTree(data).value;
    FittedDepths(t);
    assert t.Leaf?;
    assert Depths(t, 0) == [(t.sym, 0)];
    assert t.sym == data[0] by {
      assert t.sym in Leaves(t);
    }
  }

  /** A text with one distinct symbol is that symbol repeated. */
  lemma OneSymbolText(data: string)
    requires |Distinct(data)| == 1
    ensures data != ""
    ensures data == Repeat(data[0], |data|)
  {
    var d := Distinct(data);
    assert data != [] by {
      if data == [] {
        FrequenciesOfEmpty();
      }
    }
    assert data[0] in d;
    forall k | 0 <= k < |data| ensures data[k] == data[0] {
      assert data[k] in d;
    }
    assert data == Repeat(data[0], |data|);
  }

  // ---- The coder object ----

  class CanonicalHuffmanCoder {
    /** The inherited state of `SimpleHuffmanCoder`: `_symbol_tree` and `_code_dict`. */
    const base: SimpleHuffmanCoder
    /** `_symbol_code_lengths`. */
    var symbolCodeLengths: Dict<char, nat>
    /** `_symbol_code_arr`: None until canonical codes are made. */
    var symbolCodeArr: Option<seq<(char, string)>>

    /** `__init__` (lines 129-132, with lines 64-70): a non-empty string fits
        the coder, and a fresh fit always yields canonical codes. */
    constructor(s: string)
      ensures fresh(base)
      ensures s == "" ==>
        base.symbolTree == None && base.codeDict == [] && symbolCodeLengths == [] && symbolCodeArr == None
      ensures s != "" ==>
        var arr := CanonicalArr(SortedLengths(FittedLengths(s)));
        base.symbolTree == Some(CodeTree(s).value) && symbolCodeLengths == FittedLengths(s) &&
        arr.Ok? && symbolCodeArr == Some(arr.value) && base.codeDict == arr.value
    {
      base := new SimpleHuffmanCoder("");
      symbolCodeLengths := [];
      symbolCodeArr := None;
      new;
      if s != "" {
        var err := Fit(s);
        FittedCodes(s);
      }
    }

    /** `fit` (lines 134-139): the tree and the code dict as the simple coder
        makes them, then every code's length written into the lengths dict,
        then canonical codes from that whole dict. Earlier entries of both
        dicts stay for symbols the text lacks. */
    method Fit(data: string) returns (err: Option<Error>)
      modifies this, base
      ensures data == "" ==>
        err == Some(IndexError) && base.symbolTree == old(base.symbolTree) &&
        base.codeDict == old(base.codeDict) && symbolCodeLengths == old(symbolCodeLengths) &&
        symbolCodeArr == old(symbolCodeArr)
      ensures data != "" ==>
        var codes := CodeNode(old(base.codeDict), CodeTree(data).value, "");
        base.symbolTree == Some(CodeTree(data).value) &&
        symbolCodeLengths == CodeLengths(old(symbolCodeLengths), codes) &&
        err == CanonicalError(symbolCodeLengths) &&
        CanonicalState(symbolCodeLengths, old(symbolCodeArr), codes, symbolCodeArr, base.codeDict)
    {
      err := base.MakeCodeTree(data);
      if err.Some? {
        return;
      }
      err := base.MakeCodeDict();
      RecordCodeLengths(base.codeDict);
      err := MakeCanonicalDict(symbolCodeLengths);
    }

    /** Lines 137-138: the length of each code of the simple dict, written
        into `_symbol_code_lengths` symbol by symbol. */
    method RecordCodeLengths(codes: Dict<char, string>)
      modifies this
      ensures symbolCodeLengths == CodeLengths(old(symbolCodeLengths), codes)
      ensures symbolCodeArr == old(symbolCodeArr)
    {
      for i := 0 to |codes|
        invariant symbolCodeArr == old(symbolCodeArr)
        invariant symbolCodeLengths == CodeLengths(old(symbolCodeLengths), codes[..i])
      {
        CodeLengthsStep(old(symbolCodeLengths), codes, i);
        var len: nat := |codes[i].1|;
        symbolCodeLengths := Put(symbolCodeLengths, codes[i].0, len);
      }
      assert codes[..|codes|] == codes;
    }

    /** `_make_canonical_dict` (lines 141-159). */
    method MakeCanonicalDict(lengths: Dict<char, nat>) returns (err: Option<Error>)
      modifies this, base
      ensures base.symbolTree == old(base.symbolTree) && symbolCodeLengths == old(symbolCodeLengths)
      ensures err == CanonicalError(lengths)
      ensures CanonicalState(lengths, old(symbolCodeArr), old(base.codeDict), symbolCodeArr, base.codeDict)
    {
      var arr := SortedLengths(lengths);
      var r := CanonicalArray(arr);
      match r
      case Err(e) =>
        err := Some(e);
      case Ok(codes) =>
        symbolCodeArr := Some(codes);
        base.codeDict := FromPairs(codes);
        err := None;
    }

    /** `encode` (lines 161-166): the simple coder's encoding with the
        canonical code dict, and the lengths dict itself. */
    method Encode(s: string) returns (r: Result<string>, lengths: Dict<char, nat>)
      ensures r == EncodeWith(base.codeDict, s) && lengths == symbolCodeLengths
    {
      r := base.Encode(s);
      lengths := symbolCodeLengths;
    }

    /** `decode` (lines 168-189): canonical codes from the given lengths, the
        expanded table `all_codes`, then the decoding loop. */
    method Decode(bits: string, codeLengths: Dict<char, nat>) returns (r: Result<string>)
      requires IsDict(codeLengths)
      modifies this, base
      ensures r == CanonicalDecoding(codeLengths, bits)
      ensures base.symbolTree == old(base.symbolTree) && symbolCodeLengths == old(symbolCodeLengths)
      ensures CanonicalState(codeLengths, old(symbolCodeArr), old(base.codeDict), symbolCodeArr, base.codeDict)
    {
      var err := MakeCanonicalDict(codeLengths);
      if err.Some? {
        DecodingError(codeLengths, bits);
        return Err(err.value);
      }
      var codes := symbolCodeArr.value;
      DecodingSetup(codeLengths, codes, bits);
      var maxLength := |codes[|codes| - 1].1|;
      assert maxLength == MaxLength(codes);
      var allCodes := ExpandCodes(codes, maxLength);
      r := DecodeWithTable(allCodes, codeLengths, maxLength, bits);
    }
  }

  /** The loop of lines 175-179: `all_codes`, each symbol repeated
      2^(max_length - len(code)) times. */
  method ExpandCodes(codes: seq<(char, string)>, maxLength: nat) returns (allCodes: string)
    requires CodesWithin(codes, maxLength)
    ensures allCodes == Expansion(codes, maxLength)
  {
    allCodes := "";
    for i := 0 to |codes|
      invariant allCodes == Expansion(codes[..i], maxLength)
    {
      ExpansionStep(codes, maxLength, i);
      var nSuffixes := Pow2(maxLength - |codes[i].1|);
      allCodes := allCodes + Repeat(codes[i].0, nSuffixes);
    }
    assert codes[..|codes|] == codes;
  }

  /** The loop of lines 180-189 over the table `all_codes`. */
  method DecodeWithTable(allCodes: string, codeLengths: Dict<char, nat>, maxLength: nat, bits: string)
    returns (r: Result<string>)
    requires TableOk(allCodes, codeLengths, maxLength)
    ensures r == DecodeFrom(allCodes, codeLengths, maxLength, bits)
  {
    var stringDec := "";
    var rest := bits;
    PrefixedEmpty(DecodeFrom(allCodes, codeLengths, maxLength, bits));
    while rest != ""
      invariant Prefixed(stringDec, DecodeFrom(allCodes, codeLengths, maxLength, rest))
             == DecodeFrom(allCodes, codeLengths, maxLength, bits)
      decreases |rest|
    {
      var step := DecodeSymbol(allCodes, codeLengths, maxLength, rest);
      if step.Err? {
        return Err(step.error);
      }
      var (symbolDec, cut) := step.value;
      PrefixedTwice(stringDec, [symbolDec], DecodeFrom(allCodes, codeLengths, maxLength, rest[cut..]));
      stringDec := stringDec + [symbolDec];
      rest := rest[cut..];
    }
    assert stringDec + "" == stringDec;
    r := Ok(stringDec);
  }

  /** One turn of the loop of lines 181-188: the window of `max_length` bits
      (zero-filled at the end of the stream), its symbol in the table, and
      how many bits that symbol consumes; or the exception the turn raises. */
  method DecodeSymbol(allCodes: string, codeLengths: Dict<char, nat>, maxLength: nat, rest: string)
    returns (step: Result<(char, nat)>)
    requires TableOk(allCodes, codeLengths, maxLength) && rest != ""
    ensures step.Err? ==> DecodeFrom(allCodes, codeLengths, maxLength, rest) == Err(step.error)
    ensures step.Ok? ==> 1 <= step.value.1 <= |rest|
    ensures step.Ok? ==>
              DecodeFrom(allCodes, codeLengths, maxLength, rest)
              == Prefixed([step.value.0], DecodeFrom(allCodes, codeLengths, maxLength, rest[step.value.1..]))
  {
    var code := if |rest| >= maxLength then rest[..maxLength] else rest;
    if |code| < maxLength {
      code := code + Zeros(maxLength - |code|);
    }
    assert code == Window(rest, maxLength);
    var v := ParseBinary(code);
    if v.Err? {
      return Err(v.error);
    }
    if v.value >= |allCodes| {
      return Err(IndexError);
    }
    var symbolDec := allCodes[v.value];
    var l := Get(codeLengths, symbolDec);
    if l.None? {
      return Err(KeyError);
    }
    DecodeFromStep(allCodes, codeLengths, maxLength, rest, v.value, l.value);
    var cut := if l.value <= |rest| then l.value else |rest|;
    step := Ok((symbolDec, cut));
  }

  /** The demonstration at lines 228-237: a coder fitted on the text encodes
      it, and a fresh coder decodes the result from the lengths alone. The
      text comes back whenever it has two or more distinct symbols whose
      sorted code lengths step by at most one; a text of one symbol decodes
      to the empty string, and an empty text fails at `[0]`. */
  method CodingExample(text: string) returns (textDec: Result<string>)
    ensures text == "" ==> textDec == Err(IndexError)
    ensures |Distinct(text)| == 1 ==> textDec == Ok("")
    ensures |Distinct(text)| >= 2 && SmallSteps(SortedLengths(FittedLengths(text))) ==> textDec == Ok(text)
  {
    var coderIn := new CanonicalHuffmanCoder(text);
    var textEnc, lengths := coderIn.Encode(text);
    if text == "" {
      assert textEnc == Ok("") && lengths == [];
    } else {
      FittedEncodes(text);
    }
    var coderOut := new CanonicalHuffmanCoder("");
    textDec := coderOut.Decode(textEnc.value, lengths);
    if text != "" {
      assert text[0] in Distinct(text);
      if |Distinct(text)| == 1 {
        FittedOneSymbol(text);
        OneSymbol(lengths, text[0], |text|);
      } else if SmallSteps(SortedLengths(lengths)) {
        FittedCodes(text);
        FittedCanonicalRoundTrip(text, text);
      }
    }
  }
}
