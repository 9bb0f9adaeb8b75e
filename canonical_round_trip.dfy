/** The canonical coder end to end on a table of code lengths: the codes
    `_make_canonical_dict` builds (huffman_coding.py:141-159), encoding with
    them (lines 161-166) and `decode` (lines 168-189), both as written and
    with the corrected padding. */
module CanonicalRoundTrip {
  import opened Results
  import opened Bits
  import opened Dicts
  import opened CanonicalCodes
  import opened CanonicalDecode
  import opened SimpleCoder

  // ---- Decoding from a table of lengths ----

  /** The produced codes never exceed the last one, so `max_length` (line
      173) is the longest code. */
  lemma ArrWithin(p: seq<(char, nat)>)
    requires CanonicalArr(p).Ok?
    ensures var codes := CanonicalArr(p).value;
      CodesWithin(codes, |codes[|p| - 1].1|)
  {
    var last := |p| - 1;
    ArrWithinAt(p, last);
  }

  /** The same, with the last index named. */
  lemma ArrWithinAt(p: seq<(char, nat)>, last: nat)
    requires CanonicalArr(p).Ok? && last + 1 == |p|
    ensures last < |CanonicalArr(p).value|
    ensures var codes := CanonicalArr(p).value;
      CodesWithin(codes, |codes[last].1|)
  {
    var codes := CanonicalArr(p).value;
    ArrAt(p, last);
    forall i | 0 <= i < |p| ensures |codes[i].1| <= |codes[last].1| {
      ArrAt(p, i);
      CodeLengthsGrow(p, i, last);
    }
  }

  /** The same for the corrected codes. */
  lemma PaddedWithin(p: seq<(char, nat)>)
    requires PaddedArr(p).Ok?
    ensures var codes := PaddedArr(p).value;
      CodesWithin(codes, |codes[|p| - 1].1|)
  {
    var codes := PaddedArr(p).value;
    var last := |p| - 1;
    PaddedArrAt(p, last);
    forall i | 0 <= i < |p| ensures |codes[i].1| <= |codes[last].1| {
      PaddedArrAt(p, i);
      PaddedLengthsGrow(p, i, last);
    }
  }

  /** If no symbol of the codes has recorded length 0 (whenever windows have
      a bit), the table built from them is valid. */
  lemma KeysTableOk(codes: seq<(char, string)>, m: nat, lengths: Dict<char, nat>)
    requires CodesWithin(codes, m)
    requires m >= 1 ==> forall i :: 0 <= i < |codes| ==> Get(lengths, codes[i].0) != Some(0)
    ensures TableOk(Expansion(codes, m), lengths, m)
  {
    var t := Expansion(codes, m);
    if m >= 1 {
      forall k | 0 <= k < |t| ensures Get(lengths, t[k]) != Some(0) {
        var j :| 0 <= j < |codes| && Keys(codes)[j] == t[k];
        assert codes[j].0 == t[k];
      }
    }
  }

  /** The symbols of the sorted table keep their recorded lengths, and none
      of them has length 0 once the codes have at least one bit: with two
      or more symbols a first length of 0 has already raised ValueError, and
      a lone symbol's code is as long as its recorded length. */
  lemma SortedTableOk(lengths: Dict<char, nat>, codes: seq<(char, string)>, m: nat)
    requires IsDict(lengths)
    requires var p := SortedLengths(lengths);
      p != [] && (|p| >= 2 ==> p[0].1 >= 1) && Keys(codes) == Keys(p) && |codes[0].1| == p[0].1
    requires CodesWithin(codes, m) && (|codes| == 1 ==> m == |codes[0].1|)
    ensures TableOk(Expansion(codes, m), lengths, m)
  {
    var p := SortedLengths(lengths);
    SortedLengthsOfDict(lengths);
    if m >= 1 {
      forall i | 0 <= i < |codes| ensures Get(lengths, codes[i].0) != Some(0) {
        assert codes[i].0 == Keys(codes)[i] == p[i].0;
        assert Get(lengths, p[i].0) == Some(p[i].1);
        if i > 0 {
          assert p[0].1 <= p[i].1;
        }
      }
    }
    KeysTableOk(codes, m, lengths);
  }

  /** `CanonicalHuffmanCoder().decode(bits, lengths)`: the codes as written,
      `max_length` the length of the last one, then the decoding loop. */
  function CanonicalDecoding(lengths: Dict<char, nat>, bits: string): (r: Result<string>)
    requires IsDict(lengths)
    ensures lengths == [] ==> r == Err(IndexError)
    ensures r.Ok? ==> |r.value| <= |bits|
  {
    var p := SortedLengths(lengths);
    match CanonicalArr(p)
    case Err(e) => Err(e)
    case Ok(codes) =>
      var m := |codes[|p| - 1].1|;
      ArrWithin(p);
      SortedTableOk(lengths, codes, m);
      DecodeFrom(Expansion(codes, m), lengths, m, bits)
  }

  /** Decoding with the codes of a successful `_make_canonical_dict` is the
      loop over their expansion to the longest code. */
  lemma DecodingUnfolds(lengths: Dict<char, nat>, codes: seq<(char, string)>, m: nat, bits: string)
    requires IsDict(lengths) && CanonicalArr(SortedLengths(lengths)) == Ok(codes)
    requires codes != [] && m == |codes[|codes| - 1].1|
    requires CodesWithin(codes, m) && TableOk(Expansion(codes, m), lengths, m)
    ensures CanonicalDecoding(lengths, bits) == DecodeFrom(Expansion(codes, m), lengths, m, bits)
  {
  }

  /** The same decoder over the corrected codes. */
  function PaddedDecoding(lengths: Dict<char, nat>, bits: string): (r: Result<string>)
    requires IsDict(lengths)
    ensures lengths == [] ==> r == Err(IndexError)
    ensures r.Ok? ==> |r.value| <= |bits|
  {
    var p := SortedLengths(lengths);
    match PaddedArr(p)
    case Err(e) => Err(e)
    case Ok(codes) =>
      var m := |codes[|p| - 1].1|;
      PaddedWithin(p);
      assert |codes[0].1| == p[0].1 by {
        ValueZeros(p[0].1);
      }
      SortedTableOk(lengths, codes, m);
      DecodeFrom(Expansion(codes, m), lengths, m, bits)
  }

  // ---- The corrected codes are canonical ----

  /** Codes of exactly the recorded lengths have the lengths' weight. */
  lemma WeightOfCodes(p: seq<(char, nat)>, codes: seq<(char, string)>, m: nat, i: nat)
    requires |codes| == |p| && i <= |p| && Within(p, m)
    requires forall j :: 0 <= j < |p| ==> |codes[j].1| == p[j].1
    ensures CodesWithin(codes, m)
    ensures CodeWeight(codes[..i], m) == Weight(p[..i], m)
  {
    var k := 0;
    assert codes[..0] == [] && p[..0] == [];
    while k < i
      invariant k <= i && CodeWeight(codes[..k], m) == Weight(p[..k], m)
    {
      assert codes[..k + 1][..k] == codes[..k] && p[..k + 1][..k] == p[..k];
      k := k + 1;
    }
  }

  /** Under Kraft's inequality each corrected code of sorted lengths has
      exactly its recorded length, at least one bit. */
  lemma PaddedExact(p: seq<(char, nat)>)
    requires Kraft(p) && LengthSorted(p) && p[0].1 >= 1
    ensures PaddedArr(p).Ok? && |PaddedArr(p).value| == |p|
    ensures forall i :: 0 <= i < |p| ==>
      IsBinary(PaddedArr(p).value[i].1) && |PaddedArr(p).value[i].1| == p[i].1 >= 1
  {
    PaddedArrAt(p, 0);
    forall i | 0 <= i < |p|
      ensures IsBinary(PaddedArr(p).value[i].1) && |PaddedArr(p).value[i].1| == p[i].1 >= 1
    {
      PaddedArrAt(p, i);
      PaddedInvariant(p, i);
      if i > 0 {
        assert p[0].1 <= p[i].1;
      }
    }
  }

  /** Padded to the largest length, each corrected code is the weight of
      the codes before it. */
  lemma PaddedWeights(p: seq<(char, nat)>)
    requires Kraft(p) && LengthSorted(p) && p[0].1 >= 1
    ensures PaddedArr(p).Ok? && CodesWithin(PaddedArr(p).value, p[|p| - 1].1)
    ensures forall i :: 0 <= i < |PaddedArr(p).value| ==>
      Value(Pad(PaddedArr(p).value[i].1, p[|p| - 1].1)) == CodeWeight(PaddedArr(p).value[..i], p[|p| - 1].1)
  {
    PaddedExact(p);
    var codes := PaddedArr(p).value;
    var m := p[|p| - 1].1;
    WeightOfCodes(p, codes, m, 0);
    forall i | 0 <= i < |codes| ensures Value(Pad(codes[i].1, m)) == CodeWeight(codes[..i], m) {
      PaddedArrAt(p, i);
      PaddedInvariant(p, i);
      WeightOfCodes(p, codes, m, i);
    }
  }

  /** The four parts of `Canonical`. */
  lemma CanonicalIntro(codes: seq<(char, string)>, m: nat)
    requires CodesWithin(codes, m)
    requires forall i :: 0 <= i < |codes| ==> IsBinary(codes[i].1) && |codes[i].1| >= 1
    requires forall i :: 0 <= i < |codes| ==> Value(Pad(codes[i].1, m)) == CodeWeight(codes[..i], m)
    requires CodeWeight(codes, m) <= Pow2(m)
    ensures Canonical(codes, m)
  { }

  /** Under Kraft's inequality the corrected codes of sorted lengths (the
      first of them at least 1) are canonical for windows of the largest
      length, with exactly the recorded lengths. */
  lemma PaddedCanonical(p: seq<(char, nat)>)
    requires Kraft(p) && LengthSorted(p) && p[0].1 >= 1
    ensures PaddedArr(p).Ok?
    ensures forall i :: 0 <= i < |p| ==> |PaddedArr(p).value[i].1| == p[i].1
    ensures Canonical(PaddedArr(p).value, p[|p| - 1].1)
  {
    PaddedExact(p);
    var codes := PaddedArr(p).value;
    var last := |p| - 1;
    var m := p[last].1;
    CodesKraft(p, codes, m);
    PaddedWeights(p);
    CanonicalIntro(codes, m);
  }

  /** Codes of exactly the recorded lengths fit the code space when the
      lengths obey Kraft's inequality. */
  lemma CodesKraft(p: seq<(char, nat)>, codes: seq<(char, string)>, m: nat)
    requires Kraft(p) && |codes| == |p| && m == p[|p| - 1].1
    requires forall i :: 0 <= i < |p| ==> |codes[i].1| == p[i].1
    ensures CodesWithin(codes, m) && CodeWeight(codes, m) <= Pow2(m)
  {
    WeightOfCodes(p, codes, m, |p|);
    assert codes[..|p|] == codes && p[..|p|] == p;
  }

  /** Recorded lengths of the sorted items are the lengths of their codes. */
  lemma SortedLengthsOf(lengths: Dict<char, nat>, codes: seq<(char, string)>)
    requires IsDict(lengths)
    requires var p := SortedLengths(lengths);
      |codes| == |p| && forall i :: 0 <= i < |p| ==> codes[i] == (p[i].0, codes[i].1) && |codes[i].1| == p[i].1
    ensures LengthsOf(lengths, codes)
  {
    SortedLengthsOfDict(lengths);
  }

  /** A string over the dict's keys is a string over the sorted items' keys. */
  lemma SortedKeys(lengths: Dict<char, nat>, s: string)
    requires IsDict(lengths)
    requires forall k :: 0 <= k < |s| ==> s[k] in Keys(lengths)
    ensures forall k :: 0 <= k < |s| ==> s[k] in Keys(SortedLengths(lengths))
  {
    SortedLengthsOfDict(lengths);
    forall k | 0 <= k < |s| ensures s[k] in Keys(SortedLengths(lengths)) {
      assert s[k] in multiset(Keys(lengths));
    }
  }

  /** The corrected coder's round trip: with lengths that obey Kraft's
      inequality and two or more symbols, decoding the encoding of any
      string over those symbols gives the string back. */
  lemma PaddedRoundTrip(lengths: Dict<char, nat>, s: string)
    requires IsDict(lengths) && |lengths| >= 2 && Kraft(SortedLengths(lengths))
    requires forall k :: 0 <= k < |s| ==> s[k] in Keys(lengths)
    ensures PaddedArr(SortedLengths(lengths)).Ok?
    ensures EncodeWith(PaddedArr(SortedLengths(lengths)).value, s).Ok?
    ensures PaddedDecoding(lengths, EncodeWith(PaddedArr(SortedLengths(lengths)).value, s).value) == Ok(s)
  {
    var p := SortedLengths(lengths);
    KraftFirstLength(p);
    PaddedCanonical(p);
    var codes := PaddedArr(p).value;
    var m := p[|p| - 1].1;
    SortedLengthsOf(lengths, codes);
    SortedKeys(lengths, s);
    DecodeCanonical(codes, m, lengths, s);
  }

  /** The coder as written round-trips whenever the sorted lengths step by
      at most one: then its codes are the corrected ones. */
  lemma CanonicalRoundTrip(lengths: Dict<char, nat>, s: string)
    requires IsDict(lengths) && |lengths| >= 2 && Kraft(SortedLengths(lengths))
    requires SmallSteps(SortedLengths(lengths))
    requires forall k :: 0 <= k < |s| ==> s[k] in Keys(lengths)
    ensures CanonicalArr(SortedLengths(lengths)).Ok?
    ensures EncodeWith(CanonicalArr(SortedLengths(lengths)).value, s).Ok?
    ensures CanonicalDecoding(lengths, EncodeWith(CanonicalArr(SortedLengths(lengths)).value, s).value) == Ok(s)
  {
    SmallStepsArr(SortedLengths(lengths));
    PaddedRoundTrip(lengths, s);
  }
}
