/** Two concrete tables of code lengths followed through the canonical coder:
    the one that makes the construction as written lose the round trip, and
    the single-symbol table. */
module CanonicalExamples {
  import opened Results
  import opened Bits
  import opened Dicts
  import opened SortedInsert
  import opened CanonicalCodes
  import opened CanonicalDecode
  import opened CanonicalRoundTrip
  import opened SimpleCoder

  /** The lengths a Huffman tree gives "aaaabcde": one bit for 'a', three for
      each of the others. Already in the order of line 147. */
  function FiveLengths(): Dict<char, nat> {
    [('a', 1), ('b', 3), ('c', 3), ('d', 3), ('e', 3)]
  }

  /** The same table, entry by entry. */
  predicate IsFive(p: seq<(char, nat)>) {
    |p| == 5 && p[0] == ('a', 1) && p[1] == ('b', 3) && p[2] == ('c', 3) && p[3] == ('d', 3) && p[4] == ('e', 3)
  }

  lemma FiveIs(p: seq<(char, nat)>)
    requires IsFive(p)
    ensures p == FiveLengths()
  {
  }

  lemma FiveIsDict(p: seq<(char, nat)>)
    requires IsFive(p)
    ensures IsDict(p) && Keys(p) == "abcde"
  {
    FiveIs(p);
    var ks := Keys(p);
    assert ks == "abcde";
    forall i, j | 0 <= i < j < |ks| ensures ks[i] != ks[j] {
      assert i == 0 || i == 1 || i == 2 || i == 3;
      assert j == 1 || j == 2 || j == 3 || j == 4;
    }
  }

  lemma FiveSortedBy(p: seq<(char, nat)>)
    requires IsFive(p)
    ensures SortedBy(p, SortKey, false)
  {
    FiveIs(p);
    forall i, j | 0 <= i < j < |p| ensures SortKey(p[i]) <= SortKey(p[j]) {
      assert i == 0 || i == 1 || i == 2 || i == 3;
      assert j == 1 || j == 2 || j == 3 || j == 4;
      SortKeyOrder(p[i], p[j]);
    }
  }

  /** The five lengths are a dict, already in the order of line 147. */
  lemma FiveSorted(p: seq<(char, nat)>)
    requires IsFive(p)
    ensures IsDict(p) && Keys(p) == "abcde"
    ensures SortedLengths(p) == p
  {
    FiveIsDict(p);
    FiveSortedBy(p);
    StableSortOfSorted(p, SortKey, false);
  }

  /** The lengths obey Kraft's inequality with equality: 4 + 1 + 1 + 1 + 1
      strings of three bits. */
  lemma FiveKraft(p: seq<(char, nat)>)
    requires IsFive(p)
    ensures Kraft(p) && LengthSorted(p)
  {
    FiveIs(p);
    var p4: seq<(char, nat)> := [('a', 1), ('b', 3), ('c', 3), ('d', 3)];
    var p3: seq<(char, nat)> := [('a', 1), ('b', 3), ('c', 3)];
    var p2: seq<(char, nat)> := [('a', 1), ('b', 3)];
    var p1: seq<(char, nat)> := [('a', 1)];
    var p0: seq<(char, nat)> := [];
    assert p[..4] == p4 && p4[..3] == p3 && p3[..2] == p2 && p2[..1] == p1 && p1[..0] == p0;
    assert Pow2(2) == 4 && Pow2(3) == 8;
  }

  /** The numbers the strings of the example denote. */
  lemma SmallValues()
    ensures Value("0") == 0 && Value("1") == 1 && Value("10") == 2 && Value("11") == 3
    ensures Value("110") == 6 && Value("111") == 7 && Value("1000") == 8
    ensures Value("00") == 0 && Value("000") == 0 && Value("0000") == 0
  {
    assert "1"[..0] == "" && "0"[..0] == "";
    assert "10"[..1] == "1" && "11"[..1] == "1" && "00"[..1] == "0";
    assert "110"[..2] == "11" && "111"[..2] == "11" && "000"[..2] == "00";
    assert "1000"[..3] == "100" && "100"[..2] == "10" && "0000"[..3] == "000";
  }

  /** One pass of the loop of lines 153-157 on known values. */
  lemma CodeStep(p: seq<(char, nat)>, i: nat, prev: string, z: string)
    requires 0 < i < |p| && CodeAt(p, i - 1) == prev && Incremented(prev) == z
    ensures CodeAt(p, i) == if p[i].1 > |z| then z + "0" else z
  { }

  /** The codes as a whole once each one is known. */
  lemma ArrIs(p: seq<(char, nat)>, codes: seq<(char, string)>)
    requires CanonicalArr(p).Ok? && |codes| == |p|
    requires forall i :: 0 <= i < |p| ==> codes[i] == (p[i].0, CodeAt(p, i))
    ensures CanonicalArr(p) == Ok(codes)
  {
    if |p| > 0 {
      ArrAt(p, 0);
    }
    forall i | 0 <= i < |p| ensures CanonicalArr(p).value[i] == codes[i] {
      ArrAt(p, i);
    }
    assert CanonicalArr(p).value == codes;
  }

  /** The codes the loop of lines 149-157 builds: after "110" and "111" the
      fifth code overflows to four bits, "1000", although its recorded
      length is three. */
  lemma FiveCodes(p: seq<(char, nat)>)
    requires IsFive(p)
    ensures CanonicalArr(p) ==
      Ok([('a', "0"), ('b', "10"), ('c', "110"), ('d', "111"), ('e', "1000")])
  {
    FiveIs(p);
    FiveCodeList(p);
    var codes := [('a', "0"), ('b', "10"), ('c', "110"), ('d', "111"), ('e', "1000")];
    forall i | 0 <= i < |p| ensures codes[i] == (p[i].0, CodeAt(p, i)) {
      assert i == 0 || i == 1 || i == 2 || i == 3 || i == 4;
    }
    ArrIs(p, codes);
  }

  /** The five codes one by one, from the recorded lengths alone. */
  lemma FiveCodeList(p: seq<(char, nat)>)
    requires |p| == 5 && p[0].1 == 1 && p[1].1 == 3 && p[2].1 == 3 && p[3].1 == 3 && p[4].1 == 3
    ensures CodeAt(p, 0) == "0" && CodeAt(p, 1) == "10" && CodeAt(p, 2) == "110"
    ensures CodeAt(p, 3) == "111" && CodeAt(p, 4) == "1000"
  {
    FiveIncrements();
    FiveFirstCodes(p);
    FiveLastCodes(p);
  }

  lemma FiveFirstCodes(p: seq<(char, nat)>)
    requires |p| == 5 && p[0].1 == 1 && p[1].1 == 3 && p[2].1 == 3
    requires Incremented("0") == "1" && Incremented("10") == "11"
    ensures CodeAt(p, 0) == "0" && CodeAt(p, 1) == "10" && CodeAt(p, 2) == "110"
  {
    assert CodeAt(p, 0) == "0";
    GrowingStep(p, 1, "0", "1", "10");
    GrowingStep(p, 2, "10", "11", "110");
  }

  lemma FiveLastCodes(p: seq<(char, nat)>)
    requires |p| == 5 && p[3].1 == 3 && p[4].1 == 3 && CodeAt(p, 2) == "110"
    requires Incremented("110") == "111" && Incremented("111") == "1000"
    ensures CodeAt(p, 3) == "111" && CodeAt(p, 4) == "1000"
  {
    CodeStep(p, 3, "110", "111");
    CodeStep(p, 4, "111", "1000");
  }

  /** A step whose recorded length exceeds the successor appends a '0'. */
  lemma GrowingStep(p: seq<(char, nat)>, i: nat, prev: string, z: string, c: string)
    requires 0 < i < |p| && CodeAt(p, i - 1) == prev && Incremented(prev) == z
    requires p[i].1 > |z| && c == z + "0"
    ensures CodeAt(p, i) == c
  {
  }

  /** The successors the loop computes on the way. */
  lemma FiveIncrements()
    ensures Incremented("0") == "1" && Incremented("10") == "11"
    ensures Incremented("110") == "111" && Incremented("111") == "1000"
  {
    IncrementShort();
    IncrementLong();
  }

  lemma IncrementShort()
    ensures Incremented("0") == "1" && Incremented("10") == "11"
  {
    assert "1"[..0] == "" && "0"[..0] == "" && "10"[..1] == "1" && "11"[..1] == "1";
    assert Value("0") == 0 && Value("1") == 1 && Value("10") == 2 && Value("11") == 3;
    IncrementedWithin("0", "1");
    IncrementedWithin("10", "11");
  }

  lemma IncrementLong()
    ensures Incremented("110") == "111" && Incremented("111") == "1000"
  {
    IncrementSix();
    IncrementSeven();
  }

  lemma IncrementSix()
    ensures Incremented("110") == "111"
  {
    ThreeBitValues();
    IncrementedWithin("110", "111");
  }

  lemma IncrementSeven()
    ensures Incremented("111") == "1000"
  {
    ThreeBitValues();
    FourBitValue();
    assert Pow2(3) == 8;
    IncrementedOverflow("111", "1000");
  }

  lemma ThreeBitValues()
    ensures Value("110") == 6 && Value("111") == 7
  {
    assert "110"[..2] == "11" && "111"[..2] == "11" && "11"[..1] == "1" && "1"[..0] == "";
  }

  lemma FourBitValue()
    ensures Value("1000") == 8
  {
    assert "1000"[..3] == "100" && "100"[..2] == "10" && "10"[..1] == "1" && "1"[..0] == "";
  }

  /** The discrepancy: with these lengths the encoder writes "1000" for "e",
      and the decoder reads that back as "ba". The decoder expands every code
      to four bits; 'e' occupies the one slot 16 of the seventeen, and the
      window "1000" is slot 8, which belongs to 'b'. */
  lemma FiveLosesE(lengths: Dict<char, nat>)
    requires IsFive(lengths)
    ensures IsDict(lengths)
    ensures CanonicalArr(SortedLengths(lengths)) ==
      Ok([('a', "0"), ('b', "10"), ('c', "110"), ('d', "111"), ('e', "1000")])
    ensures EncodeWith([('a', "0"), ('b', "10"), ('c', "110"), ('d', "111"), ('e', "1000")], "e") == Ok("1000")
    ensures CanonicalDecoding(lengths, "1000") == Ok("ba")
  {
    FiveSorted(lengths);
    FiveCodes(lengths);
    var codes := [('a', "0"), ('b', "10"), ('c', "110"), ('d', "111"), ('e', "1000")];
    assert Keys(codes) == ['a', 'b', 'c', 'd', 'e'];
    FiveEncodeE(codes);
    FiveDecode(lengths, codes);
  }

  lemma FiveEncodeE(codes: seq<(char, string)>)
    requires codes == [('a', "0"), ('b', "10"), ('c', "110"), ('d', "111"), ('e', "1000")]
    ensures EncodeWith(codes, "e") == Ok("1000")
  {
    assert Keys(codes)[4] == 'e';
    var i := IndexOf(codes, 'e');
    assert i == 0 || i == 1 || i == 2 || i == 3 || i == 4;
    assert Get(codes, 'e') == Some("1000");
    assert "e"[1..] == "";
    assert EncodeWith(codes, "") == Ok("");
    assert "1000" + "" == "1000";
  }

  /** One pass of the decoding loop on known values. */
  lemma DecodeStepIs(table: string, lengths: Dict<char, nat>, m: nat, bits: string, v: nat, l: nat)
    requires TableOk(table, lengths, m) && bits != []
    requires ParseBinary(Window(bits, m)) == Ok(v) && v < |table|
    requires Get(lengths, table[v]) == Some(l) && l <= |bits|
    ensures DecodeFrom(table, lengths, m, bits) == Prefixed([table[v]], DecodeFrom(table, lengths, m, bits[l..]))
  { }

  lemma FiveDecode(lengths: Dict<char, nat>, codes: seq<(char, string)>)
    requires IsFive(lengths)
    requires codes == [('a', "0"), ('b', "10"), ('c', "110"), ('d', "111"), ('e', "1000")]
    ensures IsDict(lengths)
    ensures CanonicalDecoding(lengths, "1000") == Ok("ba")
  {
    FiveSorted(lengths);
    FiveCodes(lengths);
    var m := 4;
    FiveSlots(codes, m);
    FiveTable(lengths, codes, m);
    FiveLookups(lengths);
    var t := Expansion(codes, m);
    FiveWindows(m);
    FiveDecodeSteps(t, lengths, m);
    assert m == |codes[|codes| - 1].1|;
    DecodingUnfolds(lengths, codes, m, "1000");
  }

  lemma FiveTable(lengths: Dict<char, nat>, codes: seq<(char, string)>, m: nat)
    requires IsFive(lengths) && m == 4
    requires codes == [('a', "0"), ('b', "10"), ('c', "110"), ('d', "111"), ('e', "1000")]
    requires CodesWithin(codes, m)
    ensures TableOk(Expansion(codes, m), lengths, m)
  {
    FiveIs(lengths);
    forall j | 0 <= j < |lengths| ensures lengths[j].1 >= 1 {
      assert j == 0 || j == 1 || j == 2 || j == 3 || j == 4;
    }
    forall i | 0 <= i < |codes| ensures Get(lengths, codes[i].0) != Some(0) {
      assert codes[i].0 in Keys(lengths) by {
        assert i == 0 || i == 1 || i == 2 || i == 3 || i == 4;
        assert Keys(lengths)[i] == codes[i].0;
      }
    }
    KeysTableOk(codes, m, lengths);
  }

  lemma FiveLookups(lengths: Dict<char, nat>)
    requires IsFive(lengths)
    ensures Get(lengths, 'a') == Some(1) && Get(lengths, 'b') == Some(3)
  {
    FiveIs(lengths);
    assert Keys(lengths)[0] == 'a' && Keys(lengths)[1] == 'b';
    assert IndexOf(lengths, 'a') == 0;
    var i := IndexOf(lengths, 'b');
    assert i == 0 || i == 1;
  }

  /** The two windows the decoder reads: "0" padded to "0000" is slot 0, and
      "1000" is slot 8. */
  lemma FiveWindows(m: nat)
    requires m == 4
    ensures ParseBinary(Window("0", m)) == Ok(0) && ParseBinary(Window("1000", m)) == Ok(8)
  {
    SmallValues();
    assert Window("0", m) == "0000";
    assert IsBinary("0000") && ParseBinary("0000") == Ok(0);
    assert Window("1000", m) == "1000";
    assert IsBinary("1000") && ParseBinary("1000") == Ok(8);
  }

  /** Slot 0 is 'a', which uses the last bit. */
  lemma FiveDecodeA(t: string, lengths: Dict<char, nat>, m: nat)
    requires Get(lengths, 'a') == Some(1) && ParseBinary(Window("0", m)) == Ok(0)
    requires TableOk(t, lengths, m) && |t| > 8 && t[0] == 'a'
    ensures DecodeFrom(t, lengths, m, "0") == Ok("a")
  {
    var t0: string := "0"[1..];
    assert t0 == [];
    assert DecodeFrom(t, lengths, m, t0) == Ok("");
    DecodeStepIs(t, lengths, m, "0", 0, 1);
    assert [t[0]] + "" == "a";
  }

  /** Slot 8 is 'b', which uses three bits, leaving "0". */
  lemma FiveDecodeSteps(t: string, lengths: Dict<char, nat>, m: nat)
    requires Get(lengths, 'a') == Some(1) && Get(lengths, 'b') == Some(3)
    requires ParseBinary(Window("0", m)) == Ok(0) && ParseBinary(Window("1000", m)) == Ok(8)
    requires TableOk(t, lengths, m) && |t| > 8 && t[0] == 'a' && t[8] == 'b'
    ensures DecodeFrom(t, lengths, m, "1000") == Ok("ba")
  {
    FiveDecodeA(t, lengths, m);
    assert "1000"[3..] == "0";
    DecodeStepIs(t, lengths, m, "1000", 8, 3);
    assert [t[8]] + "a" == "ba";
  }

  /** Slots 0 and 8 of the expansion to four bits. */
  lemma FiveSlots(codes: seq<(char, string)>, m: nat)
    requires codes == [('a', "0"), ('b', "10"), ('c', "110"), ('d', "111"), ('e', "1000")] && m == 4
    ensures CodesWithin(codes, m)
    ensures |Expansion(codes, m)| > 8 && Expansion(codes, m)[0] == 'a' && Expansion(codes, m)[8] == 'b'
  {
    assert CodesWithin(codes, m);
    var one, two := codes[..1], codes[..2];
    assert |one| == 1 && |one[0].1| == 1 && |two| == 2 && |two[1].1| == 2 && two[..1] == one;
    assert codes[0] == ('a', "0") && codes[1] == ('b', "10");
    FirstSlot(codes, m, one);
    SecondSlot(codes, m, one, two);
  }

  lemma FirstSlot(codes: seq<(char, string)>, m: nat, one: seq<(char, string)>)
    requires CodesWithin(codes, m) && m == 4 && |codes| >= 2 && one == codes[..1] && |one[0].1| == 1
    ensures one[0].0 == codes[0].0 && 0 < |Expansion(codes, m)| && Expansion(codes, m)[0] == codes[0].0
  {
    WeightOfOne(one, m);
    assert Pow2(3) == 8;
    ExpansionIndex(codes, m, 0, 0);
  }

  lemma SecondSlot(codes: seq<(char, string)>, m: nat, one: seq<(char, string)>, two: seq<(char, string)>)
    requires CodesWithin(codes, m) && m == 4 && |codes| >= 2 && one == codes[..1] && two == codes[..2]
    requires |one[0].1| == 1 && |two[1].1| == 2 && two[..1] == one
    ensures 8 < |Expansion(codes, m)| && Expansion(codes, m)[8] == codes[1].0
  {
    WeightOfOne(one, m);
    WeightOfTwo(two, m);
    assert Pow2(3) == 8 && Pow2(2) == 4;
    ExpansionIndex(codes, m, 1, 8);
  }

  lemma WeightOfOne(codes: seq<(char, string)>, m: nat)
    requires |codes| == 1 && |codes[0].1| <= m
    ensures CodesWithin(codes, m) && CodeWeight(codes, m) == Pow2(m - |codes[0].1|)
  {
    assert codes[..0] == [];
  }

  lemma WeightOfTwo(codes: seq<(char, string)>, m: nat)
    requires |codes| == 2 && |codes[0].1| <= m && |codes[1].1| <= m
    ensures CodesWithin(codes, m) && CodesWithin(codes[..1], m)
    ensures CodeWeight(codes, m) == CodeWeight(codes[..1], m) + Pow2(m - |codes[1].1|)
  { }

  /** The corrected construction round-trips every string over the five
      symbols. */
  lemma FivePadded(lengths: Dict<char, nat>, s: string)
    requires IsFive(lengths)
    requires forall k :: 0 <= k < |s| ==> s[k] in "abcde"
    ensures IsDict(lengths) && PaddedArr(SortedLengths(lengths)).Ok?
    ensures EncodeWith(PaddedArr(SortedLengths(lengths)).value, s).Ok?
    ensures PaddedDecoding(lengths, EncodeWith(PaddedArr(SortedLengths(lengths)).value, s).value) == Ok(s)
  {
    FiveSorted(lengths);
    FiveKraft(lengths);
    PaddedOverKeys(lengths, "abcde", s);
  }

  /** The corrected round trip for a sorted dict with known keys. */
  lemma PaddedOverKeys(lengths: Dict<char, nat>, keys: string, s: string)
    requires IsDict(lengths) && Keys(lengths) == keys && |keys| >= 2
    requires SortedLengths(lengths) == lengths && Kraft(lengths)
    requires forall k :: 0 <= k < |s| ==> s[k] in keys
    ensures PaddedArr(SortedLengths(lengths)).Ok?
    ensures EncodeWith(PaddedArr(SortedLengths(lengths)).value, s).Ok?
    ensures PaddedDecoding(lengths, EncodeWith(PaddedArr(SortedLengths(lengths)).value, s).value) == Ok(s)
  {
    PaddedRoundTrip(lengths, s);
  }

  // ---- One symbol ----

  /** A single symbol: its recorded length 0 gives the code '', so encoding
      any number of copies gives '' and decoding that gives ''. */
  lemma OneSymbol(lengths: Dict<char, nat>, c: char, n: nat)
    requires lengths == [(c, 0)]
    ensures IsDict(lengths)
    ensures CanonicalArr(SortedLengths(lengths)) == Ok([(c, "")])
    ensures EncodeWith([(c, "")], Repeat(c, n)) == Ok("")
    ensures CanonicalDecoding(lengths, "") == Ok("")
  {
    OneSorted(lengths, c);
    OneCode(lengths, c);
    OneSymbolEncode(c, n);
  }

  lemma OneSorted(lengths: Dict<char, nat>, c: char)
    requires lengths == [(c, 0)]
    ensures IsDict(lengths) && SortedLengths(lengths) == lengths
  {
    assert SortedBy(lengths, SortKey, false);
    StableSortOfSorted(lengths, SortKey, false);
  }

  lemma OneCode(p: seq<(char, nat)>, c: char)
    requires p == [(c, 0)]
    ensures CanonicalArr(p) == Ok([(c, "")])
  {
    assert CodeAt(p, 0) == "";
    ArrIs(p, [(c, "")]);
  }

  lemma {:induction false} OneSymbolEncode(c: char, n: nat)
    ensures EncodeWith([(c, "")], Repeat(c, n)) == Ok("")
  {
    assert Keys([(c, "")]) == [c];
    if n > 0 {
      OneSymbolEncode(c, n - 1);
      assert Repeat(c, n)[1..] == Repeat(c, n - 1);
    }
  }
}
