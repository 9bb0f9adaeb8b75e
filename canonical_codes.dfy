/** `CanonicalHuffmanCoder._make_canonical_dict` (huffman_coding.py:141-159):
    canonical codes from a table of code lengths, as the code computes them,
    and a corrected construction that pads every code to its recorded length. */
module CanonicalCodes {
  import opened Results
  import opened Bits
  import opened Dicts
  import opened SortedInsert

  // ---- Sorting by (length, symbol) ----

  /** The sort key `(x[1], x[0])` of line 147 as one integer: symbols are
      below 0x11_0000, so keys compare lengths first and symbols second. */
  function SortKey(p: (char, nat)): int {
    p.1 * 0x11_0000 + p.0 as int
  }

  lemma SortKeyOrder(a: (char, nat), b: (char, nat))
    ensures SortKey(a) <= SortKey(b) <==> a.1 < b.1 || (a.1 == b.1 && a.0 <= b.0)
  {
    var x, y := a.0 as int, b.0 as int;
    assert 0 <= x < 0x11_0000 && 0 <= y < 0x11_0000;
    if a.1 < b.1 {
      assert a.1 * 0x11_0000 + 0x11_0000 <= b.1 * 0x11_0000;
    } else if a.1 > b.1 {
      assert b.1 * 0x11_0000 + 0x11_0000 <= a.1 * 0x11_0000;
    }
  }

  /** Ordered by length, and by symbol among equal lengths. */
  predicate LengthOrdered(p: seq<(char, nat)>) {
    forall i, j :: 0 <= i < j < |p| ==> p[i].1 < p[j].1 || (p[i].1 == p[j].1 && p[i].0 <= p[j].0)
  }

  /** `sorted(symbol_code_lengths.items(), key=lambda x: (x[1], x[0]))`. */
  function SortedLengths(lengths: Dict<char, nat>): (p: seq<(char, nat)>)
    ensures |p| == |lengths| && multiset(p) == multiset(lengths)
    ensures LengthOrdered(p)
  {
    var p := StableSort(lengths, SortKey, false);
    assert LengthOrdered(p) by {
      forall i, j | 0 <= i < j < |p|
        ensures p[i].1 < p[j].1 || (p[i].1 == p[j].1 && p[i].0 <= p[j].0)
      {
        SortKeyOrder(p[i], p[j]);
      }
    }
    p
  }

  /** Sorting a dict's items keeps it a dict with the same lookups. */
  lemma SortedLengthsOfDict(lengths: Dict<char, nat>)
    requires IsDict(lengths)
    ensures IsDict(SortedLengths(lengths))
    ensures multiset(Keys(SortedLengths(lengths))) == multiset(Keys(lengths))
    ensures forall i :: 0 <= i < |lengths| ==>
      Get(lengths, SortedLengths(lengths)[i].0) == Some(SortedLengths(lengths)[i].1)
  {
    var p := SortedLengths(lengths);
    SortKeepsKeys(lengths, SortKey, false);
    NoDupPermutation(Keys(lengths), Keys(p));
    forall i | 0 <= i < |p| ensures Get(lengths, p[i].0) == Some(p[i].1) {
      assert p[i] in multiset(lengths);
      GetIffItem(lengths, p[i].0, p[i].1);
    }
  }

  // ---- The codes as written ----

  /** One pass of the loop body at lines 153-157: the previous code plus
      one, in binary, zero-filled to the previous width, with one '0'
      appended when the recorded length is larger. */
  function NextCode(prev: string, len: nat): (c: string)
    ensures IsBinary(c) && |c| >= |prev| && |c| >= 1
  {
    var z := Incremented(prev);
    if len > |z| then z + "0" else z
  }

  /** `bin(int(prev, 2) + 1)[2:].zfill(len(prev))`: the successor of a code
      at (at least) its own width. */
  function Incremented(prev: string): (z: string)
    ensures IsBinary(z) && Value(z) == Value(prev) + 1 && |z| >= |prev| && |z| >= 1
    ensures |prev| >= 1 && Value(prev) + 1 < Pow2(|prev|) ==> |z| == |prev|
    ensures |prev| >= 1 && Value(prev) + 1 == Pow2(|prev|) ==> |z| == |prev| + 1
  {
    var v := Value(prev) + 1;
    if |prev| >= 1 && v < Pow2(|prev|) then
      RenderWidth(v, |prev|);
      Render(v, |prev|)
    else if |prev| >= 1 && v == Pow2(|prev|) then
      BinFits(v, |prev|);
      BinFits(v, |prev| + 1);
      Render(v, |prev|)
    else
      Render(v, |prev|)
  }

  /** The successor of a code that is not all ones keeps its width. */
  lemma IncrementedWithin(prev: string, z: string)
    requires IsBinary(z) && |z| == |prev| >= 1 && Value(z) == Value(prev) + 1
    ensures Incremented(prev) == z
  {
    ValueBound(z);
    ValueInjective(Incremented(prev), z);
  }

  /** The successor of a code of all ones is one bit wider. */
  lemma IncrementedOverflow(prev: string, z: string)
    requires |prev| >= 1 && IsBinary(z) && |z| == |prev| + 1
    requires Value(z) == Value(prev) + 1 == Pow2(|prev|)
    ensures Incremented(prev) == z
  {
    ValueInjective(Incremented(prev), z);
  }

  /** The code lines 149-157 give the i-th pair of the sorted list. */
  function CodeAt(p: seq<(char, nat)>, i: nat): (c: string)
    requires i < |p|
    ensures IsBinary(c)
  {
    if i == 0 then Zeros(p[0].1) else NextCode(CodeAt(p, i - 1), p[i].1)
  }

  /** `_symbol_code_arr` after lines 148-157, from the sorted pairs p:
      IndexError at `[0]` when there are none, ValueError from `int('', 2)`
      when a second pair follows a first of length 0; otherwise every symbol,
      in sorted order, with its code. */
  function CanonicalArr(p: seq<(char, nat)>): (r: Result<seq<(char, string)>>)
    ensures r.Err? <==> p == [] || (|p| >= 2 && p[0].1 == 0)
    ensures r.Err? ==> r.error == if p == [] then IndexError else ValueError
    ensures r.Ok? ==> Keys(r.value) == Keys(p) && r.value[0].1 == Zeros(p[0].1)
  {
    if p == [] then Err(IndexError)
    else if |p| >= 2 && p[0].1 == 0 then Err(ValueError)
    else
      var codes := seq(|p|, i requires 0 <= i < |p| => (p[i].0, CodeAt(p, i)));
      assert Keys(codes) == Keys(p);
      Ok(codes)
  }

  /** The i-th produced pair is the i-th symbol with its code. */
  lemma ArrAt(p: seq<(char, nat)>, i: nat)
    requires CanonicalArr(p).Ok? && i < |p|
    ensures |CanonicalArr(p).value| == |p| && CanonicalArr(p).value[i] == (p[i].0, CodeAt(p, i))
  { }

  /** A code is at least as long as the one before it. */
  lemma CodeLengthStep(p: seq<(char, nat)>, k: nat)
    requires 0 < k < |p|
    ensures |CodeAt(p, k - 1)| <= |CodeAt(p, k)|
  { }

  /** Codes never get shorter along the sorted list, so the last code is
      the longest (the `max_length` of line 173). */
  lemma CodeLengthsGrow(p: seq<(char, nat)>, i: nat, j: nat)
    requires i <= j < |p|
    ensures |CodeAt(p, i)| <= |CodeAt(p, j)|
  {
    var k := i;
    while k < j
      invariant i <= k <= j
      invariant |CodeAt(p, i)| <= |CodeAt(p, k)|
    {
      CodeLengthStep(p, k + 1);
      k := k + 1;
    }
  }

  /** The code of pair i follows from the code of pair i - 1. */
  lemma CodeAtNext(p: seq<(char, nat)>, i: nat)
    requires 0 < i < |p|
    ensures CodeAt(p, i) == NextCode(CodeAt(p, i - 1), p[i].1)
  { }

  /** `symbol_code_arr.append(...)` at line 157, keeping every pair so far
      the pair with its code. */
  function CodesSnoc(p: seq<(char, nat)>, codes: seq<(char, string)>, i: nat, code: string): (r: seq<(char, string)>)
    requires |codes| == i < |p| && code == CodeAt(p, i)
    requires forall j :: 0 <= j < i ==> codes[j] == (p[j].0, CodeAt(p, j))
    ensures |r| == i + 1 && forall j :: 0 <= j < i + 1 ==> r[j] == (p[j].0, CodeAt(p, j))
  {
    codes + [(p[i].0, code)]
  }

  /** The body of the loop at lines 153-157: `int(new_code, 2)` fails on
      the empty code, otherwise the next code as written. */
  method NextCodeStep(newCode: string, len: nat) returns (r: Result<string>)
    requires IsBinary(newCode)
    ensures r == if newCode == "" then Err(ValueError) else Ok(NextCode(newCode, len))
  {
    var parsed := ParseBinary(newCode);
    if parsed.Err? {
      return Err(parsed.error);
    }
    var newCodeVal := parsed.value + 1;
    var code := Render(newCodeVal, |newCode|);
    if len > |code| {
      code := code + "0";
    }
    return Ok(code);
  }

  /** Lines 148-157 of `_make_canonical_dict`: the codes of the pairs of
      `_symbol_code_arr` once sorted. */
  method CanonicalArray(arr: seq<(char, nat)>) returns (r: Result<seq<(char, string)>>)
    ensures r == CanonicalArr(arr)
  {
    if |arr| == 0 {
      return Err(IndexError);
    }
    var newCode := Zeros(arr[0].1);
    var codes := [(arr[0].0, newCode)];
    for i := 1 to |arr|
      invariant |codes| == i && newCode == CodeAt(arr, i - 1)
      invariant forall j :: 0 <= j < i ==> codes[j] == (arr[j].0, CodeAt(arr, j))
      invariant i >= 2 ==> arr[0].1 >= 1
    {
      var step := NextCodeStep(newCode, arr[i].1);
      if step.Err? {
        assert i == 1 && arr[0].1 == 0;
        return Err(step.error);
      }
      CodeAtNext(arr, i);
      newCode := step.value;
      codes := CodesSnoc(arr, codes, i, newCode);
    }
    r := Ok(codes);
    assert codes == CanonicalArr(arr).value;
  }

  // ---- The corrected construction ----

  /** The step as intended: the incremented code is padded with as many
      zeros as it takes to reach the recorded length. */
  function PaddedNextCode(prev: string, len: nat): (c: string)
    ensures IsBinary(c) && |c| >= |prev| && |c| >= len && |c| >= 1
  {
    Pad(Incremented(prev), len)
  }

  /** Right-padding with zeros up to a width. */
  function Pad(z: string, len: nat): (c: string)
    ensures |z| <= len ==> |c| == len
    ensures IsBinary(z) ==> IsBinary(c)
  {
    if len > |z| then z + Zeros(len - |z|) else z
  }

  /** Padding shifts the value by the number of zeros added. */
  lemma PadValue(z: string, len: nat, v: nat)
    requires |z| <= len && Value(z) == v
    ensures Value(Pad(z, len)) == v * Pow2(len - |z|)
  {
    if len > |z| {
      ValueConcat(z, Zeros(len - |z|));
      ValueZeros(len - |z|);
    } else {
      assert Pow2(0) == 1;
    }
  }

  function PaddedCodeAt(p: seq<(char, nat)>, i: nat): (c: string)
    requires i < |p|
    ensures IsBinary(c) && |c| >= p[i].1
  {
    if i == 0 then Zeros(p[0].1) else PaddedNextCode(PaddedCodeAt(p, i - 1), p[i].1)
  }

  /** The corrected `_symbol_code_arr`, with the same errors as the
      original. */
  function PaddedArr(p: seq<(char, nat)>): (r: Result<seq<(char, string)>>)
    ensures r.Err? <==> p == [] || (|p| >= 2 && p[0].1 == 0)
    ensures r.Ok? ==> Keys(r.value) == Keys(p)
    ensures r.Ok? ==> forall i :: 0 <= i < |p| ==> |r.value[i].1| >= p[i].1
  {
    if p == [] then Err(IndexError)
    else if |p| >= 2 && p[0].1 == 0 then Err(ValueError)
    else
      var codes := seq(|p|, i requires 0 <= i < |p| => (p[i].0, PaddedCodeAt(p, i)));
      assert Keys(codes) == Keys(p);
      Ok(codes)
  }

  lemma PaddedArrAt(p: seq<(char, nat)>, i: nat)
    requires PaddedArr(p).Ok? && i < |p|
    ensures |PaddedArr(p).value| == |p| && PaddedArr(p).value[i] == (p[i].0, PaddedCodeAt(p, i))
  { }

  lemma PaddedLengthStep(p: seq<(char, nat)>, k: nat)
    requires 0 < k < |p|
    ensures |PaddedCodeAt(p, k - 1)| <= |PaddedCodeAt(p, k)|
  { }

  lemma PaddedLengthsGrow(p: seq<(char, nat)>, i: nat, j: nat)
    requires i <= j < |p|
    ensures |PaddedCodeAt(p, i)| <= |PaddedCodeAt(p, j)|
  {
    var k := i;
    while k < j
      invariant i <= k <= j
      invariant |PaddedCodeAt(p, i)| <= |PaddedCodeAt(p, k)|
    {
      PaddedLengthStep(p, k + 1);
      k := k + 1;
    }
  }

  /** Lengths that never fall and grow by at most one from pair to pair. */
  predicate SmallSteps(p: seq<(char, nat)>) {
    forall i :: 0 < i < |p| ==> p[i - 1].1 <= p[i].1 <= p[i - 1].1 + 1
  }

  /** One '0' of padding is enough when the length grows by at most one. */
  lemma AgreeStep(prev: string, lprev: nat, len: nat)
    requires |prev| >= lprev && len <= lprev + 1
    ensures NextCode(prev, len) == PaddedNextCode(prev, len)
  {
    var z := Incremented(prev);
    if len > |z| {
      assert len - |z| == 1;
      assert Zeros(1) == "0";
    }
  }

  /** Where the sorted lengths grow by at most one, the single '0' of line
      156 is all the padding needed: the code as written is the corrected one. */
  lemma SmallStepsAgree(p: seq<(char, nat)>, i: nat)
    requires SmallSteps(p) && i < |p|
    ensures CodeAt(p, i) == PaddedCodeAt(p, i)
  {
    var k := 0;
    while k < i
      invariant k <= i
      invariant CodeAt(p, k) == PaddedCodeAt(p, k)
    {
      var prev := CodeAt(p, k);
      AgreeStep(prev, p[k].1, p[k + 1].1);
      assert CodeAt(p, k + 1) == NextCode(prev, p[k + 1].1);
      assert PaddedCodeAt(p, k + 1) == PaddedNextCode(prev, p[k + 1].1);
      k := k + 1;
    }
  }

  lemma SmallStepsArr(p: seq<(char, nat)>)
    requires SmallSteps(p)
    ensures CanonicalArr(p) == PaddedArr(p)
  {
    if CanonicalArr(p).Ok? {
      forall i | 0 <= i < |p| ensures CodeAt(p, i) == PaddedCodeAt(p, i) {
        SmallStepsAgree(p, i);
      }
      assert CanonicalArr(p).value == PaddedArr(p).value;
    }
  }

  // ---- Kraft's inequality and the canonical invariant ----

  /** Every length is at most m. */
  predicate Within(p: seq<(char, nat)>, m: nat) {
    forall i :: 0 <= i < |p| ==> p[i].1 <= m
  }

  /** The sum of 2^(m - length): how many of the 2^m strings of m bits begin
      with some code of these lengths. */
  function Weight(p: seq<(char, nat)>, m: nat): nat
    requires Within(p, m)
  {
    if p == [] then 0 else Weight(p[..|p| - 1], m) + Pow2(m - p[|p| - 1].1)
  }

  lemma {:induction false} WeightPrefix(p: seq<(char, nat)>, m: nat, i: nat, j: nat)
    requires Within(p, m) && i <= j <= |p|
    ensures Weight(p[..i], m) <= Weight(p[..j], m)
    decreases j
  {
    if i < j {
      assert p[..j][..j - 1] == p[..j - 1];
      WeightPrefix(p, m, i, j - 1);
    }
  }

  /** The sorted lengths obey Kraft's inequality: they fit into the code
      space of their largest length. */
  predicate Kraft(p: seq<(char, nat)>) {
    p != [] && Within(p, p[|p| - 1].1) && Weight(p, p[|p| - 1].1) <= Pow2(p[|p| - 1].1)
  }

  /** Non-decreasing lengths. */
  predicate LengthSorted(p: seq<(char, nat)>) {
    forall i, j :: 0 <= i < j < |p| ==> p[i].1 <= p[j].1
  }

  /** Two codes in a full code space leave no room for a code of length 0. */
  lemma KraftFirstLength(p: seq<(char, nat)>)
    requires Kraft(p) && LengthSorted(p) && |p| >= 2
    ensures p[0].1 >= 1
  {
    var m := p[|p| - 1].1;
    var q := p[..2];
    assert q[..1][..0] == p[..0] && q[..1] == p[..1];
    assert p[..0] == [];
    assert Weight(q[..1], m) == Pow2(m - p[0].1);
    assert Weight(q, m) == Pow2(m - p[0].1) + Pow2(m - p[1].1);
    WeightPrefix(p, m, 2, |p|);
    assert p[..|p|] == p;
  }

  /** A value whose shift by 2^(m - l) stays below 2^m fits in l bits. */
  lemma ShiftedBound(v: nat, l: nat, m: nat)
    requires l <= m && v * Pow2(m - l) < Pow2(m)
    ensures v < Pow2(l)
  {
    var w := Pow2(m - l);
    Pow2Add(l, m - l);
    assert Pow2(m) == Pow2(l) * w;
    if v >= Pow2(l) {
      MulMonotone(Pow2(l), v, w);
    }
  }

  lemma MulMonotone(a: nat, b: nat, c: nat)
    requires a <= b
    ensures a * c <= b * c
  { }

  /** Shifting by 2^d and then by 2^e is shifting by 2^(d + e). */
  lemma ShiftTwice(v: nat, d: nat, e: nat)
    ensures (v * Pow2(d)) * Pow2(e) == v * Pow2(d + e)
  {
    Pow2Add(d, e);
  }

  /** When the incremented code still fits in its width, the padded step
      has exactly the recorded length and the incremented value, shifted. */
  lemma PaddedShape(prev: string, len: nat)
    requires 1 <= |prev| <= len && Value(prev) + 1 < Pow2(|prev|)
    ensures |PaddedNextCode(prev, len)| == len
    ensures Value(PaddedNextCode(prev, len)) == (Value(prev) + 1) * Pow2(len - |prev|)
  {
    var z := Incremented(prev);
    var v := Value(prev) + 1;
    assert |z| == |prev| && Value(z) == v;
    PadValue(z, len, v);
  }

  /** One padded step from a code of length l: the next free code of the
      same shifted value, at the new length. */
  lemma PaddedStep(prev: string, len: nat, m: nat, s: nat)
    requires 1 <= |prev| <= len <= m
    requires (Value(prev) + 1) * Pow2(m - |prev|) == s
    requires s + Pow2(m - len) <= Pow2(m)
    ensures |PaddedNextCode(prev, len)| == len
    ensures Value(PaddedNextCode(prev, len)) * Pow2(m - len) == s
  {
    var l := |prev|;
    var v := Value(prev) + 1;
    assert v * Pow2(m - l) < Pow2(m);
    ShiftedBound(v, l, m);
    PaddedShape(prev, len);
    assert (len - l) + (m - len) == m - l;
    ShiftTwice(v, len - l, m - len);
  }

  lemma SuccShift(x: nat, w: nat, a: nat)
    requires x * w == a
    ensures (x + 1) * w == a + w
  { }

  /** What Kraft's inequality leaves for the k-th code: the weight up to
      position k is the weight up to k - 1 plus the (k-1)-th code's share,
      and the k-th code's share still fits. */
  lemma WeightStep(p: seq<(char, nat)>, k: nat)
    requires Kraft(p) && LengthSorted(p) && 0 < k < |p|
    ensures p[k - 1].1 >= 1
    ensures Weight(p[..k], p[|p| - 1].1)
         == Weight(p[..k - 1], p[|p| - 1].1) + Pow2(p[|p| - 1].1 - p[k - 1].1)
    ensures Weight(p[..k], p[|p| - 1].1) + Pow2(p[|p| - 1].1 - p[k].1) <= Pow2(p[|p| - 1].1)
  {
    var m := p[|p| - 1].1;
    KraftFirstLength(p);
    assert p[..k][..k - 1] == p[..k - 1];
    assert p[..k + 1][..k] == p[..k];
    WeightPrefix(p, m, k + 1, |p|);
    assert p[..|p|] == p;
  }

  /** The padded step on m-bit extensions: the next code's extension is the
      previous one's plus the previous code's share 2^(m - |prev|). */
  lemma ExtensionStep(prev: string, len: nat, m: nat, s0: nat)
    requires 1 <= |prev| <= len <= m
    requires Value(Pad(prev, m)) == s0
    requires s0 + Pow2(m - |prev|) + Pow2(m - len) <= Pow2(m)
    ensures |PaddedNextCode(prev, len)| == len
    ensures Value(Pad(PaddedNextCode(prev, len), m)) == s0 + Pow2(m - |prev|)
  {
    var w := Pow2(m - |prev|);
    PadValue(prev, m, Value(prev));
    SuccShift(Value(prev), w, s0);
    PaddedStep(prev, len, m, s0 + w);
    var c := PaddedNextCode(prev, len);
    ShiftedPad(c, m, len, s0 + w);
  }

  /** A code of length len whose value shifted by 2^(m - len) is s extends
      to an m-bit string of value s. */
  lemma ShiftedPad(c: string, m: nat, len: nat, s: nat)
    requires |c| == len <= m && Value(c) * Pow2(m - len) == s
    ensures Value(Pad(c, m)) == s
  {
    PadValue(c, m, Value(c));
  }

  /** The step of the canonical invariant, from position k - 1 to k. */
  lemma InvariantStep(p: seq<(char, nat)>, k: nat, prev: string)
    requires Kraft(p) && LengthSorted(p) && 0 < k < |p|
    requires |prev| == p[k - 1].1
    requires Value(Pad(prev, p[|p| - 1].1)) == Weight(p[..k - 1], p[|p| - 1].1)
    ensures |PaddedNextCode(prev, p[k].1)| == p[k].1
    ensures Value(Pad(PaddedNextCode(prev, p[k].1), p[|p| - 1].1)) == Weight(p[..k], p[|p| - 1].1)
  {
    WeightStep(p, k);
    ExtensionStep(prev, p[k].1, p[|p| - 1].1, Weight(p[..k - 1], p[|p| - 1].1));
  }

  /** The canonical invariant of the corrected codes: the i-th code has its
      recorded length, and extended with zeros to the largest length m it
      denotes the number of m-bit strings that the codes before it begin,
      so consecutive codes follow each other without gaps or overlaps. */
  lemma PaddedInvariant(p: seq<(char, nat)>, i: nat)
    requires Kraft(p) && LengthSorted(p) && i < |p|
    ensures |PaddedCodeAt(p, i)| == p[i].1
    ensures Value(Pad(PaddedCodeAt(p, i), p[|p| - 1].1)) == Weight(p[..i], p[|p| - 1].1)
  {
    var m := p[|p| - 1].1;
    var k := 0;
    var c := Zeros(p[0].1);
    assert p[..0] == [];
    ValueZeros(p[0].1);
    PadValue(c, m, 0);
    while k < i
      invariant k <= i && c == PaddedCodeAt(p, k) && |c| == p[k].1
      invariant Value(Pad(c, m)) == Weight(p[..k], m)
    {
      InvariantStep(p, k + 1, c);
      c := PaddedNextCode(c, p[k + 1].1);
      k := k + 1;
    }
  }
}
