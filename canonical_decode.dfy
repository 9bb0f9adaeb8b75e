/** `CanonicalHuffmanCoder.decode` (huffman_coding.py:168-189): the expansion
    table `all_codes`, the zero-padded windows of `max_length` bits, and the
    round trip it completes for canonical codes. */
module CanonicalDecode {
  import opened Results
  import opened Bits
  import opened Dicts
  import opened CanonicalCodes
  import opened SimpleCoder

  // ---- The expansion table `all_codes` ----

  /** `symbol * n`. */
  function Repeat(c: char, n: nat): (r: string)
    ensures |r| == n && forall k :: 0 <= k < n ==> r[k] == c
  {
    seq(n, _ => c)
  }

  /** Every code is at most m bits long. */
  predicate CodesWithin(codes: seq<(char, string)>, m: nat) {
    forall i :: 0 <= i < |codes| ==> |codes[i].1| <= m
  }

  /** The number of m-bit strings that begin with one of the codes. */
  function CodeWeight(codes: seq<(char, string)>, m: nat): nat
    requires CodesWithin(codes, m)
  {
    if codes == [] then 0
    else CodeWeight(codes[..|codes| - 1], m) + Pow2(m - |codes[|codes| - 1].1|)
  }

  /** `all_codes` after the loop of lines 175-179: each symbol repeated
      2^(max_length - len(code)) times, in the order of the codes; its length
      is the weight of the codes, 2^max_length when they fill the code space. */
  function Expansion(codes: seq<(char, string)>, m: nat): (t: string)
    requires CodesWithin(codes, m)
    ensures |t| == CodeWeight(codes, m)
    ensures forall k :: 0 <= k < |t| ==> t[k] in Keys(codes)
  {
    if codes == [] then ""
    else
      var n := |codes|;
      var front := Expansion(codes[..n - 1], m);
      var t := front + Repeat(codes[n - 1].0, Pow2(m - |codes[n - 1].1|));
      assert forall k :: 0 <= k < |front| ==> front[k] in Keys(codes) by {
        forall k | 0 <= k < |front| ensures front[k] in Keys(codes) {
          var j :| 0 <= j < n - 1 && Keys(codes[..n - 1])[j] == front[k];
          assert Keys(codes)[j] == front[k];
        }
      }
      assert Keys(codes)[n - 1] == codes[n - 1].0;
      t
  }

  /** The expansion of the first j codes begins the expansion of them all. */
  lemma {:induction false} ExpansionPrefix(codes: seq<(char, string)>, m: nat, j: nat)
    requires CodesWithin(codes, m) && j <= |codes|
    ensures Expansion(codes[..j], m) <= Expansion(codes, m)
    decreases |codes| - j
  {
    if j < |codes| {
      ExpansionPrefix(codes, m, j + 1);
      assert codes[..j + 1][..j] == codes[..j];
    } else {
      assert codes[..j] == codes;
    }
  }

  /** One more pair expanded by the loop of lines 176-179. */
  lemma ExpansionStep(codes: seq<(char, string)>, m: nat, i: nat)
    requires CodesWithin(codes, m) && i < |codes|
    ensures CodesWithin(codes[..i], m) && CodesWithin(codes[..i + 1], m) && |codes[i].1| <= m
    ensures Expansion(codes[..i + 1], m) == Expansion(codes[..i], m) + Repeat(codes[i].0, Pow2(m - |codes[i].1|))
  {
    assert codes[..i + 1][..i] == codes[..i];
  }

  /** Slots CodeWeight(codes[..i], m) up to CodeWeight(codes[..i + 1], m)
      of `all_codes` hold the i-th symbol. */
  lemma ExpansionIndex(codes: seq<(char, string)>, m: nat, i: nat, v: nat)
    requires CodesWithin(codes, m) && i < |codes|
    requires CodeWeight(codes[..i], m) <= v < CodeWeight(codes[..i + 1], m)
    ensures v < |Expansion(codes, m)| && Expansion(codes, m)[v] == codes[i].0
  {
    ExpansionPrefix(codes, m, i + 1);
    ExpansionStep(codes, m, i);
    RepeatIndex(Expansion(codes[..i], m), codes[i].0, Pow2(m - |codes[i].1|), v);
  }

  /** Past the front, the string `front + symbol * n` holds the symbol. */
  lemma RepeatIndex(front: string, c: char, n: nat, v: nat)
    requires |front| <= v < |front| + n
    ensures (front + Repeat(c, n))[v] == c
  { }

  // ---- Windows ----

  /** `string[:max_length]`, right-padded with zeros when the stream has
      fewer bits left (lines 182-185). */
  function Window(bits: string, m: nat): (w: string)
    ensures |w| == m
    ensures IsBinary(bits) ==> IsBinary(w)
    ensures |bits| >= m ==> w == bits[..m]
    ensures |bits| < m ==> w == bits + Zeros(m - |bits|)
  {
    if |bits| >= m then bits[..m] else bits + Zeros(m - |bits|)
  }

  /** A window over a code and what follows it is the code and the window
      over the rest. */
  lemma WindowConcat(c: string, rest: string, m: nat)
    requires |c| <= m
    ensures Window(c + rest, m) == c + Window(rest, m - |c|)
  {
    if |c + rest| >= m {
      assert (c + rest)[..m] == c + rest[..m - |c|];
    } else {
      assert (c + rest) + Zeros(m - |c + rest|) == c + (rest + Zeros(m - |c| - |rest|));
    }
  }

  // ---- The decoding loop ----

  /** With windows of at least one bit, every symbol of the table advances
      the stream: its recorded length is not 0. */
  predicate TableOk(table: string, lengths: Dict<char, nat>, m: nat) {
    m >= 1 ==> forall k :: 0 <= k < |table| ==> Get(lengths, table[k]) != Some(0)
  }

  /** The `while string` loop of lines 181-188: look up the window's value in
      the table (ValueError from `int` on a non-binary window or an empty one,
      IndexError past the end of the table), emit the symbol, and drop its
      recorded length from the stream (all of it when fewer bits remain). */
  function DecodeFrom(table: string, lengths: Dict<char, nat>, m: nat, bits: string): (r: Result<string>)
    requires TableOk(table, lengths, m)
    ensures r.Ok? ==> |r.value| <= |bits|
    ensures r.Err? ==> r.error == ValueError || r.error == IndexError || r.error == KeyError
    decreases |bits|
  {
    if bits == [] then Ok("")
    else
      match ParseBinary(Window(bits, m))
      case Err(e) => Err(e)
      case Ok(v) =>
        if v >= |table| then Err(IndexError)
        else
          match Get(lengths, table[v])
          case None => Err(KeyError)
          case Some(l) =>
            var cut := if l <= |bits| then l else |bits|;
            Prefixed([table[v]], DecodeFrom(table, lengths, m, bits[cut..]))
  }

  // ---- Canonical codes ----

  /** Canonical codes for windows of m bits: binary, non-empty, at most m
      long, each code extended with zeros to m bits denotes the number of
      m-bit strings the codes before it begin, and together they fit into
      the 2^m strings of m bits. */
  predicate Canonical(codes: seq<(char, string)>, m: nat) {
    && CodesWithin(codes, m)
    && (forall i :: 0 <= i < |codes| ==> IsBinary(codes[i].1) && |codes[i].1| >= 1)
    && (forall i :: 0 <= i < |codes| ==> Value(Pad(codes[i].1, m)) == CodeWeight(codes[..i], m))
    && CodeWeight(codes, m) <= Pow2(m)
  }

  /** The weight of the codes grows with the prefix taken: the m-bit window
      of every code stays inside the table. */
  lemma {:induction false} CodeWeightPrefix(codes: seq<(char, string)>, m: nat, i: nat, j: nat)
    requires CodesWithin(codes, m) && i <= j <= |codes|
    ensures CodeWeight(codes[..i], m) <= CodeWeight(codes[..j], m)
    decreases j
  {
    if i < j {
      assert codes[..j][..j - 1] == codes[..j - 1];
      CodeWeightPrefix(codes, m, i, j - 1);
    }
  }

  /** The i-th code adds its share to the weight of the codes before it. */
  lemma CodeWeightStep(codes: seq<(char, string)>, m: nat, i: nat)
    requires CodesWithin(codes, m) && i < |codes|
    ensures CodeWeight(codes[..i + 1], m) == CodeWeight(codes[..i], m) + Pow2(m - |codes[i].1|)
  {
    var q := codes[..i + 1];
    assert q[..|q| - 1] == codes[..i] && q[|q| - 1] == codes[i];
  }

  /** The window over a code c and any bits after it reads as a number in
      the block of 2^(m - |c|) values that starts at c extended to m bits. */
  lemma WindowOfCode(c: string, rest: string, m: nat, base: nat)
    requires IsBinary(c) && 1 <= |c| <= m && IsBinary(rest)
    requires Value(Pad(c, m)) == base
    ensures ParseBinary(Window(c + rest, m)).Ok?
    ensures base <= ParseBinary(Window(c + rest, m)).value < base + Pow2(m - |c|)
  {
    var w := Window(rest, m - |c|);
    WindowConcat(c, rest, m);
    ValueConcat(c, w);
    ValueBound(w);
    PadValue(c, m, Value(c));
  }

  /** The window over the i-th code and any bits after it has a value in the
      i-th code's block of slots. */
  lemma WindowValue(codes: seq<(char, string)>, m: nat, i: nat, rest: string)
    requires Canonical(codes, m) && i < |codes| && IsBinary(rest)
    ensures ParseBinary(Window(codes[i].1 + rest, m)).Ok?
    ensures CodeWeight(codes[..i], m) <= ParseBinary(Window(codes[i].1 + rest, m)).value
    ensures ParseBinary(Window(codes[i].1 + rest, m)).value < CodeWeight(codes[..i + 1], m)
  {
    CodeWeightStep(codes, m, i);
    WindowOfCode(codes[i].1, rest, m, CodeWeight(codes[..i], m));
  }

  /** That slot holds the i-th symbol. */
  lemma WindowSymbol(codes: seq<(char, string)>, m: nat, i: nat, rest: string)
    requires Canonical(codes, m) && i < |codes| && IsBinary(rest)
    ensures ParseBinary(Window(codes[i].1 + rest, m)).Ok?
    ensures ParseBinary(Window(codes[i].1 + rest, m)).value < |Expansion(codes, m)|
    ensures Expansion(codes, m)[ParseBinary(Window(codes[i].1 + rest, m)).value] == codes[i].0
  {
    WindowValue(codes, m, i, rest);
    ExpansionIndex(codes, m, i, ParseBinary(Window(codes[i].1 + rest, m)).value);
  }

  /** The recorded lengths agree with the codes. */
  predicate LengthsOf(lengths: Dict<char, nat>, codes: seq<(char, string)>) {
    forall i :: 0 <= i < |codes| ==> Get(lengths, codes[i].0) == Some(|codes[i].1|)
  }

  /** Recorded lengths that agree with non-empty codes make a valid table. */
  lemma LengthsTableOk(codes: seq<(char, string)>, m: nat, lengths: Dict<char, nat>)
    requires Canonical(codes, m) && LengthsOf(lengths, codes)
    ensures TableOk(Expansion(codes, m), lengths, m)
  {
    var t := Expansion(codes, m);
    forall k | 0 <= k < |t| ensures Get(lengths, t[k]) != Some(0) {
      var j :| 0 <= j < |codes| && Keys(codes)[j] == t[k];
      assert Get(lengths, codes[j].0) == Some(|codes[j].1|);
    }
  }

  /** One step of the loop on a canonical code followed by more bits: the
      code's symbol, then the decoding of the rest. */
  lemma DecodeStep(codes: seq<(char, string)>, m: nat, lengths: Dict<char, nat>, i: nat, rest: string)
    requires Canonical(codes, m) && LengthsOf(lengths, codes) && i < |codes| && IsBinary(rest)
    requires TableOk(Expansion(codes, m), lengths, m)
    ensures DecodeFrom(Expansion(codes, m), lengths, m, codes[i].1 + rest)
         == Prefixed([codes[i].0], DecodeFrom(Expansion(codes, m), lengths, m, rest))
  {
    var bits := codes[i].1 + rest;
    WindowSymbol(codes, m, i, rest);
    assert bits[|codes[i].1|..] == rest;
  }

  /** The encoding of a string with binary codes is binary. */
  lemma {:induction false} EncodeBinary(codes: Dict<char, string>, s: string)
    requires forall i :: 0 <= i < |codes| ==> IsBinary(codes[i].1)
    requires EncodeWith(codes, s).Ok?
    ensures IsBinary(EncodeWith(codes, s).value)
  {
    if s != [] {
      var j := IndexOf(codes, s[0]);
      EncodeBinary(codes, s[1..]);
      assert EncodeWith(codes, s).value == codes[j].1 + EncodeWith(codes, s[1..]).value;
    }
  }

  /** The encoding of a non-empty string decodes to its first symbol, then
      the decoding of the encoding of the rest. */
  lemma EncodeDecodeHead(codes: seq<(char, string)>, m: nat, lengths: Dict<char, nat>, s: string, rest: string)
    requires Canonical(codes, m) && LengthsOf(lengths, codes) && s != [] && s[0] in Keys(codes)
    requires TableOk(Expansion(codes, m), lengths, m)
    requires EncodeWith(codes, s[1..]) == Ok(rest)
    ensures EncodeWith(codes, s).Ok?
    ensures DecodeFrom(Expansion(codes, m), lengths, m, EncodeWith(codes, s).value)
         == Prefixed([s[0]], DecodeFrom(Expansion(codes, m), lengths, m, rest))
  {
    var j := IndexOf(codes, s[0]);
    assert EncodeWith(codes, s).value == codes[j].1 + rest;
    EncodeBinary(codes, s[1..]);
    DecodeStep(codes, m, lengths, j, rest);
  }

  /** Decoding the encoding with canonical codes gives the string back. */
  lemma DecodeCanonical(codes: seq<(char, string)>, m: nat, lengths: Dict<char, nat>, s: string)
    requires Canonical(codes, m) && LengthsOf(lengths, codes)
    requires forall k :: 0 <= k < |s| ==> s[k] in Keys(codes)
    ensures TableOk(Expansion(codes, m), lengths, m)
    ensures EncodeWith(codes, s).Ok?
    ensures DecodeFrom(Expansion(codes, m), lengths, m, EncodeWith(codes, s).value) == Ok(s)
  {
    LengthsTableOk(codes, m, lengths);
    DecodeAll(codes, m, lengths, s);
  }

  /** Induction over the string: its first symbol, then the rest. */
  lemma {:induction false} DecodeAll(codes: seq<(char, string)>, m: nat, lengths: Dict<char, nat>, s: string)
    requires Canonical(codes, m) && LengthsOf(lengths, codes)
    requires forall i :: 0 <= i < |s| ==> s[i] in Keys(codes)
    requires TableOk(Expansion(codes, m), lengths, m)
    ensures EncodeWith(codes, s).Ok?
    ensures DecodeFrom(Expansion(codes, m), lengths, m, EncodeWith(codes, s).value) == Ok(s)
  {
    if s != [] {
      var tail := s[1..];
      DecodeAll(codes, m, lengths, tail);
      var rest := EncodeWith(codes, tail).value;
      EncodeDecodeHead(codes, m, lengths, s, rest);
      var t := Expansion(codes, m);
      HeadAndTail(s, tail, DecodeFrom(t, lengths, m, rest), DecodeFrom(t, lengths, m, EncodeWith(codes, s).value));
    }
  }

  lemma HeadAndTail(s: string, tail: string, decTail: Result<string>, dec: Result<string>)
    requires s != [] && tail == s[1..] && decTail == Ok(tail) && dec == Prefixed([s[0]], decTail)
    ensures dec == Ok(s)
  {
    assert [s[0]] + tail == s;
  }
}
