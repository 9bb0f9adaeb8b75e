/** `SimpleHuffmanCoder.symbol_frequencies` (huffman_coding.py:52-62). */
module FrequencyTable {
  import opened Results
  import opened Dicts

  /** The distinct symbols of s, each once, in order of first occurrence. */
  function Distinct(s: string): (d: seq<char>)
    ensures NoDup(d)
    ensures forall c :: c in d <==> c in s
  {
    if s == [] then []
    else
      var init, c := s[..|s| - 1], s[|s| - 1];
      assert s == init + [c];
      var d := Distinct(init);
      if c in d then d else d + [c]
  }

  /** Position of the first occurrence of c in s. */
  function FirstIndex(s: string, c: char): (i: nat)
    requires c in s
    ensures i < |s| && s[i] == c
    ensures forall j :: 0 <= j < i ==> s[j] != c
  {
    if s[0] == c then 0 else 1 + FirstIndex(s[1..], c)
  }

  lemma FirstIndexSnoc(s: string, x: char, c: char)
    requires c in s
    ensures FirstIndex(s + [x], c) == FirstIndex(s, c)
  {
    var i, k := FirstIndex(s + [x], c), FirstIndex(s, c);
    assert (s + [x])[k] == c;
    assert i <= k;
    assert s[i] == c;
  }

  /** Distinct lists the symbols in the order in which they first occur. */
  lemma {:induction false} DistinctInFirstOccurrenceOrder(s: string, i: nat, j: nat)
    requires i < j < |Distinct(s)|
    ensures FirstIndex(s, Distinct(s)[i]) < FirstIndex(s, Distinct(s)[j])
  {
    var init, c := s[..|s| - 1], s[|s| - 1];
    assert s == init + [c];
    var d := Distinct(init);
    var a, b := Distinct(s)[i], Distinct(s)[j];
    assert a in s && b in s;
    if j < |d| {
      DistinctInFirstOccurrenceOrder(init, i, j);
      FirstIndexSnoc(init, c, a);
      FirstIndexSnoc(init, c, b);
    } else {
      assert b == c && c !in init && a in init;
      FirstIndexSnoc(init, c, a);
      assert FirstIndex(s, b) == |init|;
    }
  }

  /** The dict symbol_frequencies returns: each distinct symbol, in order of
      first occurrence, with its number of occurrences. */
  function Frequencies(s: string): (freq: Dict<char, nat>)
  {
    var d := Distinct(s);
    seq(|d|, i requires 0 <= i < |d| => (d[i], multiset(s)[d[i]]))
  }

  /** One loop step of symbol_frequencies: a new symbol is appended with
      count 1, a known one has its count increased in place. */
  lemma FrequenciesSnoc(s: string, c: char)
    ensures Frequencies(s + [c])
         == match Get(Frequencies(s), c)
            case None => Put(Frequencies(s), c, 1)
            case Some(n) => Put(Frequencies(s), c, n + 1)
  {
    var f := Frequencies(s);
    assert Keys(f) == Distinct(s);
    if c in s {
      var k := IndexOf(f, c);
      FrequenciesKnown(s, c, k);
      PutExisting(f, c, f[k].1 + 1);
    } else {
      FrequenciesNew(s, c);
    }
  }

  lemma FrequenciesKnown(s: string, c: char, k: nat)
    requires k < |Frequencies(s)| && Frequencies(s)[k].0 == c
    ensures Frequencies(s + [c]) == Frequencies(s)[k := (c, Frequencies(s)[k].1 + 1)]
  {
    var f, d, t := Frequencies(s), Distinct(s), s + [c];
    assert t[..|t| - 1] == s;
    assert c in s by { assert d[k] == c; }
    assert Distinct(t) == d;
    var g := f[k := (c, f[k].1 + 1)];
    forall i | 0 <= i < |d| ensures g[i] == Frequencies(t)[i] {
      if i != k {
        assert d[i] != d[k];
      }
    }
  }

  lemma FrequenciesNew(s: string, c: char)
    requires c !in s
    ensures Frequencies(s + [c]) == Frequencies(s) + [(c, 1)]
  {
    var t := s + [c];
    DistinctSnoc(s, c);
    var f, d, ft, dt := Frequencies(s), Distinct(s), Frequencies(t), Distinct(t);
    var g := f + [(c, 1)];
    forall i | 0 <= i < |g| ensures g[i] == ft[i] {
      if i < |d| {
        CountOther(s, c, d[i]);
      } else {
        CountOther(s, c, c);
      }
    }
  }

  lemma DistinctSnoc(s: string, c: char)
    ensures Distinct(s + [c]) == if c in s then Distinct(s) else Distinct(s) + [c]
  {
    var t := s + [c];
    assert t[..|t| - 1] == s;
  }

  lemma CountOther(s: string, c: char, x: char)
    ensures multiset(s + [c])[x] == multiset(s)[x] + if x == c then 1 else 0
  {
    assert multiset(s + [c]) == multiset(s) + multiset{c};
  }

  /** symbol_frequencies (huffman_coding.py:53-62). */
  method SymbolFrequencies(s: string) returns (freq: Dict<char, nat>)
    ensures freq == Frequencies(s)
  {
    freq := [];
    for i := 0 to |s|
      invariant freq == Frequencies(s[..i])
    {
      var c := s[i];
      assert s[..i + 1] == s[..i] + [c];
      FrequenciesSnoc(s[..i], c);
      match Get(freq, c)
      case None => freq := Put(freq, c, 1);
      case Some(n) => freq := Put(freq, c, n + 1);
    }
    assert s[..|s|] == s;
  }

  /** The frequency dict has exactly the distinct symbols as keys, in order
      of first occurrence, and counts every occurrence. */
  lemma FrequenciesKeysAndCounts(s: string)
    ensures IsDict(Frequencies(s)) && Keys(Frequencies(s)) == Distinct(s)
    ensures forall c :: c in Keys(Frequencies(s)) <==> c in s
    ensures forall i :: 0 <= i < |Frequencies(s)| ==>
      Frequencies(s)[i].1 == multiset(s)[Frequencies(s)[i].0] >= 1
  {
    assert Keys(Frequencies(s)) == Distinct(s);
  }

  function SumCounts(d: Dict<char, nat>): nat {
    if d == [] then 0 else d[0].1 + SumCounts(d[1..])
  }

  lemma {:induction false} SumCountsConcat(a: Dict<char, nat>, b: Dict<char, nat>)
    ensures SumCounts(a + b) == SumCounts(a) + SumCounts(b)
  {
    if a == [] {
      assert a + b == b;
    } else {
      assert (a + b)[1..] == a[1..] + b;
      SumCountsConcat(a[1..], b);
    }
  }

  lemma {:induction false} SumCountsBump(d: Dict<char, nat>, i: nat, c: char)
    requires i < |d|
    ensures SumCounts(d[i := (c, d[i].1 + 1)]) == SumCounts(d) + 1
  {
    if i > 0 {
      assert d[i := (c, d[i].1 + 1)][1..] == d[1..][i - 1 := (c, d[i].1 + 1)];
      SumCountsBump(d[1..], i - 1, c);
    }
  }

  /** The counts add up to the length of the input. */
  lemma {:induction false} FrequenciesSum(s: string)
    ensures SumCounts(Frequencies(s)) == |s|
  {
    if s != [] {
      var init, c := s[..|s| - 1], s[|s| - 1];
      assert s == init + [c];
      FrequenciesSum(init);
      FrequenciesSnoc(init, c);
      var f := Frequencies(init);
      match Get(f, c)
      case None =>
        SumCountsConcat(f, [(c, 1)]);
      case Some(n) =>
        SumCountsBump(f, IndexOf(f, c), c);
    }
  }

  /** The empty string has no frequencies (huffman_coding_test.py:49-50). */
  lemma FrequenciesOfEmpty()
    ensures Frequencies("") == []
  {
  }
}
