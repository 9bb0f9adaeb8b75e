/** The code lengths `CanonicalHuffmanCoder.fit` records (huffman_coding.py:134-139)
    and why they always fill the code space exactly: the leaves of a tree in
    which every internal node has two children obey Kraft's equality. */
module FittedCodeLengths {
  import opened Results
  import opened Bits
  import opened Dicts
  import opened FrequencyTable
  import opened HuffmanTree
  import opened TreeBuilder
  import opened SimpleCoder
  import opened CanonicalCodes

  /** The loop of lines 137-138, `lengths[symbol] = len(code)` for every item
      of the code dict in order, applied to the dict d. */
  function CodeLengths(d: Dict<char, nat>, codes: Dict<char, string>): Dict<char, nat>
  {
    if codes == [] then d
    else
      var last := |codes| - 1;
      Put(CodeLengths(d, codes[..last]), codes[last].0, |codes[last].1|)
  }

  /** Each item of a code dict with its code replaced by the code's length. */
  function LengthPairs(codes: Dict<char, string>): (p: Dict<char, nat>)
    ensures Keys(p) == Keys(codes)
    ensures |p| == |codes| && forall i :: 0 <= i < |codes| ==> p[i] == (codes[i].0, |codes[i].1|)
  {
    seq(|codes|, i requires 0 <= i < |codes| => (codes[i].0, |codes[i].1|))
  }

  /** Run on a fresh dict, the loop records every code's length, in the
      code dict's order. */
  lemma {:induction false} CodeLengthsOfDict(codes: Dict<char, string>)
    requires IsDict(codes)
    ensures CodeLengths([], codes) == LengthPairs(codes)
  {
    if codes != [] {
      var last := |codes| - 1;
      var init := codes[..last];
      DictInit(codes, last);
      CodeLengthsOfDict(init);
      LengthPairsSnoc(codes, last);
    }
  }

  /** The items before the last one of a dict form a dict without its key. */
  lemma DictInit(codes: Dict<char, string>, last: nat)
    requires IsDict(codes) && last + 1 == |codes|
    ensures IsDict(codes[..last]) && codes[last].0 !in Keys(LengthPairs(codes[..last]))
  {
    assert Keys(codes[..last]) == Keys(codes)[..last];
  }

  lemma LengthPairsSnoc(codes: Dict<char, string>, last: nat)
    requires last + 1 == |codes|
    ensures LengthPairs(codes[..last]) + [(codes[last].0, |codes[last].1|)] == LengthPairs(codes)
  {
  }

  /** The leaves of t, left to right, each with its depth when t hangs at depth d. */
  function Depths(t: Tree, d: nat): (p: seq<(char, nat)>)
    ensures |p| >= 1
    ensures forall i :: 0 <= i < |p| ==> p[i].1 >= d
  {
    match t
    case Leaf(c, _) => [(c, d)]
    case Internal(_, _, l, r) => Depths(l, d + 1) + Depths(r, d + 1)
  }

  lemma {:induction false} DepthsKeys(t: Tree, d: nat)
    ensures Keys(Depths(t, d)) == Leaves(t)
    decreases t
  {
    match t
    case Leaf(_, _) =>
    case Internal(_, _, l, r) =>
      DepthsKeys(l, d + 1);
      DepthsKeys(r, d + 1);
      KeysConcat(Depths(l, d + 1), Depths(r, d + 1));
  }

  lemma LengthPairsConcat(a: Dict<char, string>, b: Dict<char, string>)
    ensures LengthPairs(a + b) == LengthPairs(a) + LengthPairs(b)
  {
  }

  /** `code_node` on a leaf appends it with the current code. */
  lemma LeafLengths(d: Dict<char, string>, c: char, n: nat, cur: string)
    requires c !in Keys(d)
    ensures LengthPairs(CodeNode(d, Leaf(c, n), cur)) == LengthPairs(d) + [(c, |cur|)]
  {
    LengthPairsConcat(d, [(c, cur)]);
  }

  /** `code_node` appends one item per leaf, whose code is as long as the
      leaf is deep below a node whose code was cur. */
  lemma {:induction false} CodeNodeLengths(d: Dict<char, string>, t: Tree, cur: string)
    requires UniqueLeaves(t)
    requires forall c :: c in Leaves(t) ==> c !in Keys(d)
    ensures LengthPairs(CodeNode(d, t, cur)) == LengthPairs(d) + Depths(t, |cur|)
    decreases t
  {
    match t
    case Leaf(c, n) =>
      LeafLengths(d, c, n, cur);
    case Internal(_, _, l, r) =>
      var inner := CodeNode(d, l, cur + "0");
      var dl, dr := Depths(l, |cur| + 1), Depths(r, |cur| + 1);
      assert LengthPairs(inner) == LengthPairs(d) + dl by {
        UniqueLeavesChildren(t);
        CodeNodeLengths(d, l, cur + "0");
      }
      assert LengthPairs(CodeNode(inner, r, cur + "1")) == LengthPairs(inner) + dr by {
        UniqueLeavesChildren(t);
        CodeNodeKeys(d, l, cur + "0");
        CodeNodeLengths(inner, r, cur + "1");
      }
      assert LengthPairs(d) + dl + dr == LengthPairs(d) + (dl + dr);
  }

  /** The lengths a fresh coder records for the tree t: every leaf with its depth. */
  lemma FittedDepths(t: Tree)
    requires UniqueLeaves(t)
    ensures CodeLengths([], CodeDict(t)) == Depths(t, 0)
  {
    CodeNodeKeys([], t, "");
    CodeLengthsOfDict(CodeDict(t));
    CodeNodeLengths([], t, "");
    assert LengthPairs([]) + Depths(t, 0) == Depths(t, 0);
  }

  // ---- Kraft's equality ----

  lemma WithinConcat(a: seq<(char, nat)>, b: seq<(char, nat)>, m: nat)
    ensures Within(a + b, m) <==> Within(a, m) && Within(b, m)
  {
    if Within(a + b, m) {
      assert forall i :: 0 <= i < |a| ==> a[i] == (a + b)[i];
      assert forall i :: 0 <= i < |b| ==> b[i] == (a + b)[|a| + i];
    }
  }

  lemma {:induction false} WeightConcat(a: seq<(char, nat)>, b: seq<(char, nat)>, m: nat)
    requires Within(a, m) && Within(b, m)
    ensures Within(a + b, m) && Weight(a + b, m) == Weight(a, m) + Weight(b, m)
    decreases |b|
  {
    WithinConcat(a, b, m);
    if b == [] {
      assert a + b == a;
    } else {
      var last := |b| - 1;
      assert (a + b)[..|a + b| - 1] == a + b[..last];
      WithinConcat(b[..last], [b[last]], m);
      assert b == b[..last] + [b[last]];
      WeightConcat(a, b[..last], m);
    }
  }

  /** Two halves that each fill half the space fill it all. */
  lemma HalvesWeight(pl: seq<(char, nat)>, pr: seq<(char, nat)>, m: nat, d: nat)
    requires Within(pl, m) && Within(pr, m) && d < m
    requires Weight(pl, m) == Pow2(m - (d + 1)) && Weight(pr, m) == Pow2(m - (d + 1))
    ensures Within(pl + pr, m) && Weight(pl + pr, m) == Pow2(m - d)
  {
    WeightConcat(pl, pr, m);
  }

  /** The leaves under a node at depth d fill the 2^(m - d) strings of m
      bits that begin with the node's path. */
  lemma {:induction false} DepthsWeight(t: Tree, d: nat, m: nat)
    requires Within(Depths(t, d), m)
    ensures d <= m && Weight(Depths(t, d), m) == Pow2(m - d)
    decreases t
  {
    match t
    case Leaf(c, _) =>
      var p := Depths(t, d);
      assert p == [(c, d)] && p[0].1 <= m;
      assert p[..0] == [];
    case Internal(_, _, l, r) =>
      var pl, pr := Depths(l, d + 1), Depths(r, d + 1);
      assert Depths(t, d) == pl + pr;
      WithinConcat(pl, pr, m);
      DepthsWeight(l, d + 1, m);
      DepthsWeight(r, d + 1, m);
      HalvesWeight(pl, pr, m, d);
  }

  /** Taking one item out lowers the weight by that item's share. */
  lemma WeightRemove(a: seq<(char, nat)>, i: nat, m: nat, rest: seq<(char, nat)>)
    requires Within(a, m) && i < |a| && rest == a[..i] + a[i + 1..]
    ensures Within(rest, m) && multiset(rest) == multiset(a) - multiset{a[i]}
    ensures Weight(a, m) == Weight(rest, m) + Pow2(m - a[i].1)
  {
    var x, pre, post := a[i], a[..i], a[i + 1..];
    assert a == pre + [x] + post;
    assert Within(pre, m) && Within(post, m) && x.1 <= m by {
      WithinConcat(pre + [x], post, m);
      WithinConcat(pre, [x], m);
    }
    WeightSplit(pre, x, post, m);
  }

  lemma WeightSplit(pre: seq<(char, nat)>, x: (char, nat), post: seq<(char, nat)>, m: nat)
    requires Within(pre, m) && Within(post, m) && x.1 <= m
    ensures Within(pre + [x] + post, m) && Within(pre + post, m)
    ensures Weight(pre + [x] + post, m) == Weight(pre + post, m) + Pow2(m - x.1)
  {
    assert Weight(pre + [x], m) == Weight(pre, m) + Pow2(m - x.1) by {
      assert (pre + [x])[..|pre + [x]| - 1] == pre;
    }
    WeightConcat(pre + [x], post, m);
    WeightConcat(pre, post, m);
  }

  /** A rearrangement of lengths within m is within m. */
  lemma WithinPermuted(a: seq<(char, nat)>, b: seq<(char, nat)>, m: nat)
    requires multiset(a) == multiset(b) && Within(a, m)
    ensures Within(b, m)
  {
    forall i | 0 <= i < |b| ensures b[i].1 <= m {
      assert b[i] in multiset(a);
    }
  }

  lemma DropLast(b: seq<(char, nat)>)
    requires b != []
    ensures multiset(b[..|b| - 1]) == multiset(b) - multiset{b[|b| - 1]}
  {
    assert b == b[..|b| - 1] + [b[|b| - 1]];
  }

  /** Rearranging the lengths changes neither the bound nor the weight. */
  lemma {:induction false} WeightPermuted(a: seq<(char, nat)>, b: seq<(char, nat)>, m: nat)
    requires multiset(a) == multiset(b) && Within(a, m)
    ensures Within(b, m) && Weight(a, m) == Weight(b, m)
    decreases |b|
  {
    WithinPermuted(a, b, m);
    if b != [] {
      var last := |b| - 1;
      var x := b[last];
      assert x in multiset(a);
      var i :| 0 <= i < |a| && a[i] == x;
      var rest, init := a[..i] + a[i + 1..], b[..last];
      WeightRemove(a, i, m, rest);
      WeightDropLast(b, last, m);
      WeightPermuted(rest, init, m);
      assert a[i] == b[last];
    }
  }

  /** Dropping the last item lowers the weight by its share. */
  lemma WeightDropLast(b: seq<(char, nat)>, last: nat, m: nat)
    requires last + 1 == |b| && Within(b, m)
    ensures multiset(b[..last]) == multiset(b) - multiset{b[last]}
    ensures Within(b[..last], m) && Weight(b, m) == Weight(b[..last], m) + Pow2(m - b[last].1)
  {
    DropLast(b);
  }

  /** Sorted lengths lie within the last one. */
  lemma SortedWithin(p: seq<(char, nat)>)
    requires p != [] && LengthOrdered(p)
    ensures Within(p, p[|p| - 1].1)
  {
  }

  /** Items whose weight at the largest length is the whole code space, once
      sorted, obey Kraft's inequality. */
  lemma KraftOfSorted(q: seq<(char, nat)>, p: seq<(char, nat)>, m: nat)
    requires p != [] && LengthOrdered(p) && multiset(p) == multiset(q)
    requires m == p[|p| - 1].1 && Within(q, m) && Weight(q, m) == Pow2(m)
    ensures Kraft(p)
  {
    SortedWithin(p);
    WeightPermuted(q, p, m);
  }

  /** The leaves of a whole tree fill the code space of any length that
      bounds their depths. */
  lemma FullWeight(t: Tree, m: nat)
    requires Within(Depths(t, 0), m)
    ensures Weight(Depths(t, 0), m) == Pow2(m)
  {
    DepthsWeight(t, 0, m);
  }

  /** Kraft's inequality with equality: the sorted lengths fill the whole
      code space of their largest length. */
  predicate KraftEquality(p: seq<(char, nat)>) {
    p != [] && Within(p, p[|p| - 1].1) && Weight(p, p[|p| - 1].1) == Pow2(p[|p| - 1].1)
  }

  /** The lengths a fresh coder records for a tree, once sorted, obey
      Kraft's inequality, with equality as the tree is full. */
  lemma TreeKraft(t: Tree)
    ensures Kraft(SortedLengths(Depths(t, 0)))
    ensures KraftEquality(SortedLengths(Depths(t, 0)))
  {
    var q := Depths(t, 0);
    var p := SortedLengths(q);
    var last := |p| - 1;
    var m := p[last].1;
    assert Within(q, m) by {
      SortedWithin(p);
      WithinPermuted(p, q, m);
    }
    FullWeight(t, m);
    KraftOfSorted(q, p, m);
    WeightPermuted(q, p, m);
  }

  /** The lengths table of a coder freshly fitted on data. */
  function FittedLengths(data: string): (lengths: Dict<char, nat>)
    requires data != ""
    ensures IsDict(lengths)
    ensures forall c :: c in Keys(lengths) <==> c in data
    ensures |lengths| == |Distinct(data)|
    ensures Kraft(SortedLengths(lengths))
    ensures KraftEquality(SortedLengths(lengths))
  {
    CodeTreeFacts(data);
    var t := CodeTree(data).value;
    FittedDepths(t);
    DepthsKeys(t, 0);
    TreeKraft(t);
    assert |Leaves(t)| == |Distinct(data)| by {
      assert |multiset(Leaves(t))| == |multiset(Distinct(data))|;
    }
    CodeLengths([], CodeDict(t))
  }
}
