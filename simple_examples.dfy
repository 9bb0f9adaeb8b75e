/** The code tables of the unit tests on one symbol
    (huffman_coding_test.py:59-61) and on "ab" (huffman_coding_test.py:65-69),
    followed through the tree builder, including its tie-breaks. */
module SimpleExamples {
  import opened Results
  import opened Dicts
  import opened SortedInsert
  import opened FrequencyTable
  import opened HuffmanTree
  import opened TreeBuilder
  import opened SimpleCoder

  /** The text "ab", character by character. */
  predicate IsAb(data: string) {
    |data| == 2 && data[0] == 'a' && data[1] == 'b'
  }

  /** The tree built for "ab": 'b' on the '0' side, 'a' on the '1' side. */
  function AbTree(): Tree {
    Internal("ba", 2, Leaf('b', 1), Leaf('a', 1))
  }

  /** "ab" counts one 'a' and one 'b', in that order. */
  lemma AbFrequencies(data: string)
    requires IsAb(data)
    ensures Frequencies(data) == [('a', 1), ('b', 1)]
  {
    assert data == ['a'] + ['b'];
    DistinctSnoc(['a'], 'b');
    assert Distinct(['a']) == ['a'] by { DistinctSnoc([], 'a'); }
  }

  /** Two pairs of equal count stay in their order. */
  lemma SortTwo(x: (char, nat), y: (char, nat))
    requires x.1 == y.1
    ensures StableSort([x, y], PairCount, true) == [x, y]
  {
    StableSortOfSorted([x, y], PairCount, true);
  }

  /** From two nodes the loop makes one parent: the last node on the left. */
  lemma BuildTwo(a: Tree, b: Tree)
    ensures BuildFrom([a, b]) == Parent(b, a)
  {
    var nodes := [a, b];
    MergeStep(nodes);
    assert nodes[..0] == [];
    InsertedFront([], Parent(b, a), Cnt, true);
  }

  /** The tree of a non-empty text, from its sorted leaves. */
  lemma CodeTreeOf(data: string, nodes: seq<Tree>)
    requires data != "" && nodes == LeafNodes(StableSort(Frequencies(data), PairCount, true))
    ensures nodes != [] && CodeTree(data) == Ok(BuildFrom(nodes))
  {
    assert data[0] in Distinct(data);
  }

  /** Two leaves of equal count, in frequency order, stay in that order. */
  lemma TwoLeafNodes(x: char, y: char, n: nat)
    ensures LeafNodes(StableSort([(x, n), (y, n)], PairCount, true)) == [Leaf(x, n), Leaf(y, n)]
  {
    SortTwo((x, n), (y, n));
  }

  /** The parent of two leaves, the second one on the left. */
  lemma TwoLeafTree(x: char, y: char, n: nat)
    ensures BuildFrom([Leaf(x, n), Leaf(y, n)]) == Internal([y, x], n + n, Leaf(y, n), Leaf(x, n))
  {
    BuildTwo(Leaf(x, n), Leaf(y, n));
    assert [y] + [x] == [y, x];
  }

  /** The stable sort keeps 'a' in front of 'b' (equal counts), so 'b' is
      popped first and becomes the left child. */
  lemma AbCodeTree(data: string)
    requires IsAb(data)
    ensures CodeTree(data) == Ok(AbTree())
  {
    AbFrequencies(data);
    TwoLeafNodes('a', 'b', 1);
    TwoLeafTree('a', 'b', 1);
    CodeTreeOf(data, [Leaf('a', 1), Leaf('b', 1)]);
  }

  /** A parent of two distinct leaves codes its left leaf '0' and its
      right leaf '1'. */
  lemma TwoLeafCodes(syms: string, n: nat, x: char, nx: nat, y: char, ny: nat)
    requires x != y
    ensures CodeDict(Internal(syms, n, Leaf(x, nx), Leaf(y, ny))) == [(x, "0"), (y, "1")]
  {
    var t := Internal(syms, n, Leaf(x, nx), Leaf(y, ny));
    assert "" + "0" == "0" && "" + "1" == "1";
    var d1 := Put([], x, "0");
    assert CodeNode([], Leaf(x, nx), "0") == d1;
    assert d1 == [(x, "0")];
    assert Keys(d1) == [x];
    var d2 := Put(d1, y, "1");
    assert CodeNode(d1, Leaf(y, ny), "1") == d2;
    assert d2 == [(x, "0"), (y, "1")];
    assert CodeDict(t) == CodeNode(CodeNode([], Leaf(x, nx), "0"), Leaf(y, ny), "1");
  }

  /** `SimpleHuffmanCoder("ab")._code_dict` is {'a': '1', 'b': '0'}. */
  lemma AbCodeDict(data: string)
    requires IsAb(data)
    ensures CodeTree(data).Ok?
    ensures CodeDict(CodeTree(data).value) == [('b', "0"), ('a', "1")]
  {
    AbCodeTree(data);
    TwoLeafCodes("ba", 2, 'b', 1, 'a', 1);
  }

  /** The test string "abbabaabbbbab" encodes under that table and decodes
      back to itself. */
  lemma AbRoundTrip(data: string, s: string)
    requires IsAb(data)
    requires s == "abbabaabbbbab"
    ensures CodeTree(data).Ok?
    ensures EncodeWith(CodeDict(CodeTree(data).value), s).Ok?
    ensures WalkFrom(Some(CodeTree(data).value), Some(CodeTree(data).value),
                     EncodeWith(CodeDict(CodeTree(data).value), s).value) == Ok(s)
  {
    AbCodeTree(data);
    var t := AbTree();
    assert Leaves(t) == "ba";
    assert UniqueLeaves(t);
    assert forall i :: 0 <= i < |s| ==> s[i] in Leaves(t);
    DecodeEncode(t, s);
  }

  /** "a" counts one 'a'. */
  lemma OneFrequencies(data: string)
    requires |data| == 1 && data[0] == 'a'
    ensures Frequencies(data) == [('a', 1)]
  {
    assert data == [] + ['a'];
    DistinctSnoc([], 'a');
  }

  /** `SimpleHuffmanCoder("a")._code_dict` is {'a': ''}: the tree is one leaf
      and its code is empty. */
  lemma OneCodeDict(data: string)
    requires |data| == 1 && data[0] == 'a'
    ensures CodeTree(data) == Ok(Leaf('a', 1))
    ensures CodeDict(CodeTree(data).value) == [('a', "")]
  {
    OneFrequencies(data);
    StableSortOfSorted([('a', 1)], PairCount, true);
    assert LeafNodes([('a', 1)]) == [Leaf('a', 1)];
    CodeTreeOf(data, [Leaf('a', 1)]);
    assert BuildFrom([Leaf('a', 1)]) == Leaf('a', 1);
    assert Put([], 'a', "") == [('a', "")];
  }
}
