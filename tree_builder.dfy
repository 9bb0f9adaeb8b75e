/** `SimpleHuffmanCoder._make_code_tree` (huffman_coding.py:76-92): the
    symbol-code tree built from the frequencies of a text. */
module TreeBuilder {
  import opened Results
  import opened Dicts
  import opened SortedInsert
  import opened FrequencyTable
  import opened HuffmanTree

  /** The sort key of line 91, `lambda x: x.cnt`. */
  function Cnt(t: Tree): int {
    t.cnt
  }

  /** The sort key of line 80, `lambda x: x[1]`. */
  function PairCount(p: (char, nat)): int {
    p.1
  }

  /** Line 82: one leaf per (symbol, count) pair, in the same order. */
  function LeafNodes(ps: seq<(char, nat)>): (nodes: seq<Tree>)
    ensures |nodes| == |ps|
    ensures forall i :: 0 <= i < |ps| ==> nodes[i] == Leaf(ps[i].0, ps[i].1)
  {
    seq(|ps|, i requires 0 <= i < |ps| => Leaf(ps[i].0, ps[i].1))
  }

  lemma LeafNodesConcat(a: seq<(char, nat)>, b: seq<(char, nat)>)
    ensures LeafNodes(a + b) == LeafNodes(a) + LeafNodes(b)
  {
  }

  /** Lines 88-89: the parent of node1 (left) and node2 (right). */
  function Parent(node1: Tree, node2: Tree): Tree {
    Internal(node1.Symbol() + node2.Symbol(), node1.cnt + node2.cnt, node1, node2)
  }

  /** One iteration of the loop at lines 83-91: pop the last node (node1)
      and the one before it (node2), and insert their parent by count. */
  function Merge(nodes: seq<Tree>): (r: seq<Tree>)
    requires |nodes| >= 2
    ensures |r| == |nodes| - 1
    ensures multiset(r) == multiset(nodes[..|nodes| - 2])
                         + multiset{Parent(nodes[|nodes| - 1], nodes[|nodes| - 2])}
  {
    var n := |nodes|;
    Inserted(nodes[..n - 2], Parent(nodes[n - 1], nodes[n - 2]), Cnt, true)
  }

  /** The root the loop ends with, starting from the node list `nodes`. */
  function BuildFrom(nodes: seq<Tree>): Tree
    requires |nodes| >= 1
    decreases |nodes|
  {
    if |nodes| == 1 then nodes[0] else BuildFrom(Merge(nodes))
  }

  /** One merge step, spelled out: the parent of the two last nodes is
      inserted into the rest, and the final root does not change. */
  lemma MergeStep(nodes: seq<Tree>)
    requires |nodes| >= 2
    ensures Merge(nodes) == Inserted(nodes[..|nodes| - 2], Parent(nodes[|nodes| - 1], nodes[|nodes| - 2]), Cnt, true)
    ensures BuildFrom(nodes) == BuildFrom(Merge(nodes))
  {
  }

  /** The outcome of `_make_code_tree(data)`: the root, or the IndexError
      that `symbol_nodes[0]` raises when data is empty. */
  function CodeTree(data: string): (t: Result<Tree>)
    ensures t.Ok? <==> data != ""
  {
    var nodes := LeafNodes(StableSort(Frequencies(data), PairCount, true));
    assert data != [] ==> data[0] in Distinct(data);
    if nodes == [] then Err(IndexError) else Ok(BuildFrom(nodes))
  }

  // ---- Invariants of the node list ----

  /** Every leaf symbol of the node list, node after node. */
  function AllLeaves(nodes: seq<Tree>): seq<char> {
    if nodes == [] then [] else Leaves(nodes[0]) + AllLeaves(nodes[1..])
  }

  function TotalCount(nodes: seq<Tree>): nat {
    if nodes == [] then 0 else nodes[0].cnt + TotalCount(nodes[1..])
  }

  lemma {:induction false} ForestConcat(a: seq<Tree>, b: seq<Tree>)
    ensures AllLeaves(a + b) == AllLeaves(a) + AllLeaves(b)
    ensures TotalCount(a + b) == TotalCount(a) + TotalCount(b)
  {
    if a == [] {
      assert a + b == b;
    } else {
      assert (a + b)[0] == a[0] && (a + b)[1..] == a[1..] + b;
      ForestConcat(a[1..], b);
    }
  }

  lemma ForestSingle(t: Tree)
    ensures AllLeaves([t]) == Leaves(t) && TotalCount([t]) == t.cnt
  {
    assert [t][1..] == [];
  }

  /** A node is well formed when, throughout its subtree, an internal node's
      symbol and count are those of its two children put together. */
  predicate WellFormed(t: Tree) {
    match t
    case Leaf(_, _) => true
    case Internal(s, c, l, r) =>
      s == l.Symbol() + r.Symbol() && c == l.cnt + r.cnt && WellFormed(l) && WellFormed(r)
  }

  /** In a well-formed tree a node's `symbol` lists the leaves below it. */
  lemma {:induction false} WellFormedSymbol(t: Tree)
    requires WellFormed(t)
    ensures t.Symbol() == Leaves(t)
  {
    if t.Internal? {
      WellFormedSymbol(t.left);
      WellFormedSymbol(t.right);
    }
  }

  predicate AllWellFormed(nodes: seq<Tree>) {
    forall i :: 0 <= i < |nodes| ==> WellFormed(nodes[i])
  }

  /** Putting one node into the list adds its leaves and its count. */
  lemma {:induction false} ForestInsertAt(s: seq<Tree>, i: nat, p: Tree)
    requires i <= |s|
    ensures AllLeaves(s) == AllLeaves(s[..i]) + AllLeaves(s[i..])
    ensures AllLeaves(s[..i] + [p] + s[i..]) == AllLeaves(s[..i]) + Leaves(p) + AllLeaves(s[i..])
    ensures TotalCount(s[..i] + [p] + s[i..]) == TotalCount(s) + p.cnt
  {
    assert s == s[..i] + s[i..];
    ForestConcat(s[..i] + [p], s[i..]);
    ForestConcat(s[..i], [p]);
    ForestConcat(s[..i], s[i..]);
    ForestSingle(p);
  }

  /** Two nodes taken off the end of the list. */
  lemma {:induction false} ForestPopTwo(nodes: seq<Tree>)
    requires |nodes| >= 2
    ensures AllLeaves(nodes) == AllLeaves(nodes[..|nodes| - 2])
            + Leaves(nodes[|nodes| - 2]) + Leaves(nodes[|nodes| - 1])
    ensures TotalCount(nodes) == TotalCount(nodes[..|nodes| - 2])
            + nodes[|nodes| - 2].cnt + nodes[|nodes| - 1].cnt
  {
    var n := |nodes|;
    var rest, a, b := nodes[..n - 2], nodes[n - 1], nodes[n - 2];
    assert nodes == rest + [b] + [a];
    ForestConcat(rest + [b], [a]);
    ForestConcat(rest, [b]);
    ForestSingle(a);
    ForestSingle(b);
  }

  /** A merge step keeps the leaves and the total count of the list. */
  lemma MergeKeepsLeaves(nodes: seq<Tree>)
    requires |nodes| >= 2
    ensures multiset(AllLeaves(Merge(nodes))) == multiset(AllLeaves(nodes))
    ensures TotalCount(Merge(nodes)) == TotalCount(nodes)
  {
    var n := |nodes|;
    var rest, p := nodes[..n - 2], Parent(nodes[n - 1], nodes[n - 2]);
    var i := InsertIndex(rest, p, Cnt, true);
    MergeLeaves(nodes, rest, p, i);
    MergeCount(nodes, rest, p, i);
  }

  lemma MergeLeaves(nodes: seq<Tree>, rest: seq<Tree>, p: Tree, i: nat)
    requires |nodes| >= 2 && rest == nodes[..|nodes| - 2] && i <= |rest|
    requires p == Parent(nodes[|nodes| - 1], nodes[|nodes| - 2]) && i == InsertIndex(rest, p, Cnt, true)
    ensures multiset(AllLeaves(Merge(nodes))) == multiset(AllLeaves(nodes))
  {
    var m := Merge(nodes);
    assert m == rest[..i] + [p] + rest[i..];
    ForestInsertAt(rest, i, p);
    ForestPopTwo(nodes);
    var n := |nodes|;
    Shuffled(AllLeaves(rest[..i]), AllLeaves(rest[i..]), Leaves(nodes[n - 1]), Leaves(nodes[n - 2]));
  }

  lemma MergeCount(nodes: seq<Tree>, rest: seq<Tree>, p: Tree, i: nat)
    requires |nodes| >= 2 && rest == nodes[..|nodes| - 2] && i <= |rest|
    requires p == Parent(nodes[|nodes| - 1], nodes[|nodes| - 2]) && i == InsertIndex(rest, p, Cnt, true)
    ensures TotalCount(Merge(nodes)) == TotalCount(nodes)
  {
    var m := Merge(nodes);
    assert m == rest[..i] + [p] + rest[i..];
    ForestInsertAt(rest, i, p);
    ForestPopTwo(nodes);
  }

  /** The leaves of the parent, moved in between. */
  lemma Shuffled(x: seq<char>, y: seq<char>, la: seq<char>, lb: seq<char>)
    ensures multiset(x + (la + lb) + y) == multiset(x + y + lb + la)
  {
  }

  /** A merge of well-formed nodes gives well-formed nodes. */
  lemma MergeKeepsWellFormed(nodes: seq<Tree>)
    requires |nodes| >= 2 && AllWellFormed(nodes)
    ensures AllWellFormed(Merge(nodes))
  {
    var n := |nodes|;
    var rest, p := nodes[..n - 2], Parent(nodes[n - 1], nodes[n - 2]);
    assert WellFormed(p);
    assert AllWellFormed(rest) by {
      assert forall k :: 0 <= k < |rest| ==> rest[k] == nodes[k];
    }
    WellFormedParts(Merge(nodes), rest, p);
  }

  /** A list made of well-formed nodes and one more well-formed node. */
  lemma WellFormedParts(m: seq<Tree>, rest: seq<Tree>, p: Tree)
    requires multiset(m) == multiset(rest) + multiset{p}
    requires AllWellFormed(rest) && WellFormed(p)
    ensures AllWellFormed(m)
  {
    forall j | 0 <= j < |m| ensures WellFormed(m[j]) {
      assert m[j] in multiset(m);
      if m[j] != p {
        assert m[j] in multiset(rest);
      }
    }
  }

  /** A merge of a list sorted by descending count keeps it sorted. */
  lemma MergeKeepsSorted(nodes: seq<Tree>)
    requires |nodes| >= 2 && SortedBy(nodes, Cnt, true)
    ensures SortedBy(Merge(nodes), Cnt, true)
  {
    var n := |nodes|;
    var rest := nodes[..n - 2];
    assert SortedBy(rest, Cnt, true) by {
      forall i, j | 0 <= i < j < |rest| ensures Cnt(rest[i]) >= Cnt(rest[j]) {
        assert rest[i] == nodes[i] && rest[j] == nodes[j];
      }
    }
    InsertedKeepsSorted(rest, Parent(nodes[n - 1], nodes[n - 2]), Cnt, true);
  }

  /** What the loop keeps, carried to the root. */
  lemma {:induction false} BuildFromPreserves(nodes: seq<Tree>)
    requires |nodes| >= 1
    ensures multiset(Leaves(BuildFrom(nodes))) == multiset(AllLeaves(nodes))
    ensures BuildFrom(nodes).cnt == TotalCount(nodes)
    ensures AllWellFormed(nodes) ==> WellFormed(BuildFrom(nodes))
    decreases |nodes|
  {
    if |nodes| == 1 {
      ForestSingle(nodes[0]);
      assert nodes == [nodes[0]];
    } else {
      MergeKeepsLeaves(nodes);
      if AllWellFormed(nodes) {
        MergeKeepsWellFormed(nodes);
      }
      BuildFromPreserves(Merge(nodes));
    }
  }

  lemma {:induction false} LeafNodesLeavesAndCount(q: seq<(char, nat)>)
    ensures AllLeaves(LeafNodes(q)) == Keys(q)
    ensures TotalCount(LeafNodes(q)) == SumCounts(q)
  {
    if q != [] {
      LeafNodesLeavesAndCount(q[1..]);
      assert LeafNodes(q)[1..] == LeafNodes(q[1..]);
      assert Keys(q) == [q[0].0] + Keys(q[1..]);
    }
  }

  lemma CountsInserted(t: seq<(char, nat)>, e: (char, nat))
    ensures SumCounts(Inserted(t, e, PairCount, true)) == SumCounts(t) + e.1
  {
    var i := InsertIndex(t, e, PairCount, true);
    assert t == t[..i] + t[i..];
    SumCountsConcat(t[..i] + [e], t[i..]);
    SumCountsConcat(t[..i], [e]);
    SumCountsConcat(t[..i], t[i..]);
  }

  /** The sort keeps the total count of the frequency list. */
  lemma {:induction false} SortKeepsCounts(ps: seq<(char, nat)>)
    ensures SumCounts(StableSort(ps, PairCount, true)) == SumCounts(ps)
  {
    if ps != [] {
      StableSortStep(ps, PairCount, true);
      CountsInserted(StableSort(ps[1..], PairCount, true), ps[0]);
      SortKeepsCounts(ps[1..]);
    }
  }

  /** The starting list: its leaves are the symbols of the frequency list
      and its total is their total count. */
  lemma SortedLeafNodes(ps: seq<(char, nat)>)
    ensures multiset(AllLeaves(LeafNodes(StableSort(ps, PairCount, true)))) == multiset(Keys(ps))
    ensures TotalCount(LeafNodes(StableSort(ps, PairCount, true))) == SumCounts(ps)
  {
    LeafNodesLeavesAndCount(StableSort(ps, PairCount, true));
    SortKeepsKeys(ps, PairCount, true);
    SortKeepsCounts(ps);
  }

  /** The starting list consists of leaves sorted by descending count. */
  lemma SortedLeafNodesOrder(ps: seq<(char, nat)>)
    ensures AllWellFormed(LeafNodes(StableSort(ps, PairCount, true)))
    ensures SortedBy(LeafNodes(StableSort(ps, PairCount, true)), Cnt, true)
  {
    var sorted := StableSort(ps, PairCount, true);
    var nodes := LeafNodes(sorted);
    assert forall j :: 0 <= j < |nodes| ==> Cnt(nodes[j]) == PairCount(sorted[j]);
  }

  // ---- What the source promises of the tree ----

  /** The root built from a non-empty text: its count is the text's length,
      its leaves are the text's distinct symbols, each exactly once, every
      node's symbol and count are those of its children, and the root is a
      leaf exactly when the text has a single distinct symbol. */
  lemma CodeTreeFacts(data: string)
    requires data != ""
    ensures CodeTree(data).Ok?
    ensures CodeTree(data).value.cnt == |data|
    ensures multiset(Leaves(CodeTree(data).value)) == multiset(Distinct(data))
    ensures UniqueLeaves(CodeTree(data).value)
    ensures forall c :: c in Leaves(CodeTree(data).value) <==> c in data
    ensures WellFormed(CodeTree(data).value)
    ensures CodeTree(data).value.Symbol() == Leaves(CodeTree(data).value)
    ensures CodeTree(data).value.Leaf? <==> |Distinct(data)| == 1
  {
    var freq := Frequencies(data);
    FrequenciesKeysAndCounts(data);
    FrequenciesSum(data);
    SortedLeafNodes(freq);
    SortedLeafNodesOrder(freq);
    var nodes := LeafNodes(StableSort(freq, PairCount, true));
    BuildFromPreserves(nodes);
    var root := CodeTree(data).value;
    assert root == BuildFrom(nodes);
    NoDupPermutation(Distinct(data), Leaves(root));
    WellFormedSymbol(root);
    forall c ensures c in Leaves(root) <==> c in data {
      assert c in Leaves(root) <==> c in multiset(Leaves(root));
      assert c in Distinct(data) <==> c in multiset(Distinct(data));
    }
    assert |Leaves(root)| == |multiset(Leaves(root))| == |Distinct(data)|;
  }
}
