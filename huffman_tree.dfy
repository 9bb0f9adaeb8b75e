/** HuffmanTreeNode (huffman_coding.py:4-31): the symbol-code tree. */
module HuffmanTree {
  import opened Results
  import opened Bits
  import opened Dicts

  /** A node of the code tree. A leaf holds one symbol and its count; an
      internal node holds the concatenated symbols of its subtree, the summed
      count, and both children (the builder never makes a node with one child). */
  datatype Tree =
    | Leaf(sym: char, cnt: nat)
    | Internal(symbols: string, cnt: nat, left: Tree, right: Tree)
  {
    /** The node's `symbol` attribute. */
    function Symbol(): string {
      if Leaf? then [sym] else symbols
    }

    /** `is_leaf` (huffman_coding.py:26-27): the node does not have both children. */
    predicate IsLeaf()
      ensures IsLeaf() <==> Descend(this, "0").None? && Descend(this, "1").None?
    {
      Leaf?
    }
  }

  /** `__eq__` (huffman_coding.py:15-16): nodes compare by symbol and count only. */
  predicate SameNode(a: Tree, b: Tree) {
    a.Symbol() == b.Symbol() && a.cnt == b.cnt
  }

  /** `__eq__` is an equivalence that does not look at the children: two
      different trees can compare equal. */
  lemma SameNodeIgnoresChildren(a: Tree, b: Tree, c: Tree)
    ensures SameNode(a, a)
    ensures SameNode(a, b) ==> SameNode(b, a)
    ensures SameNode(a, b) && SameNode(b, c) ==> SameNode(a, c)
    ensures var x := Internal("ab", 2, Leaf('a', 1), Leaf('b', 1));
            var y := Internal("ab", 2, Leaf('a', 2), Leaf('b', 0));
            x != y && SameNode(x, y)
  {
  }

  /** The symbols at the leaves, left to right. */
  function Leaves(t: Tree): (s: seq<char>)
    ensures |s| >= 1
    ensures t.Internal? ==> |s| >= 2
  {
    match t
    case Leaf(c, _) => [c]
    case Internal(_, _, l, r) => Leaves(l) + Leaves(r)
  }

  /** No symbol sits at two leaves. */
  predicate UniqueLeaves(t: Tree) {
    NoDup(Leaves(t))
  }

  lemma UniqueLeavesChildren(t: Tree)
    requires t.Internal? && UniqueLeaves(t)
    ensures UniqueLeaves(t.left) && UniqueLeaves(t.right)
    ensures forall c :: c in Leaves(t.left) ==> c !in Leaves(t.right)
  {
    NoDupConcat(Leaves(t.left), Leaves(t.right));
  }

  /** Where a path of '0' (left) and '1' (right) leads from t; None when it
      runs past a leaf or holds another character. */
  function Descend(t: Tree, p: string): Option<Tree> {
    if p == [] then Some(t)
    else match t
      case Leaf(_, _) => None
      case Internal(_, _, l, r) =>
        if p[0] == '0' then Descend(l, p[1..])
        else if p[0] == '1' then Descend(r, p[1..])
        else None
  }

  predicate ReachesLeaf(t: Tree, p: string, c: char) {
    var n := Descend(t, p);
    n.Some? && n.value.Leaf? && n.value.sym == c
  }

  /** The root-to-leaf path of symbol c: '0' for each step left, '1' for each step right. */
  function PathTo(t: Tree, c: char): (p: string)
    requires c in Leaves(t)
    ensures IsBinary(p) && ReachesLeaf(t, p, c)
    ensures t.Internal? ==> |p| >= 1
  {
    match t
    case Leaf(_, _) => ""
    case Internal(_, _, l, r) =>
      if c in Leaves(l) then
        var q := PathTo(l, c);
        assert ("0" + q)[1..] == q;
        "0" + q
      else
        var q := PathTo(r, c);
        assert ("1" + q)[1..] == q;
        "1" + q
  }

  /** The paths of two different symbols are prefix-free: neither is a prefix of the other. */
  lemma {:induction false} PathsPrefixFree(t: Tree, a: char, b: char)
    requires UniqueLeaves(t) && a in Leaves(t) && b in Leaves(t) && a != b
    ensures !(PathTo(t, a) <= PathTo(t, b))
  {
    match t
    case Leaf(_, _) =>
    case Internal(_, _, l, r) =>
      UniqueLeavesChildren(t);
      var pa, pb := PathTo(t, a), PathTo(t, b);
      if a in Leaves(l) && b in Leaves(l) {
        PathsPrefixFree(l, a, b);
        assert pa == "0" + PathTo(l, a) && pb == "0" + PathTo(l, b);
      } else if a !in Leaves(l) && b !in Leaves(l) {
        PathsPrefixFree(r, a, b);
        assert pa == "1" + PathTo(r, a) && pb == "1" + PathTo(r, b);
      } else {
        assert pa[0] != pb[0];
      }
  }
}
