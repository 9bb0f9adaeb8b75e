/** `SimpleHuffmanCoder` (huffman_coding.py:50-124): builds the code tree and
    the code table of a text, encodes by table lookup and decodes by walking
    the tree. */
module SimpleCoder {
  import opened Results
  import opened Bits
  import opened Dicts
  import opened SortedInsert
  import opened FrequencyTable
  import opened HuffmanTree
  import opened TreeBuilder

  // ---- Building the tree ----

  /** The body of the loop at lines 84-91: pop node1, pop node2, and insert
      their parent by count. */
  method MergeLast(symbolNodes: seq<Tree>) returns (r: seq<Tree>)
    requires |symbolNodes| >= 2
    ensures r == Merge(symbolNodes)
  {
    var n := |symbolNodes|;
    var node1 := symbolNodes[n - 1];     // the first pop()
    var node2 := symbolNodes[n - 2];     // the second pop()
    var rest := symbolNodes[..n - 2];
    var nodeParent := Internal(node1.Symbol() + node2.Symbol(), node1.cnt + node2.cnt, node1, node2);
    r := InsertSorted(rest, nodeParent, Cnt, true);
  }

  /** The loop of lines 83-91: merge the two last nodes until one is left
      (MergeKeepsSorted shows that each step keeps the list sorted). */
  method MergeAll(nodes: seq<Tree>) returns (symbolNodes: seq<Tree>)
    ensures nodes == [] ==> symbolNodes == []
    ensures nodes != [] ==> symbolNodes == [BuildFrom(nodes)]
  {
    symbolNodes := nodes;
    while |symbolNodes| > 1
      invariant symbolNodes == [] <==> nodes == []
      invariant nodes != [] ==> BuildFrom(symbolNodes) == BuildFrom(nodes)
      decreases |symbolNodes|
    {
      MergeStep(symbolNodes);
      symbolNodes := MergeLast(symbolNodes);
    }
    if nodes != [] {
      assert |symbolNodes| == 1;
      assert symbolNodes == [symbolNodes[0]];
    }
  }

  /** The computation of `_make_code_tree` (lines 79-92): the root, or the
      IndexError of `symbol_nodes[0]` on an empty text. */
  method BuildCodeTree(data: string) returns (root: Result<Tree>)
    ensures root == CodeTree(data)
  {
    var symbolFreq := SymbolFrequencies(data);
    symbolFreq := StableSort(symbolFreq, PairCount, true);
    var symbolNodes := LeafNodes(symbolFreq);
    symbolNodes := MergeAll(symbolNodes);
    if |symbolNodes| == 0 {
      root := Err(IndexError);
    } else {
      root := Ok(symbolNodes[0]);
    }
  }

  // ---- The code table ----

  /** `code_node(node, cur_code)` (lines 96-103) applied to the dict d: a leaf
      gets cur_code, an internal node hands cur_code + '0' to its left child
      and then cur_code + '1' to its right child. */
  function CodeNode(d: Dict<char, string>, t: Tree, cur: string): Dict<char, string>
    decreases t
  {
    match t
    case Leaf(c, _) => Put(d, c, cur)
    case Internal(_, _, l, r) => CodeNode(CodeNode(d, l, cur + "0"), r, cur + "1")
  }

  /** The table `_make_code_dict` builds into a fresh, empty dict. */
  function CodeDict(t: Tree): Dict<char, string> {
    CodeNode([], t, "")
  }

  /** Every leaf symbol gets the path to it, appended to cur; nothing else
      changes. */
  lemma {:induction false} CodeNodeGet(d: Dict<char, string>, t: Tree, cur: string, c: char)
    requires UniqueLeaves(t)
    ensures Get(CodeNode(d, t, cur), c)
         == if c in Leaves(t) then Some(cur + PathTo(t, c)) else Get(d, c)
    decreases t
  {
    if t.Internal? {
      var l, r := t.left, t.right;
      var inner := CodeNode(d, l, cur + "0");
      UniqueLeavesChildren(t);
      CodeNodeGet(d, l, cur + "0", c);
      CodeNodeGet(inner, r, cur + "1", c);
      if c in Leaves(l) {
        PathThroughLeft(t, c, cur);
      } else if c in Leaves(r) {
        PathThroughRight(t, c, cur);
      }
    } else if c == t.sym {
      assert cur + PathTo(t, c) == cur;
    }
  }

  lemma PathThroughLeft(t: Tree, c: char, cur: string)
    requires t.Internal? && c in Leaves(t.left)
    ensures c in Leaves(t) && cur + "0" + PathTo(t.left, c) == cur + PathTo(t, c)
  {
    assert (cur + "0") + PathTo(t.left, c) == cur + ("0" + PathTo(t.left, c));
  }

  lemma PathThroughRight(t: Tree, c: char, cur: string)
    requires t.Internal? && c !in Leaves(t.left) && c in Leaves(t.right)
    ensures c in Leaves(t) && cur + "1" + PathTo(t.right, c) == cur + PathTo(t, c)
  {
    assert (cur + "1") + PathTo(t.right, c) == cur + ("1" + PathTo(t.right, c));
  }

  /** Symbols new to d are appended in left-to-right leaf order. */
  lemma {:induction false} CodeNodeKeys(d: Dict<char, string>, t: Tree, cur: string)
    requires UniqueLeaves(t)
    requires forall c :: c in Leaves(t) ==> c !in Keys(d)
    ensures Keys(CodeNode(d, t, cur)) == Keys(d) + Leaves(t)
    ensures IsDict(d) ==> IsDict(CodeNode(d, t, cur))
    decreases t
  {
    match t
    case Leaf(_, _) =>
    case Internal(_, _, l, r) =>
      UniqueLeavesChildren(t);
      CodeNodeKeys(d, l, cur + "0");
      CodeNodeKeys(CodeNode(d, l, cur + "0"), r, cur + "1");
  }

  /** `_make_code_dict` on a fresh coder (huffman_coding.py:94-105): the keys
      are the leaf symbols, and each symbol's code is its root-to-leaf path,
      '0' for left and '1' for right. */
  lemma CodeDictPaths(t: Tree)
    requires UniqueLeaves(t)
    ensures IsDict(CodeDict(t)) && Keys(CodeDict(t)) == Leaves(t)
    ensures forall c :: c in Leaves(t) ==> Get(CodeDict(t), c) == Some(PathTo(t, c))
  {
    CodeNodeKeys([], t, "");
    forall c | c in Leaves(t) ensures Get(CodeDict(t), c) == Some(PathTo(t, c)) {
      CodeNodeGet([], t, "", c);
      assert "" + PathTo(t, c) == PathTo(t, c);
    }
  }

  /** No code of the table is a prefix of another symbol's code. */
  lemma CodeDictPrefixFree(t: Tree, a: char, b: char)
    requires UniqueLeaves(t) && a in Leaves(t) && b in Leaves(t) && a != b
    ensures Get(CodeDict(t), a).Some? && Get(CodeDict(t), b).Some?
    ensures !(Get(CodeDict(t), a).value <= Get(CodeDict(t), b).value)
  {
    CodeDictPaths(t);
    PathsPrefixFree(t, a, b);
  }

  // ---- Encoding ----

  /** `encode` (lines 107-109): the codes of the symbols, concatenated in order;
      KeyError for a symbol without a code. */
  function EncodeWith(d: Dict<char, string>, s: string): (r: Result<string>)
    ensures r.Ok? <==> forall i :: 0 <= i < |s| ==> s[i] in Keys(d)
    ensures r.Err? ==> r.error == KeyError
  {
    if s == [] then Ok("")
    else
      match Get(d, s[0])
      case None => Err(KeyError)
      case Some(code) =>
        var r := Prefixed(code, EncodeWith(d, s[1..]));
        assert forall i :: 1 <= i < |s| ==> s[i] == s[1..][i - 1];
        r
  }

  // ---- Decoding ----

  /** The node reached from t over one bit: its left or right child, or None
      (`left`/`right` of a leaf are None). */
  function Child(t: Tree, bit: char): (n: Option<Tree>)
    requires bit == '0' || bit == '1'
    ensures n == Descend(t, [bit])
  {
    assert [bit][1..] == [];
    if t.Leaf? then None else if bit == '0' then Some(t.left) else Some(t.right)
  }

  /** `decode` (lines 111-124) from the current node on: a character other
      than '0'/'1' raises ValueError; a step from a missing node, or onto one,
      raises AttributeError (a leaf has no children; an unfitted coder has no
      tree); on reaching a leaf its symbol is emitted and the walk restarts
      at the root. */
  function WalkFrom(root: Option<Tree>, node: Option<Tree>, bits: string): (r: Result<string>)
    ensures r.Err? ==> r.error == ValueError || r.error == AttributeError
    ensures r.Ok? ==> IsBinary(bits)
    decreases |bits|
  {
    if bits == [] then Ok("")
    else if bits[0] != '0' && bits[0] != '1' then Err(ValueError)
    else if node.None? then Err(AttributeError)
    else
      var next := Child(node.value, bits[0]);
      assert forall i :: 1 <= i < |bits| ==> bits[i] == bits[1..][i - 1];
      if next.None? then Err(AttributeError)
      else if next.value.IsLeaf() then Prefixed(next.value.Symbol(), WalkFrom(root, root, bits[1..]))
      else WalkFrom(root, next, bits[1..])
  }

  /** Decoding a code from a node below the root: the path to a symbol emits
      that symbol and returns to the root. */
  lemma {:induction false} WalkPath(root: Tree, t: Tree, c: char, rest: string)
    requires t.Internal? && c in Leaves(t)
    ensures WalkFrom(Some(root), Some(t), PathTo(t, c) + rest)
         == Prefixed([c], WalkFrom(Some(root), Some(root), rest))
  {
    var p := PathTo(t, c);
    var bits := p + rest;
    assert bits[0] == p[0] && bits[1..] == p[1..] + rest;
    var child := if c in Leaves(t.left) then t.left else t.right;
    assert Child(t, bits[0]) == Some(child);
    assert p[1..] == PathTo(child, c);
    if child.Internal? {
      WalkPath(root, child, c, rest);
    } else {
      assert p[1..] == [];
      assert bits[1..] == rest;
    }
  }

  /** Decoding inverts encoding for a tree of at least two leaves:
      decode(encode(s)) == s for every s over the tree's symbols. */
  lemma {:induction false} DecodeEncode(t: Tree, s: string)
    requires t.Internal? && UniqueLeaves(t)
    requires forall i :: 0 <= i < |s| ==> s[i] in Leaves(t)
    ensures EncodeWith(CodeDict(t), s).Ok?
    ensures WalkFrom(Some(t), Some(t), EncodeWith(CodeDict(t), s).value) == Ok(s)
  {
    CodeDictPaths(t);
    if s != [] {
      assert forall i :: 0 <= i < |s[1..]| ==> s[1..][i] == s[i + 1];
      DecodeEncode(t, s[1..]);
      var rest := EncodeWith(CodeDict(t), s[1..]).value;
      assert EncodeWith(CodeDict(t), s).value == PathTo(t, s[0]) + rest;
      WalkPath(t, t, s[0], rest);
      assert [s[0]] + s[1..] == s;
    }
  }

  /** The round trip of a fitted simple coder: for a text with at least two
      distinct symbols, every string over its symbols decodes to itself. */
  lemma FittedRoundTrip(text: string, s: string)
    requires |Distinct(text)| >= 2
    requires forall i :: 0 <= i < |s| ==> s[i] in text
    ensures var t := CodeTree(text).value;
            EncodeWith(CodeDict(t), s).Ok? &&
            WalkFrom(Some(t), Some(t), EncodeWith(CodeDict(t), s).value) == Ok(s)
  {
    assert text != [] by {
      if text == [] {
        FrequenciesOfEmpty();
      }
    }
    CodeTreeFacts(text);
    DecodeEncode(CodeTree(text).value, s);
  }

  /** From an internal node of a tree whose root is internal, `decode` fails
      only on a character other than '0' and '1', and then with ValueError:
      every binary string decodes, a trailing incomplete code being dropped. */
  lemma {:induction false} WalkInternal(t: Tree, n: Tree, bits: string)
    requires t.Internal? && n.Internal?
    ensures WalkFrom(Some(t), Some(n), bits).Ok? <==> IsBinary(bits)
    ensures WalkFrom(Some(t), Some(n), bits).Err? ==> WalkFrom(Some(t), Some(n), bits).error == ValueError
    decreases |bits|
  {
    if bits != [] && (bits[0] == '0' || bits[0] == '1') {
      var next := Child(n, bits[0]).value;
      assert IsBinary(bits) <==> IsBinary(bits[1..]) by {
        assert forall i :: 1 <= i < |bits| ==> bits[i] == bits[1..][i - 1];
      }
      if next.IsLeaf() {
        WalkInternal(t, t, bits[1..]);
      } else {
        WalkInternal(t, next, bits[1..]);
      }
    }
  }

  /** The decoding errors of a fitted simple coder with at least two
      distinct symbols: ValueError exactly on a non-binary string. */
  lemma FittedDecodeErrors(text: string, bits: string)
    requires |Distinct(text)| >= 2
    ensures CodeTree(text).Ok?
    ensures var t := CodeTree(text).value;
            WalkFrom(Some(t), Some(t), bits).Ok? <==> IsBinary(bits)
    ensures var t := CodeTree(text).value;
            WalkFrom(Some(t), Some(t), bits).Err? ==> WalkFrom(Some(t), Some(t), bits).error == ValueError
  {
    assert text != [] by {
      if text == [] {
        FrequenciesOfEmpty();
      }
    }
    CodeTreeFacts(text);
    var t := CodeTree(text).value;
    assert |Leaves(t)| >= 2 by {
      assert |multiset(Leaves(t))| == |multiset(Distinct(text))|;
    }
    WalkInternal(t, t, bits);
  }

  // ---- The coder object ----

  class SimpleHuffmanCoder {
    /** `_symbol_tree`: None until fitted. */
    var symbolTree: Option<Tree>
    /** `_code_dict`. */
    var codeDict: Dict<char, string>

    /** `__init__` (lines 64-70): a non-empty string fits the coder. */
    constructor(s: string)
      ensures s == "" ==> symbolTree == None && codeDict == []
      ensures s != "" ==>
        symbolTree == Some(CodeTree(s).value) && codeDict == CodeDict(CodeTree(s).value)
    {
      symbolTree := None;
      codeDict := [];
      new;
      if s != "" {
        var err := Fit(s);
      }
    }

    /** `fit` (lines 72-74). On an empty text `_make_code_tree` raises
        IndexError before anything changes. The table is written into the
        existing dict, so codes of an earlier fit stay for symbols the new
        text lacks. */
    method Fit(data: string) returns (err: Option<Error>)
      modifies this
      ensures data == "" ==>
        err == Some(IndexError) && symbolTree == old(symbolTree) && codeDict == old(codeDict)
      ensures data != "" ==>
        err == None && symbolTree == Some(CodeTree(data).value) &&
        codeDict == CodeNode(old(codeDict), CodeTree(data).value, "")
    {
      err := MakeCodeTree(data);
      if err.None? {
        err := MakeCodeDict();
      }
    }

    /** `_make_code_tree` (lines 76-92). */
    method MakeCodeTree(data: string) returns (err: Option<Error>)
      modifies this
      ensures data == "" ==> err == Some(IndexError) && symbolTree == old(symbolTree)
      ensures data != "" ==> err == None && symbolTree == Some(CodeTree(data).value)
      ensures codeDict == old(codeDict)
    {
      var root := BuildCodeTree(data);
      match root
      case Err(e) =>
        err := Some(e);
      case Ok(t) =>
        symbolTree := Some(t);
        err := None;
    }

    /** `_make_code_dict` (lines 94-105); without a tree, `code_node(None, '')`
        raises AttributeError. */
    method MakeCodeDict() returns (err: Option<Error>)
      modifies this
      ensures symbolTree == old(symbolTree)
      ensures old(symbolTree).None? ==> err == Some(AttributeError) && codeDict == old(codeDict)
      ensures old(symbolTree).Some? ==>
        err == None && codeDict == CodeNode(old(codeDict), old(symbolTree).value, "")
    {
      match symbolTree
      case None =>
        err := Some(AttributeError);
      case Some(t) =>
        codeDict := CodeNode(codeDict, t, "");
        err := None;
    }

    /** `encode` (lines 107-109). */
    method Encode(s: string) returns (r: Result<string>)
      ensures r == EncodeWith(codeDict, s)
    {
      r := EncodeWith(codeDict, s);
    }

    /** `decode` (lines 111-124). */
    method Decode(bits: string) returns (r: Result<string>)
      ensures r == WalkFrom(symbolTree, symbolTree, bits)
    {
      var symbolNode := symbolTree;
      var decoded := "";
      var i := 0;
      assert bits[0..] == bits;
      PrefixedEmpty(WalkFrom(symbolTree, symbolTree, bits));
      while i < |bits|
        invariant 0 <= i <= |bits|
        invariant Prefixed(decoded, WalkFrom(symbolTree, symbolNode, bits[i..]))
               == WalkFrom(symbolTree, symbolTree, bits)
      {
        var bit := bits[i];
        assert bits[i..][1..] == bits[i + 1..];
        if bit == '0' {
          if symbolNode.None? {
            return Err(AttributeError);
          }
          symbolNode := Child(symbolNode.value, '0');
        } else if bit == '1' {
          if symbolNode.None? {
            return Err(AttributeError);
          }
          symbolNode := Child(symbolNode.value, '1');
        } else {
          return Err(ValueError);
        }
        if symbolNode.None? {
          return Err(AttributeError);
        }
        if symbolNode.value.IsLeaf() {
          PrefixedTwice(decoded, symbolNode.value.Symbol(), WalkFrom(symbolTree, symbolTree, bits[i + 1..]));
          decoded := decoded + symbolNode.value.Symbol();
          symbolNode := symbolTree;
        }
        i := i + 1;
      }
      assert decoded + "" == decoded;
      r := Ok(decoded);
    }
  }
}
