/**
 * The `HuffmanEncoder` class: `_create_nodes`, which turns the symbol dict into sorted leaves, and
 * `huffman_encode`, which builds the tree, traverses it from its root and sorts the encoding by
 * symbol. Reading the symbol file, parsing the command line and printing are not modelled; the
 * dict `_read_problem` returns is given as its items, in insertion order.
 */
module Encoder {
  import opened Common
  import opened Nodes
  import opened Trees
  import opened Grouping
  import opened Digits
  import opened Construction
  import opened HuffmanTrees
  import opened Alphabetical

  /** The error `huffman_encode` stops with: `traverse_and_encode(None)` reads `None.children`. */
  datatype EncodeError = NoRootNode

  /** The items of a dict: no key twice. */
  predicate UniqueKeys(symbols: seq<(string, real)>)
  {
    forall i, j :: 0 <= i < j < |symbols| ==> symbols[i].0 != symbols[j].0
  }

  /**
   * `_create_nodes(symbols_dict)`: one leaf per symbol, in the dict's order, carrying that
   * symbol's weight; then the list of them sorted by weight, each leaf once, equal weights kept
   * in the dict's order (Python's sort is stable).
   */
  method CreateNodes(symbols: seq<(string, real)>) returns (heap: seq<Node>, huffmanNodes: seq<nat>)
    ensures |heap| == |symbols|
    ensures forall k :: 0 <= k < |heap| ==> heap[k] == Leaf(symbols[k].0, symbols[k].1)
    ensures InArena(heap, huffmanNodes) && multiset(huffmanNodes) == multiset(Range(0, |heap|))
    ensures Sorted(heap, huffmanNodes) && TiesInIndexOrder(heap, huffmanNodes)
    ensures huffmanNodes == SortByWeight(heap, Range(0, |heap|))
  {
    heap := [];
    var nodes: seq<nat> := [];
    var i := 0;
    while i < |symbols|
      invariant 0 <= i <= |symbols| && |heap| == i && nodes == Range(0, i)
      invariant forall k :: 0 <= k < i ==> heap[k] == Leaf(symbols[k].0, symbols[k].1)
    {
      heap := heap + [Leaf(symbols[i].0, symbols[i].1)];
      RangeSnoc(i);
      nodes := nodes + [i];
      i := i + 1;
    }
    huffmanNodes := SortByWeight(heap, nodes);
    SortSorted(heap, nodes);
    SortKeepsTies(heap, nodes);
  }

  /** `range(0, hi + 1)` is `range(0, hi)` followed by `hi`. */
  lemma RangeSnoc(hi: nat)
    ensures Range(0, hi + 1) == Range(0, hi) + [hi]
  {
  }

  /** The leaves made from the items of a dict: fresh, and no symbol on two of them. */
  lemma LeavesOfDict(symbols: seq<(string, real)>, heap: seq<Node>)
    requires UniqueKeys(symbols) && |heap| == |symbols|
    requires forall k :: 0 <= k < |heap| ==> heap[k] == Leaf(symbols[k].0, symbols[k].1)
    ensures FreshLeaves(heap) && DistinctSymbols(heap)
  {
  }

  /** The tree state `HuffmanTree(radix, None)` starts from over the node objects `L`. */
  function InitialState(L: seq<Node>): TreeState
  {
    TreeState(L, [], None, seq(|L|, _ => []))
  }

  /**
   * The code table of n >= 2 leaves: build the tree from the sorted leaves, then read the
   * codewords from its root (the one node left to merge) with an empty code.
   */
  function CodeTable(L: seq<Node>, radix: nat): map<string, string>
    requires 2 <= radix <= MaxRadix && FreshLeaves(L) && DistinctSymbols(L) && 2 <= |L|
  {
    FinishedCodable(L, radix);
    var r := Built(L, SortByWeight(L, Range(0, |L|)), 0, radix);
    Encoding(r.0, r.1[0], [])
  }

  /** The tree built from n >= 2 leaves can be traversed from its last node. */
  lemma FinishedCodable(L: seq<Node>, radix: nat)
    requires 2 <= radix <= MaxRadix && FreshLeaves(L) && DistinctSymbols(L) && 2 <= |L|
    ensures InArena(L, SortByWeight(L, Range(0, |L|)))
    ensures var r := Built(L, SortByWeight(L, Range(0, |L|)), 0, radix);
      |L| < |r.0| && Codable(r.0) && |r.1| == 1 && r.1[0] + 1 == |r.0|
  {
    InitialForest(L, radix);
    var S := SortByWeight(L, Range(0, |L|));
    var r := Built(L, S, 0, radix);
    var root := HuffmanTreeShape(L, radix, S, r.0, r.1);
  }

  /**
   * The code table has one entry per input symbol and no other; no codeword is a prefix of
   * another; every codeword has at least one digit, each below the radix.
   */
  lemma CodeTableCorrect(L: seq<Node>, radix: nat)
    requires 2 <= radix <= MaxRadix && FreshLeaves(L) && DistinctSymbols(L) && 2 <= |L|
    ensures var E := CodeTable(L, radix);
      && E.Keys == (set k | 0 <= k < |L| :: L[k].symbol.name)
      && PrefixFree(E)
      && forall k :: 0 <= k < |L| ==>
           && 1 <= |E[L[k].symbol.name]|
           && forall c :: 0 <= c < |E[L[k].symbol.name]| ==> ValidDigit(E[L[k].symbol.name][c], radix)
  {
    FinishedCodable(L, radix);
    var S := SortByWeight(L, Range(0, |L|));
    var r := Built(L, S, 0, radix);
    var E := CodeTable(L, radix);
    CodeOfBuilt(L, radix, S, r.0, r.1, r.1[0], E);
  }

  /** `CodeTableCorrect` for the built tree and its code, named. */
  lemma CodeOfBuilt(L: seq<Node>, radix: nat, S: seq<nat>, F: seq<Node>, W: seq<nat>, root: nat, E: map<string, string>)
    requires 2 <= radix <= MaxRadix && FreshLeaves(L) && DistinctSymbols(L) && 2 <= |L|
    requires InArena(L, S) && S == SortByWeight(L, Range(0, |L|))
    requires (F, W) == Built(L, S, 0, radix)
    requires root + 1 == |F| && Codable(F) && E == Encoding(F, root, [])
    ensures E.Keys == (set k | 0 <= k < |L| :: L[k].symbol.name)
    ensures PrefixFree(E)
    ensures forall k :: 0 <= k < |L| ==>
      && 1 <= |E[L[k].symbol.name]|
      && forall c :: 0 <= c < |E[L[k].symbol.name]| ==> ValidDigit(E[L[k].symbol.name][c], radix)
  {
    HuffmanCode(L, radix, S, F, W, root, E);
  }

  /**
   * Sorting the leaves that `_create_nodes` already sorted changes nothing, so the sort at the
   * top of `build_huffman_tree` leaves the list as it is.
   */
  lemma SortedLeaves(L: seq<Node>)
    requires FreshLeaves(L)
    ensures InArena(L, Range(0, |L|)) && InArena(L, SortByWeight(L, Range(0, |L|)))
    ensures SortByWeight(L, SortByWeight(L, Range(0, |L|))) == SortByWeight(L, Range(0, |L|))
  {
    InitialRoots(L);
    var S := SortByWeight(L, Range(0, |L|));
    SortSorted(L, Range(0, |L|));
    SortOfSorted(L, S);
  }

  /**
   * What `build_huffman_tree(huffman_nodes)` does to a new tree over the sorted leaves: its arena
   * becomes the built tree, and the bookkeeping of the merges is kept.
   */
  lemma BuildFromLeaves(L: seq<Node>, radix: nat, t: TreeState)
    requires 2 <= radix <= MaxRadix && FreshLeaves(L) && DistinctSymbols(L)
    requires InArena(L, SortByWeight(L, Range(0, |L|)))
    requires t == BuildState(InitialState(L), SortByWeight(L, Range(0, |L|)), 0, radix)
    ensures t.arena == Built(L, SortByWeight(L, Range(0, |L|)), 0, radix).0
    ensures Books(InitialState(L), t)
  {
    var t0, S := InitialState(L), SortByWeight(L, Range(0, |L|));
    SortedLeaves(L);
    BuildStateArena(t0, S, 0, radix);
    BuildStateBooks(t0, S, 0, radix);
  }

  /**
   * After building over the leaves, `root_node` is set exactly when there are two or more of
   * them; with fewer, nothing is merged and the tree is as it was made.
   */
  lemma BuildOutcome(L: seq<Node>, radix: nat, t: TreeState)
    requires 2 <= radix <= MaxRadix && FreshLeaves(L) && DistinctSymbols(L)
    requires InArena(L, SortByWeight(L, Range(0, |L|)))
    requires t.arena == Built(L, SortByWeight(L, Range(0, |L|)), 0, radix).0 && Books(InitialState(L), t)
    ensures t.root.None? <==> |L| <= 1
    ensures |L| <= 1 ==> t == InitialState(L)
  {
    if 2 <= |L| {
      FinishedCodable(L, radix);
    }
  }

  /**
   * Where building set `root_node`, it is the last node made: a node without a parent from which
   * the tree can be traversed, no code list has been written yet, and reading the code from it
   * gives the code table.
   */
  lemma BuiltRoot(L: seq<Node>, radix: nat, t: TreeState, root: nat)
    requires 2 <= radix <= MaxRadix && FreshLeaves(L) && DistinctSymbols(L) && 2 <= |L|
    requires InArena(L, SortByWeight(L, Range(0, |L|)))
    requires t.arena == Built(L, SortByWeight(L, Range(0, |L|)), 0, radix).0 && Books(InitialState(L), t)
    requires t.root == Some(root)
    ensures root < |t.arena| && Codable(t.arena) && t.arena[root].parent.None?
    ensures |t.codes| == |t.arena| && forall k :: 0 <= k < |t.codes| ==> t.codes[k] == []
    ensures CodeTable(L, radix) == Encoding(t.arena, root, [])
  {
    var S := SortByWeight(L, Range(0, |L|));
    FinishedCodable(L, radix);
    var root' := FromInitialBooks(InitialState(L), t);
    LastNode(L, radix, S, t.arena, Built(L, S, 0, radix).1, root);
  }

  /** `Books` from a state with no parents, no root and empty code lists, once a node was made. */
  lemma FromInitialBooks(t0: TreeState, t: TreeState) returns (root: nat)
    requires t0.nodes == [] && t0.root == None && Books(t0, t) && |t0.arena| < |t.arena|
    requires |t0.codes| == |t0.arena| && forall k :: 0 <= k < |t0.codes| ==> t0.codes[k] == []
    ensures t.root == Some(root) && root + 1 == |t.arena| && t.nodes == Range(|t0.arena|, |t.arena|)
    ensures |t.codes| == |t.arena| && forall k :: 0 <= k < |t.codes| ==> t.codes[k] == []
  {
    root := |t.arena| - 1;
    assert [] + Range(|t0.arena|, |t.arena|) == Range(|t0.arena|, |t.arena|);
  }

  /** The last node of the built tree is its root, and the code table is read from it. */
  lemma LastNode(L: seq<Node>, radix: nat, S: seq<nat>, F: seq<Node>, W: seq<nat>, root: nat)
    requires 2 <= radix <= MaxRadix && FreshLeaves(L) && DistinctSymbols(L) && 2 <= |L|
    requires InArena(L, S) && S == SortByWeight(L, Range(0, |L|))
    requires (F, W) == Built(L, S, 0, radix) && root + 1 == |F|
    ensures Codable(F) && F[root].parent.None?
    ensures CodeTable(L, radix) == Encoding(F, root, [])
  {
    var root' := HuffmanTreeShape(L, radix, S, F, W);
  }

  /** The as-written build of one leaf merges nothing, so `huffman_encode` has no root to traverse. */
  lemma OneSymbolNoRoot(name: string, weight: real, radix: nat)
    requires 2 <= radix
    ensures var L := [Leaf(name, weight)];
      InArena(L, Range(0, 1)) && InArena(L, SortByWeight(L, Range(0, 1)))
      && BuildState(InitialState(L), SortByWeight(L, Range(0, 1)), 0, radix).root == None
  {
    var L := [Leaf(name, weight)];
    InitialRoots(L);
    assert SortByWeight(L, Range(0, 1)) == [0];
  }

  /**
   * The node the corrected `huffman_encode` traverses from: `root_node` where building set it,
   * otherwise the one node of the list. It is a node without a parent from which the tree can be
   * traversed, no code list has been written yet, and the code read from it is empty for one
   * symbol and the code table for more.
   */
  lemma CorrectedRoot(L: seq<Node>, radix: nat, t: TreeState, s: seq<nat>, root: nat)
    requires 2 <= radix <= MaxRadix && FreshLeaves(L) && DistinctSymbols(L) && 1 <= |L|
    requires s == SortByWeight(L, Range(0, |L|)) && InArena(L, s) && |s| == |L|
    requires t.arena == Built(L, s, 0, radix).0 && Books(InitialState(L), t)
    requires root == if t.root.Some? then t.root.value else s[0]
    ensures root < |t.arena| && Codable(t.arena) && t.arena[root].parent.None?
    ensures |t.codes| == |t.arena| && forall k :: 0 <= k < |t.codes| ==> t.codes[k] == []
    ensures |L| == 1 ==> map[] + Encoding(t.arena, root, []) == map[]
    ensures 2 <= |L| ==> map[] + Encoding(t.arena, root, []) == CodeTable(L, radix)
  {
    BuildOutcome(L, radix, t);
    if |L| == 1 {
      SoleLeaf(L, t, s);
    } else {
      BuiltRoot(L, radix, t, root);
    }
    EmptyUnion(Encoding(t.arena, root, []));
  }

  /** A single leaf is a tree of its own: traversing it writes nothing, as it has no parent. */
  lemma SoleLeaf(L: seq<Node>, t: TreeState, s: seq<nat>)
    requires FreshLeaves(L) && |L| == 1 && t == InitialState(L) && InArena(L, s) && |s| == 1
    ensures s[0] == 0 && Codable(t.arena) && |t.codes| == |t.arena| && t.codes[0] == []
    ensures Encoding(t.arena, s[0], []) == map[]
  {
  }

  /** Writing entries into an empty dict gives exactly those entries. */
  lemma EmptyUnion(m: map<string, string>)
    ensures map[] + m == m
  {
  }

  class HuffmanEncoder {
    const radix: nat
    /** The node objects `_create_nodes` made, by index. */
    var heap: seq<Node>
    /** `self.huffman_nodes`: the leaves, sorted by weight. */
    var huffmanNodes: seq<nat>

    /** The leaves are fresh, carry distinct symbols and are listed in sorted order. */
    predicate Valid()
      reads this
    {
      FreshLeaves(heap) && DistinctSymbols(heap) && InArena(heap, Range(0, |heap|))
      && InArena(heap, huffmanNodes) && huffmanNodes == SortByWeight(heap, Range(0, |heap|))
    }

    /**
     * `HuffmanEncoder(argv)` once the radix is parsed and `_read_problem` has returned the dict
     * whose items are `symbols`: the leaves `_create_nodes` makes of them.
     */
    constructor(symbols: seq<(string, real)>, radix: nat)
      requires UniqueKeys(symbols)
      ensures Valid() && this.radix == radix && |heap| == |symbols|
      ensures forall k :: 0 <= k < |heap| ==> heap[k] == Leaf(symbols[k].0, symbols[k].1)
    {
      this.radix := radix;
      var h, n := CreateNodes(symbols);
      heap := h;
      huffmanNodes := n;
      new;
      LeavesOfDict(symbols, heap);
      InitialRoots(heap);
    }

    /**
     * The first half of `huffman_encode()`: a new tree over the leaves, built by
     * `build_huffman_tree(self.huffman_nodes)`. Its arena is the built tree and the bookkeeping of
     * the merges is kept; nothing has been encoded yet.
     */
    method BuildTree() returns (tree: HuffmanTree)
      requires Valid() && 2 <= radix <= MaxRadix
      ensures fresh(tree) && tree.radix == radix && tree.encoding == map[]
      ensures tree.arena == Built(heap, SortByWeight(heap, Range(0, |heap|)), 0, radix).0
      ensures Books(InitialState(heap), tree.State())
    {
      tree := new HuffmanTree(radix, None, heap);
      assert tree.State() == InitialState(heap);
      tree.BuildHuffmanTree(huffmanNodes, 0);
      BuildFromLeaves(heap, radix, tree.State());
    }

    /**
     * `huffman_encode()`: build a new tree from the sorted leaves, traverse it from its
     * `root_node`, and sort the encoding by symbol. With fewer than two symbols nothing is merged,
     * `root_node` is still `None`, and the traversal fails on it.
     */
    method HuffmanEncode() returns (r: Result<seq<(string, string)>, EncodeError>)
      requires Valid() && 2 <= radix <= MaxRadix
      ensures |heap| <= 1 ==> r == Failure(NoRootNode)
      ensures 2 <= |heap| ==> r == Success(SortedItems(CodeTable(heap, radix)))
    {
      var tree := BuildTree();
      BuildOutcome(heap, radix, tree.State());
      match tree.rootNode {
        case None =>
          r := Failure(NoRootNode);
        case Some(root) =>
          BuiltRoot(heap, radix, tree.State(), root);
          ghost var table := Encoding(tree.arena, root, []);
          assert tree.Inherited(root) == [];
          tree.TraverseAndEncode(root);
          EmptyUnion(table);
          r := Success(SortedItems(tree.encoding));
      }
    }

    /**
     * `huffman_encode()` with the root fixed: when no merge was made, the one remaining node is
     * the root. A single symbol then gets no entry (the traversal skips a leaf without a parent)
     * instead of stopping the program.
     */
    method HuffmanEncodeCorrected() returns (r: seq<(string, string)>)
      requires Valid() && 2 <= radix <= MaxRadix && 1 <= |heap|
      ensures |heap| == 1 ==> r == []
      ensures 2 <= |heap| ==> r == SortedItems(CodeTable(heap, radix))
    {
      var tree := BuildTree();
      var root := if tree.rootNode.Some? then tree.rootNode.value else huffmanNodes[0];
      CorrectedRoot(heap, radix, tree.State(), huffmanNodes, root);
      ghost var table := map[] + Encoding(tree.arena, root, []);
      assert tree.Inherited(root) == [];
      tree.TraverseAndEncode(root);
      assert tree.encoding == table;
      r := SortedItems(tree.encoding);
    }
  }
}
