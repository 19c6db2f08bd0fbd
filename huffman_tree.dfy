/**
 * The `HuffmanTree` class: its build (`build_huffman_tree`, `add_children`) and its traversal
 * (`traverse_and_encode`), each proved against the functions of `Construction` and `Trees`.
 *
 * The node objects the tree works on live in `arena`, named by index; their `code` lists live in
 * `codes`, index for index.
 */
module HuffmanTrees {
  import opened Common
  import opened Nodes
  import opened Trees
  import opened Grouping
  import opened Digits
  import opened Construction

  /** Pops the first `count` nodes off `work`, one at a time, as `huffman_nodes.pop(0)` does. */
  method PopFront(work: seq<nat>, count: nat) returns (popped: seq<nat>, rest: seq<nat>)
    requires count <= |work|
    ensures popped == work[..count] && rest == work[count..]
  {
    popped, rest := [], work;
    var n := 0;
    while n < count
      invariant 0 <= n <= count && popped == work[..n] && rest == work[n..]
    {
      popped := popped + [rest[0]];
      rest := rest[1..];
      n := n + 1;
    }
  }

  /** The fields of a `HuffmanTree` that building changes, as one value. */
  datatype TreeState = TreeState(arena: seq<Node>, nodes: seq<nat>, root: Option<nat>, codes: seq<seq<CodeItem>>)

  /**
   * The body of one call of `build_huffman_tree` on its sorted list `work` of two or more nodes:
   * the arena as `Merge` leaves it, the new parent recorded in `nodes` and made the root, an empty
   * code list for it; and the list with the parent put in front of what is left (not yet sorted).
   */
  function MergeState(t: TreeState, work: seq<nat>, level: nat, radix: nat): (r: (TreeState, seq<nat>))
    requires radix >= 2 && InArena(t.arena, work) && 2 <= |work| && (level > 0 ==> Reducible(|work|, radix))
  {
    GroupFits(level, |work|, radix);
    var p := |t.arena|;
    (TreeState(Merge(t.arena, work, level, radix).0, t.nodes + [p], Some(p), t.codes + [[]]),
     [p] + work[GroupSize(level, |work|, radix)..])
  }

  /** `build_huffman_tree(huffman_nodes, level)` on the tree's state: sort, and merge while more than one node is left. */
  function BuildState(t: TreeState, huffmanNodes: seq<nat>, level: nat, radix: nat): TreeState
    requires radix >= 2 && InArena(t.arena, huffmanNodes) && (level > 0 ==> Reducible(|huffmanNodes|, radix))
    decreases |huffmanNodes|
  {
    var work := SortByWeight(t.arena, huffmanNodes);
    InArenaMembers(t.arena, huffmanNodes, work);
    if |work| <= 1 then t
    else
      var m := MergeState(t, work, level, radix);
      MergeStateRest(t, work, level, radix);
      BuildState(m.0, m.1, level + 1, radix)
  }

  /** The list a merge leaves names nodes of the new arena, is shorter, and sorts to `Merge`'s list. */
  lemma MergeStateRest(t: TreeState, work: seq<nat>, level: nat, radix: nat)
    requires radix >= 2 && InArena(t.arena, work) && 2 <= |work| && (level > 0 ==> Reducible(|work|, radix))
    ensures var m := MergeState(t, work, level, radix);
      && InArena(m.0.arena, m.1) && |m.1| < |work| && Reducible(|m.1|, radix)
      && SortByWeight(m.0.arena, m.1) == Merge(t.arena, work, level, radix).1
  {
    var g, B, T, U := MergeParts(t.arena, work, level, radix);
  }

  /** One call of `build_huffman_tree` that merges: the rest of the build goes on from the merge's result. */
  lemma BuildStateStep(t: TreeState, huffmanNodes: seq<nat>, work: seq<nat>, level: nat, radix: nat, t': TreeState, rest: seq<nat>)
    requires radix >= 2 && InArena(t.arena, huffmanNodes) && (level > 0 ==> Reducible(|huffmanNodes|, radix))
    requires work == SortByWeight(t.arena, huffmanNodes) && InArena(t.arena, work) && 2 <= |work|
    requires level > 0 ==> Reducible(|work|, radix)
    requires (t', rest) == MergeState(t, work, level, radix)
    requires InArena(t'.arena, rest) && |rest| < |huffmanNodes| && Reducible(|rest|, radix)
    ensures BuildState(t, huffmanNodes, level, radix) == BuildState(t', rest, level + 1, radix)
  {
  }

  /** The arena `build_huffman_tree` leaves is the one `Built` describes, from the sorted list. */
  lemma {:induction false} BuildStateArena(t: TreeState, huffmanNodes: seq<nat>, level: nat, radix: nat)
    requires radix >= 2 && InArena(t.arena, huffmanNodes) && (level > 0 ==> Reducible(|huffmanNodes|, radix))
    ensures InArena(t.arena, SortByWeight(t.arena, huffmanNodes))
    ensures BuildState(t, huffmanNodes, level, radix).arena == Built(t.arena, SortByWeight(t.arena, huffmanNodes), level, radix).0
    decreases |huffmanNodes|, 1
  {
    var work := SortByWeight(t.arena, huffmanNodes);
    InArenaMembers(t.arena, huffmanNodes, work);
    if |work| > 1 {
      BuildStateArenaStep(t, huffmanNodes, work, level, radix);
    } else {
      BuiltDone(t.arena, work, level, radix);
    }
  }

  /** The merging case of `BuildStateArena`. */
  lemma {:induction false} BuildStateArenaStep(t: TreeState, huffmanNodes: seq<nat>, work: seq<nat>, level: nat, radix: nat)
    requires radix >= 2 && InArena(t.arena, huffmanNodes) && (level > 0 ==> Reducible(|huffmanNodes|, radix))
    requires work == SortByWeight(t.arena, huffmanNodes) && InArena(t.arena, work) && 2 <= |work|
    ensures BuildState(t, huffmanNodes, level, radix).arena == Built(t.arena, work, level, radix).0
    decreases |huffmanNodes|, 0
  {
    MergeStateRest(t, work, level, radix);
    var m := MergeState(t, work, level, radix);
    BuildStateStep(t, huffmanNodes, work, level, radix, m.0, m.1);
    BuildStateArena(m.0, m.1, level + 1, radix);
    MergeCount(t.arena, work, level, radix);
    var mm := Merge(t.arena, work, level, radix);
    BuiltMerge(t.arena, work, level, radix, mm.0, mm.1);
  }

  /**
   * The bookkeeping of `build_huffman_tree` from state `t` to state `r`: every parent made is
   * appended to `nodes`, in the order made, and gets an empty code list; the last one made is the
   * root; with nothing made, the root stays as it was.
   */
  predicate Books(t: TreeState, r: TreeState)
  {
    && |t.arena| <= |r.arena|
    && r.nodes == t.nodes + Range(|t.arena|, |r.arena|)
    && (|r.arena| == |t.arena| ==> r.root == t.root)
    && (|r.arena| > |t.arena| ==> r.root == Some(|r.arena| - 1))
    && |r.codes| == |t.codes| + (|r.arena| - |t.arena|)
    && (forall k :: 0 <= k < |r.codes| ==> r.codes[k] == if k < |t.codes| then t.codes[k] else [])
  }

  /** One merge's bookkeeping followed by more keeps the bookkeeping, and at least one node was made. */
  lemma BooksAfterMerge(t: TreeState, t': TreeState, r: TreeState)
    requires |t'.arena| == |t.arena| + 1 && t'.nodes == t.nodes + [|t.arena|]
    requires t'.root == Some(|t.arena|) && t'.codes == t.codes + [[]]
    requires Books(t', r)
    ensures Books(t, r) && |t.arena| < |r.arena|
  {
    AppendRange(t.nodes, |t.arena|, |r.arena|);
  }

  /** Building keeps the books. */
  lemma {:induction false} BuildStateBooks(t: TreeState, huffmanNodes: seq<nat>, level: nat, radix: nat)
    requires radix >= 2 && InArena(t.arena, huffmanNodes) && (level > 0 ==> Reducible(|huffmanNodes|, radix))
    ensures Books(t, BuildState(t, huffmanNodes, level, radix))
    decreases |huffmanNodes|, 1
  {
    var work := SortByWeight(t.arena, huffmanNodes);
    InArenaMembers(t.arena, huffmanNodes, work);
    if |work| > 1 {
      BuildStateBooksStep(t, huffmanNodes, work, level, radix);
    } else {
      assert Range(|t.arena|, |t.arena|) == [];
    }
  }

  /** The merging case of `BuildStateBooks`. */
  lemma {:induction false} BuildStateBooksStep(t: TreeState, huffmanNodes: seq<nat>, work: seq<nat>, level: nat, radix: nat)
    requires radix >= 2 && InArena(t.arena, huffmanNodes) && (level > 0 ==> Reducible(|huffmanNodes|, radix))
    requires work == SortByWeight(t.arena, huffmanNodes) && InArena(t.arena, work) && 2 <= |work|
    ensures Books(t, BuildState(t, huffmanNodes, level, radix))
    decreases |huffmanNodes|, 0
  {
    MergeStateRest(t, work, level, radix);
    var m := MergeState(t, work, level, radix);
    BuildStateStep(t, huffmanNodes, work, level, radix, m.0, m.1);
    BuildStateBooks(m.0, m.1, level + 1, radix);
    BooksAfterMerge(t, m.0, BuildState(m.0, m.1, level + 1, radix));
  }

  /**
   * The code lists once the first `i` children of `node` are traversed, starting from `O`, when the
   * children of `node` inherit `code`: those below the children visited hold `code` plus their
   * path from `node`, all others are as in `O`.
   */
  ghost function ChildrenCoded(A: seq<Node>, node: nat, i: nat, code: seq<CodeItem>, O: seq<seq<CodeItem>>): seq<seq<CodeItem>>
    requires Codable(A) && node < |A| && |O| == |A|
  {
    seq(|A|, k requires 0 <= k < |A| =>
      if k < node && Under(A, k, node) && PathTo(A, k, node)[0] < i then code + Items(PathTo(A, k, node)) else O[k])
  }

  /**
   * The code lists once `c` is traversed with the code list `code`, starting from `O`: the nodes
   * under `c` (itself included) hold `code` plus their path from `c`, all others are as in `O`.
   */
  ghost function SubtreeCoded(A: seq<Node>, c: nat, code: seq<CodeItem>, O: seq<seq<CodeItem>>): seq<seq<CodeItem>>
    requires Codable(A) && c < |A| && |O| == |A|
  {
    seq(|A|, k requires 0 <= k < |A| => if k <= c && Under(A, k, c) then code + Items(PathTo(A, k, c)) else O[k])
  }

  /** What the traversal of `c` leaves, once `c` itself holds `code`, is `SubtreeCoded`. */
  lemma SubtreeDone(A: seq<Node>, c: nat, code: seq<CodeItem>, O: seq<seq<CodeItem>>, C: seq<seq<CodeItem>>)
    requires Codable(A) && c < |A| && |O| == |A| && |C| == |A|
    requires forall k :: 0 <= k < |A| ==>
      C[k] == if k < c && Under(A, k, c) then code + Items(PathTo(A, k, c)) else O[c := code][k]
    ensures C == SubtreeCoded(A, c, code, O)
  {
    var S := SubtreeCoded(A, c, code, O);
    forall k | 0 <= k < |A| ensures C[k] == S[k] {
      if k == c {
        assert PathTo(A, c, c) == [] && Items([]) == [];
      }
    }
  }

  /**
   * The code lists after child `i` of `node` is traversed: those below child `i` now hold the
   * inherited code plus their path from `node`, as those below children 0..i-1 already did.
   */
  lemma CodesStep(A: seq<Node>, node: nat, i: nat, code: seq<CodeItem>, O: seq<seq<CodeItem>>, C0: seq<seq<CodeItem>>, C1: seq<seq<CodeItem>>)
    requires Codable(A) && node < |A| && i < |A[node].children|
    requires |O| == |A| && C0 == ChildrenCoded(A, node, i, code, O)
    requires C1 == SubtreeCoded(A, A[node].children[i], code + [ToItem(i)], C0)
    ensures C1 == ChildrenCoded(A, node, i + 1, code, O)
  {
    var C := ChildrenCoded(A, node, i + 1, code, O);
    forall k | 0 <= k < |A| ensures C1[k] == C[k] {
      CodeStep(A, node, i, code, k, O[k], C0[k], C1[k]);
    }
  }

  /** `CodesStep` for the code list of one node `k`. */
  lemma CodeStep(A: seq<Node>, node: nat, i: nat, code: seq<CodeItem>, k: nat, o: seq<CodeItem>, c0: seq<CodeItem>, c1: seq<CodeItem>)
    requires Codable(A) && node < |A| && i < |A[node].children| && k < |A|
    requires c0 == if k < node && Under(A, k, node) && PathTo(A, k, node)[0] < i then code + Items(PathTo(A, k, node)) else o
    requires c1 == if k <= A[node].children[i] && Under(A, k, A[node].children[i])
      then code + [ToItem(i)] + Items(PathTo(A, k, A[node].children[i])) else c0
    ensures c1 == if k < node && Under(A, k, node) && PathTo(A, k, node)[0] < i + 1 then code + Items(PathTo(A, k, node)) else o
  {
    ChildSubtree(A, node, i, k);
    if k <= A[node].children[i] && Under(A, k, A[node].children[i]) {
      ChildCode(A, node, i, code, k);
    }
  }

  /** The code a node below child `i` gets: the code `node` hands down plus its path from `node`. */
  lemma ChildCode(A: seq<Node>, node: nat, i: nat, code: seq<CodeItem>, k: nat)
    requires Codable(A) && node < |A| && i < |A[node].children| && Under(A, k, A[node].children[i])
    ensures Under(A, k, node)
    ensures code + [ToItem(i)] + Items(PathTo(A, k, A[node].children[i])) == code + Items(PathTo(A, k, node))
  {
    PathStep(A, node, i, k);
    ItemsCons(i, PathTo(A, k, A[node].children[i]));
  }

  /** The entries written after child `i` of `node` is traversed: those of children 0..i. */
  lemma EncodingStep(A: seq<Node>, node: nat, i: nat, code: seq<CodeItem>, E0: map<string, string>, E: map<string, string>, E1: map<string, string>)
    requires Codable(A) && node < |A| && i < |A[node].children|
    requires E == E0 + EncodingOfChildren(A, node, i, code)
    requires E1 == E + Encoding(A, A[node].children[i], code + [ToItem(i)])
    ensures E1 == E0 + EncodingOfChildren(A, node, i + 1, code)
  {
    var X, Y := EncodingOfChildren(A, node, i, code), Encoding(A, A[node].children[i], code + [ToItem(i)]);
    assert EncodingOfChildren(A, node, i + 1, code) == X + Y;
    MergeAssoc(E0, X, Y);
  }

  /** Once all children of `node` are traversed, every node strictly below it has its code. */
  lemma CodesDone(A: seq<Node>, node: nat, code: seq<CodeItem>, O: seq<seq<CodeItem>>, C: seq<seq<CodeItem>>)
    requires Codable(A) && node < |A| && |O| == |A| && C == ChildrenCoded(A, node, |A[node].children|, code, O)
    ensures forall k :: 0 <= k < |A| ==> C[k] == if k < node && Under(A, k, node) then code + Items(PathTo(A, k, node)) else O[k]
  {
    PathHeads(A, node);
  }

  /**
   * Before child `i` of `node` is traversed, the code lists below it are still as they were when
   * the traversal of `node` began: empty.
   */
  lemma FreshBelowChild(A: seq<Node>, node: nat, i: nat, code: seq<CodeItem>, O: seq<seq<CodeItem>>, C0: seq<seq<CodeItem>>)
    requires Codable(A) && node < |A| && i < |A[node].children|
    requires |O| == |A| && C0 == ChildrenCoded(A, node, i, code, O)
    requires forall k :: 0 <= k < node && Under(A, k, node) ==> O[k] == []
    ensures forall k :: 0 <= k < |A| && k <= A[node].children[i] && Under(A, k, A[node].children[i]) ==> C0[k] == []
  {
    forall k | 0 <= k < |A| && k <= A[node].children[i] && Under(A, k, A[node].children[i]) ensures C0[k] == [] {
      ChildSubtree(A, node, i, k);
    }
  }

  class HuffmanTree {
    const radix: nat
    var rootNode: Option<nat>
    /** The parent nodes made so far, in the order they were made (`self.nodes`). */
    var nodes: seq<nat>
    /** Symbol to codeword (`self.encoding`). */
    var encoding: map<string, string>
    /** Every node object, by index. */
    var arena: seq<Node>
    /** The `code` list of every node, by index. */
    var codes: seq<seq<CodeItem>>

    /**
     * `HuffmanTree(radix, root_node)`: no parents made yet and an empty encoding, over the node
     * objects `heap` that exist already; every node's code list starts empty.
     */
    constructor(radix: nat, rootNode: Option<nat>, heap: seq<Node>)
      ensures |codes| == |arena|
      ensures this.radix == radix && this.rootNode == rootNode && nodes == [] && encoding == map[]
      ensures arena == heap && forall k :: 0 <= k < |codes| ==> codes[k] == []
    {
      this.radix := radix;
      this.rootNode := rootNode;
      nodes := [];
      encoding := map[];
      arena := heap;
      codes := seq(|heap|, _ => []);
    }

    /**
     * `add_children(parent, children)`: every child in turn gets `parent` as its parent and the
     * parent's level minus one as its level; nothing else changes.
     */
    method AddChildren(parent: nat, children: seq<nat>)
      requires parent < |arena| && arena[parent].level.Some? && InArena(arena, children) && parent !in children
      modifies this`arena
      ensures arena == Adopt(old(arena), children, parent, old(arena[parent]).level.value - 1)
    {
      var level := arena[parent].level.value - 1;
      var i := 0;
      while i < |children|
        invariant 0 <= i <= |children| && |arena| == |old(arena)| && arena[parent] == old(arena[parent])
        invariant arena == Adopt(old(arena), children[..i], parent, level)
      {
        var child := children[i];
        arena := arena[child := arena[child].(parent := Some(parent), level := Some(arena[parent].level.value - 1))];
        assert children[..i + 1][..i] == children[..i];
        i := i + 1;
      }
      assert children[..|children|] == children;
    }

    /** The fields building changes, as one value. */
    function State(): TreeState
      reads this
    {
      TreeState(arena, nodes, rootNode, codes)
    }

    /**
     * `build_huffman_tree(huffman_nodes, level)`: sort the list by weight; while more than one node
     * is left, merge one group and recurse one level up with what is left. The new state is
     * `BuildState` of the old one; `BuildStateArena` and `BuildStateBooks` say what that is.
     */
    method BuildHuffmanTree(huffmanNodes: seq<nat>, level: nat)
      requires radix >= 2 && InArena(arena, huffmanNodes)
      requires level > 0 ==> Reducible(|huffmanNodes|, radix)
      modifies this`arena, this`nodes, this`rootNode, this`codes
      ensures State() == BuildState(old(State()), huffmanNodes, level, radix)
      decreases |huffmanNodes|
    {
      var work := SortByWeight(arena, huffmanNodes);
      InArenaMembers(arena, huffmanNodes, work);
      if |work| > 1 {
        ghost var before := State();
        MergeStateRest(before, work, level, radix);
        var rest := MergeGroup(work, level);
        BuildStateStep(before, huffmanNodes, work, level, radix, State(), rest);
        BuildHuffmanTree(rest, level + 1);
      }
    }

    /**
     * The body of one call of `build_huffman_tree` on its sorted list `work` of two or more nodes:
     * pop the group, make the parent (its weight the group's total), record it, adopt the group
     * under it, make it the root and put it in front of what is left, as `MergeState` says.
     */
    method MergeGroup(work: seq<nat>, level: nat) returns (rest: seq<nat>)
      requires radix >= 2 && InArena(arena, work) && 2 <= |work|
      requires level > 0 ==> Reducible(|work|, radix)
      modifies this`arena, this`nodes, this`rootNode, this`codes
      ensures (State(), rest) == MergeState(old(State()), work, level, radix)
    {
      GroupFits(level, |work|, radix);
      var children: seq<nat>, g: nat;
      if level == 0 && radix > 2 {
        g := FirstGroupSize(|work|, radix);
      } else {
        g := radix;
      }
      children, rest := PopFront(work, g);
      var weight := SumWeights(arena, children);
      var p: nat := |arena|;
      arena := arena + [Node(Merged(level), weight, None, children, Some(level + 1))];
      codes := codes + [[]];
      nodes := nodes + [p];
      AddChildren(p, children);
      rootNode := Some(p);
      rest := [p] + rest;
    }

    /** The code list the children of `i` build on: none for a node without a parent, else its own. */
    function Inherited(i: nat): seq<CodeItem>
      reads this
      requires i < |arena| && |codes| == |arena|
    {
      if arena[i].parent.None? then [] else codes[i]
    }

    /** `for e in node.code: child.code.append(e)`: the child's code list gets `items` appended, one at a time. */
    method InheritCode(child: nat, items: seq<CodeItem>)
      requires child < |codes|
      modifies this`codes
      ensures codes == old(codes)[child := old(codes[child]) + items]
    {
      var e := 0;
      while e < |items|
        invariant 0 <= e <= |items| && |codes| == |old(codes)|
        invariant codes[child] == old(codes[child]) + items[..e]
        invariant forall k :: 0 <= k < |codes| && k != child ==> codes[k] == old(codes[k])
      {
        codes := codes[child := codes[child] + [items[e]]];
        assert items[..e + 1] == items[..e] + [items[e]];
        e := e + 1;
      }
      assert items[..|items|] == items;
    }

    /**
     * `traverse_and_encode(node)`: child `i` of `node` gets the code `node`'s children inherit plus
     * the element for `i`, and is traversed in turn; a leaf with a parent writes its joined code
     * into `encoding`. The entries written are `Encoding` of the tree; every node strictly below
     * `node` ends with the inherited code plus the elements of its path from `node`, and nothing
     * else changes. The code lists below `node` start empty, as they do on the traversal
     * `huffman_encode` makes.
     */
    method TraverseAndEncode(node: nat)
      requires Codable(arena) && node < |arena| && |codes| == |arena|
      requires forall k :: 0 <= k < node && Under(arena, k, node) ==> codes[k] == []
      modifies this`codes, this`encoding
      ensures |codes| == |arena|
      ensures encoding == old(encoding) + Encoding(arena, node, old(Inherited(node)))
      ensures forall k :: 0 <= k < |arena| ==>
        codes[k] == if k < node && Under(arena, k, node) then old(Inherited(node)) + Items(PathTo(arena, k, node)) else old(codes[k])
      decreases node, 2
    {
      if |arena[node].children| > 0 {
        EncodeChildren(node);
      } else {
        NothingBelowLeaf(arena, node);
        if arena[node].parent.Some? {
          encoding := encoding[arena[node].symbol.name := Render(codes[node])];
        }
      }
    }

    /** The loop of `traverse_and_encode` over the children of an inner node, in order. */
    method EncodeChildren(node: nat)
      requires Codable(arena) && node < |arena| && |codes| == |arena| && |arena[node].children| > 0
      requires forall k :: 0 <= k < node && Under(arena, k, node) ==> codes[k] == []
      modifies this`codes, this`encoding
      ensures |codes| == |arena|
      ensures encoding == old(encoding) + EncodingOfChildren(arena, node, |arena[node].children|, old(Inherited(node)))
      ensures forall k :: 0 <= k < |arena| ==>
        codes[k] == if k < node && Under(arena, k, node) then old(Inherited(node)) + Items(PathTo(arena, k, node)) else old(codes[k])
      decreases node, 1
    {
      var children := arena[node].children;
      ghost var code := Inherited(node);
      var i := 0;
      while i < |children|
        invariant 0 <= i <= |children| && |codes| == |arena| && Inherited(node) == code
        invariant encoding == old(encoding) + EncodingOfChildren(arena, node, i, code)
        invariant codes == ChildrenCoded(arena, node, i, code, old(codes))
      {
        var item: CodeItem;
        if i > 9 {
          item := Alpha(LargeBaseConvert(i));
        } else {
          item := Digit(i);
        }
        VisitChild(node, i, code, item, old(codes), old(encoding));
        i := i + 1;
      }
      CodesDone(arena, node, code, old(codes), codes);
    }

    /**
     * One round of the loop of `traverse_and_encode` over the children of `node`: child `i` gets
     * the inherited code and `item` appended to its (empty) code list, and is traversed. `O` and
     * `E0` are the code lists and the encoding when the loop began.
     */
    method VisitChild(node: nat, i: nat, ghost code: seq<CodeItem>, item: CodeItem, ghost O: seq<seq<CodeItem>>, ghost E0: map<string, string>)
      requires Codable(arena) && node < |arena| && |O| == |arena| && |codes| == |arena| && i < |arena[node].children|
      requires code == Inherited(node) && item == ToItem(i)
      requires forall k :: 0 <= k < node && Under(arena, k, node) ==> O[k] == []
      requires codes == ChildrenCoded(arena, node, i, code, O)
      requires encoding == E0 + EncodingOfChildren(arena, node, i, code)
      modifies this`codes, this`encoding
      ensures codes == ChildrenCoded(arena, node, i + 1, code, O)
      ensures encoding == E0 + EncodingOfChildren(arena, node, i + 1, code)
      decreases node, 0
    {
      FreshBelowChild(arena, node, i, code, O, codes);
      var child := arena[node].children[i];
      ghost var C0, E, A := codes, encoding, arena;
      if arena[node].parent.None? {
        codes := codes[child := codes[child] + [item]];
      } else {
        InheritCode(child, codes[node]);
        codes := codes[child := codes[child] + [item]];
      }
      assert arena[child].parent == Some(node) && Inherited(child) == code + [item];
      assert codes == C0[child := code + [item]];
      TraverseAndEncode(child);
      SubtreeDone(A, child, code + [item], C0, codes);
      CodesStep(A, node, i, code, O, C0, codes);
      EncodingStep(A, node, i, code, E0, E, encoding);
    }
  }
}
