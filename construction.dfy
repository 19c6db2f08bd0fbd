/**
 * What one call of `build_huffman_tree` does to the arena and to its working list, as functions,
 * and the shape every intermediate forest keeps: the facts from which the finished tree's
 * properties follow.
 */
module Construction {
  import opened Common
  import opened Nodes
  import opened Trees
  import opened Grouping
  import opened Digits

  /**
   * `add_children(parent, children)`: each child in turn gets `p` as parent and `level` as level
   * (huffman.py lines 86-99), written as the loop's effect after its last child.
   */
  function Adopt(A: seq<Node>, children: seq<nat>, p: nat, level: int): (B: seq<Node>)
    requires InArena(A, children)
    ensures |B| == |A|
    decreases |children|
  {
    if children == [] then A
    else
      var c := children[|children| - 1];
      var B := Adopt(A, children[..|children| - 1], p, level);
      B[c := B[c].(parent := Some(p), level := Some(level))]
  }

  /** Adoption changes the parent and level of exactly the children, and nothing else. */
  lemma {:induction false} AdoptEffect(A: seq<Node>, children: seq<nat>, p: nat, level: int)
    requires InArena(A, children)
    ensures forall k :: 0 <= k < |A| ==>
      Adopt(A, children, p, level)[k] == if k in children then A[k].(parent := Some(p), level := Some(level)) else A[k]
    decreases |children|
  {
    if children != [] {
      var C := children[..|children| - 1];
      assert children == C + [children[|children| - 1]];
      AdoptEffect(A, C, p, level);
    }
  }

  /** The parent node a merge at `level` creates over `children` (huffman.py lines 63-64). */
  function NewParent(A: seq<Node>, children: seq<nat>, level: nat): Node
    requires InArena(A, children)
  {
    Node(Merged(level), SumWeights(A, children), None, children, Some(level + 1))
  }

  /**
   * One call of `build_huffman_tree` on a sorted list `S` of at least two nodes: pop the group off
   * the front, append the parent to the arena, adopt the group, put the parent in front of the
   * rest, and sort (the sort at the top of the next call).
   */
  function Merge(A: seq<Node>, S: seq<nat>, level: nat, radix: nat): (r: (seq<Node>, seq<nat>))
    requires radix >= 2 && InArena(A, S) && 2 <= |S| && (level > 0 ==> Reducible(|S|, radix))
    ensures |r.0| == |A| + 1 && InArena(r.0, r.1) && |r.1| == |S| - GroupSize(level, |S|, radix) + 1
  {
    GroupFits(level, |S|, radix);
    var g := GroupSize(level, |S|, radix);
    var p := |A|;
    var B := Adopt(A + [NewParent(A, S[..g], level)], S[..g], p, level);
    var S' := [p] + S[g..];
    InArenaMembers(B, S', SortByWeight(B, S'));
    (B, SortByWeight(B, S'))
  }

  /**
   * The recursion of `build_huffman_tree` from a sorted working list `S` at `level`: merge while
   * more than one node is left. The result is the final arena and the final working list.
   */
  function Built(A: seq<Node>, S: seq<nat>, level: nat, radix: nat): (r: (seq<Node>, seq<nat>))
    requires radix >= 2 && InArena(A, S) && (level > 0 ==> Reducible(|S|, radix))
    ensures |A| <= |r.0| && InArena(r.0, r.1)
    decreases |S|
  {
    if |S| <= 1 then (A, S)
    else
      GroupFits(level, |S|, radix);
      var m := Merge(A, S, level, radix);
      Built(m.0, m.1, level + 1, radix)
  }

  // ---- the shape of every intermediate forest ----

  /** The first `n` nodes are the leaves: no children, an input symbol each. */
  predicate LeavesFirst(A: seq<Node>, n: nat)
  {
    n <= |A| && forall k :: 0 <= k < n ==> A[k].children == [] && A[k].symbol.Symbol?
  }

  /**
   * Node `n + m` was made by merge number `m`: labelled with `m`, as heavy as its children together,
   * children in ascending weight, as many as that merge pops (the first group for the first merge
   * when radix > 2, otherwise radix).
   */
  predicate MergedNodes(A: seq<Node>, n: nat, radix: nat)
  {
    forall k {:trigger A[k].children} :: n <= k < |A| ==>
      && A[k].symbol == Merged(k - n)
      && |A[k].children| == (if k == n && radix > 2 then FirstGroup(n, radix) else radix)
      && InArena(A, A[k].children)
      && A[k].weight == SumWeights(A, A[k].children)
      && Sorted(A, A[k].children)
  }

  /**
   * The levels `add_children` and the merges leave: a node with a parent has the number of the
   * merge that adopted it, a parentless merged node the number after its own, a parentless leaf none.
   */
  predicate Levels(A: seq<Node>, n: nat)
  {
    forall k {:trigger A[k].level} :: 0 <= k < |A| ==>
      A[k].level == (if A[k].parent.Some? then Some(A[k].parent.value - n)
                     else if k >= n then Some(k - n + 1) else None)
  }

  /** The working list holds each parentless node once, sorted by weight, and nothing else. */
  predicate Roots(A: seq<Node>, W: seq<nat>)
  {
    && InArena(A, W) && Distinct(W) && Sorted(A, W)
    && forall k {:trigger A[k].parent} :: 0 <= k < |A| ==> (A[k].parent.None? <==> k in W)
  }

  /** The state between two calls of `build_huffman_tree`, after `m` merges over `n` leaves. */
  predicate Forest(A: seq<Node>, W: seq<nat>, n: nat, m: nat, radix: nat)
  {
    && radix >= 2 && |A| == n + m
    && Linked(A) && LeavesFirst(A, n) && MergedNodes(A, n, radix) && Levels(A, n) && Roots(A, W)
    && (m == 0 ==> |W| == n)
    && (m > 0 ==> Reducible(|W|, radix) && A[n + m - 1].parent.None?)
  }

  // ---- one merge keeps the shape ----

  /**
   * `B` is `A` with one node appended and the nodes of `C` adopted by it at `level`: every old
   * node keeps its label, weight and children, and only the adopted ones change parent and level.
   */
  predicate Adopted(A: seq<Node>, B: seq<Node>, C: seq<nat>, level: nat)
  {
    && |B| == |A| + 1
    && forall k :: 0 <= k < |A| ==>
         && B[k].symbol == A[k].symbol && B[k].weight == A[k].weight && B[k].children == A[k].children
         && B[k].parent == (if k in C then Some(|A|) else A[k].parent)
         && B[k].level == (if k in C then Some(level) else A[k].level)
  }

  /**
   * What a merge does, with its parts named: the group size `g`, the new arena `B` (the parent
   * appended, the group adopted by it), the list `T` with the parent put in front of what is left,
   * and its sorted version `U`, the next working list.
   */
  lemma MergeParts(A: seq<Node>, S: seq<nat>, level: nat, radix: nat)
    returns (g: nat, B: seq<Node>, T: seq<nat>, U: seq<nat>)
    requires radix >= 2 && InArena(A, S) && 2 <= |S| && (level > 0 ==> Reducible(|S|, radix))
    ensures g == GroupSize(level, |S|, radix) && 2 <= g <= radix && g <= |S| && Reducible(|U|, radix)
    ensures InArena(A, S[..g]) && |B| == |A| + 1 && B[|A|] == NewParent(A, S[..g], level)
    ensures Adopted(A, B, S[..g], level) && SameWeights(A, B)
    ensures T == [|A|] + S[g..] && InArena(B, T) && U == SortByWeight(B, T)
    ensures Merge(A, S, level, radix) == (B, U)
  {
    GroupFits(level, |S|, radix);
    g := GroupSize(level, |S|, radix);
    var P := A + [NewParent(A, S[..g], level)];
    AdoptEffect(P, S[..g], |A|, level);
    B := Adopt(P, S[..g], |A|, level);
    T := [|A|] + S[g..];
    U := SortByWeight(B, T);
    MergeCount(A, S, level, radix);
  }

  /** Adoption keeps the leaves first. */
  lemma AdoptedLeaves(A: seq<Node>, B: seq<Node>, C: seq<nat>, n: nat, level: nat)
    requires LeavesFirst(A, n) && Adopted(A, B, C, level)
    ensures LeavesFirst(B, n)
  {
  }

  /** Adoption at the level of the merge keeps the levels. */
  lemma AdoptedLevels(A: seq<Node>, B: seq<Node>, C: seq<nat>, n: nat, level: nat)
    requires Levels(A, n) && Adopted(A, B, C, level) && |A| == n + level
    requires B[|A|].parent.None? && B[|A|].level == Some(level + 1)
    ensures Levels(B, n)
  {
  }

  /** Splitting a list of distinct nodes: every member is in exactly one part. */
  lemma SplitMembers(S: seq<nat>, g: nat)
    requires Distinct(S) && g <= |S|
    ensures forall k :: k in S <==> k in S[..g] || k in S[g..]
    ensures forall k :: k in S[..g] ==> k !in S[g..]
    ensures Distinct(S[..g]) && Distinct(S[g..])
  {
    assert S == S[..g] + S[g..];
    forall k | k in S[..g] ensures k !in S[g..] {
      var a :| 0 <= a < g && S[..g][a] == k;
      forall b | 0 <= b < |S| - g ensures S[g..][b] != k {
        assert S[g..][b] == S[g + b] && S[..g][a] == S[a];
      }
    }
    forall a, b | 0 <= a < b < |S| - g ensures S[g..][a] != S[g..][b] {
      assert S[g..][a] == S[g + a] && S[g..][b] == S[g + b];
    }
  }

  /** Adopting a group of distinct parentless nodes under a new node keeps the arena linked. */
  lemma AdoptedLinked(A: seq<Node>, B: seq<Node>, C: seq<nat>, level: nat)
    requires Linked(A) && Adopted(A, B, C, level) && InArena(A, C) && Distinct(C)
    requires B[|A|].children == C && B[|A|].parent.None?
    requires forall a :: 0 <= a < |C| ==> A[C[a]].parent.None?
    ensures Linked(B)
  {
    AdoptedChildLinks(A, B, C, level);
    AdoptedParentLinks(A, B, C, level);
  }

  /** After adoption every child still points back at its parent, the new node's group included. */
  lemma AdoptedChildLinks(A: seq<Node>, B: seq<Node>, C: seq<nat>, level: nat)
    requires Linked(A) && Adopted(A, B, C, level) && InArena(A, C)
    requires B[|A|].children == C
    requires forall a :: 0 <= a < |C| ==> A[C[a]].parent.None?
    ensures forall i, j :: 0 <= i < |B| && 0 <= j < |B[i].children| ==>
      B[i].children[j] < i && B[B[i].children[j]].parent == Some(i)
  {
    forall i, j | 0 <= i < |B| && 0 <= j < |B[i].children|
      ensures B[i].children[j] < i && B[B[i].children[j]].parent == Some(i)
    {
      if i < |A| {
        var c := A[i].children[j];
        assert A[c].parent == Some(i);
        assert c !in C;
      } else {
        assert B[i].children[j] == C[j];
      }
    }
  }

  /** After adoption every parent link points at a later node that lists the child. */
  lemma AdoptedParentLinks(A: seq<Node>, B: seq<Node>, C: seq<nat>, level: nat)
    requires Linked(A) && Adopted(A, B, C, level) && Distinct(C)
    requires B[|A|].children == C && B[|A|].parent.None?
    ensures forall k {:trigger B[k].parent} :: 0 <= k < |B| && B[k].parent.Some? ==>
      k < B[k].parent.value < |B| && k in B[B[k].parent.value].children
    ensures forall i :: 0 <= i < |B| ==> Distinct(B[i].children)
  {
  }

  /** After a merge the working list again holds exactly the parentless nodes. */
  lemma AdoptedRoots(A: seq<Node>, B: seq<Node>, S: seq<nat>, g: nat, level: nat)
    requires Distinct(S) && g <= |S| && InArena(A, S)
    requires forall k :: 0 <= k < |A| ==> (A[k].parent.None? <==> k in S)
    requires Adopted(A, B, S[..g], level) && B[|A|].parent.None?
    ensures Distinct([|A|] + S[g..])
    ensures forall k :: 0 <= k < |B| ==> (B[k].parent.None? <==> k in [|A|] + S[g..])
  {
    var p, R := |A|, S[g..];
    SplitMembers(S, g);
    assert p !in R;
    forall a, b | 0 <= a < b < |[p] + R| ensures ([p] + R)[a] != ([p] + R)[b] {
      if a > 0 {
        assert ([p] + R)[a] == R[a - 1] && ([p] + R)[b] == R[b - 1];
      }
    }
  }

  /** The new parent's children are in ascending weight: a prefix of a sorted list. */
  lemma PrefixSorted(A: seq<Node>, S: seq<nat>, g: nat)
    requires InArena(A, S) && Sorted(A, S) && g <= |S|
    ensures InArena(A, S[..g]) && Sorted(A, S[..g])
  {
    forall a, b | 0 <= a < b < g ensures A[S[..g][a]].weight <= A[S[..g][b]].weight {
      assert S[..g][a] == S[a] && S[..g][b] == S[b];
    }
  }

  /** What is left after the group is popped is still sorted. */
  lemma SuffixSorted(A: seq<Node>, S: seq<nat>, g: nat)
    requires InArena(A, S) && Sorted(A, S) && g <= |S|
    ensures InArena(A, S[g..]) && Sorted(A, S[g..])
  {
    forall a, b | 0 <= a < b < |S| - g ensures A[S[g..][a]].weight <= A[S[g..][b]].weight {
      assert S[g..][a] == S[g + a] && S[g..][b] == S[g + b];
    }
  }

  /** The merged nodes, the old ones and the new parent, keep their labels, sizes and weights. */
  lemma AdoptedMergedNodes(A: seq<Node>, B: seq<Node>, C: seq<nat>, n: nat, level: nat, radix: nat)
    requires MergedNodes(A, n, radix) && Adopted(A, B, C, level) && SameWeights(A, B)
    requires |A| == n + level && InArena(A, C) && Sorted(A, C)
    requires B[|A|] == NewParent(A, C, level)
    requires |C| == (if |A| == n && radix > 2 then FirstGroup(n, radix) else radix)
    ensures MergedNodes(B, n, radix)
  {
    forall k | n <= k < |B|
      ensures && B[k].symbol == Merged(k - n)
              && |B[k].children| == (if k == n && radix > 2 then FirstGroup(n, radix) else radix)
              && InArena(B, B[k].children)
              && B[k].weight == SumWeights(B, B[k].children)
              && Sorted(B, B[k].children)
    {
      var D := if k < |A| then A[k].children else C;
      assert B[k].children == D;
      SameWeightsSum(A, B, D);
      SameWeightsSorted(A, B, D);
    }
  }

  /** Adopting the popped group under the new parent keeps the arena's links and its shape. */
  lemma AdoptedArena(A: seq<Node>, S: seq<nat>, n: nat, m: nat, radix: nat, g: nat, B: seq<Node>)
    requires Forest(A, S, n, m, radix) && 2 <= |S| && g == GroupSize(m, |S|, radix) && g <= |S|
    requires InArena(A, S[..g]) && |B| == |A| + 1 && B[|A|] == NewParent(A, S[..g], m)
    requires Adopted(A, B, S[..g], m) && SameWeights(A, B)
    ensures Linked(B) && LeavesFirst(B, n) && MergedNodes(B, n, radix) && Levels(B, n)
  {
    var C := S[..g];
    assert forall a :: 0 <= a < |C| ==> C[a] == S[a];
    SplitMembers(S, g);
    AdoptedLinked(A, B, C, m);
    PrefixSorted(A, S, g);
    AdoptedMergedNodes(A, B, C, n, m, radix);
    AdoptedLeaves(A, B, C, n, m);
    AdoptedLevels(A, B, C, n, m);
  }

  /** Putting the parent back and sorting leaves exactly the parentless nodes in the working list. */
  lemma RequeuedRoots(A: seq<Node>, S: seq<nat>, g: nat, m: nat, B: seq<Node>, T: seq<nat>, U: seq<nat>)
    requires Roots(A, S) && g <= |S| && Adopted(A, B, S[..g], m) && B[|A|].parent.None?
    requires T == [|A|] + S[g..] && InArena(B, T) && U == SortByWeight(B, T)
    ensures Roots(B, U) && |U| == |T|
  {
    AdoptedRoots(A, B, S, g, m);
    SortDistinct(B, T);
    SortSorted(B, T);
    forall k | 0 <= k < |B| ensures k in T <==> k in U {
      assert k in U <==> k in multiset(U);
    }
  }

  /** The parts of a merge of a forest after `m` merges make a forest after `m + 1`. */
  lemma NextForest(A: seq<Node>, S: seq<nat>, n: nat, m: nat, radix: nat, g: nat, B: seq<Node>, U: seq<nat>)
    requires Forest(A, S, n, m, radix) && 2 <= |S| && g == GroupSize(m, |S|, radix) && g <= |S|
    requires InArena(A, S[..g]) && |B| == |A| + 1 && B[|A|] == NewParent(A, S[..g], m)
    requires Adopted(A, B, S[..g], m) && SameWeights(A, B)
    requires Roots(B, U) && Reducible(|U|, radix)
    ensures Forest(B, U, n, m + 1, radix)
  {
    AdoptedArena(A, S, n, m, radix, g, B);
    assert |B| == n + m + 1 && B[n + m].parent.None?;
    ForestOf(B, U, n, m + 1, radix);
  }

  /** The shape of a forest after at least one merge, from its parts. */
  lemma ForestOf(B: seq<Node>, U: seq<nat>, n: nat, m: nat, radix: nat)
    requires radix >= 2 && m > 0 && |B| == n + m && Roots(B, U)
    requires Linked(B) && LeavesFirst(B, n) && MergedNodes(B, n, radix) && Levels(B, n)
    requires Reducible(|U|, radix) && B[n + m - 1].parent.None?
    ensures Forest(B, U, n, m, radix)
  {
  }

  /** One merge turns a forest after `m` merges into a forest after `m + 1`. */
  lemma MergeForest(A: seq<Node>, S: seq<nat>, n: nat, m: nat, radix: nat)
    requires Forest(A, S, n, m, radix) && 2 <= |S|
    ensures var r := Merge(A, S, m, radix); Forest(r.0, r.1, n, m + 1, radix)
  {
    var g, B, T, U := MergeParts(A, S, m, radix);
    RequeuedRoots(A, S, g, m, B, T, U);
    NextForest(A, S, n, m, radix, g, B, U);
  }

  /**
   * Ties go to the new parent: after a merge, the new parent stands in front of every node of
   * the same weight in the working list, because it is put at the front before the stable sort.
   */
  lemma ParentBeforeTies(A: seq<Node>, S: seq<nat>, level: nat, radix: nat, B: seq<Node>, U: seq<nat>)
    requires radix >= 2 && InArena(A, S) && Sorted(A, S) && 2 <= |S|
    requires level > 0 ==> Reducible(|S|, radix)
    requires (B, U) == Merge(A, S, level, radix)
    ensures InArena(B, U) && |A| < |B|
    ensures |A| in U && forall k :: 0 <= k < |U| && B[U[k]].weight == B[|A|].weight ==> IndexOf(U, |A|) <= k
  {
    var g, B', T, U' := MergeParts(A, S, level, radix);
    SuffixSorted(A, S, g);
    SameWeightsSorted(A, B, S[g..]);
    RequeueTies(B, |A|, S[g..], T, U);
  }

  /** Sorting a sorted list with `p` in front leaves `p` in front of every node as heavy as it. */
  lemma RequeueTies(B: seq<Node>, p: nat, R: seq<nat>, T: seq<nat>, U: seq<nat>)
    requires p < |B| && InArena(B, R) && Sorted(B, R) && T == [p] + R && InArena(B, T)
    requires U == SortByWeight(B, T)
    ensures InArena(B, U)
    ensures p in U && forall k :: 0 <= k < |U| && B[U[k]].weight == B[p].weight ==> IndexOf(U, p) <= k
  {
    SortFront(B, p, R, T);
    InArenaMembers(B, T, U);
    InsertAt(B, p, R);
    var q := InsertPosition(B, p, R);
    SplitIndex(R, q, p, U);
    assert IndexOf(U, p) <= q;
  }

  // ---- the whole build ----

  /** The parent weighs what its group weighed, so the list's total weight does not change. */
  lemma ParentSum(A: seq<Node>, B: seq<Node>, S: seq<nat>, g: nat, T: seq<nat>)
    requires InArena(A, S) && g <= |S| && SameWeights(A, B) && |B| == |A| + 1
    requires InArena(A, S[..g]) && B[|A|].weight == SumWeights(A, S[..g])
    requires T == [|A|] + S[g..] && InArena(B, T)
    ensures InArena(B, SortByWeight(B, T)) && SumWeights(B, SortByWeight(B, T)) == SumWeights(A, S)
  {
    var C, R := S[..g], S[g..];
    assert S == C + R;
    assert InArena(A, R) by {
      forall k | 0 <= k < |R| ensures R[k] < |A| {
        assert R[k] == S[g + k];
      }
    }
    SumConcat(A, C, R);
    SameWeightsSum(A, B, R);
    assert T[1..] == R;
    assert SumWeights(B, T) == B[|A|].weight + SumWeights(B, R);
    SumSort(B, T);
  }

  /** A merge keeps the total weight of the working list. */
  lemma MergeSum(A: seq<Node>, S: seq<nat>, level: nat, radix: nat)
    requires radix >= 2 && InArena(A, S) && 2 <= |S| && (level > 0 ==> Reducible(|S|, radix))
    ensures var r := Merge(A, S, level, radix); SumWeights(r.0, r.1) == SumWeights(A, S)
  {
    var g, B, T, U := MergeParts(A, S, level, radix);
    ParentSum(A, B, S, g, T);
  }

  /** Old nodes keep their label, weight and children. */
  predicate Keeps(A: seq<Node>, B: seq<Node>)
  {
    |A| <= |B| &&
    forall k :: 0 <= k < |A| ==>
      B[k].symbol == A[k].symbol && B[k].weight == A[k].weight && B[k].children == A[k].children
  }

  lemma KeepsTrans(A: seq<Node>, B: seq<Node>, C: seq<Node>)
    requires Keeps(A, B) && Keeps(B, C)
    ensures Keeps(A, C)
  {
  }

  /** One step of the build, named: the next arena and list, and the same final result. */
  lemma BuiltStep(A: seq<Node>, S: seq<nat>, level: nat, radix: nat) returns (B: seq<Node>, U: seq<nat>)
    requires radix >= 2 && InArena(A, S) && 2 <= |S| && (level > 0 ==> Reducible(|S|, radix))
    ensures InArena(B, U) && 1 <= |U| < |S| && Reducible(|U|, radix)
    ensures Built(A, S, level, radix) == Built(B, U, level + 1, radix)
    ensures Keeps(A, B) && SumWeights(B, U) == SumWeights(A, S)
  {
    var g, T;
    g, B, T, U := MergeParts(A, S, level, radix);
    MergeCount(A, S, level, radix);
    BuiltMerge(A, S, level, radix, B, U);
    ParentSum(A, B, S, g, T);
  }

  /** Building from two or more nodes is building from what one merge leaves. */
  lemma BuiltMerge(A: seq<Node>, S: seq<nat>, level: nat, radix: nat, B: seq<Node>, U: seq<nat>)
    requires radix >= 2 && InArena(A, S) && 2 <= |S| && (level > 0 ==> Reducible(|S|, radix))
    requires (B, U) == Merge(A, S, level, radix) && Reducible(|U|, radix)
    ensures Built(A, S, level, radix) == Built(B, U, level + 1, radix)
  {
  }

  /** A merge leaves a list that later merges of `radix` nodes reduce to exactly one node. */
  lemma MergeCount(A: seq<Node>, S: seq<nat>, level: nat, radix: nat)
    requires radix >= 2 && InArena(A, S) && 2 <= |S| && (level > 0 ==> Reducible(|S|, radix))
    ensures var m := Merge(A, S, level, radix); 1 <= |m.1| < |S| && Reducible(|m.1|, radix)
  {
    GroupFits(level, |S|, radix);
  }

  /** With at most one node left, building stops. */
  lemma BuiltDone(A: seq<Node>, S: seq<nat>, level: nat, radix: nat)
    requires radix >= 2 && InArena(A, S) && (level > 0 ==> Reducible(|S|, radix)) && |S| <= 1
    ensures Built(A, S, level, radix) == (A, S)
  {
  }

  /** Building never relabels, reweighs or regroups a node that already exists. */
  lemma {:induction false} BuiltKeeps(A: seq<Node>, S: seq<nat>, level: nat, radix: nat, F: seq<Node>, W: seq<nat>)
    requires radix >= 2 && InArena(A, S) && (level > 0 ==> Reducible(|S|, radix))
    requires (F, W) == Built(A, S, level, radix)
    ensures Keeps(A, F)
    decreases |S|, 1
  {
    if |S| > 1 {
      BuiltKeepsStep(A, S, level, radix, F, W);
    } else {
      BuiltDone(A, S, level, radix);
    }
  }

  /** The recursive case of `BuiltKeeps`. */
  lemma {:induction false} BuiltKeepsStep(A: seq<Node>, S: seq<nat>, level: nat, radix: nat, F: seq<Node>, W: seq<nat>)
    requires radix >= 2 && InArena(A, S) && (level > 0 ==> Reducible(|S|, radix)) && |S| > 1
    requires (F, W) == Built(A, S, level, radix)
    ensures Keeps(A, F)
    decreases |S|, 0
  {
    var B, U := BuiltStep(A, S, level, radix);
    BuiltKeeps(B, U, level + 1, radix, F, W);
    KeepsTrans(A, B, F);
  }

  /** Building keeps the total weight: the nodes left at the end weigh what the input weighed. */
  lemma {:induction false} BuiltSum(A: seq<Node>, S: seq<nat>, level: nat, radix: nat, F: seq<Node>, W: seq<nat>)
    requires radix >= 2 && InArena(A, S) && (level > 0 ==> Reducible(|S|, radix))
    requires (F, W) == Built(A, S, level, radix)
    ensures InArena(F, W) && SumWeights(F, W) == SumWeights(A, S)
    decreases |S|, 1
  {
    if |S| > 1 {
      BuiltSumStep(A, S, level, radix, F, W);
    } else {
      BuiltDone(A, S, level, radix);
    }
  }

  /** The recursive case of `BuiltSum`. */
  lemma {:induction false} BuiltSumStep(A: seq<Node>, S: seq<nat>, level: nat, radix: nat, F: seq<Node>, W: seq<nat>)
    requires radix >= 2 && InArena(A, S) && (level > 0 ==> Reducible(|S|, radix)) && |S| > 1
    requires (F, W) == Built(A, S, level, radix)
    ensures InArena(F, W) && SumWeights(F, W) == SumWeights(A, S)
    decreases |S|, 0
  {
    var B, U := BuiltStep(A, S, level, radix);
    BuiltSum(B, U, level + 1, radix, F, W);
  }

  /**
   * Building from a forest after `m` merges ends in a forest after `merges` merges whose working
   * list holds one node (none for no input).
   */
  lemma {:induction false} BuiltForest(A: seq<Node>, S: seq<nat>, n: nat, m: nat, radix: nat, F: seq<Node>, W: seq<nat>)
    returns (merges: nat)
    requires Forest(A, S, n, m, radix) && (F, W) == Built(A, S, m, radix)
    ensures |F| == n + merges && Forest(F, W, n, merges, radix) && |W| <= 1 && (|S| >= 1 ==> |W| == 1)
    decreases |S|
  {
    if |S| > 1 {
      var B, S' := ForestStep(A, S, n, m, radix);
      merges := BuiltForest(B, S', n, m + 1, radix, F, W);
    } else {
      BuiltDone(A, S, m, radix);
      merges := m;
    }
  }

  /** One step of the build from a forest, named: the next forest, and the same final result. */
  lemma ForestStep(A: seq<Node>, S: seq<nat>, n: nat, m: nat, radix: nat) returns (B: seq<Node>, S': seq<nat>)
    requires Forest(A, S, n, m, radix) && |S| > 1
    ensures Forest(B, S', n, m + 1, radix) && 1 <= |S'| < |S|
    ensures Built(A, S, m, radix) == Built(B, S', m + 1, radix)
  {
    var g, T;
    g, B, T, S' := MergeParts(A, S, m, radix);
    RequeuedRoots(A, S, g, m, B, T, S');
    NextForest(A, S, n, m, radix, g, B, S');
  }

  /** Nodes as `_create_nodes` makes them: no parent, no children, no level, an input symbol. */
  predicate FreshLeaves(A: seq<Node>)
  {
    forall k :: 0 <= k < |A| ==>
      A[k].children == [] && A[k].symbol.Symbol? && A[k].parent.None? && A[k].level.None?
  }

  /** Fresh leaves, sorted, are the forest before the first merge. */
  lemma InitialForest(A: seq<Node>, radix: nat)
    requires radix >= 2 && FreshLeaves(A)
    ensures InArena(A, Range(0, |A|))
    ensures Forest(A, SortByWeight(A, Range(0, |A|)), |A|, 0, radix)
  {
    InitialRoots(A);
    FreshShape(A, radix);
  }

  /** Sorting all the fresh leaves gives each of them once, sorted: every one of them is a root. */
  lemma InitialRoots(A: seq<Node>)
    requires FreshLeaves(A)
    ensures InArena(A, Range(0, |A|))
    ensures Roots(A, SortByWeight(A, Range(0, |A|))) && |SortByWeight(A, Range(0, |A|))| == |A|
  {
    var R := Range(0, |A|);
    var S := SortByWeight(A, R);
    SortDistinct(A, R);
    SortSorted(A, R);
    forall k | 0 <= k < |A| ensures k in S {
      assert R[k] == k;
      assert k in multiset(S);
    }
  }

  /** Fresh leaves are linked (no links at all), leaves only, and without levels. */
  lemma FreshShape(A: seq<Node>, radix: nat)
    requires FreshLeaves(A)
    ensures Linked(A) && LeavesFirst(A, |A|) && MergedNodes(A, |A|, radix) && Levels(A, |A|)
  {
  }

  /**
   * The finished tree over n >= 2 leaves after m merges: one root, the last node made; every node
   * lies under it; the leaves under it with a parent are exactly the n input leaves; every merged
   * node has between 2 and radix children.
   */
  lemma FinishedTree(B: seq<Node>, W: seq<nat>, n: nat, m: nat, radix: nat, root: nat)
    requires Forest(B, W, n, m, radix) && |W| == 1 && n >= 2 && radix <= MaxRadix && root + 1 == n + m
    ensures m >= 1 && W == [root] && B[root].parent.None?
    ensures Codable(B) && ArityAtMost(B, radix)
    ensures forall k :: n <= k < |B| ==> 2 <= |B[k].children|
    ensures forall k :: 0 <= k < |B| ==> Under(B, k, root)
    ensures forall l :: 0 <= l < |B| ==> (LeafUnder(B, l, root) <==> l < n)
  {
    assert W == [root] by {
      assert W[0] == root;
    }
    if radix > 2 {
      FirstGroupFits(n, radix);
    }
    forall k | 0 <= k < |B| ensures Under(B, k, root) {
      var t := Top(B, k);
      assert t in W;
    }
    forall k | 0 <= k < n ensures LeafUnder(B, k, root) {
      assert k !in W;
    }
  }

  /**
   * The code of the finished tree, read from its root with an empty code: one entry per input
   * symbol and nothing else, no codeword a prefix of another.
   */
  lemma HuffmanCodeKeys(B: seq<Node>, W: seq<nat>, n: nat, m: nat, radix: nat, root: nat, E: map<string, string>)
    requires Forest(B, W, n, m, radix) && |W| == 1 && n >= 2 && radix <= MaxRadix && root + 1 == n + m
    requires Codable(B) && root < |B| && E == Encoding(B, root, [])
    ensures E.Keys == (set k | 0 <= k < n :: B[k].symbol.name) && PrefixFree(E)
  {
    FinishedTree(B, W, n, m, radix, root);
    EncodingKeys(B, root, []);
    EncodingPrefixFree(B, root, []);
    assert LeafSymbols(B, root) == (set k | 0 <= k < n :: B[k].symbol.name) by {
      forall k | 0 <= k < n ensures B[k].symbol.name in LeafSymbols(B, root) {
        assert LeafUnder(B, k, root);
      }
    }
  }

  /**
   * The codeword of every input symbol spells the child positions from the root down to its leaf,
   * has as many digits as the leaf is deep (at least one), and uses digits below the radix only.
   */
  lemma HuffmanCodeWords(B: seq<Node>, W: seq<nat>, n: nat, m: nat, radix: nat, root: nat, E: map<string, string>)
    requires Forest(B, W, n, m, radix) && |W| == 1 && n >= 2 && radix <= MaxRadix && root + 1 == n + m
    requires Codable(B) && root < |B| && E == Encoding(B, root, []) && DistinctSymbols(B)
    ensures forall k :: 0 <= k < n ==> B[k].symbol.name in E && Under(B, k, root)
    ensures forall k :: 0 <= k < n ==>
      && E[B[k].symbol.name] == Render(Items(PathTo(B, k, root)))
      && |E[B[k].symbol.name]| == Depth(B, k) >= 1
      && forall c :: 0 <= c < |E[B[k].symbol.name]| ==> ValidDigit(E[B[k].symbol.name][c], radix)
  {
    FinishedTree(B, W, n, m, radix, root);
    EncodingExtends(B, root, [], radix);
    forall k | 0 <= k < n
      ensures B[k].symbol.name in E && Under(B, k, root)
      ensures && E[B[k].symbol.name] == Render(Items(PathTo(B, k, root)))
              && |E[B[k].symbol.name]| == Depth(B, k) >= 1
    {
      LeafWord(B, radix, root, k, E);
    }
  }

  /** The codeword of one leaf under the root: the child positions on its path, one digit per level. */
  lemma LeafWord(B: seq<Node>, radix: nat, root: nat, k: nat, E: map<string, string>)
    requires Codable(B) && ArityAtMost(B, radix) && radix <= MaxRadix && DistinctSymbols(B)
    requires root < |B| && B[root].parent.None? && E == Encoding(B, root, [])
    requires k < root && LeafUnder(B, k, root)
    ensures B[k].symbol.name in E && Under(B, k, root)
    ensures && E[B[k].symbol.name] == Render(Items(PathTo(B, k, root)))
            && |E[B[k].symbol.name]| == Depth(B, k) >= 1
  {
    EncodingPath(B, root, [], k);
    assert [] + Items(PathTo(B, k, root)) == Items(PathTo(B, k, root));
    RenderItems(PathTo(B, k, root));
    PathDepth(B, k, root);
  }

  // ---- the whole build from fresh leaves ----

  /** Building from n fresh leaves ends in a forest of one tree, with no symbol on two leaves. */
  lemma FinalForest(L: seq<Node>, radix: nat, S: seq<nat>, F: seq<Node>, W: seq<nat>) returns (merges: nat)
    requires 2 <= radix && FreshLeaves(L) && DistinctSymbols(L) && |L| >= 1
    requires InArena(L, S) && S == SortByWeight(L, Range(0, |L|))
    requires (F, W) == Built(L, S, 0, radix)
    ensures |F| == |L| + merges && Forest(F, W, |L|, merges, radix) && |W| == 1
    ensures Keeps(L, F) && DistinctSymbols(F)
  {
    InitialForest(L, radix);
    merges := BuiltForest(L, S, |L|, 0, radix, F, W);
    BuiltKeeps(L, S, 0, radix, F, W);
    ForestSymbols(L, F, W, merges, radix);
  }

  /** Only the leaves of a forest carry input symbols, so leaf symbols that were distinct stay distinct. */
  lemma ForestSymbols(L: seq<Node>, F: seq<Node>, W: seq<nat>, m: nat, radix: nat)
    requires Forest(F, W, |L|, m, radix) && Keeps(L, F) && DistinctSymbols(L)
    ensures DistinctSymbols(F)
  {
    forall k | |L| <= k < |F| ensures F[k].symbol.Merged? {
      MergedLabel(F, |L|, radix, k);
    }
  }

  /** A merged node of a forest carries the label of its merge. */
  lemma MergedLabel(A: seq<Node>, n: nat, radix: nat, k: nat)
    requires MergedNodes(A, n, radix) && n <= k < |A|
    ensures A[k].symbol == Merged(k - n)
  {
    assert |A[k].children| >= 0;
  }

  /**
   * `build_huffman_tree` on n >= 2 fresh leaves ends with one node in the working list, the last
   * parent made (`root`); every node lies under it; it weighs what all the leaves weigh; merged
   * nodes have between 2 and radix children; and the leaves keep their symbols and weights.
   */
  lemma HuffmanTreeShape(L: seq<Node>, radix: nat, S: seq<nat>, F: seq<Node>, W: seq<nat>) returns (root: nat)
    requires 2 <= radix <= MaxRadix && FreshLeaves(L) && DistinctSymbols(L) && |L| >= 2
    requires InArena(L, S) && S == SortByWeight(L, Range(0, |L|))
    requires (F, W) == Built(L, S, 0, radix)
    ensures |L| <= root && root + 1 == |F| && W == [root] && F[root].parent.None?
    ensures Codable(F) && ArityAtMost(F, radix) && DistinctSymbols(F)
    ensures forall k :: 0 <= k < |L| ==> F[k].symbol == L[k].symbol && F[k].weight == L[k].weight
    ensures forall k :: |L| <= k < |F| ==> F[k].symbol.Merged? && 2 <= |F[k].children|
    ensures forall k :: 0 <= k < |F| ==> Under(F, k, root)
    ensures forall l :: 0 <= l < |F| ==> (LeafUnder(F, l, root) <==> l < |L|)
    ensures F[root].weight == SumWeights(L, Range(0, |L|))
  {
    var merges := FinalForest(L, radix, S, F, W);
    root := |F| - 1;
    BuiltSum(L, S, 0, radix, F, W);
    SumSort(L, Range(0, |L|));
    TreeOfForest(L, F, W, merges, radix, root);
  }

  /** The finished forest over fresh leaves, read as one tree under its last node. */
  lemma TreeOfForest(L: seq<Node>, F: seq<Node>, W: seq<nat>, m: nat, radix: nat, root: nat)
    requires Forest(F, W, |L|, m, radix) && |W| == 1 && |L| >= 2 && radix <= MaxRadix && root + 1 == |L| + m
    requires Keeps(L, F)
    ensures W == [root] && F[root].parent.None? && F[root].weight == SumWeights(F, W)
    ensures Codable(F) && ArityAtMost(F, radix)
    ensures forall k :: 0 <= k < |L| ==> F[k].symbol == L[k].symbol && F[k].weight == L[k].weight
    ensures forall k :: |L| <= k < |F| ==> F[k].symbol.Merged? && 2 <= |F[k].children|
    ensures forall k :: 0 <= k < |F| ==> Under(F, k, root)
    ensures forall l :: 0 <= l < |F| ==> (LeafUnder(F, l, root) <==> l < |L|)
  {
    FinishedTree(F, W, |L|, m, radix, root);
    assert SumWeights(F, W) == F[root].weight by {
      assert W[1..] == [];
    }
    forall k | |L| <= k < |F| ensures F[k].symbol.Merged? {
      MergedLabel(F, |L|, radix, k);
    }
  }

  /**
   * The code `traverse_and_encode(root)` writes for that tree: one codeword per input symbol and
   * nothing else, no codeword a prefix of another; the codeword of leaf k spells the child
   * positions from the root down to it, has as many digits as the leaf is deep (at least one),
   * and uses digits below the radix only.
   */
  lemma HuffmanCode(L: seq<Node>, radix: nat, S: seq<nat>, F: seq<Node>, W: seq<nat>, root: nat, E: map<string, string>)
    requires 2 <= radix <= MaxRadix && FreshLeaves(L) && DistinctSymbols(L) && |L| >= 2
    requires InArena(L, S) && S == SortByWeight(L, Range(0, |L|))
    requires (F, W) == Built(L, S, 0, radix)
    requires Codable(F) && root + 1 == |F| && E == Encoding(F, root, [])
    ensures |L| <= root
    ensures E.Keys == (set k | 0 <= k < |L| :: L[k].symbol.name) && PrefixFree(E)
    ensures forall k :: 0 <= k < |L| ==> L[k].symbol.name in E && Under(F, k, root)
    ensures forall k :: 0 <= k < |L| ==>
      && E[L[k].symbol.name] == Render(Items(PathTo(F, k, root)))
      && |E[L[k].symbol.name]| == Depth(F, k) >= 1
      && forall c :: 0 <= c < |E[L[k].symbol.name]| ==> ValidDigit(E[L[k].symbol.name][c], radix)
  {
    var merges := FinalForest(L, radix, S, F, W);
    CodeOfForest(L, F, W, merges, radix, root, E);
  }

  /** Nodes that keep their symbols keep their names. */
  lemma SameNames(L: seq<Node>, F: seq<Node>)
    requires Keeps(L, F) && FreshLeaves(L)
    ensures forall k :: 0 <= k < |L| ==> F[k].symbol.Symbol? && F[k].symbol.name == L[k].symbol.name
    ensures (set k | 0 <= k < |L| :: F[k].symbol.name) == (set k | 0 <= k < |L| :: L[k].symbol.name)
  {
  }

  /** The code read from the root of the finished forest over fresh leaves, in terms of the leaves. */
  lemma CodeOfForest(L: seq<Node>, F: seq<Node>, W: seq<nat>, m: nat, radix: nat, root: nat, E: map<string, string>)
    requires Forest(F, W, |L|, m, radix) && |W| == 1 && |L| >= 2 && radix <= MaxRadix && root + 1 == |L| + m
    requires Keeps(L, F) && DistinctSymbols(F) && FreshLeaves(L)
    requires Codable(F) && root < |F| && E == Encoding(F, root, [])
    ensures E.Keys == (set k | 0 <= k < |L| :: L[k].symbol.name) && PrefixFree(E)
    ensures forall k :: 0 <= k < |L| ==> L[k].symbol.name in E && Under(F, k, root)
    ensures forall k :: 0 <= k < |L| ==>
      && E[L[k].symbol.name] == Render(Items(PathTo(F, k, root)))
      && |E[L[k].symbol.name]| == Depth(F, k) >= 1
      && forall c :: 0 <= c < |E[L[k].symbol.name]| ==> ValidDigit(E[L[k].symbol.name][c], radix)
  {
    HuffmanCodeKeys(F, W, |L|, m, radix, root, E);
    HuffmanCodeWords(F, W, |L|, m, radix, root, E);
    SameNames(L, F);
  }
}
