/**
 * `HuffmanNode` objects, stored in an arena and named by their index, and the two list operations
 * the tree builder performs on lists of nodes: Python's stable `sorted(..., key = weight)` and
 * `sum(child.weight for child in children)`.
 */
module Nodes {
  import opened Common

  /** A node's `symbol`: the input symbol of a leaf, or the synthetic label of a merge made at `level`. */
  datatype Label = Symbol(name: string) | Merged(level: nat)

  /**
   * A `HuffmanNode`: its label, weight, parent, ordered children and level. The `code` list is kept
   * beside the arena by the tree (HuffmanTrees.HuffmanTree.codes).
   */
  datatype Node = Node(symbol: Label, weight: real, parent: Option<nat>, children: seq<nat>, level: Option<int>)

  /** `HuffmanNode(symbol = symbol, weight = weight)`: no parent, no children, no level yet. */
  function Leaf(symbol: string, weight: real): Node
  {
    Node(Symbol(symbol), weight, None, [], None)
  }

  /** Every index of `s` names a node of the arena. */
  predicate InArena(A: seq<Node>, s: seq<nat>)
  {
    forall k :: 0 <= k < |s| ==> s[k] < |A|
  }

  /** The nodes of `s` have non-decreasing weights. */
  predicate Sorted(A: seq<Node>, s: seq<nat>)
    requires InArena(A, s)
  {
    forall i, j :: 0 <= i < j < |s| ==> A[s[i]].weight <= A[s[j]].weight
  }

  /** Nodes of equal weight appear in increasing index order (the order they were created in). */
  predicate TiesInIndexOrder(A: seq<Node>, s: seq<nat>)
    requires InArena(A, s)
  {
    forall i, j :: 0 <= i < j < |s| && A[s[i]].weight == A[s[j]].weight ==> s[i] < s[j]
  }

  /** Arena `B` keeps the weight of every node of arena `A`. */
  predicate SameWeights(A: seq<Node>, B: seq<Node>)
  {
    |A| <= |B| && forall k :: 0 <= k < |A| ==> B[k].weight == A[k].weight
  }

  /** One step of a stable insertion sort: `x` goes in front of the first node at least as heavy. */
  function Insert(A: seq<Node>, x: nat, s: seq<nat>): (r: seq<nat>)
    requires x < |A| && InArena(A, s)
    ensures multiset(r) == multiset(s) + multiset{x}
  {
    if s == [] || A[x].weight <= A[s[0]].weight then [x] + s
    else
      assert s == [s[0]] + s[1..];
      [s[0]] + Insert(A, x, s[1..])
  }

  /** Python's `sorted(nodes, key = lambda node: node.weight)`, a stable sort. */
  function SortByWeight(A: seq<Node>, s: seq<nat>): (r: seq<nat>)
    requires InArena(A, s)
    ensures multiset(r) == multiset(s) && |r| == |s|
  {
    if s == [] then []
    else
      assert s == [s[0]] + s[1..];
      var rest := SortByWeight(A, s[1..]);
      InArenaMembers(A, s[1..], rest);
      Insert(A, s[0], rest)
  }

  /** Python's `sum(node.weight for node in s)`. */
  function SumWeights(A: seq<Node>, s: seq<nat>): real
    requires InArena(A, s)
  {
    if s == [] then 0.0 else A[s[0]].weight + SumWeights(A, s[1..])
  }

  /** Where `Insert` puts `x`: after every node of `s` that is strictly lighter, counted from the front. */
  function InsertPosition(A: seq<Node>, x: nat, s: seq<nat>): (q: nat)
    requires x < |A| && InArena(A, s)
    ensures q <= |s|
  {
    if s == [] || A[x].weight <= A[s[0]].weight then 0 else 1 + InsertPosition(A, x, s[1..])
  }

  lemma InArenaMembers(A: seq<Node>, s: seq<nat>, r: seq<nat>)
    requires InArena(A, s) && multiset(r) <= multiset(s)
    ensures InArena(A, r)
  {
    forall k | 0 <= k < |r| ensures r[k] < |A| {
      assert r[k] in multiset(r);
      assert r[k] in multiset(s);
      var j :| 0 <= j < |s| && s[j] == r[k];
    }
  }

  /**
   * Inserting into a list places the new node after exactly the nodes lighter than it; when the
   * list is sorted, every node after it is at least as heavy. This is the tie rule of the tree
   * builder: a new parent goes in front of existing nodes of equal weight.
   */
  lemma InsertAt(A: seq<Node>, x: nat, s: seq<nat>)
    requires x < |A| && InArena(A, s)
    ensures var q := InsertPosition(A, x, s);
      && Insert(A, x, s) == s[..q] + [x] + s[q..]
      && (forall k :: 0 <= k < q ==> A[s[k]].weight < A[x].weight)
      && (q < |s| ==> A[x].weight <= A[s[q]].weight)
      && (Sorted(A, s) ==> forall k :: q <= k < |s| ==> A[x].weight <= A[s[k]].weight)
  {
    InsertSplit(A, x, s);
    InsertPositionBounds(A, x, s);
  }

  lemma {:induction false} InsertSplit(A: seq<Node>, x: nat, s: seq<nat>)
    requires x < |A| && InArena(A, s)
    ensures Insert(A, x, s) == s[..InsertPosition(A, x, s)] + [x] + s[InsertPosition(A, x, s)..]
  {
    if s == [] || A[x].weight <= A[s[0]].weight {
      assert s[..0] == [] && s[0..] == s;
    } else {
      var t := s[1..];
      InsertSplit(A, x, t);
      var q' := InsertPosition(A, x, t);
      assert Insert(A, x, s) == [s[0]] + Insert(A, x, t);
      assert s == [s[0]] + t;
      ConsSplit(s[0], t, q', x);
    }
  }

  /** Putting `a` in front of `t` with `x` inserted at `q` inserts `x` at `q + 1` of `[a] + t`. */
  lemma ConsSplit(a: nat, t: seq<nat>, q: nat, x: nat)
    requires q <= |t|
    ensures [a] + (t[..q] + [x] + t[q..]) == ([a] + t)[..q + 1] + [x] + ([a] + t)[q + 1..]
  {
    var s := [a] + t;
    assert s[..q + 1] == [a] + t[..q] && s[q + 1..] == t[q..];
  }

  lemma {:induction false} InsertPositionBounds(A: seq<Node>, x: nat, s: seq<nat>)
    requires x < |A| && InArena(A, s)
    ensures var q := InsertPosition(A, x, s);
      && (forall k :: 0 <= k < q ==> A[s[k]].weight < A[x].weight)
      && (q < |s| ==> A[x].weight <= A[s[q]].weight)
      && (Sorted(A, s) ==> forall k :: q <= k < |s| ==> A[x].weight <= A[s[k]].weight)
  {
    if s == [] || A[x].weight <= A[s[0]].weight {
    } else {
      var t := s[1..];
      InsertPositionBounds(A, x, t);
      var q' := InsertPosition(A, x, t);
      assert InsertPosition(A, x, s) == q' + 1;
      forall k | 0 <= k < q' + 1 ensures A[s[k]].weight < A[x].weight {
        if k > 0 { assert s[k] == t[k - 1]; }
      }
      if Sorted(A, s) {
        assert Sorted(A, t) by {
          forall i, j | 0 <= i < j < |t| ensures A[t[i]].weight <= A[t[j]].weight {
            assert t[i] == s[i + 1] && t[j] == s[j + 1];
          }
        }
        forall k | q' + 1 <= k < |s| ensures A[x].weight <= A[s[k]].weight {
          assert s[k] == t[k - 1];
        }
      }
    }
  }

  /** Positions in `s[..q] + [x] + s[q..]`. */
  lemma SplitIndex(s: seq<nat>, q: nat, x: nat, r: seq<nat>)
    requires q <= |s| && r == s[..q] + [x] + s[q..]
    ensures |r| == |s| + 1 && r[q] == x
    ensures forall i :: 0 <= i < q ==> r[i] == s[i]
    ensures forall i :: q < i < |r| ==> r[i] == s[i - 1]
  {
  }

  /** What inserting `x` at its place in `s` gives, position by position. */
  lemma InsertIndex(A: seq<Node>, x: nat, s: seq<nat>)
    requires x < |A| && InArena(A, s)
    ensures var r, q := Insert(A, x, s), InsertPosition(A, x, s);
      && |r| == |s| + 1 && r[q] == x
      && (forall i :: 0 <= i < q ==> r[i] == s[i])
      && (forall i :: q < i < |r| ==> r[i] == s[i - 1])
  {
    InsertSplit(A, x, s);
    SplitIndex(s, InsertPosition(A, x, s), x, Insert(A, x, s));
  }

  /** Insertion keeps a sorted list sorted. */
  lemma {:induction false} InsertSorted(A: seq<Node>, x: nat, s: seq<nat>)
    requires x < |A| && InArena(A, s) && Sorted(A, s)
    ensures InArena(A, Insert(A, x, s)) && Sorted(A, Insert(A, x, s))
  {
    InsertPositionBounds(A, x, s);
    InsertIndex(A, x, s);
    var q := InsertPosition(A, x, s);
    var r := Insert(A, x, s);
    InArenaMembers(A, s + [x], r);
    forall i, j | 0 <= i < j < |r| ensures A[r[i]].weight <= A[r[j]].weight {
      if i < q && j < q {
      } else if i < q && j == q {
      } else if i < q {
        assert r[i] == s[i] && r[j] == s[j - 1];
      } else if i == q {
        assert r[j] == s[j - 1];
      } else {
        assert r[i] == s[i - 1] && r[j] == s[j - 1];
      }
    }
  }

  /** `SortByWeight` returns its input in non-decreasing weight order. */
  lemma {:induction false} SortSorted(A: seq<Node>, s: seq<nat>)
    requires InArena(A, s)
    ensures InArena(A, SortByWeight(A, s)) && Sorted(A, SortByWeight(A, s))
  {
    InArenaMembers(A, s, SortByWeight(A, s));
    if s != [] {
      SortSorted(A, s[1..]);
      InsertSorted(A, s[0], SortByWeight(A, s[1..]));
    }
  }

  /** Sorting a list that is already sorted leaves it as it is: the sort is stable. */
  lemma {:induction false} SortOfSorted(A: seq<Node>, s: seq<nat>)
    requires InArena(A, s) && Sorted(A, s)
    ensures SortByWeight(A, s) == s
  {
    if s != [] {
      assert Sorted(A, s[1..]) by {
        forall i, j | 0 <= i < j < |s[1..]| ensures A[s[1..][i]].weight <= A[s[1..][j]].weight {
          assert s[1..][i] == s[i + 1] && s[1..][j] == s[j + 1];
        }
      }
      SortOfSorted(A, s[1..]);
      assert s == [s[0]] + s[1..];
    }
  }

  /** Sorting a sorted list with one node put in front of it is inserting that node. */
  lemma SortFront(A: seq<Node>, x: nat, s: seq<nat>, t: seq<nat>)
    requires x < |A| && InArena(A, s) && Sorted(A, s) && InArena(A, t) && t == [x] + s
    ensures SortByWeight(A, t) == Insert(A, x, s)
  {
    SortOfSorted(A, s);
    assert t[1..] == s;
  }

  /** A node that is not in a list of distinct nodes can be inserted without repeating anything. */
  lemma {:induction false} InsertDistinct(A: seq<Node>, x: nat, s: seq<nat>)
    requires x < |A| && InArena(A, s) && Distinct(s) && x !in s
    ensures Distinct(Insert(A, x, s))
  {
    InsertIndex(A, x, s);
    var q := InsertPosition(A, x, s);
    var r := Insert(A, x, s);
    forall i, j | 0 <= i < j < |r| ensures r[i] != r[j] {
      if i < q && j < q {
      } else if i < q && j == q {
        assert r[i] == s[i];
      } else if i < q {
        assert r[i] == s[i] && r[j] == s[j - 1];
      } else if i == q {
        assert r[j] == s[j - 1];
      } else {
        assert r[i] == s[i - 1] && r[j] == s[j - 1];
      }
    }
  }

  /** Sorting a list of distinct nodes keeps them distinct. */
  lemma {:induction false} SortDistinct(A: seq<Node>, s: seq<nat>)
    requires InArena(A, s) && Distinct(s)
    ensures Distinct(SortByWeight(A, s))
  {
    if s != [] {
      var rest := SortByWeight(A, s[1..]);
      assert Distinct(s[1..]) by {
        forall i, j | 0 <= i < j < |s[1..]| ensures s[1..][i] != s[1..][j] {
          assert s[1..][i] == s[i + 1] && s[1..][j] == s[j + 1];
        }
      }
      SortDistinct(A, s[1..]);
      assert s[0] !in s[1..] by {
        forall k | 0 <= k < |s[1..]| ensures s[1..][k] != s[0] {
          assert s[1..][k] == s[k + 1];
        }
      }
      assert s[0] !in multiset(rest);
      assert s == [s[0]] + s[1..];
      InArenaMembers(A, s, rest);
      InsertDistinct(A, s[0], rest);
    }
  }

  /** The sum of a concatenation is the sum of the parts. */
  lemma {:induction false} SumConcat(A: seq<Node>, a: seq<nat>, b: seq<nat>)
    requires InArena(A, a) && InArena(A, b)
    ensures InArena(A, a + b) && SumWeights(A, a + b) == SumWeights(A, a) + SumWeights(A, b)
  {
    if a != [] {
      assert (a + b)[1..] == a[1..] + b;
      SumConcat(A, a[1..], b);
    } else {
      assert a + b == b;
    }
  }

  /** Inserting a node adds its weight to the total. */
  lemma {:induction false} SumInsert(A: seq<Node>, x: nat, s: seq<nat>)
    requires x < |A| && InArena(A, s)
    ensures InArena(A, Insert(A, x, s))
    ensures SumWeights(A, Insert(A, x, s)) == A[x].weight + SumWeights(A, s)
  {
    InArenaMembers(A, s + [x], Insert(A, x, s));
    if s == [] || A[x].weight <= A[s[0]].weight {
      assert ([x] + s)[1..] == s;
    } else {
      var t := s[1..];
      SumInsert(A, x, t);
      var r := [s[0]] + Insert(A, x, t);
      assert r[1..] == Insert(A, x, t);
    }
  }

  /** Sorting does not change the total weight of a list. */
  lemma {:induction false} SumSort(A: seq<Node>, s: seq<nat>)
    requires InArena(A, s)
    ensures InArena(A, SortByWeight(A, s)) && SumWeights(A, SortByWeight(A, s)) == SumWeights(A, s)
  {
    InArenaMembers(A, s, SortByWeight(A, s));
    if s != [] {
      var rest := SortByWeight(A, s[1..]);
      SumSort(A, s[1..]);
      SumInsert(A, s[0], rest);
    }
  }

  /**
   * Stability: if nodes of equal weight are in index order before sorting, they still are after.
   * The input nodes are created in input order, so ties keep the input order.
   */
  lemma {:induction false} SortKeepsTies(A: seq<Node>, s: seq<nat>)
    requires InArena(A, s) && TiesInIndexOrder(A, s)
    ensures InArena(A, SortByWeight(A, s)) && TiesInIndexOrder(A, SortByWeight(A, s))
  {
    InArenaMembers(A, s, SortByWeight(A, s));
    if s != [] {
      var t := s[1..];
      TiesTail(A, s);
      SortKeepsTies(A, t);
      var rest := SortByWeight(A, t);
      InArenaMembers(A, t, rest);
      forall y | y in rest && A[y].weight == A[s[0]].weight ensures s[0] < y {
        assert y in multiset(rest);
        assert y in t;
      }
      assert SortByWeight(A, s) == Insert(A, s[0], rest);
      InsertKeepsTies(A, s[0], rest);
    }
  }

  lemma TiesTail(A: seq<Node>, s: seq<nat>)
    requires InArena(A, s) && s != [] && TiesInIndexOrder(A, s)
    ensures InArena(A, s[1..]) && TiesInIndexOrder(A, s[1..])
    ensures forall y :: y in s[1..] && A[y].weight == A[s[0]].weight ==> s[0] < y
  {
    var t := s[1..];
    forall i, j | 0 <= i < j < |t| && A[t[i]].weight == A[t[j]].weight ensures t[i] < t[j] {
      assert t[i] == s[i + 1] && t[j] == s[j + 1];
    }
    forall y | y in t && A[y].weight == A[s[0]].weight ensures s[0] < y {
      var k :| 0 <= k < |t| && t[k] == y;
      assert s[k + 1] == y;
    }
  }

  lemma {:induction false} InsertKeepsTies(A: seq<Node>, x: nat, s: seq<nat>)
    requires x < |A| && InArena(A, s) && TiesInIndexOrder(A, s)
    requires forall y :: y in s && A[y].weight == A[x].weight ==> x < y
    ensures InArena(A, Insert(A, x, s)) && TiesInIndexOrder(A, Insert(A, x, s))
  {
    InsertPositionBounds(A, x, s);
    InsertIndex(A, x, s);
    var q := InsertPosition(A, x, s);
    var r := Insert(A, x, s);
    InArenaMembers(A, s + [x], r);
    TiesAroundInsert(A, x, s, r, q);
  }

  /** `x` put at position `q` of `s`, behind lighter nodes only, before heavier or equal ones of higher index. */
  lemma TiesAroundInsert(A: seq<Node>, x: nat, s: seq<nat>, r: seq<nat>, q: nat)
    requires x < |A| && InArena(A, s) && InArena(A, r) && TiesInIndexOrder(A, s)
    requires forall y :: y in s && A[y].weight == A[x].weight ==> x < y
    requires |r| == |s| + 1 && q < |r| && r[q] == x
    requires forall i :: 0 <= i < q ==> r[i] == s[i] && A[s[i]].weight < A[x].weight
    requires forall i :: q < i < |r| ==> r[i] == s[i - 1]
    ensures TiesInIndexOrder(A, r)
  {
    forall i, j | 0 <= i < j < |r| && A[r[i]].weight == A[r[j]].weight ensures r[i] < r[j] {
      if j < q {
        assert r[i] == s[i] && r[j] == s[j];
      } else if j == q {
        assert false;
      } else if i < q {
        assert r[i] == s[i] && r[j] == s[j - 1];
      } else if i == q {
        var y := s[j - 1];
        assert r[j] == y && y in s;
      } else {
        assert r[i] == s[i - 1] && r[j] == s[j - 1];
      }
    }
  }

  /** Sorting reads nothing but the weights of the listed nodes. */
  lemma {:induction false} SameWeightsSort(A: seq<Node>, B: seq<Node>, s: seq<nat>)
    requires InArena(A, s) && SameWeights(A, B)
    ensures InArena(B, s) && SortByWeight(B, s) == SortByWeight(A, s)
  {
    if s != [] {
      SameWeightsSort(A, B, s[1..]);
      var rest := SortByWeight(A, s[1..]);
      InArenaMembers(A, s[1..], rest);
      SameWeightsInsert(A, B, s[0], rest);
      assert SortByWeight(B, s) == Insert(B, s[0], rest);
    }
  }

  lemma {:induction false} SameWeightsInsert(A: seq<Node>, B: seq<Node>, x: nat, s: seq<nat>)
    requires x < |A| && InArena(A, s) && SameWeights(A, B)
    ensures InArena(B, s) && Insert(B, x, s) == Insert(A, x, s)
  {
    if s != [] {
      SameWeightsInsert(A, B, x, s[1..]);
    }
  }

  /** Summing reads nothing but the weights of the listed nodes. */
  lemma {:induction false} SameWeightsSum(A: seq<Node>, B: seq<Node>, s: seq<nat>)
    requires InArena(A, s) && SameWeights(A, B)
    ensures InArena(B, s) && SumWeights(B, s) == SumWeights(A, s)
  {
    if s != [] {
      SameWeightsSum(A, B, s[1..]);
    }
  }

  /** Sortedness reads nothing but the weights of the listed nodes. */
  lemma SameWeightsSorted(A: seq<Node>, B: seq<Node>, s: seq<nat>)
    requires InArena(A, s) && SameWeights(A, B) && Sorted(A, s)
    ensures InArena(B, s) && Sorted(B, s)
  {
  }
}
