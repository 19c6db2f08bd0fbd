/**
 * The shape of a finished (or partly built) Huffman tree stored in an arena, and the codewords that
 * `HuffmanTree.traverse_and_encode` derives from it, stated as functions of the tree alone.
 */
module Trees {
  import opened Common
  import opened Digits
  import opened Nodes

  /**
   * The parent pointers and the children lists describe the same edges, a node is listed at most
   * once among its parent's children, and every child was created before its parent (so following
   * parents always reaches a higher index, and the structure has no cycle).
   */
  predicate Linked(A: seq<Node>)
  {
    && (forall i, j :: 0 <= i < |A| && 0 <= j < |A[i].children| ==>
          A[i].children[j] < i && A[A[i].children[j]].parent == Some(i))
    && (forall k {:trigger A[k].parent} :: 0 <= k < |A| && A[k].parent.Some? ==>
          k < A[k].parent.value < |A| && k in A[A[k].parent.value].children)
    && (forall i :: 0 <= i < |A| ==> Distinct(A[i].children))
  }

  /**
   * What the traversal needs: linked, every node without children carries an input symbol, and no
   * node has more children than there are renderable digits.
   */
  predicate Codable(A: seq<Node>)
  {
    && Linked(A)
    && (forall i :: 0 <= i < |A| ==> |A[i].children| <= MaxRadix)
    && (forall i :: 0 <= i < |A| && A[i].children == [] ==> A[i].symbol.Symbol?)
  }

  /** No node has more than `radix` children. */
  predicate ArityAtMost(A: seq<Node>, radix: nat)
  {
    forall i :: 0 <= i < |A| ==> |A[i].children| <= radix
  }

  /** Different input symbols label different nodes (the symbols come from the keys of a dict). */
  predicate DistinctSymbols(A: seq<Node>)
  {
    forall a, b :: 0 <= a < b < |A| && A[a].symbol.Symbol? && A[b].symbol.Symbol? ==>
      A[a].symbol.name != A[b].symbol.name
  }

  /** Following parent pointers from `k` reaches `i` (every node is under itself). */
  predicate Under(A: seq<Node>, k: nat, i: nat)
    decreases i - k
  {
    k == i ||
    (k < i && k < |A| && A[k].parent.Some? && k < A[k].parent.value <= i && Under(A, A[k].parent.value, i))
  }

  /** A node without children, with a parent, somewhere under `i`: one that gets a codeword. */
  predicate LeafUnder(A: seq<Node>, l: nat, i: nat)
  {
    l < |A| && Under(A, l, i) && A[l].children == [] && A[l].parent.Some?
  }

  /** The root above `k`: the first node without a parent on the way up. */
  function Top(A: seq<Node>, k: nat): (t: nat)
    requires Linked(A) && k < |A|
    ensures t < |A| && A[t].parent.None? && Under(A, k, t)
    decreases |A| - k
  {
    match A[k].parent
    case None => k
    case Some(p) => Top(A, p)
  }

  /** The number of edges from `k` up to its root. */
  function Depth(A: seq<Node>, k: nat): nat
    requires Linked(A) && k < |A|
    decreases |A| - k
  {
    match A[k].parent
    case None => 0
    case Some(p) => 1 + Depth(A, p)
  }

  /** The positions of the children taken on the way down from `i` to `k`, top first. */
  function PathTo(A: seq<Node>, k: nat, i: nat): (path: seq<nat>)
    requires Codable(A) && i < |A| && Under(A, k, i)
    ensures forall m :: 0 <= m < |path| ==> path[m] < MaxRadix
    decreases i - k
  {
    if k == i then []
    else
      var p := A[k].parent.value;
      PathTo(A, p, i) + [IndexOf(A[p].children, k)]
  }

  /**
   * The entries `traverse_and_encode(i)` writes into `encoding` when `code` is the code list that
   * the children of `i` inherit: a leaf with a parent maps its symbol to its joined code; an inner
   * node visits its children in order, child `j` inheriting `code` plus the element for `j`.
   * Later writes replace earlier ones, as assignments into a dict do.
   */
  function Encoding(A: seq<Node>, i: nat, code: seq<CodeItem>): map<string, string>
    requires Codable(A) && i < |A|
    decreases i, 1
  {
    if A[i].children == [] then
      if A[i].parent.Some? then map[A[i].symbol.name := Render(code)] else map[]
    else EncodingOfChildren(A, i, |A[i].children|, code)
  }

  /** The entries written while visiting the first `j` children of `i`. */
  function EncodingOfChildren(A: seq<Node>, i: nat, j: nat, code: seq<CodeItem>): map<string, string>
    requires Codable(A) && i < |A| && j <= |A[i].children|
    decreases i, 0, j
  {
    if j == 0 then map[]
    else EncodingOfChildren(A, i, j - 1, code) + Encoding(A, A[i].children[j - 1], code + [ToItem(j - 1)])
  }

  /** The symbols of the leaves under `i` that have a parent. */
  function LeafSymbols(A: seq<Node>, i: nat): set<string>
    requires Codable(A) && i < |A|
  {
    set l | 0 <= l <= i && LeafUnder(A, l, i) :: A[l].symbol.name
  }

  // ---- the parent chain ----

  lemma UnderBelow(A: seq<Node>, k: nat, i: nat)
    requires Under(A, k, i)
    ensures k <= i
  {
  }

  /** Being under is transitive. */
  lemma {:induction false} UnderTrans(A: seq<Node>, k: nat, j: nat, i: nat)
    requires Under(A, k, j) && Under(A, j, i)
    ensures Under(A, k, i)
    decreases j - k
  {
    if k != j {
      var p := A[k].parent.value;
      UnderTrans(A, p, j, i);
      UnderBelow(A, p, i);
    }
  }

  /** The nodes above `k` form a chain: of two of them, the lower is under the higher. */
  lemma {:induction false} UnderLinear(A: seq<Node>, k: nat, a: nat, b: nat)
    requires Under(A, k, a) && Under(A, k, b) && a <= b
    ensures Under(A, a, b)
    decreases a - k
  {
    if k != a {
      var p := A[k].parent.value;
      UnderLinear(A, p, a, b);
    }
  }

  /** Every child is under its parent. */
  lemma ChildUnder(A: seq<Node>, i: nat, j: nat)
    requires Linked(A) && i < |A| && j < |A[i].children|
    ensures Under(A, A[i].children[j], i)
  {
    var c := A[i].children[j];
    assert Under(A, i, i);
  }

  /** No node is under two different children of the same node. */
  lemma SiblingsDisjoint(A: seq<Node>, i: nat, j1: nat, j2: nat, k: nat)
    requires Linked(A) && i < |A| && j1 < |A[i].children| && j2 < |A[i].children| && j1 != j2
    requires Under(A, k, A[i].children[j1])
    ensures !Under(A, k, A[i].children[j2])
  {
    var c1, c2 := A[i].children[j1], A[i].children[j2];
    assert c1 != c2 by { assert Distinct(A[i].children); }
    assert A[c1].parent == Some(i) && A[c2].parent == Some(i) && c1 < i && c2 < i;
    if Under(A, k, c2) {
      if c1 < c2 {
        UnderLinear(A, k, c1, c2);
      } else {
        UnderLinear(A, k, c2, c1);
      }
      assert false;
    }
  }

  /** A node strictly under `i` is under one of the children of `i`. */
  lemma {:induction false} ChildToward(A: seq<Node>, k: nat, i: nat) returns (j: nat)
    requires Linked(A) && i < |A| && Under(A, k, i) && k != i
    ensures j < |A[i].children| && Under(A, k, A[i].children[j])
    decreases i - k
  {
    var p := A[k].parent.value;
    if p == i {
      j := IndexOf(A[i].children, k);
    } else {
      var j' := ChildToward(A, p, i);
      assert Under(A, k, p) by { assert Under(A, p, p); }
      UnderTrans(A, k, p, A[i].children[j']);
      j := j';
    }
  }

  /** The path from `i` to a node under its child `j` starts with `j`. */
  lemma {:induction false} PathStep(A: seq<Node>, i: nat, j: nat, k: nat)
    requires Codable(A) && i < |A| && j < |A[i].children| && Under(A, k, A[i].children[j])
    ensures Under(A, k, i)
    ensures PathTo(A, k, i) == [j] + PathTo(A, k, A[i].children[j])
    decreases A[i].children[j] - k
  {
    var c := A[i].children[j];
    ChildUnder(A, i, j);
    UnderTrans(A, k, c, i);
    if k == c {
      var q := IndexOf(A[i].children, c);
      assert Distinct(A[i].children);
      assert q == j;
      assert PathTo(A, k, i) == PathTo(A, i, i) + [q];
    } else {
      var p := A[k].parent.value;
      PathStep(A, i, j, p);
      assert PathTo(A, k, i) == PathTo(A, p, i) + [IndexOf(A[p].children, k)];
    }
  }

  /**
   * A node strictly below `i` whose path from `i` starts at child `j` is exactly a node below that
   * child.
   */
  lemma ChildSubtree(A: seq<Node>, i: nat, j: nat, k: nat)
    requires Codable(A) && i < |A| && j < |A[i].children| && k < |A|
    ensures k <= A[i].children[j] && Under(A, k, A[i].children[j]) <==> k < i && Under(A, k, i) && PathTo(A, k, i)[0] == j
  {
    if k <= A[i].children[j] && Under(A, k, A[i].children[j]) {
      PathStep(A, i, j, k);
    }
    if k < i && Under(A, k, i) {
      var j' := ChildToward(A, k, i);
      PathStep(A, i, j', k);
      UnderBelow(A, k, A[i].children[j']);
    }
  }

  /** The path from `i` to a node strictly below it starts at one of the children of `i`. */
  lemma PathHeads(A: seq<Node>, i: nat)
    requires Codable(A) && i < |A|
    ensures forall k :: 0 <= k < i && Under(A, k, i) ==> 1 <= |PathTo(A, k, i)| && PathTo(A, k, i)[0] < |A[i].children|
  {
    forall k | 0 <= k < i && Under(A, k, i) ensures 1 <= |PathTo(A, k, i)| && PathTo(A, k, i)[0] < |A[i].children| {
      var j := ChildToward(A, k, i);
      PathStep(A, i, j, k);
    }
  }

  /** Nothing lies strictly below a node without children. */
  lemma NothingBelowLeaf(A: seq<Node>, i: nat)
    requires Linked(A) && i < |A| && A[i].children == []
    ensures forall k :: 0 <= k < i ==> !Under(A, k, i)
  {
    forall k | 0 <= k < i ensures !Under(A, k, i) {
      if Under(A, k, i) {
        var j := ChildToward(A, k, i);
        assert false;
      }
    }
  }

  /** Below a root, the path to a node is as long as the node is deep. */
  lemma {:induction false} PathDepth(A: seq<Node>, k: nat, t: nat)
    requires Codable(A) && t < |A| && A[t].parent.None? && Under(A, k, t)
    ensures |PathTo(A, k, t)| == Depth(A, k)
    decreases t - k
  {
    if k != t {
      PathDepth(A, A[k].parent.value, t);
    }
  }

  /** Every step of a path is a child position, so below `radix` when no node has more children. */
  lemma {:induction false} PathDigits(A: seq<Node>, k: nat, i: nat, radix: nat)
    requires Codable(A) && ArityAtMost(A, radix) && i < |A| && Under(A, k, i)
    ensures forall m :: 0 <= m < |PathTo(A, k, i)| ==> PathTo(A, k, i)[m] < radix
    decreases i - k
  {
    if k != i {
      PathDigits(A, A[k].parent.value, i, radix);
    }
  }

  // ---- the codewords ----

  /**
   * Every codeword written under `i` starts with the inherited code and continues with digits of
   * the radix only.
   */
  lemma {:induction false} EncodingExtends(A: seq<Node>, i: nat, code: seq<CodeItem>, radix: nat)
    requires Codable(A) && ArityAtMost(A, radix) && i < |A|
    ensures forall s :: s in Encoding(A, i, code) ==>
      var v := Encoding(A, i, code)[s];
      Render(code) <= v && forall m :: |Render(code)| <= m < |v| ==> ValidDigit(v[m], radix)
    decreases i, 1
  {
    if A[i].children != [] {
      ChildrenEncodingExtends(A, i, |A[i].children|, code, radix);
    }
  }

  /**
   * Every codeword written while visiting the first `j` children of `i` starts with the inherited
   * code, then the digit of the child it came through (below `j`), then digits of the radix.
   */
  lemma {:induction false} ChildrenEncodingExtends(A: seq<Node>, i: nat, j: nat, code: seq<CodeItem>, radix: nat)
    requires Codable(A) && ArityAtMost(A, radix) && i < |A| && j <= |A[i].children|
    ensures forall s :: s in EncodingOfChildren(A, i, j, code) ==>
      var v, L := EncodingOfChildren(A, i, j, code)[s], |Render(code)|;
      && Render(code) <= v && L < |v| && 0 <= DigitValue(v[L]) < j
      && forall m :: L <= m < |v| ==> ValidDigit(v[m], radix)
    decreases i, 0, j
  {
    if j > 0 {
      ChildrenEncodingExtends(A, i, j - 1, code, radix);
      var c, code' := A[i].children[j - 1], code + [ToItem(j - 1)];
      EncodingExtends(A, c, code', radix);
      RenderStep(code, j - 1);
      var L := |Render(code)|;
      var N := Encoding(A, c, code');
      forall s | s in N
        ensures var v := N[s];
          && Render(code) <= v && L < |v| && DigitValue(v[L]) == j - 1
          && forall m :: L <= m < |v| ==> ValidDigit(v[m], radix)
      {
        var v := N[s];
        assert Render(code') == Render(code) + DigitString(j - 1);
        assert v[L] == Render(code')[L] == DigitString(j - 1)[0];
      }
    }
  }

  /** The codewords written under a node form a prefix code. */
  lemma {:induction false} EncodingPrefixFree(A: seq<Node>, i: nat, code: seq<CodeItem>)
    requires Codable(A) && i < |A|
    ensures PrefixFree(Encoding(A, i, code))
    decreases i, 1
  {
    if A[i].children != [] {
      ChildrenEncodingPrefixFree(A, i, |A[i].children|, code);
    }
  }

  lemma {:induction false} ChildrenEncodingPrefixFree(A: seq<Node>, i: nat, j: nat, code: seq<CodeItem>)
    requires Codable(A) && i < |A| && j <= |A[i].children|
    ensures PrefixFree(EncodingOfChildren(A, i, j, code))
    decreases i, 0, j
  {
    if j > 0 {
      ChildrenEncodingPrefixFree(A, i, j - 1, code);
      var c, code' := A[i].children[j - 1], code + [ToItem(j - 1)];
      EncodingPrefixFree(A, c, code');
      var M, N := EncodingOfChildren(A, i, j - 1, code), Encoding(A, c, code');
      var P := Render(code);
      ChildrenDigits(A, i, j - 1, code, M, P);
      ChildDigit(A, i, j - 1, code, N, P);
      PrefixFreeJoin(M, N, P, j - 1);
    }
  }

  /** The codewords written through children before the `j`-th carry a digit below `j` after the inherited code. */
  lemma ChildrenDigits(A: seq<Node>, i: nat, j: nat, code: seq<CodeItem>, M: map<string, string>, P: string)
    requires Codable(A) && i < |A| && j <= |A[i].children|
    requires M == EncodingOfChildren(A, i, j, code) && P == Render(code)
    ensures forall s :: s in M ==> |P| < |M[s]| && DigitValue(M[s][|P|]) < j
  {
    ChildrenEncodingExtends(A, i, j, code, MaxRadix);
  }

  /** The codewords written through the `j`-th child carry the digit `j` after the inherited code. */
  lemma ChildDigit(A: seq<Node>, i: nat, j: nat, code: seq<CodeItem>, N: map<string, string>, P: string)
    requires Codable(A) && i < |A| && j < |A[i].children|
    requires N == Encoding(A, A[i].children[j], code + [ToItem(j)]) && P == Render(code)
    ensures forall s :: s in N ==> |P| < |N[s]| && DigitValue(N[s][|P|]) == j
  {
    var c, code' := A[i].children[j], code + [ToItem(j)];
    EncodingExtends(A, c, code', MaxRadix);
    RenderStep(code, j);
    forall s | s in N ensures |P| < |N[s]| && DigitValue(N[s][|P|]) == j {
      assert P + DigitString(j) <= N[s];
      assert N[s][|P|] == DigitString(j)[0];
    }
  }

  /**
   * Two prefix-free maps whose values all extend `P`, those of `M` with a digit below `d` next and
   * those of `N` with the digit `d`, join into a prefix-free map.
   */
  lemma PrefixFreeJoin(M: map<string, string>, N: map<string, string>, P: string, d: nat)
    requires PrefixFree(M) && PrefixFree(N)
    requires forall s :: s in M ==> |P| < |M[s]| && DigitValue(M[s][|P|]) < d
    requires forall s :: s in N ==> |P| < |N[s]| && DigitValue(N[s][|P|]) == d
    ensures PrefixFree(M + N)
  {
    forall a, b | a in M + N && b in M + N && a != b ensures !((M + N)[a] <= (M + N)[b]) {
      if a in N && b !in N {
        assert N[a][|P|] != M[b][|P|];
      } else if a !in N && b in N {
        assert M[a][|P|] != N[b][|P|];
      }
    }
  }

  /** The keys written under `i` are exactly the symbols of the leaves under `i` that have a parent. */
  lemma {:induction false} EncodingKeys(A: seq<Node>, i: nat, code: seq<CodeItem>)
    requires Codable(A) && i < |A|
    ensures Encoding(A, i, code).Keys == LeafSymbols(A, i)
    decreases i, 1
  {
    if A[i].children == [] {
      forall l | 0 <= l <= i && LeafUnder(A, l, i) ensures l == i {
        if l != i {
          var j := ChildToward(A, l, i);
          assert false;
        }
      }
    } else {
      ChildrenKeysSound(A, i, |A[i].children|, code);
      ChildrenKeysComplete(A, i, |A[i].children|, code);
      forall l | 0 <= l <= i && LeafUnder(A, l, i)
        ensures A[l].symbol.name in Encoding(A, i, code)
      {
        var j := ChildToward(A, l, i);
        assert LeafUnder(A, l, A[i].children[j]);
      }
    }
  }

  /** A leaf under a child of `i` is a leaf under `i`. */
  lemma LeafUnderChild(A: seq<Node>, i: nat, j: nat, l: nat)
    requires Linked(A) && i < |A| && j < |A[i].children| && LeafUnder(A, l, A[i].children[j])
    ensures LeafUnder(A, l, i) && l <= A[i].children[j] < i
  {
    ChildUnder(A, i, j);
    UnderTrans(A, l, A[i].children[j], i);
    UnderBelow(A, l, A[i].children[j]);
  }

  /** Every key written while visiting the first `j` children of `i` is the symbol of a leaf under `i`. */
  lemma {:induction false} ChildrenKeysSound(A: seq<Node>, i: nat, j: nat, code: seq<CodeItem>)
    requires Codable(A) && i < |A| && j <= |A[i].children|
    ensures forall s :: s in EncodingOfChildren(A, i, j, code) ==> s in LeafSymbols(A, i)
    decreases i, 0, j
  {
    if j > 0 {
      ChildrenKeysSound(A, i, j - 1, code);
      var c, code' := A[i].children[j - 1], code + [ToItem(j - 1)];
      EncodingKeys(A, c, code');
      forall s | s in Encoding(A, c, code') ensures s in LeafSymbols(A, i) {
        var l :| 0 <= l <= c && LeafUnder(A, l, c) && A[l].symbol.name == s;
        LeafUnderChild(A, i, j - 1, l);
      }
    }
  }

  /** The symbol of every leaf under one of the first `j` children of `i` is written. */
  lemma {:induction false} ChildrenKeysComplete(A: seq<Node>, i: nat, j: nat, code: seq<CodeItem>)
    requires Codable(A) && i < |A| && j <= |A[i].children|
    ensures forall j', l :: 0 <= j' < j && 0 <= l < |A| && LeafUnder(A, l, A[i].children[j']) ==>
      A[l].symbol.name in EncodingOfChildren(A, i, j, code)
    decreases i, 0, j
  {
    if j > 0 {
      ChildrenKeysComplete(A, i, j - 1, code);
      var c, code' := A[i].children[j - 1], code + [ToItem(j - 1)];
      EncodingKeys(A, c, code');
      forall l | 0 <= l < |A| && LeafUnder(A, l, c) ensures A[l].symbol.name in Encoding(A, c, code') {
        UnderBelow(A, l, c);
      }
    }
  }

  /** With distinct symbols, the symbol of a leaf under child `j` of `i` is written under no later child. */
  lemma NotUnderLaterChild(A: seq<Node>, i: nat, j: nat, code: seq<CodeItem>, l: nat)
    requires Codable(A) && DistinctSymbols(A) && i < |A| && j < |A[i].children|
    requires LeafUnder(A, l, A[i].children[j])
    ensures forall j' :: j < j' < |A[i].children| ==>
      A[l].symbol.name !in Encoding(A, A[i].children[j'], code + [ToItem(j')])
  {
    var key := A[l].symbol.name;
    forall j' | j < j' < |A[i].children| ensures key !in Encoding(A, A[i].children[j'], code + [ToItem(j')]) {
      var c' := A[i].children[j'];
      EncodingKeys(A, c', code + [ToItem(j')]);
      if key in Encoding(A, c', code + [ToItem(j')]) {
        var l' :| 0 <= l' <= c' && LeafUnder(A, l', c') && A[l'].symbol.name == key;
        SiblingsDisjoint(A, i, j, j', l);
        assert false;
      }
    }
  }

  /**
   * With distinct symbols, the codeword of a leaf under `i` is the inherited code followed by the
   * positions of the children on the way down to it.
   */
  lemma {:induction false} EncodingPath(A: seq<Node>, i: nat, code: seq<CodeItem>, l: nat)
    requires Codable(A) && DistinctSymbols(A) && i < |A| && LeafUnder(A, l, i)
    ensures A[l].symbol.name in Encoding(A, i, code)
    ensures Encoding(A, i, code)[A[l].symbol.name] == Render(code + Items(PathTo(A, l, i)))
    decreases i
  {
    if l == i {
      assert Items(PathTo(A, l, i)) == [];
      assert code + [] == code;
    } else {
      var j := ChildToward(A, l, i);
      var c, code' := A[i].children[j], code + [ToItem(j)];
      var key := A[l].symbol.name;
      LeafUnderChild(A, i, j, l);
      EncodingPath(A, c, code', l);
      NotUnderLaterChild(A, i, j, code, l);
      ChildrenEncodingLookup(A, i, |A[i].children|, code, j, key);
      assert Encoding(A, i, code) == EncodingOfChildren(A, i, |A[i].children|, code);
      PathCode(A, i, j, l, code);
    }
  }

  /** The code a leaf under child `j` reaches from `i` is the code it reaches from the child, after `j`. */
  lemma PathCode(A: seq<Node>, i: nat, j: nat, l: nat, code: seq<CodeItem>)
    requires Codable(A) && i < |A| && j < |A[i].children| && Under(A, l, A[i].children[j])
    ensures Under(A, l, i)
    ensures code + Items(PathTo(A, l, i)) == code + [ToItem(j)] + Items(PathTo(A, l, A[i].children[j]))
  {
    PathStep(A, i, j, l);
    var P := PathTo(A, l, A[i].children[j]);
    ItemsCons(j, P);
    calc {
      code + Items(PathTo(A, l, i));
      code + Items([j] + P);
      code + ([ToItem(j)] + Items(P));
      code + [ToItem(j)] + Items(P);
    }
  }

  /** A key written under child `j` and under no later child keeps the value child `j` wrote. */
  lemma {:induction false} ChildrenEncodingLookup(A: seq<Node>, i: nat, m: nat, code: seq<CodeItem>, j: nat, key: string)
    requires Codable(A) && i < |A| && j < m <= |A[i].children|
    requires key in Encoding(A, A[i].children[j], code + [ToItem(j)])
    requires forall j' :: j < j' < |A[i].children| ==> key !in Encoding(A, A[i].children[j'], code + [ToItem(j')])
    ensures key in EncodingOfChildren(A, i, m, code)
    ensures EncodingOfChildren(A, i, m, code)[key] == Encoding(A, A[i].children[j], code + [ToItem(j)])[key]
    decreases m
  {
    if m - 1 != j {
      ChildrenEncodingLookup(A, i, m - 1, code, j, key);
    }
  }
}
