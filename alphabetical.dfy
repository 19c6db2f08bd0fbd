/**
 * `collections.OrderedDict(sorted(encoding.items()))` (huffman.py line 287): the entries of the
 * encoding in increasing order of their keys, compared as Python compares `str` values.
 */
module Alphabetical {

  /**
   * Python's `a < b` on strings: the first differing code point decides, and a proper prefix comes
   * before every longer string that starts with it.
   */
  predicate Below(a: string, b: string)
    decreases |a|
  {
    |b| > 0 && (|a| == 0 || a[0] < b[0] || (a[0] == b[0] && Below(a[1..], b[1..])))
  }

  lemma {:induction false} BelowIrreflexive(a: string)
    ensures !Below(a, a)
    decreases |a|
  {
    if |a| > 0 {
      BelowIrreflexive(a[1..]);
    }
  }

  lemma {:induction false} BelowTransitive(a: string, b: string, c: string)
    requires Below(a, b) && Below(b, c)
    ensures Below(a, c)
    decreases |a|
  {
    if |a| > 0 && a[0] == b[0] && b[0] == c[0] {
      BelowTransitive(a[1..], b[1..], c[1..]);
    }
  }

  /** Of two different strings, one comes before the other. */
  lemma {:induction false} BelowTotal(a: string, b: string)
    requires a != b
    ensures Below(a, b) || Below(b, a)
    decreases |a|
  {
    if |a| > 0 && |b| > 0 && a[0] == b[0] {
      assert a == [a[0]] + a[1..] && b == [b[0]] + b[1..];
      BelowTotal(a[1..], b[1..]);
    }
  }

  /** No string comes both before and after another. */
  lemma BelowAsymmetric(a: string, b: string)
    requires Below(a, b)
    ensures !Below(b, a)
  {
    if Below(b, a) {
      BelowTransitive(a, b, a);
      BelowIrreflexive(a);
    }
  }

  /** `k` is the first of the strings of `s`. */
  predicate IsLeast(k: string, s: set<string>)
  {
    k in s && forall k' :: k' in s && k' != k ==> Below(k, k')
  }

  /** Every non-empty finite set of strings has a first element. */
  lemma {:induction false} LeastExists(s: set<string>)
    requires s != {}
    ensures exists k :: IsLeast(k, s)
    decreases |s|
  {
    var x :| x in s;
    if s != {x} {
      LeastExists(s - {x});
      var k :| IsLeast(k, s - {x});
      BelowTotal(x, k);
      if Below(x, k) {
        forall k' | k' in s && k' != x ensures Below(x, k') {
          if k' != k {
            BelowTransitive(x, k, k');
          }
        }
        assert IsLeast(x, s);
      } else {
        assert IsLeast(k, s);
      }
    } else {
      assert IsLeast(x, s);
    }
  }

  /** A set has at most one first element. */
  lemma LeastUnique(s: set<string>)
    ensures forall a, b :: IsLeast(a, s) && IsLeast(b, s) ==> a == b
  {
    forall a, b | IsLeast(a, s) && IsLeast(b, s) ensures a == b {
      if a != b {
        BelowAsymmetric(a, b);
      }
    }
  }

  /** The first of the strings of a non-empty set. */
  function Least(s: set<string>): (k: string)
    requires s != {}
    ensures IsLeast(k, s)
  {
    LeastExists(s);
    LeastUnique(s);
    var k :| k in s && IsLeast(k, s);
    k
  }

  /** `r` lists every entry of `m` once, with strictly increasing keys. */
  predicate InKeyOrder(m: map<string, string>, r: seq<(string, string)>)
  {
    && |r| == |m|
    && (forall i :: 0 <= i < |r| ==> r[i].0 in m && m[r[i].0] == r[i].1)
    && (forall k :: k in m ==> exists i :: 0 <= i < |r| && r[i].0 == k)
    && (forall i, j :: 0 <= i < j < |r| ==> Below(r[i].0, r[j].0))
  }

  /**
   * `sorted(m.items())` for a dict (whose keys are distinct): every entry of `m` once, keys
   * strictly increasing.
   */
  function SortedItems(m: map<string, string>): (r: seq<(string, string)>)
    ensures InKeyOrder(m, r)
    decreases |m|
  {
    if |m| == 0 then []
    else
      var k := Least(m.Keys);
      var m' := m - {k};
      assert m'.Keys == m.Keys - {k};
      var rest := SortedItems(m');
      LeastFirst(m, k, rest);
      [(k, m[k])] + rest
  }

  /** The first entry followed by the others in key order is all entries in key order. */
  lemma LeastFirst(m: map<string, string>, k: string, rest: seq<(string, string)>)
    requires IsLeast(k, m.Keys) && InKeyOrder(m - {k}, rest)
    ensures InKeyOrder(m, [(k, m[k])] + rest)
  {
    var m', r := m - {k}, [(k, m[k])] + rest;
    assert m'.Keys == m.Keys - {k};
    assert |m'.Keys| == |m.Keys| - 1;
    assert |r| == |m|;
    assert forall i :: 1 <= i < |r| ==> r[i] == rest[i - 1];
    assert forall i :: 0 <= i < |r| ==> r[i].0 in m && m[r[i].0] == r[i].1;
    LeastFirstComplete(m, k, rest);
    LeastFirstSorted(m, k, rest);
  }

  /** The first key comes before every key of the others, which are in order already. */
  lemma LeastFirstSorted(m: map<string, string>, k: string, rest: seq<(string, string)>)
    requires IsLeast(k, m.Keys) && InKeyOrder(m - {k}, rest)
    ensures forall i, j :: 0 <= i < j < |rest| + 1 ==> Below(([(k, m[k])] + rest)[i].0, ([(k, m[k])] + rest)[j].0)
  {
    var r := [(k, m[k])] + rest;
    forall i, j | 0 <= i < j < |r| ensures Below(r[i].0, r[j].0) {
      if i == 0 {
        assert r[j] == rest[j - 1];
        assert r[j].0 in m - {k};
      } else {
        assert r[i] == rest[i - 1] && r[j] == rest[j - 1];
      }
    }
  }

  lemma LeastFirstComplete(m: map<string, string>, k: string, rest: seq<(string, string)>)
    requires k in m && forall key :: key in m - {k} ==> exists i :: 0 <= i < |rest| && rest[i].0 == key
    ensures forall key :: key in m ==> exists i :: 0 <= i < |rest| + 1 && ([(k, m[k])] + rest)[i].0 == key
  {
    var r := [(k, m[k])] + rest;
    forall key | key in m ensures exists i :: 0 <= i < |r| && r[i].0 == key {
      if key != k {
        assert key in m - {k};
        var i :| 0 <= i < |rest| && rest[i].0 == key;
        assert r[i + 1].0 == key;
      } else {
        assert r[0].0 == key;
      }
    }
  }
}
