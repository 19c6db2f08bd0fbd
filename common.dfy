/** Small value types and sequence predicates shared by the Huffman modules. */
module Common {

  /** A Python reference that may be `None`. */
  datatype Option<T> = None | Some(value: T)

  /** The outcome of a top-level run: a value, or the error the program stops with. */
  datatype Result<T, E> = Success(value: T) | Failure(error: E)

  /** No element occurs twice. */
  predicate Distinct<T(==)>(s: seq<T>)
  {
    forall i, j :: 0 <= i < j < |s| ==> s[i] != s[j]
  }

  /** The integers lo, lo + 1, ..., hi - 1, in that order (Python's `range(lo, hi)`). */
  function Range(lo: nat, hi: nat): (r: seq<nat>)
    requires lo <= hi
    ensures |r| == hi - lo
    ensures forall k :: 0 <= k < |r| ==> r[k] == lo + k
    decreases hi - lo
  {
    if lo == hi then [] else [lo] + Range(lo + 1, hi)
  }

  /** Appending `lo` and then `range(lo + 1, hi)` appends `range(lo, hi)`. */
  lemma AppendRange(s: seq<nat>, lo: nat, hi: nat)
    requires lo < hi
    ensures (s + [lo]) + Range(lo + 1, hi) == s + Range(lo, hi)
  {
    assert Range(lo, hi) == [lo] + Range(lo + 1, hi);
  }

  /** Merging dicts (later entries win) is associative. */
  lemma MergeAssoc<K, V>(a: map<K, V>, b: map<K, V>, c: map<K, V>)
    ensures (a + b) + c == a + (b + c)
  {
  }

  /** The first position of `x` in `s` (Python's `s.index(x)`). */
  function IndexOf<T(==)>(s: seq<T>, x: T): (r: nat)
    requires x in s
    ensures r < |s| && s[r] == x
    ensures forall k :: 0 <= k < r ==> s[k] != x
  {
    if s[0] == x then 0 else 1 + IndexOf(s[1..], x)
  }

  /** No value of the map is a prefix of (or equal to) the value of another key. */
  predicate PrefixFree<K, V(==)>(m: map<K, seq<V>>)
  {
    forall a, b :: a in m && b in m && a != b ==> !(m[a] <= m[b])
  }
}
