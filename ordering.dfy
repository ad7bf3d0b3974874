/** Ordering a sequence by an integer key, largest first. */
module Ordering {

  /** Keys never increase along `vs`. */
  predicate Descending<T>(key: T -> int, vs: seq<T>) {
    forall i, j :: 0 <= i < j < |vs| ==> key(vs[i]) >= key(vs[j])
  }

  /** Putting an element no smaller than the head in front keeps the order. */
  lemma ConsDescending<T>(key: T -> int, v: T, vs: seq<T>)
    requires Descending(key, vs)
    requires vs == [] || key(v) >= key(vs[0])
    ensures Descending(key, [v] + vs)
  {
    var r := [v] + vs;
    forall i, j | 0 <= i < j < |r| ensures key(r[i]) >= key(r[j]) {
      if i == 0 {
        assert r[j] == vs[j - 1];
        assert key(vs[0]) >= key(vs[j - 1]);
      } else {
        assert r[i] == vs[i - 1] && r[j] == vs[j - 1];
      }
    }
  }

  /** Insert `v` before the first element with a smaller key. */
  function InsertDescending<T>(key: T -> int, v: T, vs: seq<T>): (r: seq<T>)
    requires Descending(key, vs)
    ensures Descending(key, r)
    ensures multiset(r) == multiset(vs) + multiset{v}
    ensures |r| == |vs| + 1
    ensures r[0] == v || (vs != [] && r[0] == vs[0])
  {
    if vs == [] || key(v) >= key(vs[0]) then
      ConsDescending(key, v, vs);
      [v] + vs
    else
      var head, rest := vs[0], vs[1..];
      assert vs == [head] + rest;
      var tail := InsertDescending(key, v, rest);
      ConsDescending(key, head, tail);
      [head] + tail
  }

  /** Insertion sort, largest key first; ties keep no particular order. */
  function SortDescending<T>(key: T -> int, vs: seq<T>): (r: seq<T>)
    ensures Descending(key, r)
    ensures multiset(r) == multiset(vs)
  {
    if vs == [] then []
    else
      assert vs == [vs[0]] + vs[1..];
      InsertDescending(key, vs[0], SortDescending(key, vs[1..]))
  }
}
