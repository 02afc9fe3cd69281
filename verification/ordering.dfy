/**
 * Descending sorts and "first n rows" as the dashboard uses them (`sort_values(...).head(n)`,
 * `value_counts().head(n)`, `groupby` key order). `before(a, b)` means that `a` may be listed
 * ahead of `b`; it must be a total preorder, so rows with equal keys may come in either order.
 */
module Ordering {

  ghost predicate TotalPreorder<T(!new)>(before: (T, T) -> bool) {
    && (forall a, b :: before(a, b) || before(b, a))
    && (forall a, b, c :: before(a, b) && before(b, c) ==> before(a, c))
  }

  ghost predicate SortedBy<T>(s: seq<T>, before: (T, T) -> bool) {
    forall i, j :: 0 <= i < j < |s| ==> before(s[i], s[j])
  }

  /** Puts `x` into the sorted sequence `s` ahead of the first element it may precede. */
  function Insert<T(!new)>(x: T, s: seq<T>, before: (T, T) -> bool): (r: seq<T>)
    requires TotalPreorder(before)
    requires SortedBy(s, before)
    ensures multiset(r) == multiset(s) + multiset{x}
    ensures SortedBy(r, before)
  {
    if s == [] || before(x, s[0]) then
      assert forall k :: 0 <= k < |s| ==> before(x, s[k]) by {
        if s != [] {
          forall k | 0 <= k < |s| ensures before(x, s[k]) {
            if k > 0 { assert before(s[0], s[k]); }
          }
        }
      }
      [x] + s
    else
      var rest := Insert(x, s[1..], before);
      assert s == [s[0]] + s[1..];
      assert forall k :: 0 <= k < |rest| ==> before(s[0], rest[k]) by {
        forall k | 0 <= k < |rest| ensures before(s[0], rest[k]) {
          assert rest[k] in multiset(rest);
          if rest[k] != x {
            assert rest[k] in multiset(s[1..]);
            var j :| 0 <= j < |s[1..]| && s[1..][j] == rest[k];
            assert s[1..][j] == s[j + 1];
          }
        }
      }
      [s[0]] + rest
  }

  /** A sorted permutation of `s`. */
  function SortBy<T(!new)>(s: seq<T>, before: (T, T) -> bool): (r: seq<T>)
    requires TotalPreorder(before)
    ensures multiset(r) == multiset(s)
    ensures |r| == |s|
    ensures SortedBy(r, before)
  {
    if s == [] then []
    else
      assert s == [s[0]] + s[1..];
      Insert(s[0], SortBy(s[1..], before), before)
  }

  /**
   * The first `n` rows of `s` sorted by `before`: `min(n, |s|)` of its rows, in order, and no
   * row left out may be listed ahead of any row taken.
   */
  function Top<T(!new)>(s: seq<T>, n: nat, before: (T, T) -> bool): (r: seq<T>)
    requires TotalPreorder(before)
    ensures |r| == if n < |s| then n else |s|
    ensures multiset(r) <= multiset(s)
    ensures SortedBy(r, before)
    ensures forall x :: x in multiset(s) - multiset(r) ==> forall k :: 0 <= k < |r| ==> before(r[k], x)
  {
    var sorted := SortBy(s, before);
    var k := if n < |s| then n else |s|;
    PrefixLeadsRest(sorted, k, before);
    sorted[..k]
  }

  /** In a sorted sequence, everything after position `k` may follow everything before it. */
  lemma PrefixLeadsRest<T>(s: seq<T>, k: nat, before: (T, T) -> bool)
    requires k <= |s|
    requires SortedBy(s, before)
    ensures multiset(s[..k]) <= multiset(s)
    ensures forall x :: x in multiset(s) - multiset(s[..k]) ==> forall i :: 0 <= i < k ==> before(s[..k][i], x)
  {
    assert s == s[..k] + s[k..];
    assert multiset(s) == multiset(s[..k]) + multiset(s[k..]);
    forall x | x in multiset(s) - multiset(s[..k]) ensures forall i :: 0 <= i < k ==> before(s[..k][i], x) {
      assert x in multiset(s[k..]);
      var j :| 0 <= j < |s[k..]| && s[k..][j] == x;
      assert s[k..][j] == s[k + j];
    }
  }
}
