/**
 * `np.argsort(keys)[::-1]`: the indices of `keys` ranked from the largest key
 * down. For a handful of keys NumPy's default sort is an insertion sort, so
 * the ascending argsort is stable (equal keys keep their index order); the
 * reversal then puts, among equal keys, the HIGHER index first.
 */
module ArgSort {

  /** Every element of `s` is an index into `keys`. */
  predicate Indices(keys: seq<int>, s: seq<nat>)
  {
    forall i :: 0 <= i < |s| ==> s[i] < |keys|
  }

  /** Index `a` comes before index `b` in the stable ascending order of `keys`. */
  predicate Precedes(keys: seq<int>, a: nat, b: nat)
    requires a < |keys| && b < |keys|
  {
    keys[a] < keys[b] || (keys[a] == keys[b] && a < b)
  }

  /** `s` lists indices in strictly increasing stable order of their keys. */
  predicate Ascending(keys: seq<int>, s: seq<nat>)
    requires Indices(keys, s)
  {
    forall i, j :: 0 <= i < j < |s| ==> Precedes(keys, s[i], s[j])
  }

  /**
   * One insertion-sort step: places index `x`, larger than every index already
   * in `s`, after every index whose key is not greater than its own.
   */
  function InsertIndex(keys: seq<int>, x: nat, s: seq<nat>): (r: seq<nat>)
    requires x < |keys| && Indices(keys, s) && Ascending(keys, s)
    requires forall i :: 0 <= i < |s| ==> s[i] < x
    ensures |r| == |s| + 1
    ensures r[0] == x || (s != [] && r[0] == s[0])
    ensures Indices(keys, r) && Ascending(keys, r)
    ensures forall e :: e in r <==> e in s || e == x
  {
    if s == [] || keys[x] < keys[s[0]] then [x] + s
    else [s[0]] + InsertIndex(keys, x, s[1..])
  }

  /** Stable ascending argsort of the first `n` keys. */
  function ArgSortPrefix(keys: seq<int>, n: nat): (r: seq<nat>)
    requires n <= |keys|
    ensures |r| == n
    ensures Indices(keys, r) && Ascending(keys, r)
    ensures forall e :: e in r <==> 0 <= e < n
  {
    if n == 0 then []
    else
      var s := ArgSortPrefix(keys, n - 1);
      assert forall i :: 0 <= i < |s| ==> s[i] in s;
      InsertIndex(keys, n - 1, s)
  }

  /**
   * `np.argsort(keys)[::-1]`: every index of `keys` exactly once, ordered by
   * key from the largest down, equal keys from the highest index down.
   */
  function Ranking(keys: seq<int>): (r: seq<nat>)
    ensures |r| == |keys| && Indices(keys, r)
    ensures forall e :: e in r <==> 0 <= e < |keys|
    ensures forall i, j :: 0 <= i < j < |r| ==> Precedes(keys, r[j], r[i])
  {
    var a := ArgSortPrefix(keys, |keys|);
    var r := seq(|a|, i requires 0 <= i < |a| => a[|a| - 1 - i]);
    assert forall e :: e in a ==> e in r by {
      forall e | e in a
        ensures e in r
      {
        var i :| 0 <= i < |a| && a[i] == e;
        assert r[|a| - 1 - i] == e;
      }
    }
    r
  }

  /** The ranking never lists an index twice. */
  lemma {:induction false} RankingDistinct(keys: seq<int>, i: nat, j: nat)
    requires i < j < |keys|
    ensures Ranking(keys)[i] != Ranking(keys)[j]
  {
    var r := Ranking(keys);
    assert Precedes(keys, r[j], r[i]);
  }
}
