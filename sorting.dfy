/**
 * The NumPy reductions applied to one colour channel: `np.max` over all of its
 * values and `np.sort` into ascending order, together with the counting facts
 * that say which order statistic an index into the sorted values reads.
 */
module Sorting {

  /** `s` is in ascending order. */
  predicate SortedAsc(s: seq<int>)
  {
    forall i, j :: 0 <= i < j < |s| ==> s[i] <= s[j]
  }

  /** The largest value of a non-empty sequence (`np.max` of a channel). */
  function Max(s: seq<int>): (m: int)
    requires |s| > 0
    ensures m in s
    ensures forall x :: x in s ==> x <= m
  {
    if |s| == 1 then s[0]
    else
      var rest := Max(s[1..]);
      assert s == [s[0]] + s[1..];
      if s[0] >= rest then s[0] else rest
  }

  /** Places `x` into the ascending sequence `s`, after every element not greater than it. */
  function InsertAsc(x: int, s: seq<int>): (r: seq<int>)
    requires SortedAsc(s)
    ensures |r| == |s| + 1
    ensures r[0] == x || (s != [] && r[0] == s[0])
    ensures SortedAsc(r)
  {
    if s == [] || x <= s[0] then
      SortedCons(x, s);
      [x] + s
    else
      var rest := InsertAsc(x, s[1..]);
      SortedCons(s[0], rest);
      assert s == [s[0]] + s[1..];
      [s[0]] + rest
  }

  /** Putting a value no greater than the head in front keeps a sequence ascending. */
  lemma {:induction false} SortedCons(a: int, s: seq<int>)
    requires SortedAsc(s)
    requires s != [] ==> a <= s[0]
    ensures SortedAsc([a] + s)
  {
    var r := [a] + s;
    forall i, j | 0 <= i < j < |r|
      ensures r[i] <= r[j]
    {
      if i == 0 {
        assert a <= s[0] <= s[j - 1];
      } else {
        assert r[i] == s[i - 1] && r[j] == s[j - 1];
      }
    }
  }

  /** `np.sort`: the values of `s` in ascending order. */
  function SortAsc(s: seq<int>): (r: seq<int>)
    ensures SortedAsc(r)
    ensures |r| == |s|
  {
    if s == [] then []
    else
      assert s == [s[0]] + s[1..];
      InsertAsc(s[0], SortAsc(s[1..]))
  }

  /** Inserting adds exactly one occurrence of `x`. */
  lemma {:induction false} InsertAscPermutes(x: int, s: seq<int>)
    requires SortedAsc(s)
    ensures multiset(InsertAsc(x, s)) == multiset(s) + multiset{x}
  {
    if s != [] && x > s[0] {
      InsertAscPermutes(x, s[1..]);
      assert s == [s[0]] + s[1..];
    }
  }

  /** Sorting only rearranges: the result holds the same values, as often. */
  lemma {:induction false} SortAscPermutes(s: seq<int>)
    ensures multiset(SortAsc(s)) == multiset(s)
  {
    if s != [] {
      var rest := SortAsc(s[1..]);
      calc {
        multiset(SortAsc(s));
        multiset(InsertAsc(s[0], rest));
        { InsertAscPermutes(s[0], rest); }
        multiset(rest) + multiset{s[0]};
        { SortAscPermutes(s[1..]); }
        multiset(s[1..]) + multiset{s[0]};
        { assert s == [s[0]] + s[1..]; }
        multiset(s);
      }
    }
  }

  /** How many elements of `s` are at least `v`. */
  function CountAtLeast(s: seq<int>, v: int): (n: nat)
    ensures n <= |s|
  {
    if s == [] then 0 else (if s[0] >= v then 1 else 0) + CountAtLeast(s[1..], v)
  }

  /**
   * `v` is the k-th largest value of `s`, counting repeated values: it occurs
   * in `s`, at least k elements are `>= v` and fewer than k are `> v`.
   */
  ghost predicate IsKthLargest(s: seq<int>, k: nat, v: int)
  {
    v in s && CountAtLeast(s, v) >= k && CountAtLeast(s, v + 1) < k
  }

  /** Raising the threshold never increases the count. */
  lemma {:induction false} CountAntitone(s: seq<int>, u: int, v: int)
    requires u <= v
    ensures CountAtLeast(s, v) <= CountAtLeast(s, u)
  {
    if s != [] {
      CountAntitone(s[1..], u, v);
    }
  }

  lemma {:induction false} CountInsert(x: int, s: seq<int>, v: int)
    requires SortedAsc(s)
    ensures CountAtLeast(InsertAsc(x, s), v) == CountAtLeast(s, v) + (if x >= v then 1 else 0)
  {
    if s == [] || x <= s[0] {
      assert ([x] + s)[1..] == s;
    } else {
      var rest := InsertAsc(x, s[1..]);
      assert ([s[0]] + rest)[1..] == rest;
      CountInsert(x, s[1..], v);
    }
  }

  /** Sorting keeps every count, since it only rearranges the values. */
  lemma {:induction false} CountSort(s: seq<int>, v: int)
    ensures CountAtLeast(SortAsc(s), v) == CountAtLeast(s, v)
  {
    if s != [] {
      CountSort(s[1..], v);
      CountInsert(s[0], SortAsc(s[1..]), v);
    }
  }

  /** When the elements from position j on all reach v, at least |t| - j elements reach v. */
  lemma {:induction false} CountFrom(t: seq<int>, j: nat, v: int)
    requires j <= |t|
    requires forall i :: j <= i < |t| ==> t[i] >= v
    ensures CountAtLeast(t, v) >= |t| - j
  {
    if t != [] {
      CountFrom(t[1..], if j == 0 then 0 else j - 1, v);
    }
  }

  /** When the elements up to position j all stay below v, at most |t| - j - 1 elements reach v. */
  lemma {:induction false} CountAfter(t: seq<int>, j: nat, v: int)
    requires j < |t|
    requires forall i :: 0 <= i <= j ==> t[i] < v
    ensures CountAtLeast(t, v) <= |t| - j - 1
  {
    if j > 0 {
      CountAfter(t[1..], j - 1, v);
    }
  }

  /**
   * Reading the ascending sort at position `|s| - k` yields the k-th largest
   * value of `s`.
   */
  lemma {:induction false} SortedIndexIsKthLargest(s: seq<int>, k: nat)
    requires 1 <= k <= |s|
    ensures IsKthLargest(s, k, SortAsc(s)[|s| - k])
  {
    var t := SortAsc(s);
    var j := |t| - k;
    SortedElement(s, j);
    CountSort(s, t[j]);
    CountSort(s, t[j] + 1);
    SortedRearrangementKth(s, t, k);
  }

  /**
   * Any ascending rearrangement `t` of `s` (same length, same counts) holds
   * the k-th largest value of `s` at position |t| - k.
   */
  lemma {:induction false} SortedRearrangementKth(s: seq<int>, t: seq<int>, k: nat)
    requires SortedAsc(t) && |t| == |s| && 1 <= k <= |s|
    requires t[|t| - k] in s
    requires CountAtLeast(t, t[|t| - k]) == CountAtLeast(s, t[|t| - k])
    requires CountAtLeast(t, t[|t| - k] + 1) == CountAtLeast(s, t[|t| - k] + 1)
    ensures IsKthLargest(s, k, t[|t| - k])
  {
    SortedCountsAt(t, |t| - k);
  }

  /** In an ascending sequence, |t| - j elements reach t[j] and fewer exceed it. */
  lemma {:induction false} SortedCountsAt(t: seq<int>, j: nat)
    requires SortedAsc(t) && j < |t|
    ensures CountAtLeast(t, t[j]) >= |t| - j
    ensures CountAtLeast(t, t[j] + 1) < |t| - j
  {
    CountFrom(t, j, t[j]);
    CountAfter(t, j, t[j] + 1);
  }

  /** Every element of the ascending sort is one of the input values. */
  lemma {:induction false} SortedElement(s: seq<int>, i: nat)
    requires i < |s|
    ensures SortAsc(s)[i] in s
  {
    SortAscPermutes(s);
    assert SortAsc(s)[i] in multiset(SortAsc(s));
  }

  /** The k-th largest value is unique: the predicate pins it down. */
  lemma {:induction false} KthLargestUnique(s: seq<int>, k: nat, u: int, v: int)
    requires IsKthLargest(s, k, u) && IsKthLargest(s, k, v)
    ensures u == v
  {
    if u < v {
      CountAntitone(s, u + 1, v);
    } else if v < u {
      CountAntitone(s, v + 1, u);
    }
  }

  /** The first element of the ascending sort is the smallest value. */
  lemma {:induction false} SortedFirstIsMinimum(s: seq<int>)
    requires |s| > 0
    ensures SortAsc(s)[0] in s
    ensures forall x :: x in s ==> SortAsc(s)[0] <= x
  {
    var t := SortAsc(s);
    SortedElement(s, 0);
    SortAscPermutes(s);
    forall x | x in s
      ensures t[0] <= x
    {
      assert x in multiset(t);
    }
  }
}
