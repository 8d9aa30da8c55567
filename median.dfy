/**
 * `np.median` of an odd-length window, specified as the middle element of the
 * window in ascending order. The order is produced by insertion sort, whose
 * output is proved sorted and a permutation of its input.
 */
module Median {

  predicate Sorted(s: seq<real>) {
    forall a, b :: 0 <= a < b < |s| ==> s[a] <= s[b]
  }

  /** Putting a value no larger than the head in front keeps a sequence sorted. */
  lemma ConsSorted(x: real, t: seq<real>)
    requires Sorted(t) && (|t| > 0 ==> x <= t[0])
    ensures Sorted([x] + t)
  {
    var r := [x] + t;
    forall a, b | 0 <= a < b < |r| ensures r[a] <= r[b] {
      if a == 0 {
        assert r[b] == t[b - 1] && t[0] <= t[b - 1];
      } else {
        assert r[a] == t[a - 1] && r[b] == t[b - 1];
      }
    }
  }

  /** Inserts `x` into a sorted sequence. */
  function Insert(x: real, s: seq<real>): (r: seq<real>)
    requires Sorted(s)
    ensures Sorted(r)
    ensures multiset(r) == multiset(s) + multiset{x}
    ensures |r| == |s| + 1
    ensures r[0] == if s == [] || x <= s[0] then x else s[0]
  {
    if s == [] || x <= s[0] then
      ConsSorted(x, s);
      [x] + s
    else
      assert s == [s[0]] + s[1..];
      var t := Insert(x, s[1..]);
      ConsSorted(s[0], t);
      assert multiset([s[0]] + t) == multiset{s[0]} + multiset(t);
      [s[0]] + t
  }

  /** `s` in ascending order. */
  function Sort(s: seq<real>): (r: seq<real>)
    ensures Sorted(r)
    ensures multiset(r) == multiset(s)
    ensures |r| == |s|
  {
    if s == [] then []
    else
      assert s == [s[0]] + s[1..];
      Insert(s[0], Sort(s[1..]))
  }

  /** The middle element of the sorted window. */
  function MedianOf(w: seq<real>): (m: real)
    requires |w| % 2 == 1
    ensures m in w
  {
    var r := Sort(w);
    assert r[|r| / 2] in multiset(r);
    r[|r| / 2]
  }

  /** Number of entries of `s` strictly below `m`, and strictly above. */
  function CountBelow(s: seq<real>, m: real): nat {
    if s == [] then 0 else (if s[0] < m then 1 else 0) + CountBelow(s[1..], m)
  }

  function CountAbove(s: seq<real>, m: real): nat {
    if s == [] then 0 else (if s[0] > m then 1 else 0) + CountAbove(s[1..], m)
  }

  lemma {:induction false} CountsAppend(a: seq<real>, b: seq<real>, m: real)
    ensures CountBelow(a + b, m) == CountBelow(a, m) + CountBelow(b, m)
    ensures CountAbove(a + b, m) == CountAbove(a, m) + CountAbove(b, m)
  {
    if a != [] {
      CountsAppend(a[1..], b, m);
      assert (a + b)[1..] == a[1..] + b;
    } else {
      assert a + b == b;
    }
  }

  /** Inserting `x` adds exactly its own contribution to the counts. */
  lemma {:induction false} InsertCounts(x: real, s: seq<real>, m: real)
    requires Sorted(s)
    ensures CountBelow(Insert(x, s), m) == CountBelow(s, m) + (if x < m then 1 else 0)
    ensures CountAbove(Insert(x, s), m) == CountAbove(s, m) + (if x > m then 1 else 0)
  {
    if s == [] || x <= s[0] {
      assert ([x] + s)[1..] == s;
    } else {
      var t := Insert(x, s[1..]);
      InsertCounts(x, s[1..], m);
      assert ([s[0]] + t)[1..] == t;
    }
  }

  /** Sorting leaves the counts unchanged. */
  lemma {:induction false} SortCounts(s: seq<real>, m: real)
    ensures CountBelow(Sort(s), m) == CountBelow(s, m)
    ensures CountAbove(Sort(s), m) == CountAbove(s, m)
  {
    if s != [] {
      SortCounts(s[1..], m);
      InsertCounts(s[0], Sort(s[1..]), m);
    }
  }

  lemma {:induction false} CountsBounded(s: seq<real>, m: real)
    ensures CountBelow(s, m) <= |s| && CountAbove(s, m) <= |s|
  {
    if s != [] {
      CountsBounded(s[1..], m);
    }
  }

  /** In a sorted sequence, the entries below `s[k]` all come before `k`, and
      those above it all come after. */
  lemma {:induction false} SortedCounts(s: seq<real>, k: int)
    requires Sorted(s) && 0 <= k < |s|
    ensures CountBelow(s, s[k]) <= k
    ensures CountAbove(s, s[k]) <= |s| - 1 - k
  {
    var m := s[k];
    assert s == s[..k] + [s[k]] + s[k + 1..];
    CountsAppend(s[..k] + [s[k]], s[k + 1..], m);
    CountsAppend(s[..k], [s[k]], m);
    CountsBounded(s[..k], m);
    CountsBounded(s[k + 1..], m);
    NoneBelow(s[k + 1..], m);
    NoneAbove(s[..k], m);
  }

  lemma {:induction false} NoneBelow(s: seq<real>, m: real)
    requires forall i :: 0 <= i < |s| ==> m <= s[i]
    ensures CountBelow(s, m) == 0
  {
    if s != [] {
      NoneBelow(s[1..], m);
    }
  }

  lemma {:induction false} NoneAbove(s: seq<real>, m: real)
    requires forall i :: 0 <= i < |s| ==> s[i] <= m
    ensures CountAbove(s, m) == 0
  {
    if s != [] {
      NoneAbove(s[1..], m);
    }
  }

  /** The median is a middle value: at most half of the window (rounded down)
      lies strictly below it, and at most half strictly above it. */
  lemma MedianIsMiddle(w: seq<real>)
    requires |w| % 2 == 1
    ensures CountBelow(w, MedianOf(w)) <= |w| / 2
    ensures CountAbove(w, MedianOf(w)) <= |w| / 2
  {
    var r := Sort(w);
    SortedCounts(r, |r| / 2);
    SortCounts(w, MedianOf(w));
  }
}
