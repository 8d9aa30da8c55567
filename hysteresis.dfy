/**
 * The four actions of 2D_LIDAR/planning_path.py and the two pieces of the
 * Python standard library its hysteresis relies on: a `deque` with a
 * `maxlen`, and `Counter(...).most_common(1)`.
 */
module Hysteresis {

  datatype Action = Stop | Forward | TurnLeft | TurnRight

  /** `deque.append` on a deque bounded by `maxLen`: when full, the oldest
      (leftmost) entry is evicted. */
  function Push(h: seq<Action>, a: Action, maxLen: nat): (r: seq<Action>)
    requires 1 <= maxLen && |h| <= maxLen
    ensures |r| == if |h| < maxLen then |h| + 1 else maxLen
    ensures r[|r| - 1] == a
  {
    if |h| < maxLen then h + [a] else h[1..] + [a]
  }

  /** The last `n` entries of `s` (all of `s` when it is shorter). */
  function Newest(s: seq<Action>, n: nat): (r: seq<Action>)
    ensures |r| == if |s| < n then |s| else n
  {
    if |s| <= n then s else s[|s| - n..]
  }

  /** Appending a run of actions one at a time. */
  function PushAll(h: seq<Action>, xs: seq<Action>, maxLen: nat): (r: seq<Action>)
    requires 1 <= maxLen && |h| <= maxLen
    ensures |r| == if |h| + |xs| < maxLen then |h| + |xs| else maxLen
    decreases |xs|
  {
    if xs == [] then h else PushAll(Push(h, xs[0], maxLen), xs[1..], maxLen)
  }

  /** Dropping the oldest entry of an over-long history keeps its newest part. */
  lemma NewestOfTail(all: seq<Action>, maxLen: nat)
    requires |all| > maxLen
    ensures Newest(all[1..], maxLen) == Newest(all, maxLen)
  {
    var tail := all[1..];
    assert tail[|tail| - maxLen..] == all[|all| - maxLen..];
  }

  /** One push followed by more entries keeps the same newest part as
      appending everything to the unbounded history. */
  lemma PushThenNewest(h: seq<Action>, x: Action, ys: seq<Action>, maxLen: nat)
    requires 1 <= maxLen && |h| <= maxLen
    ensures Newest(Push(h, x, maxLen) + ys, maxLen) == Newest(h + ([x] + ys), maxLen)
  {
    if |h| < maxLen {
      assert (h + [x]) + ys == h + ([x] + ys);
    } else {
      assert (h[1..] + [x]) + ys == (h + ([x] + ys))[1..];
      NewestOfTail(h + ([x] + ys), maxLen);
    }
  }

  /** A bounded deque always holds exactly the `maxLen` most recent entries of
      everything appended to it. */
  lemma {:induction false} PushAllKeepsNewest(h: seq<Action>, xs: seq<Action>, maxLen: nat)
    requires 1 <= maxLen && |h| <= maxLen
    ensures PushAll(h, xs, maxLen) == Newest(h + xs, maxLen)
    decreases |xs|
  {
    if xs != [] {
      PushAllKeepsNewest(Push(h, xs[0], maxLen), xs[1..], maxLen);
      PushThenNewest(h, xs[0], xs[1..], maxLen);
      assert [xs[0]] + xs[1..] == xs;
    }
  }

  /** Number of occurrences of `x` in `h`. */
  function Count(h: seq<Action>, x: Action): nat {
    multiset(h)[x]
  }

  /** Two different actions together never occur more often than the length. */
  lemma {:induction false} CountPair(h: seq<Action>, x: Action, y: Action)
    requires x != y
    ensures Count(h, x) + Count(h, y) <= |h|
  {
    if h != [] {
      CountPair(h[1..], x, y);
      assert h == [h[0]] + h[1..];
      assert multiset(h) == multiset([h[0]]) + multiset(h[1..]);
    }
  }

  /** Position of the first occurrence of `x` in `h`. */
  function FirstIndex(h: seq<Action>, x: Action): (k: nat)
    requires x in h
    ensures k < |h| && h[k] == x && forall j :: 0 <= j < k ==> h[j] != x
  {
    if h[0] == x then 0 else 1 + FirstIndex(h[1..], x)
  }

  /** What the scan has established after looking at positions `0..i-1`:
      `best` occurs among them, no item seen so far outnumbers it, and every
      item seen as often occurs no earlier than `best` first does. */
  predicate Leader(h: seq<Action>, i: nat, best: Action)
    requires i <= |h|
  {
    && best in h[..i]
    && (forall j :: 0 <= j < i ==> Count(h, h[j]) <= Count(h, best))
    && (forall j :: 0 <= j < i && Count(h, h[j]) == Count(h, best) ==> FirstIndex(h, best) <= j)
  }

  /** The next item replaces the leader only when it is strictly more frequent. */
  function Challenge(h: seq<Action>, i: nat, best: Action): Action
    requires i < |h|
  {
    if Count(h, h[i]) > Count(h, best) then h[i] else best
  }

  lemma LeaderStep(h: seq<Action>, i: nat, best: Action)
    requires i < |h| && Leader(h, i, best)
    ensures Leader(h, i + 1, Challenge(h, i, best))
  {
    var b := FirstIndex(h, best);
    assert b < i by {
      var k :| 0 <= k < i && h[..i][k] == best;
    }
    assert h[..i + 1][b] == best && h[..i + 1][i] == h[i];
  }

  /** Scans items from position `i` on, keeping the first item seen with a
      strictly larger count: CPython's `max` over the Counter's items, which are
      in first-occurrence order. */
  function MostCommonFrom(h: seq<Action>, i: nat, best: Action): (r: Action)
    requires i <= |h| && Leader(h, i, best)
    ensures Leader(h, |h|, r)
    decreases |h| - i
  {
    if i == |h| then best
    else
      LeaderStep(h, i, best);
      MostCommonFrom(h, i + 1, Challenge(h, i, best))
  }

  /** `Counter(h).most_common(1)[0][0]`: an action of `h` that no other action
      outnumbers; among equally frequent actions, the one that occurs first. */
  function MostCommon(h: seq<Action>): (r: Action)
    requires |h| > 0
    ensures r in h
    ensures forall x :: Count(h, x) <= Count(h, r)
    ensures forall x :: x in h && Count(h, x) == Count(h, r) ==> FirstIndex(h, r) <= FirstIndex(h, x)
  {
    assert h[..1][0] == h[0];
    var r := MostCommonFrom(h, 1, h[0]);
    assert h[..|h|] == h;
    assert forall x :: x !in h ==> Count(h, x) == 0;
    forall x | x in h ensures Count(h, x) <= Count(h, r) {
      var k := FirstIndex(h, x);
    }
    r
  }

  /** An action holding a strict majority of the history is the one chosen. */
  lemma MajorityWins(h: seq<Action>, x: Action)
    requires |h| > 0 && 2 * Count(h, x) > |h|
    ensures MostCommon(h) == x
  {
    var r := MostCommon(h);
    if r != x {
      CountPair(h, r, x);
    }
  }

  /** A sequence made of one action only. */
  function Repeat(x: Action, k: nat): (r: seq<Action>)
    ensures |r| == k && forall j :: 0 <= j < k ==> r[j] == x
  {
    seq(k, _ => x)
  }

  lemma {:induction false} CountRepeat(x: Action, k: nat)
    ensures Count(Repeat(x, k), x) == k
  {
    if k > 0 {
      CountRepeat(x, k - 1);
      assert Repeat(x, k) == Repeat(x, k - 1) + [x];
    }
  }

  lemma {:induction false} CountAppend(a: seq<Action>, b: seq<Action>, x: Action)
    ensures Count(a + b, x) == Count(a, x) + Count(b, x)
  {
    assert multiset(a + b) == multiset(a) + multiset(b);
  }

  /** A single deviating action pushed into a full history of one repeated action
      does not change the majority once the history holds two entries or more
      (with two, the tie goes to the older entry). */
  lemma NoiseSuppressed(x: Action, y: Action, maxLen: nat)
    requires maxLen >= 2
    ensures MostCommon(Push(Repeat(x, maxLen), y, maxLen)) == x
  {
    var h := Push(Repeat(x, maxLen), y, maxLen);
    assert Repeat(x, maxLen)[1..] == Repeat(x, maxLen - 1);
    assert h == Repeat(x, maxLen - 1) + [y];
    if maxLen == 2 && x != y {
      // A one-to-one tie: the older entry, `x`, is seen first.
      assert h == [x, y];
      assert Count(h, x) == 1 && Count(h, y) == 1;
      assert FirstIndex(h, x) == 0;
    } else {
      CountRepeat(x, maxLen - 1);
      CountAppend(Repeat(x, maxLen - 1), [y], x);
      MajorityWins(h, x);
    }
  }

  /** Pushing the same new action `k` times, with `k` more than half the
      capacity, makes it the majority whatever the history held before. */
  lemma PersistentActionTakesOver(h: seq<Action>, y: Action, k: nat, maxLen: nat)
    requires 1 <= maxLen && |h| == maxLen && 2 * k > maxLen
    ensures MostCommon(PushAll(h, Repeat(y, k), maxLen)) == y
  {
    var r := PushAll(h, Repeat(y, k), maxLen);
    PushAllKeepsNewest(h, Repeat(y, k), maxLen);
    var s := h + Repeat(y, k);
    if k >= maxLen {
      assert r == Repeat(y, maxLen);
      CountRepeat(y, maxLen);
    } else {
      assert r == h[k..] + Repeat(y, k);
      CountRepeat(y, k);
      CountAppend(h[k..], Repeat(y, k), y);
    }
    MajorityWins(r, y);
  }
}
