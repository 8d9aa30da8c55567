/**
 * Range-profile conditioning of 2D_LIDAR/pre_processing.py: the edge-padded
 * median filter, LidarSmoother (validity filter, interpolation fill, median,
 * exponential moving average) and EMAArray. Distances are real millimetres;
 * NaN and the infinities are the explicit value `NonFinite`.
 */
module PreProcessing {
  import opened Wrappers
  import opened Median

  // ------------------------------------------------------------ median filter

  /** Python's `k | 1`: sets the lowest bit (two's complement, so also for
      negative `k`). */
  function OrOne(k: int): (r: int)
    ensures r % 2 == 1
    ensures r == k || r == k + 1
  {
    if k % 2 == 0 then k + 1 else k
  }

  /** `max(1, k | 1)`: the smallest odd window of at least `max(k, 1)` entries. */
  function WindowSize(k: int): (w: int)
    ensures w >= 1 && w % 2 == 1
    ensures w >= k
    ensures w == 1 || w <= k + 1
  {
    var o := OrOne(k);
    if o > 1 then o else 1
  }

  /** Index `j` clamped into `[0, n)`: edge padding. */
  function Clamp(j: int, n: int): (c: int)
    requires n > 0
    ensures 0 <= c < n
  {
    if j < 0 then 0 else if j >= n then n - 1 else j
  }

  /** `xp[i:i+k]` where `xp = np.pad(x, (k//2, k//2), mode='edge')`: the window
      of `k` entries centred on `i`, neighbours beyond either end taking the
      first or last entry. */
  function Window(x: seq<real>, k: int, i: int): (w: seq<real>)
    requires |x| > 0 && k >= 1 && 0 <= i < |x|
    ensures |w| == k
    ensures k % 2 == 1 ==> w[k / 2] == x[i]
    ensures forall t :: 0 <= t < k ==> w[t] in x
    ensures forall t :: 0 <= t < k && 0 <= i + t - k / 2 < |x| ==> w[t] == x[i + t - k / 2]
    ensures forall t :: 0 <= t < k && i + t - k / 2 < 0 ==> w[t] == x[0]
    ensures forall t :: 0 <= t < k && i + t - k / 2 >= |x| ==> w[t] == x[|x| - 1]
  {
    var w := seq(k, t requires 0 <= t < k => x[Clamp(i + t - k / 2, |x|)]);
    assert forall t :: 0 <= t < k ==> w[t] == x[Clamp(i + t - k / 2, |x|)];
    w
  }

  /** `median_filter_1d(x, k)`. Edge padding of an empty profile fails unless
      the window is a single entry (no padding), so an empty profile is only
      accepted then. */
  function MedianFilter(x: seq<real>, k: int): (r: seq<real>)
    requires |x| > 0 || WindowSize(k) == 1
    ensures |r| == |x|
  {
    var kk := WindowSize(k);
    seq(|x|, i requires 0 <= i < |x| => MedianOf(Window(x, kk, i)))
  }

  /** Every output lies within any bounds that hold for the whole input. */
  lemma MedianFilterBounded(x: seq<real>, k: int, lo: real, hi: real)
    requires |x| > 0 || WindowSize(k) == 1
    requires forall j :: 0 <= j < |x| ==> lo <= x[j] <= hi
    ensures forall i :: 0 <= i < |x| ==> lo <= MedianFilter(x, k)[i] <= hi
  {
    var kk := WindowSize(k);
    forall i | 0 <= i < |x| ensures lo <= MedianFilter(x, k)[i] <= hi {
      var w := Window(x, kk, i);
      var m := MedianOf(w);
      var t :| 0 <= t < |w| && w[t] == m;
      assert w[t] in x;
    }
  }

  /** A constant profile is left unchanged. */
  lemma MedianFilterConstant(x: seq<real>, k: int, c: real)
    requires |x| > 0 || WindowSize(k) == 1
    requires forall j :: 0 <= j < |x| ==> x[j] == c
    ensures MedianFilter(x, k) == x
  {
    MedianFilterBounded(x, k, c, c);
  }

  /** Each output is a middle value of its window: no more than half of the
      window lies strictly below it, and no more than half strictly above. */
  lemma MedianFilterMiddle(x: seq<real>, k: int, i: int)
    requires |x| > 0 && 0 <= i < |x|
    ensures var w := Window(x, WindowSize(k), i);
      && CountBelow(w, MedianFilter(x, k)[i]) <= WindowSize(k) / 2
      && CountAbove(w, MedianFilter(x, k)[i]) <= WindowSize(k) / 2
  {
    MedianIsMiddle(Window(x, WindowSize(k), i));
  }

  lemma {:induction false} CountAllBelow(w: seq<real>, j0: int, c: real, m: real)
    requires 0 <= j0 < |w| && c < m
    requires forall t :: 0 <= t < |w| && t != j0 ==> w[t] == c
    ensures CountBelow(w, m) >= |w| - 1
  {
    if |w| > 1 {
      if j0 == 0 {
        AllBelow(w[1..], c, m);
      } else {
        CountAllBelow(w[1..], j0 - 1, c, m);
      }
    }
  }

  lemma {:induction false} AllBelow(w: seq<real>, c: real, m: real)
    requires c < m && forall t :: 0 <= t < |w| ==> w[t] == c
    ensures CountBelow(w, m) == |w|
  {
    if w != [] {
      AllBelow(w[1..], c, m);
    }
  }

  lemma {:induction false} CountAllAbove(w: seq<real>, j0: int, c: real, m: real)
    requires 0 <= j0 < |w| && c > m
    requires forall t :: 0 <= t < |w| && t != j0 ==> w[t] == c
    ensures CountAbove(w, m) >= |w| - 1
  {
    if |w| > 1 {
      if j0 == 0 {
        AllAbove(w[1..], c, m);
      } else {
        CountAllAbove(w[1..], j0 - 1, c, m);
      }
    }
  }

  lemma {:induction false} AllAbove(w: seq<real>, c: real, m: real)
    requires c > m && forall t :: 0 <= t < |w| ==> w[t] == c
    ensures CountAbove(w, m) == |w|
  {
    if w != [] {
      AllAbove(w[1..], c, m);
    }
  }

  /** A single-entry spike is suppressed: in a window of three or more entries
      that all equal `c` but one, the median is `c`. */
  lemma SpikeSuppressed(w: seq<real>, j0: int, c: real)
    requires |w| % 2 == 1 && |w| >= 3 && 0 <= j0 < |w|
    requires forall t :: 0 <= t < |w| && t != j0 ==> w[t] == c
    ensures MedianOf(w) == c
  {
    var m := MedianOf(w);
    MedianIsMiddle(w);
    if c < m {
      CountAllBelow(w, j0, c, m);
    } else if c > m {
      CountAllAbove(w, j0, c, m);
    }
  }

  // ------------------------------------------------------ validity and fill

  /** A raw reading as `np.asarray(..., dtype=float)` holds it. */
  datatype Reading = Finite(mm: real) | NonFinite

  const MinValidMm: real := 100.0
  const MaxValidMm: real := 12000.0

  /** A reading survives the validity filter: finite and within
      [100, 12000] mm. */
  predicate InValidRange(x: Reading) {
    x.Finite? && MinValidMm <= x.mm <= MaxValidMm
  }

  /** The validity filter: below 100, above 12000 or non-finite becomes NaN. */
  function MarkMissing(x: Reading): (y: Reading)
    ensures y.Finite? <==> InValidRange(x)
    ensures y.Finite? ==> y == x
  {
    if x.Finite? && !(x.mm < MinValidMm) && !(x.mm > MaxValidMm) then x else NonFinite
  }

  function Marked(raw: seq<Reading>): (m: seq<Reading>)
    ensures |m| == |raw| && forall i :: 0 <= i < |raw| ==> m[i] == MarkMissing(raw[i])
  {
    seq(|raw|, i requires 0 <= i < |raw| => MarkMissing(raw[i]))
  }

  predicate HasFinite(m: seq<Reading>) {
    exists j :: 0 <= j < |m| && m[j].Finite?
  }

  /** The gap fill is defined: there is nothing to fill, or something to
      interpolate from (`np.interp` rejects an empty set of sample points). */
  predicate Fillable(m: seq<Reading>) {
    |m| == 0 || HasFinite(m)
  }

  /** The nearest finite entry strictly before `i`. */
  function PrevFinite(m: seq<Reading>, i: int): (r: Option<nat>)
    requires 0 <= i <= |m|
    ensures r.Some? ==> r.value < i && m[r.value].Finite?
    ensures r.Some? ==> forall j :: r.value < j < i ==> m[j].NonFinite?
    ensures r.None? ==> forall j :: 0 <= j < i ==> m[j].NonFinite?
  {
    if i == 0 then None
    else if m[i - 1].Finite? then Some(i - 1)
    else PrevFinite(m, i - 1)
  }

  /** The nearest finite entry strictly after `i`. */
  function NextFinite(m: seq<Reading>, i: int): (r: Option<nat>)
    requires -1 <= i < |m|
    ensures r.Some? ==> i < r.value < |m| && m[r.value].Finite?
    ensures r.Some? ==> forall j :: i < j < r.value ==> m[j].NonFinite?
    ensures r.None? ==> forall j :: i < j < |m| ==> m[j].NonFinite?
    decreases |m| - i
  {
    if i == |m| - 1 then None
    else if m[i + 1].Finite? then Some(i + 1)
    else NextFinite(m, i + 1)
  }

  /** `np.interp` at a missing index over the finite entries: linear in the
      index between the nearest finite neighbours, and the nearest finite value
      when there is a neighbour on one side only. */
  function Interp(m: seq<Reading>, i: int): (v: real)
    requires 0 <= i < |m| && m[i].NonFinite? && HasFinite(m)
    ensures PrevFinite(m, i).Some? && NextFinite(m, i).Some? ==>
      var p, n := PrevFinite(m, i).value, NextFinite(m, i).value;
      var a, b := m[p].mm, m[n].mm;
      && (if a <= b then a else b) <= v <= (if a <= b then b else a)
      && OnLine(p, a, n, b, i, v)
    ensures PrevFinite(m, i).None? ==> v == m[NextFinite(m, i).value].mm
    ensures NextFinite(m, i).None? ==> v == m[PrevFinite(m, i).value].mm
  {
    match (PrevFinite(m, i), NextFinite(m, i))
    case (Some(lo), Some(hi)) => Lerp(lo, m[lo].mm, hi, m[hi].mm, i)
    case (None, Some(hi)) => m[hi].mm
    case (Some(lo), None) => m[lo].mm
    case (None, None) => assert false; 0.0
  }

  /** The profile after the gap fill: finite entries kept, missing ones
      interpolated. */
  function Filled(m: seq<Reading>): (r: seq<real>)
    requires Fillable(m)
    ensures |r| == |m|
    ensures forall i :: 0 <= i < |m| && m[i].Finite? ==> r[i] == m[i].mm
  {
    seq(|m|, i requires 0 <= i < |m| => if m[i].Finite? then m[i].mm else Interp(m, i))
  }

  lemma MulNonneg(x: real, y: real)
    requires x >= 0.0 && y >= 0.0
    ensures x * y >= 0.0
  {
  }

  lemma BetweenEnds(a: real, b: real, t: real)
    requires 0.0 <= t <= 1.0
    ensures (if a <= b then a else b) <= a + (b - a) * t <= (if a <= b then b else a)
  {
    assert (b - a) * (1.0 - t) == (b - a) - (b - a) * t;
    assert (a - b) * (1.0 - t) == (a - b) - (a - b) * t;
    assert (a - b) * t == -((b - a) * t);
    if a <= b {
      MulNonneg(b - a, t);
      MulNonneg(b - a, 1.0 - t);
    } else {
      MulNonneg(a - b, t);
      MulNonneg(a - b, 1.0 - t);
    }
  }

  lemma FractionInUnit(num: real, den: real)
    requires 0.0 <= num <= den && den > 0.0
    ensures 0.0 <= num / den <= 1.0
  {
    assert num / den * den == num;
  }

  /** `v` lies on the straight line through `(lo, vlo)` and `(hi, vhi)` at
      index `i`: its offset from `vlo` is proportional to `i - lo`. */
  predicate OnLine(lo: int, vlo: real, hi: int, vhi: real, i: int, v: real) {
    (v - vlo) * (hi - lo) as real == (vhi - vlo) * (i - lo) as real
  }

  /** Linear interpolation at index `i` between `(lo, vlo)` and `(hi, vhi)`. */
  function Lerp(lo: int, vlo: real, hi: int, vhi: real, i: int): (v: real)
    requires lo < i < hi
    ensures (if vlo <= vhi then vlo else vhi) <= v <= (if vlo <= vhi then vhi else vlo)
    ensures vlo == vhi ==> v == vlo
    ensures OnLine(lo, vlo, hi, vhi, i, v)
  {
    var t := (i - lo) as real / (hi - lo) as real;
    FractionInUnit((i - lo) as real, (hi - lo) as real);
    BetweenEnds(vlo, vhi, t);
    assert t * (hi - lo) as real == (i - lo) as real;
    assert (vhi - vlo) * t * (hi - lo) as real == (vhi - vlo) * (i - lo) as real;
    vlo + (vhi - vlo) * t
  }

  /** Across a run of missing entries between the finite entries `lo` and
      `hi`, the fill is linear in the index: each entry's offset from `m[lo]`
      is proportional to its distance from `lo`, reaching `m[hi]` at `hi`. */
  lemma FilledLinear(m: seq<Reading>, lo: int, hi: int, j: int)
    requires 0 <= lo <= j <= hi < |m| && lo < hi
    requires m[lo].Finite? && m[hi].Finite?
    requires forall t :: lo < t < hi ==> m[t].NonFinite?
    ensures Fillable(m)
    ensures OnLine(lo, m[lo].mm, hi, m[hi].mm, j, Filled(m)[j])
  {
    assert HasFinite(m) by { assert m[lo].Finite?; }
    if lo < j < hi {
      var p, n := PrevFinite(m, j), NextFinite(m, j);
      assert p == Some(lo);
      assert n == Some(hi);
      assert Filled(m)[j] == Interp(m, j);
    }
  }

  /** `np.interp` fills a run of missing entries in equal steps: between the
      finite entries `lo` and `hi`, consecutive filled values differ by
      `(m[hi] - m[lo]) / (hi - lo)`. */
  lemma FilledEqualSteps(m: seq<Reading>, lo: int, hi: int, i: int)
    requires 0 <= lo <= i < hi < |m|
    requires m[lo].Finite? && m[hi].Finite?
    requires forall t :: lo < t < hi ==> m[t].NonFinite?
    ensures Fillable(m)
    ensures Filled(m)[i + 1] - Filled(m)[i] == (m[hi].mm - m[lo].mm) / (hi - lo) as real
  {
    var j := i + 1;
    FilledLinear(m, lo, hi, i);
    FilledLinear(m, lo, hi, j);
    StepOfLinear(lo, m[lo].mm, hi, m[hi].mm, i, Filled(m)[i], Filled(m)[j]);
  }

  /** Two points on the line through `(0, vl)` with slope `(vh - vl) / d`, one
      unit apart, differ by the slope. */
  lemma StepOfLinear(lo: int, vl: real, hi: int, vh: real, i: int, x: real, y: real)
    requires lo < hi
    requires OnLine(lo, vl, hi, vh, i, x) && OnLine(lo, vl, hi, vh, i + 1, y)
    ensures y - x == (vh - vl) / (hi - lo) as real
  {
    var d, k := (hi - lo) as real, (i - lo) as real;
    assert (i + 1 - lo) as real == k + 1.0;
    assert (y - x) * d == (y - vl) * d - (x - vl) * d;
    assert (y - x) * d == vh - vl;
  }

  /** If every finite entry lies in [lo, hi], so does every filled entry. */
  lemma FilledBounded(m: seq<Reading>, lo: real, hi: real)
    requires Fillable(m)
    requires forall j :: 0 <= j < |m| && m[j].Finite? ==> lo <= m[j].mm <= hi
    ensures forall i :: 0 <= i < |m| ==> lo <= Filled(m)[i] <= hi
  {
    forall i | 0 <= i < |m| ensures lo <= Filled(m)[i] <= hi {
      assert m[i].NonFinite? ==> Filled(m)[i] == Interp(m, i);
    }
  }

  /** A single missing entry between two equal finite neighbours takes their
      value. */
  lemma SingleGapEqualNeighbours(m: seq<Reading>, i: int, c: real)
    requires 0 < i < |m| - 1
    requires m[i - 1] == Finite(c) && m[i].NonFinite? && m[i + 1] == Finite(c)
    ensures HasFinite(m) && Filled(m)[i] == c
  {
    assert m[i - 1].Finite?;
    assert PrevFinite(m, i) == Some(i - 1);
    assert NextFinite(m, i) == Some(i + 1);
  }

  /** The profiles a `LidarSmoother` call accepts: one with a valid reading,
      or the empty one when the median window is 1 (edge padding of an empty
      array fails otherwise). */
  predicate Conditionable(raw: seq<Reading>, medWin: int) {
    (exists j :: 0 <= j < |raw| && InValidRange(raw[j])) || (|raw| == 0 && WindowSize(medWin) == 1)
  }

  lemma MarkedFillable(raw: seq<Reading>, medWin: int)
    requires Conditionable(raw, medWin)
    ensures Fillable(Marked(raw))
    ensures |raw| > 0 || WindowSize(medWin) == 1
  {
    if |raw| > 0 {
      var j :| 0 <= j < |raw| && InValidRange(raw[j]);
      assert Marked(raw)[j].Finite?;
    }
  }

  /** Validity filter, gap fill and median filter: the profile that enters the
      moving average. */
  function Conditioned(raw: seq<Reading>, medWin: int): (r: seq<real>)
    requires Conditionable(raw, medWin)
    ensures |r| == |raw|
  {
    MarkedFillable(raw, medWin);
    MedianFilter(Filled(Marked(raw)), medWin)
  }

  /** Every conditioned distance is a valid distance, within [100, 12000] mm. */
  lemma ConditionedInRange(raw: seq<Reading>, medWin: int)
    requires Conditionable(raw, medWin)
    ensures forall i :: 0 <= i < |raw| ==> MinValidMm <= Conditioned(raw, medWin)[i] <= MaxValidMm
  {
    var m := Marked(raw);
    MarkedFillable(raw, medWin);
    FilledBounded(m, MinValidMm, MaxValidMm);
    MedianFilterBounded(Filled(m), medWin, MinValidMm, MaxValidMm);
  }

  // ------------------------------------------------------------ moving average

  /** `alpha * d + (1 - alpha) * state`, element by element. */
  function Blend(alpha: real, d: seq<real>, state: seq<real>): (r: seq<real>)
    requires |d| == |state|
    ensures |r| == |d|
  {
    seq(|d|, i requires 0 <= i < |d| => alpha * d[i] + (1.0 - alpha) * state[i])
  }

  /** Each blend shrinks the distance to the new profile by the factor
      `1 - alpha`. */
  lemma BlendDistance(alpha: real, d: seq<real>, state: seq<real>, i: int)
    requires |d| == |state| && 0 <= i < |d|
    ensures Blend(alpha, d, state)[i] - d[i] == (1.0 - alpha) * (state[i] - d[i])
  {
  }

  /** With `alpha` in [0, 1], the blend lies between the old state and the new
      profile. */
  lemma BlendBetween(alpha: real, d: seq<real>, state: seq<real>, i: int)
    requires |d| == |state| && 0 <= i < |d| && 0.0 <= alpha <= 1.0
    ensures var v := Blend(alpha, d, state)[i];
      (if d[i] <= state[i] then d[i] else state[i]) <= v <= (if d[i] <= state[i] then state[i] else d[i])
  {
    BetweenEnds(state[i], d[i], alpha);
    assert Blend(alpha, d, state)[i] == state[i] + (d[i] - state[i]) * alpha;
  }

  function Pow(b: real, t: nat): real {
    if t == 0 then 1.0 else b * Pow(b, t - 1)
  }

  /** The smoothed state after `t` further calls that all see profile `d`. */
  function Repeated(alpha: real, d: seq<real>, state: seq<real>, t: nat): (r: seq<real>)
    requires |d| == |state|
    ensures |r| == |d|
  {
    if t == 0 then state else Blend(alpha, d, Repeated(alpha, d, state, t - 1))
  }

  /** Feeding one profile repeatedly: the gap to it shrinks geometrically, by
      `(1 - alpha)` per call. */
  lemma {:induction false} RepeatedConverges(alpha: real, d: seq<real>, state: seq<real>, t: nat, i: int)
    requires |d| == |state| && 0 <= i < |d|
    ensures Repeated(alpha, d, state, t)[i] - d[i] == Pow(1.0 - alpha, t) * (state[i] - d[i])
  {
    if t > 0 {
      RepeatedConverges(alpha, d, state, t - 1, i);
      BlendDistance(alpha, d, Repeated(alpha, d, state, t - 1), i);
      assert Pow(1.0 - alpha, t) == (1.0 - alpha) * Pow(1.0 - alpha, t - 1);
    }
  }

  /** Once the state equals a profile, feeding that profile keeps it there. */
  lemma {:induction false} RepeatedFixedPoint(alpha: real, d: seq<real>, t: nat)
    ensures Repeated(alpha, d, d, t) == d
  {
    forall i | 0 <= i < |d| ensures Repeated(alpha, d, d, t)[i] == d[i] {
      RepeatedConverges(alpha, d, d, t, i);
    }
  }

  /** The state after one `LidarSmoother` call. */
  function NextState(alpha: real, medWin: int, state: Option<seq<real>>, raw: seq<Reading>): (r: seq<real>)
    requires Conditionable(raw, medWin)
    requires state.Some? ==> |state.value| == |raw|
    ensures |r| == |raw|
  {
    var d := Conditioned(raw, medWin);
    if state.None? then d else Blend(alpha, d, state.value)
  }

  /** With `alpha` in [0, 1], the smoothed state stays within the valid
      distance range: the first call takes the conditioned profile, later calls
      blend two in-range profiles. */
  lemma NextStateInRange(alpha: real, medWin: int, state: Option<seq<real>>, raw: seq<Reading>)
    requires Conditionable(raw, medWin)
    requires state.Some? ==> |state.value| == |raw|
    requires 0.0 <= alpha <= 1.0
    requires state.Some? ==> forall i :: 0 <= i < |raw| ==> MinValidMm <= state.value[i] <= MaxValidMm
    ensures forall i :: 0 <= i < |raw| ==> MinValidMm <= NextState(alpha, medWin, state, raw)[i] <= MaxValidMm
  {
    ConditionedInRange(raw, medWin);
    if state.Some? {
      forall i | 0 <= i < |raw|
        ensures MinValidMm <= NextState(alpha, medWin, state, raw)[i] <= MaxValidMm
      {
        BlendBetween(alpha, Conditioned(raw, medWin), state.value, i);
      }
    }
  }

  /** `d[(d < 100) | (d > 12000) | ~np.isfinite(d)] = np.nan`, in place. */
  method MarkInvalid(d: array<Reading>)
    modifies d
    ensures d[..] == Marked(old(d[..]))
  {
    for i := 0 to d.Length
      invariant forall t :: 0 <= t < i ==> d[t] == MarkMissing(old(d[t]))
      invariant forall t :: i <= t < d.Length ==> d[t] == old(d[t])
    {
      if !(d[i].Finite? && !(d[i].mm < MinValidMm) && !(d[i].mm > MaxValidMm)) {
        d[i] := NonFinite;
      }
    }
  }

  /** `d[isn] = np.interp(...)`, in place: every missing entry gets the value
      interpolated from the entries as they were before the fill. */
  method FillMissing(d: array<Reading>)
    requires HasFinite(d[..])
    modifies d
    ensures forall t :: 0 <= t < d.Length ==> d[t] == Finite(Filled(old(d[..]))[t])
  {
    var before := d[..];
    for i := 0 to d.Length
      invariant forall t :: 0 <= t < i ==> d[t] == Finite(Filled(before)[t])
      invariant forall t :: i <= t < d.Length ==> d[t] == before[t]
    {
      if d[i].NonFinite? {
        d[i] := Finite(Interp(before, i));
      }
    }
  }

  /** `isn = np.isnan(d)` and, when `isn.any()`, the fill: afterwards every
      entry holds the filled profile of the array as it was before. */
  method FillGaps(d: array<Reading>)
    requires Fillable(d[..])
    modifies d
    ensures forall t :: 0 <= t < d.Length ==> d[t] == Finite(Filled(old(d[..]))[t])
  {
    if exists t :: 0 <= t < d.Length && d[t].NonFinite? {
      FillMissing(d);
    } else {
      forall t | 0 <= t < d.Length ensures d[t] == Finite(Filled(d[..])[t]) {
        assert d[..][t].Finite?;
      }
    }
  }

  /** LidarSmoother: configuration plus the persistent smoothed profile, absent
      until the first call. */
  class LidarSmoother {
    const alpha: real
    const medWin: int
    const n: int
    var state: Option<seq<real>>

    constructor (nAngles: int := 360, alpha: real := 0.1, medWin: int := 5)
      ensures this.alpha == alpha && this.medWin == medWin && n == nAngles
      ensures state == None
    {
      this.alpha := alpha;
      this.medWin := medWin;
      n := nAngles;
      state := None;
    }

    /** `__call__`: mark invalid readings missing, fill them by
        interpolation, median-filter, then blend into the state (or take the
        filtered profile as the state on the first call). */
    method Call(distancesMm: seq<Reading>) returns (out: seq<real>)
      requires Conditionable(distancesMm, medWin)
      requires state.Some? ==> |state.value| == |distancesMm|
      modifies this
      ensures out == NextState(alpha, medWin, old(state), distancesMm)
      ensures state == Some(out)
    {
      var len := |distancesMm|;
      var d := new Reading[len](i requires 0 <= i < len => distancesMm[i]);
      assert d[..] == distancesMm;
      MarkInvalid(d);
      var missing := d[..];
      assert missing == Marked(distancesMm);
      MarkedFillable(distancesMm, medWin);
      FillGaps(d);
      var cleaned := d[..];
      var filled := seq(len, t requires 0 <= t < len && cleaned[t].Finite? => cleaned[t].mm);
      assert filled == Filled(missing);
      var filtered := MedianFilter(filled, medWin);
      assert filtered == Conditioned(distancesMm, medWin);
      if state.None? {
        state := Some(filtered);
      } else {
        state := Some(Blend(alpha, filtered, state.value));
      }
      out := state.value;
    }
  }

  // ----------------------------------------------------------------- EMAArray

  /** `np.isnan(values).all()`, with `None` standing for NaN. */
  predicate AllMissing(values: seq<Option<real>>) {
    forall i :: 0 <= i < |values| ==> values[i].None?
  }

  /** `alpha * arr + (1 - alpha) * values` on arrays that may hold NaN: NaN in
      either operand gives NaN. */
  function BlendMissing(alpha: real, arr: seq<Option<real>>, values: seq<Option<real>>): (r: seq<Option<real>>)
    requires |arr| == |values|
    ensures |r| == |arr|
    ensures forall i :: 0 <= i < |r| ==> (r[i].Some? <==> arr[i].Some? && values[i].Some?)
  {
    seq(|arr|, i requires 0 <= i < |arr| =>
      if arr[i].Some? && values[i].Some? then Some(alpha * arr[i].value + (1.0 - alpha) * values[i].value)
      else None)
  }

  /** A profile with no NaN entries. */
  function Present(s: seq<real>): (r: seq<Option<real>>)
    ensures |r| == |s| && forall i :: 0 <= i < |s| ==> r[i] == Some(s[i])
  {
    seq(|s|, i requires 0 <= i < |s| => Some(s[i]))
  }

  /** Where nothing is missing, the EMAArray blend is the LidarSmoother blend. */
  lemma BlendMissingAgrees(alpha: real, arr: seq<real>, values: seq<real>)
    requires |arr| == |values|
    ensures BlendMissing(alpha, Present(arr), Present(values)) == Present(Blend(alpha, arr, values))
  {
    var x, y := BlendMissing(alpha, Present(arr), Present(values)), Present(Blend(alpha, arr, values));
    forall i | 0 <= i < |arr| ensures x[i] == y[i] {
      assert x[i].Some? && x[i].value == alpha * arr[i] + (1.0 - alpha) * values[i];
      assert Blend(alpha, arr, values)[i] == alpha * arr[i] + (1.0 - alpha) * values[i];
    }
  }

  /** EMAArray: a smoothed array that starts as all NaN. */
  class EMAArray {
    const alpha: real
    var values: seq<Option<real>>

    constructor (alpha: real := 0.3, size: nat := 360)
      ensures this.alpha == alpha
      ensures |values| == size && AllMissing(values)
    {
      this.alpha := alpha;
      values := seq(size, _ => None);
    }

    /** `update`: take the input while every stored value is still NaN,
        otherwise blend it in; return the new values. */
    method Update(arr: seq<Option<real>>) returns (r: seq<Option<real>>)
      requires AllMissing(values) || |arr| == |values|
      modifies this
      ensures values == r
      ensures AllMissing(old(values)) ==> r == arr
      ensures !AllMissing(old(values)) ==> r == BlendMissing(alpha, arr, old(values))
      ensures (exists i :: 0 <= i < |r| && r[i].Some?) ==> !AllMissing(values)
    {
      if forall i :: 0 <= i < |values| ==> values[i].None? {
        values := arr;
      } else {
        values := BlendMissing(alpha, arr, values);
      }
      r := values;
    }
  }
}
