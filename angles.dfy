/**
 * Circular angle arithmetic of the planner (module-level helpers of
 * 2D_LIDAR/planning_path.py and the bin geometry of SimpleReactivePlanner).
 * Angles are real degrees, measured clockwise from the sensor's forward axis.
 * The angular resolution is a whole number of degrees in 1..360.
 */
module Angles {

  /** `x` is a whole number of turns. */
  predicate WholeTurns(x: real) {
    (x / 360.0).Floor as real == x / 360.0
  }

  /** Python's `a % 360` on a float: the representative of `a` in [0, 360). */
  function Norm360(a: real): (r: real)
    ensures 0.0 <= r < 360.0
    ensures WholeTurns(a - r)
  {
    a - 360.0 * ((a / 360.0).Floor as real)
  }

  /** The representative in [0, 360) is unique: any value there that differs
      from `a` by whole turns is `Norm360(a)`. */
  lemma Norm360Unique(a: real, r: real, k: int)
    requires 0.0 <= r < 360.0 && a == r + 360.0 * k as real
    ensures Norm360(a) == r
  {
    var f := (a / 360.0).Floor;
    assert a / 360.0 == r / 360.0 + k as real;
    assert k as real <= a / 360.0 < k as real + 1.0;
    assert f == k;
  }

  /** Normalising is invariant under whole turns. */
  lemma Norm360Turns(a: real, b: real)
    requires WholeTurns(a - b)
    ensures Norm360(a) == Norm360(b)
  {
    var r := Norm360(b);
    var kb := ((b - r) / 360.0).Floor;
    var kd := ((a - b) / 360.0).Floor;
    assert b == r + 360.0 * kb as real;
    assert a == r + 360.0 * (kb + kd) as real;
    Norm360Unique(a, r, kb + kd);
  }

  /** Normalising a difference of normalised angles is normalising the difference. */
  lemma Norm360Diff(a: real, b: real)
    ensures Norm360(Norm360(a) - Norm360(b)) == Norm360(a - b)
  {
    var ka := ((a - Norm360(a)) / 360.0).Floor;
    var kb := ((b - Norm360(b)) / 360.0).Floor;
    var d := Norm360(Norm360(a) - Norm360(b));
    var kd := ((Norm360(a) - Norm360(b) - d) / 360.0).Floor;
    assert a - b == d + 360.0 * (ka - kb + kd) as real;
    Norm360Unique(a - b, d, ka - kb + kd);
  }

  /** `_angle_in_sector`: the closed sector from `start` clockwise to `end`,
      crossing 0 degrees when the normalised start exceeds the normalised end.
      Equivalently, the angle's clockwise offset from `start` is at most the
      sector's clockwise extent. */
  function InSector(angle: real, start: real, end: real): (b: bool)
    ensures b <==> Norm360(angle - start) <= Norm360(end - start)
  {
    var a, s, e := Norm360(angle), Norm360(start), Norm360(end);
    Norm360Diff(angle, start);
    Norm360Diff(end, start);
    OffsetInTurn(a, s);
    OffsetInTurn(e, s);
    if s <= e then s <= a <= e else a >= s || a <= e
  }

  /** The clockwise offset from `s` to `a`, both in [0, 360). */
  lemma OffsetInTurn(a: real, s: real)
    requires 0.0 <= a < 360.0 && 0.0 <= s < 360.0
    ensures Norm360(a - s) == if a >= s then a - s else a - s + 360.0
  {
    if a >= s {
      Norm360Unique(a - s, a - s, 0);
    } else {
      Norm360Unique(a - s, a - s + 360.0, -1);
    }
  }

  /** A sector that starts where it ends holds that single direction only. */
  lemma DegenerateSector(angle: real, start: real)
    ensures InSector(angle, start, start) <==> Norm360(angle) == Norm360(start)
  {
  }

  /** `int(360 // res)`: the number of bins around the circle. */
  function NumBins(res: int): (n: int)
    requires 1 <= res <= 360
    ensures 1 <= n && n * res <= 360 < (n + 1) * res
  {
    360 / res
  }

  /** `int(_norm360(ang) // res) % n_bins`: the bin an angle falls into. When
      `res` does not divide 360, the sliver past the last full bin wraps to bin 0. */
  function BinOf(angle: real, res: int): (j: int)
    requires 1 <= res <= 360
    ensures 0 <= j < NumBins(res)
    ensures (j * res) as real <= Norm360(angle) < ((j + 1) * res) as real
         || (j == 0 && (NumBins(res) * res) as real <= Norm360(angle))
  {
    var a := Norm360(angle);
    var q := (a / res as real).Floor;
    BinFloorBounds(a, res);
    WrapOnce(q, NumBins(res));
    q % NumBins(res)
  }

  /** A quotient at most one past the last bin wraps at most once. */
  lemma WrapOnce(q: int, n: int)
    requires 0 <= q <= n && n >= 1
    ensures q < n ==> q % n == q
    ensures q == n ==> q % n == 0
  {
  }

  /** An angle inside the span of a full bin falls into that bin. */
  lemma BinOfWithin(angle: real, res: int, j: int)
    requires 1 <= res <= 360 && 0 <= j < NumBins(res)
    requires (j * res) as real <= Norm360(angle) < ((j + 1) * res) as real
    ensures BinOf(angle, res) == j
  {
    var a := Norm360(angle);
    var q := (a / res as real).Floor;
    BinFloorBounds(a, res);
    if q < j {
      MulLeInt(q + 1, j, res);
    } else if q > j {
      MulLeInt(j + 1, q, res);
    }
    WrapOnce(q, NumBins(res));
  }

  lemma MulLeInt(a: int, b: int, r: int)
    requires a <= b && r >= 0
    ensures a * r <= b * r
  {
    assert b * r - a * r == (b - a) * r;
  }

  lemma MulLe(a: real, b: real, r: real)
    requires a <= b && r > 0.0
    ensures a * r <= b * r
  {
    assert b * r - a * r == (b - a) * r;
  }

  lemma MulLt(a: real, b: real, r: real)
    requires a < b && r > 0.0
    ensures a * r < b * r
  {
    assert b * r - a * r == (b - a) * r;
  }

  /** Casting an integer product to a real is the product of the casts. */
  lemma CastMul(a: int, b: int)
    ensures (a * b) as real == a as real * b as real
  {
  }

  /** The bracket `Floor(x/r) <= x/r < Floor(x/r) + 1`, multiplied out by a
      positive divisor `r`. */
  lemma FloorScaled(x: real, r: real)
    requires r > 0.0
    ensures (x / r).Floor as real * r <= x < ((x / r).Floor as real + 1.0) * r
  {
    var d := x / r;
    assert d * r == x;
    MulLe(d.Floor as real, d, r);
    assert d < d.Floor as real + 1.0;
    MulLt(d, d.Floor as real + 1.0, r);
    assert d * r < (d.Floor as real + 1.0) * r;
    assert x < (d.Floor as real + 1.0) * r;
  }

  /** Floor division by a positive resolution brackets the dividend. */
  lemma FloorDiv(x: real, res: int)
    requires res >= 1
    ensures var q := (x / res as real).Floor;
      (q * res) as real <= x < ((q + 1) * res) as real
  {
    var r := res as real;
    var q := (x / r).Floor;
    FloorScaled(x, r);
    var lo, hi := q as real * r, (q as real + 1.0) * r;
    assert lo <= x < hi;
    CastMul(q, res);
    CastMul(q + 1, res);
    assert (q * res) as real == lo;
    assert ((q + 1) * res) as real == hi;
  }

  lemma BinFloorBounds(a: real, res: int)
    requires 1 <= res <= 360 && 0.0 <= a < 360.0
    ensures var q := (a / res as real).Floor;
      && (q * res) as real <= a < ((q + 1) * res) as real
      && 0 <= q <= NumBins(res)
      && (q == NumBins(res) ==> (NumBins(res) * res) as real <= a)
  {
    FloorDiv(a, res);
    var q := (a / res as real).Floor;
    var n := NumBins(res);
    if q > n {
      MulLeInt(n + 1, q, res);
    }
    if q < 0 {
      MulLeInt(q + 1, 0, res);
    }
  }

  /** `bin_to_angle`: the centre of a bin, `(idx*res + res/2) % 360`. */
  function BinToAngle(idx: int, res: int): (a: real)
    requires 1 <= res <= 360
    ensures 0.0 <= a < 360.0
  {
    Norm360((idx * res) as real + res as real / 2.0)
  }

  /** Round trip: the centre of every bin falls back into that bin. */
  lemma BinToAngleRoundTrip(idx: int, res: int)
    requires 1 <= res <= 360 && 0 <= idx < NumBins(res)
    ensures BinOf(BinToAngle(idx, res), res) == idx
  {
    var c := (idx * res) as real + res as real / 2.0;
    MulLeInt(idx + 1, NumBins(res), res);
    Norm360Unique(c, c, 0);
    BinOfWithin(c, res, idx);
  }

  /** `max(1, int(min_gap_deg // res))`: the minimum passable gap in bins. It is
      at least one bin and, above one bin, the largest bin count not wider than
      the requested angle. */
  function MinGapBins(minGapDeg: real, res: int): (m: int)
    requires 1 <= res <= 360
    ensures m >= 1
    ensures minGapDeg < ((m + 1) * res) as real
    ensures m == 1 || (m * res) as real <= minGapDeg
  {
    var q := (minGapDeg / res as real).Floor;
    FloorDiv(minGapDeg, res);
    if q > 1 then q else 1
  }

  /** `((t + 180) % 360) - 180`: a heading in [-180, 180) relative to forward. */
  function SignedAngle(t: real): (a: real)
    ensures -180.0 <= a < 180.0
    ensures WholeTurns(t - a)
  {
    var r := Norm360(t + 180.0);
    assert t - (r - 180.0) == (t + 180.0) - r;
    r - 180.0
  }

  /** A heading already in [-180, 180) is left unchanged. */
  lemma SignedAngleFixed(t: real)
    requires -180.0 <= t < 180.0
    ensures SignedAngle(t) == t
  {
    Norm360Unique(t + 180.0, t + 180.0, 0);
  }
}
