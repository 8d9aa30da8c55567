/**
 * SimpleReactivePlanner of 2D_LIDAR/planning_path.py: occupancy binning,
 * field-of-view restriction, largest free gap, heading classification,
 * majority-vote hysteresis and the velocity command.
 */
module PlanningPath {
  import opened Wrappers
  import opened Angles
  import opened Hysteresis

  /** One `(angle_deg, dist_mm)` scan point. */
  datatype Sample = Sample(angle: real, distMm: real)

  /** `(start_bin, end_bin, width_bins)` as returned by `find_largest_gap`. */
  datatype Gap = Gap(start: int, end: int, width: int)

  /** The dictionary returned by `choose_action`. */
  datatype Decision = Decision(
    action: Action,
    targetAngle: Option<real>,
    gapWidthBins: Option<int>,
    v: real,
    omega: real,
    blockedMap: seq<bool>)

  // ---------------------------------------------------------------- occupancy

  /** Sample `p` marks bin `j`: it has a return, lies within the safety
      distance (compared in metres) and its angle falls into bin `j`. */
  predicate Blocks(p: Sample, safeDist: real, res: int, j: int)
    requires 1 <= res <= 360
  {
    p.distMm > 0.0 && p.distMm / 1000.0 <= safeDist && BinOf(p.angle, res) == j
  }

  /** The effect of one sample on the mask (one iteration of the binning loop). */
  function Mark(m: seq<bool>, p: Sample, safeDist: real, res: int): (m': seq<bool>)
    requires 1 <= res <= 360 && |m| == NumBins(res)
    ensures |m'| == |m|
  {
    if p.distMm <= 0.0 then m
    else if p.distMm / 1000.0 <= safeDist then m[BinOf(p.angle, res) := true]
    else m
  }

  /** The mask after binning every sample of `scan`, in order. */
  function Occupancy(scan: seq<Sample>, safeDist: real, res: int): (m: seq<bool>)
    requires 1 <= res <= 360
    ensures |m| == NumBins(res)
    decreases |scan|
  {
    if scan == [] then seq(NumBins(res), _ => false)
    else Mark(Occupancy(scan[..|scan| - 1], safeDist, res), scan[|scan| - 1], safeDist, res)
  }

  /** A bin is blocked iff some sample of the scan marks it. */
  lemma {:induction false} OccupancyBlockedIff(scan: seq<Sample>, safeDist: real, res: int, j: int)
    requires 1 <= res <= 360 && 0 <= j < NumBins(res)
    ensures Occupancy(scan, safeDist, res)[j]
        <==> exists k :: 0 <= k < |scan| && Blocks(scan[k], safeDist, res, j)
    decreases |scan|
  {
    if scan != [] {
      var init := scan[..|scan| - 1];
      OccupancyBlockedIff(init, safeDist, res, j);
      forall k | 0 <= k < |init| ensures init[k] == scan[k] { }
      if Occupancy(init, safeDist, res)[j] {
        var k :| 0 <= k < |init| && Blocks(init[k], safeDist, res, j);
        assert Blocks(scan[k], safeDist, res, j);
      }
    }
  }

  /** Adding samples never clears a bin. */
  lemma OccupancyMonotone(scan: seq<Sample>, more: seq<Sample>, safeDist: real, res: int, j: int)
    requires 1 <= res <= 360 && 0 <= j < NumBins(res)
    requires Occupancy(scan, safeDist, res)[j]
    ensures Occupancy(scan + more, safeDist, res)[j]
  {
    OccupancyBlockedIff(scan, safeDist, res, j);
    OccupancyBlockedIff(scan + more, safeDist, res, j);
    var k :| 0 <= k < |scan| && Blocks(scan[k], safeDist, res, j);
    assert (scan + more)[k] == scan[k];
  }

  /** Samples without a return (non-positive distance) never block anything:
      removing them leaves the mask unchanged. */
  lemma NoReturnIgnored(scan: seq<Sample>, p: Sample, safeDist: real, res: int)
    requires 1 <= res <= 360 && p.distMm <= 0.0
    ensures Occupancy(scan + [p], safeDist, res) == Occupancy(scan, safeDist, res)
  {
    assert (scan + [p])[..|scan|] == scan;
  }

  // -------------------------------------------------------------- field of view

  /** Bins among `0..k-1` whose start angle `i*res` is in the sector, in
      increasing order. */
  function FovBinsBelow(k: nat, start: real, end: real, res: int): seq<int>
    requires 1 <= res <= 360
  {
    if k == 0 then []
    else FovBinsBelow(k - 1, start, end, res)
         + (if InSector(((k - 1) * res) as real, start, end) then [k - 1] else [])
  }

  /** The `extract_fov_bins` list for a sector and resolution: valid bin
      indices in strictly increasing order. */
  function FovBins(start: real, end: real, res: int): (b: seq<int>)
    requires 1 <= res <= 360
    ensures StrictlyIncreasing(b)
    ensures forall t :: 0 <= t < |b| ==> 0 <= b[t] < NumBins(res)
  {
    FovBinsBelowSpec(NumBins(res), start, end, res);
    FovBinsBelow(NumBins(res), start, end, res)
  }

  predicate StrictlyIncreasing(s: seq<int>) {
    forall a, b :: 0 <= a < b < |s| ==> s[a] < s[b]
  }

  lemma {:induction false} FovBinsBelowSpec(k: nat, start: real, end: real, res: int)
    requires 1 <= res <= 360
    ensures var b := FovBinsBelow(k, start, end, res);
      && StrictlyIncreasing(b)
      && (forall t :: 0 <= t < |b| ==> 0 <= b[t] < k)
      && (forall i :: i in b <==> 0 <= i < k && InSector((i * res) as real, start, end))
  {
    if k > 0 {
      FovBinsBelowSpec(k - 1, start, end, res);
    }
  }

  /** A bin index is in the FOV list iff it is a valid bin whose start angle
      lies in the sector. */
  lemma FovBinsSpec(start: real, end: real, res: int)
    requires 1 <= res <= 360
    ensures forall i :: i in FovBins(start, end, res) <==>
      0 <= i < NumBins(res) && InSector((i * res) as real, start, end)
  {
    FovBinsBelowSpec(NumBins(res), start, end, res);
  }

  // ------------------------------------------------------------------ the gap

  predicate ValidBins(blocked: seq<bool>, bins: seq<int>) {
    forall t :: 0 <= t < |bins| ==> 0 <= bins[t] < |blocked|
  }

  /** Positions `p .. p+w-1` of the FOV sequence form a non-empty free run. */
  predicate FreeRun(blocked: seq<bool>, bins: seq<int>, p: int, w: int)
    requires ValidBins(blocked, bins)
  {
    1 <= w && 0 <= p && p + w <= |bins| && forall t :: p <= t < p + w ==> !blocked[bins[t]]
  }

  /** The run at `p` of width `w` is a longest free run, and no free run of the
      same width starts at an earlier position. */
  ghost predicate LeftmostLongest(blocked: seq<bool>, bins: seq<int>, p: int, w: int)
    requires ValidBins(blocked, bins)
  {
    && FreeRun(blocked, bins, p, w)
    && (forall q, v :: FreeRun(blocked, bins, q, v) ==> v <= w)
    && (forall q :: 0 <= q < p ==> !FreeRun(blocked, bins, q, w))
  }

  /** What `find_largest_gap` promises: `None` iff no FOV bin is free;
      otherwise the leftmost longest free run of the FOV sequence, mapped
      back to bin indices. */
  ghost predicate IsLargestGap(blocked: seq<bool>, bins: seq<int>, g: Option<Gap>)
    requires ValidBins(blocked, bins)
  {
    match g
    case None => forall t :: 0 <= t < |bins| ==> blocked[bins[t]]
    case Some(gap) =>
      exists p :: LeftmostLongest(blocked, bins, p, gap.width)
        && gap.start == bins[p] && gap.end == bins[p + gap.width - 1]
  }

  lemma LeftmostLongestUnique(blocked: seq<bool>, bins: seq<int>, p1: int, w1: int, p2: int, w2: int)
    requires ValidBins(blocked, bins)
    requires LeftmostLongest(blocked, bins, p1, w1) && LeftmostLongest(blocked, bins, p2, w2)
    ensures p1 == p2 && w1 == w2
  {
    assert FreeRun(blocked, bins, p1, w1) && FreeRun(blocked, bins, p2, w2);
  }

  /** The FOV position at which a reported gap starts. */
  lemma GapPosition(blocked: seq<bool>, bins: seq<int>, gap: Gap) returns (p: int)
    requires ValidBins(blocked, bins)
    requires IsLargestGap(blocked, bins, Some(gap))
    ensures LeftmostLongest(blocked, bins, p, gap.width)
    ensures gap.start == bins[p] && gap.end == bins[p + gap.width - 1]
  {
    p :| LeftmostLongest(blocked, bins, p, gap.width)
      && gap.start == bins[p] && gap.end == bins[p + gap.width - 1];
  }

  /** A gap is reported exactly when some FOV bin is free. */
  lemma GapIffFree(blocked: seq<bool>, bins: seq<int>, g: Option<Gap>)
    requires ValidBins(blocked, bins)
    requires IsLargestGap(blocked, bins, g)
    ensures g.None? <==> forall t :: 0 <= t < |bins| ==> blocked[bins[t]]
  {
    if g.Some? {
      var p := GapPosition(blocked, bins, g.value);
      assert FreeRun(blocked, bins, p, g.value.width);
      assert !blocked[bins[p]];
    }
  }

  /** Exactly one result satisfies the specification. */
  lemma LargestGapUnique(blocked: seq<bool>, bins: seq<int>, g1: Option<Gap>, g2: Option<Gap>)
    requires ValidBins(blocked, bins)
    requires IsLargestGap(blocked, bins, g1) && IsLargestGap(blocked, bins, g2)
    ensures g1 == g2
  {
    GapIffFree(blocked, bins, g1);
    GapIffFree(blocked, bins, g2);
    if g1.Some? && g2.Some? {
      var p1 := GapPosition(blocked, bins, g1.value);
      var p2 := GapPosition(blocked, bins, g2.value);
      LeftmostLongestUnique(blocked, bins, p1, g1.value.width, p2, g2.value.width);
    }
  }

  /** The search is linear: a free run ending at the last FOV position is not
      joined to a free run at position 0. With free, blocked, free, free the
      gap is the final two positions, not a wrapped run of three. */
  lemma NoWrapAround()
    ensures IsLargestGap([false, true, false, false], [0, 1, 2, 3], Some(Gap(2, 3, 2)))
  {
    var blocked, bins := [false, true, false, false], [0, 1, 2, 3];
    forall q, v | FreeRun(blocked, bins, q, v) ensures v <= 2 {
      assert blocked[bins[1]];
    }
    assert !FreeRun(blocked, bins, 0, 2) by { assert blocked[bins[1]]; }
    assert !FreeRun(blocked, bins, 1, 2) by { assert blocked[bins[1]]; }
    assert LeftmostLongest(blocked, bins, 2, 2);
    var gap := Gap(2, 3, 2);
    assert LeftmostLongest(blocked, bins, 2, gap.width)
      && gap.start == bins[2] && gap.end == bins[2 + gap.width - 1];
  }

  /** In an increasing sequence, when the successor of an element is present
      it is the next element. */
  lemma SuccessorIsNext(b: seq<int>, t: int)
    requires StrictlyIncreasing(b) && 0 <= t < |b| && b[t] + 1 in b
    ensures t + 1 < |b| && b[t + 1] == b[t] + 1
  {
    var k :| 0 <= k < |b| && b[k] == b[t] + 1;
    assert t < k;
  }

  /** A bin's start angle is its own normalised angle. */
  lemma BinStartNormal(i: int, res: int)
    requires 1 <= res <= 360 && 0 <= i < NumBins(res)
    ensures 0 <= i * res < 360
    ensures Norm360((i * res) as real) == (i * res) as real
  {
    MulLeInt(i + 1, NumBins(res), res);
    MulLeInt(0, i, res);
    Norm360Unique((i * res) as real, (i * res) as real, 0);
  }

  lemma {:induction false} ConsecutiveFrom(b: seq<int>, k: int)
    requires forall t :: 0 <= t < |b| - 1 ==> b[t + 1] == b[t] + 1
    requires 0 <= k < |b|
    ensures b[k] == b[0] + k
  {
    if k > 0 {
      ConsecutiveFrom(b, k - 1);
    }
  }

  /** In a sector that does not wrap, the bin after a FOV bin that is not the
      last one is in the FOV too. */
  lemma FovBinStep(start: real, end: real, res: int, t: int)
    requires 1 <= res <= 360 && Norm360(start) <= Norm360(end)
    requires 0 <= t < |FovBins(start, end, res)| - 1
    ensures var b := FovBins(start, end, res); b[t] + 1 in b
  {
    var b := FovBins(start, end, res);
    FovBinsSpec(start, end, res);
    var x, y := b[t], b[t + 1];
    assert x in b && y in b;
    BinStartNormal(x, res);
    BinStartNormal(y, res);
    BinStartNormal(x + 1, res);
    MulLeInt(x, x + 1, res);
    MulLeInt(x + 1, y, res);
    assert Norm360(start) <= (x * res) as real;
    assert (y * res) as real <= Norm360(end);
    assert InSector(((x + 1) * res) as real, start, end);
  }

  /** When the sector does not wrap through 0 degrees, the FOV bins are a
      contiguous block of bin indices. */
  lemma FovBinsConsecutive(start: real, end: real, res: int)
    requires 1 <= res <= 360 && Norm360(start) <= Norm360(end)
    ensures var b := FovBins(start, end, res);
      forall t :: 0 <= t < |b| ==> b[t] == b[0] + t
  {
    var b := FovBins(start, end, res);
    FovBinsSpec(start, end, res);
    forall t | 0 <= t < |b| - 1 ensures b[t + 1] == b[t] + 1 {
      FovBinStep(start, end, res, t);
      SuccessorIsNext(b, t);
    }
    forall t | 0 <= t < |b| ensures b[t] == b[0] + t {
      ConsecutiveFrom(b, t);
    }
  }

  /** For a sector that does not wrap through 0 degrees, the gap spans exactly
      `width` consecutive bins and the bin the planner aims at is a free FOV bin
      between the gap's ends. */
  lemma MidBinInsideGap(blocked: seq<bool>, start: real, end: real, res: int, gap: Gap)
    requires 1 <= res <= 360 && Norm360(start) <= Norm360(end)
    requires ValidBins(blocked, FovBins(start, end, res))
    requires IsLargestGap(blocked, FovBins(start, end, res), Some(gap))
    ensures gap.end - gap.start + 1 == gap.width
    ensures gap.start <= MidBin(gap) <= gap.end
    ensures MidBin(gap) in FovBins(start, end, res) && !blocked[MidBin(gap)]
  {
    var b := FovBins(start, end, res);
    FovBinsConsecutive(start, end, res);
    var w := gap.width;
    var p :| LeftmostLongest(blocked, b, p, w) && gap.start == b[p] && gap.end == b[p + w - 1];
    var m := p + (w - 1) / 2;
    assert b[m] == MidBin(gap);
  }

  /** Membership in the default FOV list: bins 270..359 and 0..90. */
  lemma DefaultFovMembers()
    ensures Norm360(-90.0) == 270.0 && Norm360(90.0) == 90.0
    ensures var b := FovBins(270.0, 90.0, 1);
      forall i :: i in b <==> 0 <= i < 360 && (i >= 270 || i <= 90)
  {
    Norm360Unique(-90.0, 270.0, -1);
    Norm360Unique(90.0, 90.0, 0);
    var b := FovBins(270.0, 90.0, 1);
    FovBinsSpec(270.0, 90.0, 1);
    forall i | 0 <= i < 360
      ensures i in b <==> i >= 270 || i <= 90
    {
      BinStartNormal(i, 1);
    }
  }

  /** The default FOV of -90..90 degrees at 1-degree bins wraps through
      0 degrees: its list starts at bin 0, ends at bin 359, holds at least ten
      bins and leaves out bin 179, directly behind the robot. */
  lemma DefaultFovBins()
    ensures var b := FovBins(Norm360(-90.0), Norm360(90.0), 1);
      && |b| >= 10 && b[0] == 0 && b[|b| - 1] == 359 && 179 !in b
      && ValidBins(seq(360, _ => false), b)
  {
    DefaultFovMembers();
    var b := FovBins(270.0, 90.0, 1);
    FovBinsSpec(270.0, 90.0, 1);
    assert 0 in b && 359 in b;
    var k0 :| 0 <= k0 < |b| && b[k0] == 0;
    assert b[0] == 0;
    var k1 :| 0 <= k1 < |b| && b[k1] == 359;
    assert b[|b| - 1] == 359;
    var t := 0;
    while t < 9
      invariant 0 <= t <= 9 && t < |b| && b[t] == t
    {
      assert t + 1 in b;
      SuccessorIsNext(b, t);
      t := t + 1;
    }
  }

  /** A scan with no return inside the safety distance leaves every bin free. */
  lemma OpenScanClear(scan: seq<Sample>, safeDist: real, res: int)
    requires 1 <= res <= 360
    requires forall k :: 0 <= k < |scan| ==> scan[k].distMm <= 0.0 || scan[k].distMm / 1000.0 > safeDist
    ensures Occupancy(scan, safeDist, res) == seq(NumBins(res), _ => false)
  {
    var m := Occupancy(scan, safeDist, res);
    forall j | 0 <= j < NumBins(res) ensures !m[j] {
      OccupancyBlockedIff(scan, safeDist, res, j);
    }
  }

  /** With no bin blocked, the whole FOV list is the gap. */
  lemma ClearMaskOneGap(n: nat, b: seq<int>)
    requires |b| >= 1 && ValidBins(seq(n, _ => false), b)
    ensures IsLargestGap(seq(n, _ => false), b, Some(Gap(b[0], b[|b| - 1], |b|)))
  {
    var blocked := seq(n, _ => false);
    assert FreeRun(blocked, b, 0, |b|);
    assert LeftmostLongest(blocked, b, 0, |b|);
  }

  /** A gap spanning bins 0..359 at 1-degree bins, ten bins wide or wider,
      is aimed at 179.5 degrees and turns the robot right. */
  lemma WrappedGapTurnsRight(w: int)
    requires w >= 10
    ensures TargetAngle(Some(Gap(0, 359, w)), 1) == Some(179.5)
    ensures RawAction(Some(Gap(0, 359, w)), 1, MinGapBins(10.0, 1), 8.0) == TurnRight
  {
    Norm360Unique(179.5, 179.5, 0);
    assert BinToAngle(179, 1) == 179.5;
    SignedAngleFixed(179.5);
    assert MinGapBins(10.0, 1) == 10;
  }

  /** The default configuration (FOV -90..90 degrees at 1-degree bins, minimum
      gap 10 degrees, forward threshold 8 degrees, safety distance 0.5 m) facing
      a scan with no return inside the safety distance: the whole FOV list is
      one gap from bin 0 to bin 359, its midpoint bin 179 points behind the
      robot, outside the FOV, and the raw action is TURN_RIGHT, not FORWARD. */
  lemma OpenScanDefaultConfig(scan: seq<Sample>)
    requires forall k :: 0 <= k < |scan| ==> scan[k].distMm <= 0.0 || scan[k].distMm / 1000.0 > 0.5
    ensures var blocked := Occupancy(scan, 0.5, 1);
      var b := FovBins(Norm360(-90.0), Norm360(90.0), 1);
      var g := Some(Gap(0, 359, |b|));
      && ValidBins(blocked, b)
      && IsLargestGap(blocked, b, g)
      && MidBin(g.value) == 179 && 179 !in b
      && TargetAngle(g, 1) == Some(179.5)
      && RawAction(g, 1, MinGapBins(10.0, 1), 8.0) == TurnRight
  {
    var blocked := Occupancy(scan, 0.5, 1);
    OpenScanClear(scan, 0.5, 1);
    assert NumBins(1) == 360;
    assert blocked == seq(360, _ => false);
    DefaultFovBins();
    var b := FovBins(Norm360(-90.0), Norm360(90.0), 1);
    ClearMaskOneGap(360, b);
    assert IsLargestGap(blocked, b, Some(Gap(0, 359, |b|)));
    WrappedGapTurnsRight(|b|);
  }

  // ------------------------------------------------------------ classification

  /** The bin the planner aims at, `(s_idx + e_idx) // 2`: between the gap's
      ends, and when the two halves differ, the one towards the end is longer. */
  function MidBin(gap: Gap): (m: int)
    ensures gap.start <= gap.end ==> gap.start <= m <= gap.end
    ensures 0 <= (gap.end - m) - (m - gap.start) <= 1
  {
    (gap.start + gap.end) / 2
  }

  /** The target angle reported for a gap, `bin_to_angle(mid)`; absent when
      there is no gap. */
  function TargetAngle(g: Option<Gap>, res: int): (t: Option<real>)
    requires 1 <= res <= 360
    ensures t.None? <==> g.None?
    ensures t.Some? ==> 0.0 <= t.value < 360.0
  {
    match g
    case None => None
    case Some(gap) => Some(BinToAngle(MidBin(gap), res))
  }

  /** The raw (pre-hysteresis) action for the gap found in one scan: STOP
      exactly when there is no gap or it is narrower than the minimum. */
  function RawAction(g: Option<Gap>, res: int, minGap: int, forwardThresh: real): (act: Action)
    requires 1 <= res <= 360
    ensures act == Stop <==> (g.None? || g.value.width < minGap)
  {
    match g
    case None => Stop
    case Some(gap) =>
      if gap.width < minGap then Stop
      else
        var a := SignedAngle(BinToAngle(MidBin(gap), res));
        if (if a < 0.0 then -a else a) <= forwardThresh then Forward
        else if a > 0.0 then TurnRight
        else TurnLeft
  }

  /** The raw action in terms of the heading of the gap centre: STOP exactly
      when there is no gap or it is narrower than the minimum; otherwise
      FORWARD within the threshold of straight ahead, TURN_RIGHT for a
      clockwise heading beyond it, TURN_LEFT for a counter-clockwise one. */
  lemma RawActionCases(g: Option<Gap>, res: int, minGap: int, forwardThresh: real)
    requires 1 <= res <= 360
    ensures RawAction(g, res, minGap, forwardThresh) == Stop <==> (g.None? || g.value.width < minGap)
    ensures g.Some? && g.value.width >= minGap ==>
      var a := SignedAngle(TargetAngle(g, res).value);
      var act := RawAction(g, res, minGap, forwardThresh);
      && (act == Forward <==> -forwardThresh <= a <= forwardThresh)
      && (act == TurnRight <==> a > forwardThresh && a > 0.0)
      && (act == TurnLeft <==> a < -forwardThresh && a <= 0.0)
  {
    if g.Some? && g.value.width >= minGap {
      var a := SignedAngle(BinToAngle(MidBin(g.value), res));
      assert TargetAngle(g, res).value == BinToAngle(MidBin(g.value), res);
      var act := RawAction(g, res, minGap, forwardThresh);
      assert act == (if (if a < 0.0 then -a else a) <= forwardThresh then Forward
        else if a > 0.0 then TurnRight else TurnLeft);
    }
  }

  /** `(v, omega)` for the stable action. */
  function Velocity(a: Action): (c: (real, real))
    ensures c.0 > 0.0 <==> a == Forward
    ensures c.1 > 0.0 <==> a == TurnLeft
    ensures c.1 < 0.0 <==> a == TurnRight
    ensures c == (0.0, 0.0) <==> a == Stop
    ensures c.0 == 0.0 || c.1 == 0.0
  {
    match a
    case Forward => (0.15, 0.0)
    case TurnLeft => (0.0, 0.8)
    case TurnRight => (0.0, -0.8)
    case Stop => (0.0, 0.0)
  }

  /** A scan that blocks every FOV bin yields no gap and a STOP raw action. */
  lemma AllBlockedStops(blocked: seq<bool>, bins: seq<int>, g: Option<Gap>,
                        res: int, minGap: int, forwardThresh: real)
    requires 1 <= res <= 360 && ValidBins(blocked, bins)
    requires forall t :: 0 <= t < |bins| ==> blocked[bins[t]]
    requires IsLargestGap(blocked, bins, g)
    ensures g == None && RawAction(g, res, minGap, forwardThresh) == Stop
  {
    LargestGapUnique(blocked, bins, g, None);
  }

  // --------------------------------------------------------------- the planner

  /** SimpleReactivePlanner: immutable configuration fixed by the constructor,
      plus the action history (a deque bounded by `hysteresisLen`) and the last
      stable action, which every call to `ChooseAction` updates. */
  class Planner {
    const safeDist: real
    const fovStart: real
    const fovEnd: real
    const res: int
    const minGap: int
    const forwardThresh: real
    const hysteresisLen: nat
    var history: seq<Action>
    var lastAction: Action

    /** The history never exceeds its capacity, and while it is not yet full the
        last stable action is still the initial STOP. */
    ghost predicate Valid()
      reads this
    {
      && 1 <= res <= 360
      && minGap >= 1
      && hysteresisLen >= 1
      && |history| <= hysteresisLen
      && (|history| < hysteresisLen ==> lastAction == Stop)
    }

    /** `__init__`: the FOV is stored normalised to [0, 360), the minimum gap is
        converted to bins, the history starts empty and the last action is STOP. */
    constructor (safeDist: real := 0.5, fovMin: real := -90.0, fovMax: real := 90.0,
                 resolutionDeg: int := 1, minGapDeg: real := 10.0,
                 forwardThresholdDeg: real := 8.0, hysteresisLen: nat := 3)
      requires 1 <= resolutionDeg <= 360 && hysteresisLen >= 1
      ensures Valid()
      ensures this.safeDist == safeDist && res == resolutionDeg
      ensures fovStart == Norm360(fovMin) && fovEnd == Norm360(fovMax)
      ensures minGap == MinGapBins(minGapDeg, resolutionDeg)
      ensures forwardThresh == forwardThresholdDeg
      ensures this.hysteresisLen == hysteresisLen
      ensures history == [] && lastAction == Stop
    {
      this.safeDist := safeDist;
      fovStart := Norm360(fovMin);
      fovEnd := Norm360(fovMax);
      res := resolutionDeg;
      minGap := MinGapBins(minGapDeg, resolutionDeg);
      forwardThresh := forwardThresholdDeg;
      this.hysteresisLen := hysteresisLen;
      history := [];
      lastAction := Stop;
    }

    /** `build_occupancy_by_angle`: one pass over the scan, setting bins in a
        fresh all-clear mask. */
    method BuildOccupancy(scanPoints: seq<Sample>) returns (blocked: seq<bool>)
      requires 1 <= res <= 360
      ensures blocked == Occupancy(scanPoints, safeDist, res)
    {
      var nBins := 360 / res;
      var mask := new bool[nBins](_ => false);
      var k := 0;
      while k < |scanPoints|
        invariant 0 <= k <= |scanPoints|
        invariant mask[..] == Occupancy(scanPoints[..k], safeDist, res)
      {
        var p := scanPoints[k];
        assert scanPoints[..k + 1][..k] == scanPoints[..k];
        if p.distMm > 0.0 {
          var d := p.distMm / 1000.0;
          if d <= safeDist {
            var idx := BinOf(p.angle, res);
            mask[idx] := true;
          }
        }
        k := k + 1;
      }
      assert scanPoints[..k] == scanPoints;
      blocked := mask[..];
    }

    /** `extract_fov_bins`: the bins whose start angle lies in the FOV, in
        increasing order. */
    method ExtractFovBins() returns (bins: seq<int>)
      requires 1 <= res <= 360
      ensures bins == FovBins(fovStart, fovEnd, res)
      ensures StrictlyIncreasing(bins)
      ensures forall t :: 0 <= t < |bins| ==> 0 <= bins[t] < NumBins(res)
      ensures forall i :: i in bins <==> 0 <= i < NumBins(res) && InSector((i * res) as real, fovStart, fovEnd)
    {
      var nBins := 360 / res;
      bins := [];
      for i := 0 to nBins
        invariant bins == FovBinsBelow(i, fovStart, fovEnd, res)
      {
        var ang := (i * res) as real;
        if InSector(ang, fovStart, fovEnd) {
          bins := bins + [i];
        }
      }
      FovBinsSpec(fovStart, fovEnd, res);
    }

    /** `find_largest_gap`: one left-to-right scan of the FOV sequence for the
        longest run of free bins; only a strictly longer run replaces the best,
        and a run still open at the end is compared once more. */
    method FindLargestGap(blocked: seq<bool>, fovBins: seq<int>) returns (gap: Option<Gap>)
      requires ValidBins(blocked, fovBins)
      ensures IsLargestGap(blocked, fovBins, gap)
      ensures gap.None? <==> forall t :: 0 <= t < |fovBins| ==> blocked[fovBins[t]]
      ensures gap.Some? ==> gap.value.width >= 1
    {
      if |fovBins| == 0 {
        return None;
      }
      var s := seq(|fovBins|, t requires 0 <= t < |fovBins| => if !blocked[fovBins[t]] then 0 else 1);
      var bestLen := 0;
      var bestRange: Option<(int, int)> := None;
      var curLen := 0;
      var curStart := 0;
      var i := 0;
      while i < |s|
        invariant 0 <= i <= |s|
        invariant 0 <= curLen <= i
        invariant forall t :: i - curLen <= t < i ==> !blocked[fovBins[t]]
        invariant curLen < i ==> blocked[fovBins[i - curLen - 1]]
        invariant curLen > 0 ==> curStart == i - curLen
        invariant bestRange.None? <==> bestLen == 0
        invariant bestRange.Some? ==>
          && bestRange.value.1 == bestRange.value.0 + bestLen - 1
          && FreeRun(blocked, fovBins, bestRange.value.0, bestLen)
          && bestRange.value.0 + bestLen <= i - curLen
          && forall q :: 0 <= q < bestRange.value.0 ==> !FreeRun(blocked, fovBins, q, bestLen)
        invariant forall q, v :: FreeRun(blocked, fovBins, q, v) && q + v <= i - curLen ==> v <= bestLen
      {
        if s[i] == 0 {
          if curLen == 0 {
            curStart := i;
          }
          curLen := curLen + 1;
        } else {
          RunsBeforeBlocked(blocked, fovBins, i, curLen, bestLen);
          if curLen > bestLen {
            bestLen := curLen;
            bestRange := Some((curStart, i - 1));
          }
          curLen := 0;
        }
        i := i + 1;
      }
      TailRuns(blocked, fovBins, curLen, bestLen);
      if curLen > bestLen {
        bestLen := curLen;
        bestRange := Some((curStart, |s| - 1));
      }
      if bestRange.None? {
        forall t | 0 <= t < |fovBins| ensures blocked[fovBins[t]] {
          if !blocked[fovBins[t]] {
            assert FreeRun(blocked, fovBins, t, 1);
          }
        }
        return None;
      }
      var p := bestRange.value.0;
      gap := Some(Gap(fovBins[p], fovBins[bestRange.value.1], bestLen));
      assert LeftmostLongest(blocked, fovBins, p, bestLen);
    }

    /** `choose_action`: bin the scan, find the largest FOV gap, classify it,
        push the raw action into the bounded history, take the majority once the
        history is full (the previous stable action before that), and map the
        stable action to a velocity command. */
    method ChooseAction(scanPoints: seq<Sample>) returns (r: Decision)
      requires Valid()
      modifies this
      ensures Valid()
      ensures r.blockedMap == Occupancy(scanPoints, safeDist, res)
      ensures ValidBins(r.blockedMap, FovBins(fovStart, fovEnd, res))
      ensures exists g ::
        && IsLargestGap(r.blockedMap, FovBins(fovStart, fovEnd, res), g)
        && r.targetAngle == TargetAngle(g, res)
        && r.gapWidthBins == (if g.None? then None else Some(g.value.width))
        && history == Push(old(history), RawAction(g, res, minGap, forwardThresh), hysteresisLen)
      ensures r.action == if |history| == hysteresisLen then MostCommon(history) else old(lastAction)
      ensures lastAction == r.action
      ensures (r.v, r.omega) == Velocity(r.action)
      ensures |old(history)| + 1 < hysteresisLen ==> r.action == Stop
    {
      var blocked := BuildOccupancy(scanPoints);
      var fovBins := ExtractFovBins();
      var gap := FindLargestGap(blocked, fovBins);

      var action := RawAction(gap, res, minGap, forwardThresh);
      history := Push(history, action, hysteresisLen);
      var stableAction: Action;
      if |history| == hysteresisLen {
        stableAction := MostCommon(history);
      } else {
        stableAction := lastAction;
      }
      lastAction := stableAction;

      var (v, omega) := Velocity(stableAction);
      r := Decision(stableAction, TargetAngle(gap, res),
                    if gap.None? then None else Some(gap.value.width),
                    v, omega, blocked);
      assert && IsLargestGap(r.blockedMap, FovBins(fovStart, fovEnd, res), gap)
        && r.targetAngle == TargetAngle(gap, res)
        && r.gapWidthBins == (if gap.None? then None else Some(gap.value.width))
        && history == Push(old(history), RawAction(gap, res, minGap, forwardThresh), hysteresisLen);
    }
  }

  /** Closing the open run at a blocked position keeps the scan invariant:
      every free run ending before the blocked position is no longer than the
      best so far or the open run. */
  lemma RunsBeforeBlocked(blocked: seq<bool>, bins: seq<int>, i: int, curLen: int, bestLen: int)
    requires ValidBins(blocked, bins) && 0 <= curLen <= i < |bins|
    requires blocked[bins[i]]
    requires curLen < i ==> blocked[bins[i - curLen - 1]]
    requires forall q, v :: FreeRun(blocked, bins, q, v) && q + v <= i - curLen ==> v <= bestLen
    ensures forall q, v :: FreeRun(blocked, bins, q, v) && q + v <= i + 1 ==>
      v <= (if curLen > bestLen then curLen else bestLen)
    ensures curLen > bestLen ==> forall q :: 0 <= q < i - curLen ==> !FreeRun(blocked, bins, q, curLen)
  {
    forall q, v | FreeRun(blocked, bins, q, v) && q + v <= i + 1
      ensures v <= (if curLen > bestLen then curLen else bestLen)
    {
    }
    if curLen > bestLen {
      forall q | 0 <= q < i - curLen ensures !FreeRun(blocked, bins, q, curLen) {
      }
    }
  }

  /** The same argument for the run still open after the last position. */
  lemma TailRuns(blocked: seq<bool>, bins: seq<int>, curLen: int, bestLen: int)
    requires ValidBins(blocked, bins) && 0 <= curLen <= |bins|
    requires curLen < |bins| ==> blocked[bins[|bins| - curLen - 1]]
    requires forall q, v :: FreeRun(blocked, bins, q, v) && q + v <= |bins| - curLen ==> v <= bestLen
    ensures forall q, v :: FreeRun(blocked, bins, q, v) ==>
      v <= (if curLen > bestLen then curLen else bestLen)
    ensures curLen > bestLen ==> forall q :: 0 <= q < |bins| - curLen ==> !FreeRun(blocked, bins, q, curLen)
  {
    var n := |bins|;
    forall q, v | FreeRun(blocked, bins, q, v)
      ensures v <= (if curLen > bestLen then curLen else bestLen)
    {
    }
    if curLen > bestLen {
      forall q | 0 <= q < n - curLen ensures !FreeRun(blocked, bins, q, curLen) {
      }
    }
  }
}
