/** play.c `g_analyze_columns` (play.c:514-573): the window of the depth frame is cut
    into 25 column strips.  In each screen column x of a strip, the scan skips to the
    first row whose depth is out of range, then picks the nearest pixel that is in
    range and jumps closer than the row before it by more than `depth_step`.  The
    strip keeps one sample per column that has a candidate, sorts the samples by
    altitude, discards `discard` samples at each end and averages the rest.

    Depths here are in metres, as `depth_xy` computes them; all floating quantities are
    `real`, and each conversion to an integer is an explicit truncation. */
module Columns {
  import opened CArith
  import opened Layout
  import opened Stats

  datatype Option<T> = None | Some(value: T)

  /** The parameters the analysis reads, with the ranges the parameter table clamps
      them to (play.c:56-67). */
  datatype Settings = Settings(xWidth: real, yHeight: real, minDepth: real, maxDepth: real,
                               depthStep: real)

  predicate SettingsInRange(s: Settings)
  {
    10.0 <= s.xWidth <= 640.0 && 10.0 <= s.yHeight <= 480.0
    && 0.1 <= s.minDepth <= 9.0 && 0.1 <= s.maxDepth <= 9.0 && 0.0 <= s.depthStep <= 10.0
  }

  /** `candidate.depth_m = 1e9`: the "nothing found" marker. */
  const Sentinel: real := 1000000000.0

  /** One entry of `samples`: the altitude and depth of a column's candidate. */
  datatype Sample = Sample(altitude: int, depthM: real)

  /** `col_record`: what the analysis reports for one strip. */
  datatype ColRecord = ColRecord(altitude: int, depthMm: int, depthM: real)

  const EmptyRecord := ColRecord(0, 0, 0.0)

  // ---------------------------------------------------------------- the window

  /** `min_x = (640 - x_width) / 2`, stored into an `int`. */
  function MinX(s: Settings): int
  {
    Trunc((640.0 - s.xWidth) / 2.0)
  }

  function MinY(s: Settings): int
  {
    Trunc((480.0 - s.yHeight) / 2.0)
  }

  /** `max_y = min_y + y_height`, stored into an `int`. */
  function MaxY(s: Settings): int
  {
    Trunc(MinY(s) as real + s.yHeight)
  }

  /** The part of the window left of strip c, `x_width*c/25`. */
  function StripShare(xWidth: real, c: int): real
  {
    xWidth * c as real / 25.0
  }

  /** Left edge of strip c, `min_x + x_width*c/25`, before conversion. */
  function StripEdge(s: Settings, c: int): real
  {
    MinX(s) as real + StripShare(s.xWidth, c)
  }

  /** First x of strip c: the edge stored into the `int` loop variable. */
  function StripStart(s: Settings, c: int): int
  {
    Trunc(StripEdge(s, c))
  }

  /** First x strip c does not reach: `x < edge(c + 1)` holds exactly below it. */
  function StripEnd(s: Settings, c: int): int
  {
    Ceil(StripEdge(s, c + 1))
  }

  /** The part of the window left of strip c: between 0 and the window's width, and one
      strip wider for each strip further right. */
  lemma StripOffset(xWidth: real, c: int)
    requires 0.0 <= xWidth && 0 <= c <= LedCols
    ensures 0.0 <= StripShare(xWidth, c) <= xWidth
    ensures StripShare(xWidth, c + 1) == StripShare(xWidth, c) + xWidth / 25.0
  {
    var left := xWidth * c as real;
    assert xWidth * (c + 1) as real == left + xWidth;
    assert xWidth * 25.0 - left == xWidth * (25 - c) as real;
    RealMulNonneg(xWidth, c as real);
    RealMulNonneg(xWidth, (25 - c) as real);
    assert 0.0 <= left <= xWidth * 25.0;
    assert StripShare(xWidth, c) == left / 25.0;
  }

  /** Every strip edge lies inside the window, and the window inside the frame. */
  lemma EdgeWithin(s: Settings, c: int)
    requires SettingsInRange(s) && 0 <= c <= LedCols
    ensures 0 <= MinX(s) && MinX(s) as real + s.xWidth <= CamWidth as real
    ensures MinX(s) as real <= StripEdge(s, c) <= MinX(s) as real + s.xWidth
  {
    MinXBounds(s);
    StripOffset(s.xWidth, c);
  }

  /** The left edge of the window: its truncation only moves it left, never out of the frame. */
  lemma MinXBounds(s: Settings)
    requires SettingsInRange(s)
    ensures 0 <= MinX(s) && MinX(s) as real + s.xWidth <= CamWidth as real
  {
    var half := (640.0 - s.xWidth) / 2.0;
    assert 0.0 <= half && half + s.xWidth <= CamWidth as real;
    assert MinX(s) == half.Floor;
  }

  /** The window lies in the frame, and every strip lies in the window and holds at
      most 28 columns, so the 50-entry `samples` array never overflows. */
  lemma WindowFits(s: Settings, c: int)
    requires SettingsInRange(s) && 0 <= c < LedCols
    ensures 0 <= MinY(s) <= MaxY(s) <= CamHeight
    ensures 0 <= StripStart(s, c) <= StripEnd(s, c) <= CamWidth
    ensures StripEnd(s, c) - StripStart(s, c) <= 28
  {
    EdgeWithin(s, c);
    EdgeWithin(s, c + 1);
    StripOffset(s.xWidth, c);
    assert StripEdge(s, c + 1) == StripEdge(s, c) + s.xWidth / 25.0;
  }

  /** Neighbouring strips leave no gap and share at most one column: when the shared
      edge is fractional, its column belongs to both. */
  lemma StripsAbut(s: Settings, c: int)
    requires SettingsInRange(s) && 0 <= c < LedCols - 1
    ensures StripStart(s, c + 1) <= StripEnd(s, c) <= StripStart(s, c + 1) + 1
  {
    StripOffset(s.xWidth, c + 1);
  }

  /** The first strip starts at the window's left edge and the last ends at its right edge. */
  lemma StripsCoverWindow(s: Settings)
    requires SettingsInRange(s)
    ensures StripStart(s, 0) == MinX(s)
    ensures StripEnd(s, LedCols - 1) == Ceil(MinX(s) as real + s.xWidth)
  {}

  // ---------------------------------------------------------------- one column

  predicate InRange(d: real, minD: real, maxD: real)
  {
    minD < d < maxD
  }

  /** `depth_xy(x, y)` for y = 0 .. 479: the depths of screen column x, in metres. */
  function ColumnDepths(depth: seq<int>, x: int): (col: seq<real>)
    requires |depth| == CamSize && 0 <= x < CamWidth
    ensures |col| == CamHeight
  {
    seq(CamHeight, y requires 0 <= y < CamHeight => depth[x + y * CamWidth] as real / 1000.0)
  }

  /** The first loop: the first row from y on that is out of range, or maxY. */
  function FirstOutOfRange(col: seq<real>, minD: real, maxD: real, y: int, maxY: int): (start: int)
    requires 0 <= y <= maxY <= |col|
    ensures y <= start <= maxY
    ensures forall k :: y <= k < start ==> InRange(col[k], minD, maxD)
    ensures start < maxY ==> !InRange(col[start], minD, maxD)
    decreases maxY - y
  {
    if y == maxY || !InRange(col[y], minD, maxD) then y
    else FirstOutOfRange(col, minD, maxD, y + 1, maxY)
  }

  /** The second loop from row y on; `best` is the row of the current candidate, whose
      depth is `candidate.depth_m`, and `lastD` is `last_d`. */
  function ScanFrom(col: seq<real>, minD: real, maxD: real, step: real, y: int, maxY: int,
                    lastD: real, best: Option<int>): (r: Option<int>)
    requires 0 <= y <= maxY <= |col|
    requires best.Some? ==> 0 <= best.value < y
    ensures r.Some? ==> 0 <= r.value < maxY
    ensures r.Some? && r != best ==> y <= r.value && InRange(col[r.value], minD, maxD)
    decreases maxY - y
  {
    if y == maxY then best
    else
      var d := col[y];
      var bestD := if best.Some? then col[best.value] else Sentinel;
      var next := if InRange(d, minD, maxD) && lastD - d > step && d < bestD then Some(y) else best;
      ScanFrom(col, minD, maxD, step, y + 1, maxY, d, next)
  }

  /** Row y is a jump after the scan's start: in range, and nearer than the row above it
      by more than the step. */
  predicate Jump(col: seq<real>, minD: real, maxD: real, step: real, start: int, y: int)
    requires 0 <= start && y < |col|
  {
    start < y && InRange(col[y], minD, maxD) && col[y - 1] - col[y] > step
  }

  /** b is the nearest jump among rows (start, hi), the earliest among equally near ones,
      or None when there is no jump there. */
  predicate IsNearestJump(col: seq<real>, minD: real, maxD: real, step: real, start: int, hi: int,
                          b: Option<int>)
    requires 0 <= start && hi <= |col|
  {
    (b.None? ==> forall y :: start < y < hi ==> !Jump(col, minD, maxD, step, start, y))
    && (b.Some? ==>
          start < b.value < hi && Jump(col, minD, maxD, step, start, b.value)
          && forall y :: start < y < hi && Jump(col, minD, maxD, step, start, y) ==>
               col[b.value] <= col[y] && (y < b.value ==> col[b.value] < col[y]))
  }

  lemma {:induction false} ScanFromNearest(col: seq<real>, minD: real, maxD: real, step: real,
                                           start: int, y: int, maxY: int, lastD: real, best: Option<int>)
    requires 0 <= start <= y <= maxY <= |col| && maxD <= Sentinel
    requires y == start && y < maxY ==> !InRange(col[y], minD, maxD)
    requires y > start ==> lastD == col[y - 1]
    requires IsNearestJump(col, minD, maxD, step, start, y, best)
    ensures IsNearestJump(col, minD, maxD, step, start, maxY, ScanFrom(col, minD, maxD, step, y, maxY, lastD, best))
    decreases maxY - y
  {
    if y < maxY {
      var d := col[y];
      var bestD := if best.Some? then col[best.value] else Sentinel;
      var next := if InRange(d, minD, maxD) && lastD - d > step && d < bestD then Some(y) else best;
      assert IsNearestJump(col, minD, maxD, step, start, y + 1, next);
      ScanFromNearest(col, minD, maxD, step, start, y + 1, maxY, d, next);
    }
  }

  /** The candidate row of one screen column, if any. */
  function Candidate(col: seq<real>, s: Settings, minY: int, maxY: int): (cand: Option<int>)
    requires 0 <= minY <= maxY <= |col|
    ensures cand.Some? ==> minY < cand.value < maxY && InRange(col[cand.value], s.minDepth, s.maxDepth)
  {
    var start := FirstOutOfRange(col, s.minDepth, s.maxDepth, minY, maxY);
    ScanFrom(col, s.minDepth, s.maxDepth, s.depthStep, start, maxY, s.maxDepth, None)
  }

  /** play.c:533-554: the scan starts at the first out-of-range row at or below `min_y`;
      the candidate is a jump, it is no farther than any other jump, it is the first of
      the equally near ones, and there is no candidate exactly when there is no jump. */
  lemma CandidateNearest(col: seq<real>, s: Settings, minY: int, maxY: int)
    requires 0 <= minY <= maxY <= |col| && SettingsInRange(s)
    ensures IsNearestJump(col, s.minDepth, s.maxDepth, s.depthStep,
                          FirstOutOfRange(col, s.minDepth, s.maxDepth, minY, maxY), maxY,
                          Candidate(col, s, minY, maxY))
  {
    var start := FirstOutOfRange(col, s.minDepth, s.maxDepth, minY, maxY);
    ScanFromNearest(col, s.minDepth, s.maxDepth, s.depthStep, start, start, maxY, s.maxDepth, None);
  }

  /** The samples of the screen columns [x, xEnd): one per column with a candidate, with
      altitude `479 - y` and the candidate's depth. */
  function StripSamples(depth: seq<int>, s: Settings, minY: int, maxY: int, x: int, xEnd: int)
    : (samples: seq<Sample>)
    requires |depth| == CamSize && 0 <= x && xEnd <= CamWidth && 0 <= minY <= maxY <= CamHeight
    ensures |samples| <= if x <= xEnd then xEnd - x else 0
    ensures forall k :: 0 <= k < |samples| ==>
              0 <= samples[k].altitude <= 479 && InRange(samples[k].depthM, s.minDepth, s.maxDepth)
    decreases xEnd - x
  {
    if x >= xEnd then []
    else
      var col := ColumnDepths(depth, x);
      var cand := Candidate(col, s, minY, maxY);
      var here := if cand.Some? then [Sample(479 - cand.value, col[cand.value])] else [];
      here + StripSamples(depth, s, minY, maxY, x + 1, xEnd)
  }

  // ---------------------------------------------------------------- sorting

  /** The order `compare_samples` asks `qsort` for: ascending altitude. */
  predicate SortedByAltitude(s: seq<Sample>)
  {
    forall i, j :: 0 <= i < j < |s| ==> s[i].altitude <= s[j].altitude
  }

  function Insert(s: seq<Sample>, x: Sample): (r: seq<Sample>)
    requires SortedByAltitude(s)
    ensures SortedByAltitude(r)
    ensures multiset(r) == multiset(s) + multiset{x}
    ensures |r| == |s| + 1
    ensures r[0] == x || (s != [] && r[0] == s[0])
  {
    if s == [] then [x]
    else if x.altitude <= s[0].altitude then
      ConsSorted(x, s);
      [x] + s
    else
      var rest := Insert(s[1..], x);
      assert s == [s[0]] + s[1..];
      ConsSorted(s[0], rest);
      [s[0]] + rest
  }

  /** A head no higher than the first element keeps a sorted sequence sorted. */
  lemma ConsSorted(a: Sample, s: seq<Sample>)
    requires SortedByAltitude(s) && (s != [] ==> a.altitude <= s[0].altitude)
    ensures SortedByAltitude([a] + s)
  {
    var t := [a] + s;
    forall i, j | 0 <= i < j < |t|
      ensures t[i].altitude <= t[j].altitude
    {
      if i == 0 {
        assert t[j] == s[j - 1];
        assert s[0].altitude <= s[j - 1].altitude;
      } else {
        assert t[i] == s[i - 1] && t[j] == s[j - 1];
      }
    }
  }

  /** `qsort` by altitude.  `qsort` is not stable; this insertion sort is one of the
      orders it may produce (the altitudes come out the same in every such order). */
  function SortByAltitude(s: seq<Sample>): (r: seq<Sample>)
    ensures SortedByAltitude(r)
    ensures multiset(r) == multiset(s)
    ensures |r| == |s|
  {
    if s == [] then []
    else
      assert s == s[..|s| - 1] + [s[|s| - 1]];
      Insert(SortByAltitude(s[..|s| - 1]), s[|s| - 1])
  }

  // ---------------------------------------------------------------- the trimmed mean

  /** `discard = (x_width/25)*0.1`, stored into an `int`, and at least 1. */
  function Discard(xWidth: real): (d: int)
    ensures d >= 1
    ensures d == 1 || (d as real <= xWidth / 250.0 < d as real + 1.0)
  {
    var t := Trunc((xWidth / 25.0) * 0.1);
    if t < 1 then 1 else t
  }

  function Altitudes(s: seq<Sample>): (a: seq<int>)
    ensures |a| == |s| && forall i :: 0 <= i < |s| ==> a[i] == s[i].altitude
  {
    seq(|s|, i requires 0 <= i < |s| => s[i].altitude)
  }

  function Depths(s: seq<Sample>): (a: seq<real>)
    ensures |a| == |s| && forall i :: 0 <= i < |s| ==> a[i] == s[i].depthM
  {
    seq(|s|, i requires 0 <= i < |s| => s[i].depthM)
  }

  /** Enough samples to average: more than `discard*2 + 2`. */
  predicate Enough(n: int, discard: int)
  {
    n > discard * 2 + 2
  }

  /** The samples kept after sorting and discarding `discard` at each end. */
  function Kept(samples: seq<Sample>, discard: int): (kept: seq<Sample>)
    requires discard >= 1 && Enough(|samples|, discard)
    ensures |kept| == |samples| - 2 * discard
  {
    SortByAltitude(samples)[discard..|samples| - discard]
  }

  /** play.c:556-571: one strip's record.  Too few samples give the all-zero record;
      otherwise the altitude lies between the smallest and the largest kept altitude,
      and the depth in millimetres is the truncated depth in metres times 1000. */
  function Summarize(samples: seq<Sample>, discard: int): (rec: ColRecord)
    requires discard >= 1
    ensures !Enough(|samples|, discard) ==> rec == EmptyRecord
    ensures Enough(|samples|, discard) ==>
              SortByAltitude(samples)[discard].altitude <= rec.altitude
              <= SortByAltitude(samples)[|samples| - 1 - discard].altitude
    ensures Enough(|samples|, discard) ==> rec.depthMm == Trunc(rec.depthM * 1000.0)
  {
    if Enough(|samples|, discard) then
      var kept := Kept(samples, discard);
      var sorted := SortByAltitude(samples);
      KeptBetween(samples, discard);
      MeanWithin(Altitudes(kept), sorted[discard].altitude, sorted[|samples| - 1 - discard].altitude);
      var depthM := RMean(Depths(kept));
      ColRecord(Mean(Altitudes(kept)), Trunc(depthM * 1000.0), depthM)
    else EmptyRecord
  }

  /** Every kept altitude lies between the first and the last kept one. */
  lemma KeptBetween(samples: seq<Sample>, discard: int)
    requires discard >= 1 && Enough(|samples|, discard)
    ensures var a := Altitudes(Kept(samples, discard));
            var sorted := SortByAltitude(samples);
            forall i :: 0 <= i < |a| ==>
              sorted[discard].altitude <= a[i] <= sorted[|samples| - 1 - discard].altitude
  {
    var sorted := SortByAltitude(samples);
    var kept := Kept(samples, discard);
    var a := Altitudes(kept);
    forall i | 0 <= i < |a|
      ensures sorted[discard].altitude <= a[i] <= sorted[|samples| - 1 - discard].altitude
    {
      assert kept[i] == sorted[discard + i];
      assert discard <= discard + i <= |samples| - 1 - discard;
    }
  }

  /** One strip of the analysis. */
  function AnalyzeColumn(depth: seq<int>, s: Settings, c: int): (rec: ColRecord)
    requires |depth| == CamSize && SettingsInRange(s) && 0 <= c < LedCols
    ensures 0 <= rec.altitude <= 479
    ensures rec == EmptyRecord || s.minDepth < rec.depthM < s.maxDepth
    ensures rec.depthM == 0.0 <==> rec == EmptyRecord
  {
    WindowFits(s, c);
    var samples := StripSamples(depth, s, MinY(s), MaxY(s), StripStart(s, c), StripEnd(s, c));
    var discard := Discard(s.xWidth);
    if Enough(|samples|, discard) then
      SummaryInRange(samples, discard, s.minDepth, s.maxDepth);
      Summarize(samples, discard)
    else Summarize(samples, discard)
  }

  /** When every sample is a valid candidate, the averaged record is one too: altitude
      in [0, 479] and depth strictly inside (min_depth, max_depth). */
  lemma SummaryInRange(samples: seq<Sample>, discard: int, minD: real, maxD: real)
    requires discard >= 1 && Enough(|samples|, discard) && 0.0 <= minD
    requires forall k :: 0 <= k < |samples| ==>
               0 <= samples[k].altitude <= 479 && InRange(samples[k].depthM, minD, maxD)
    ensures 0 <= Summarize(samples, discard).altitude <= 479
    ensures minD < Summarize(samples, discard).depthM < maxD
  {
    var sorted := SortByAltitude(samples);
    var kept := Kept(samples, discard);
    forall i | 0 <= i < |sorted|
      ensures 0 <= sorted[i].altitude <= 479 && InRange(sorted[i].depthM, minD, maxD)
    {
      assert sorted[i] in multiset(samples);
    }
    assert forall i :: 0 <= i < |kept| ==> kept[i] == sorted[discard + i];
    RMeanWithin(Depths(kept), minD, maxD);
  }

  /** `g_analyze_columns`: the 25 strip records. */
  function AnalyzeColumns(depth: seq<int>, s: Settings): (recs: seq<ColRecord>)
    requires |depth| == CamSize && SettingsInRange(s)
    ensures |recs| == LedCols
    ensures forall c :: 0 <= c < LedCols ==> 0 <= recs[c].altitude <= 479
  {
    seq(LedCols, c requires 0 <= c < LedCols => AnalyzeColumn(depth, s, c))
  }
}
