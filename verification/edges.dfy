/** The geometry pass of particles.c `depth_cb` (particles.c:397-428).  For every screen
    column x, `top_ys[x]` is the lowest row (largest y) where the scene steps nearer by
    more than 0.3 m and is nearer than `depth_max`; then the 640 columns are split into
    `cols` slices and each slice averages the tops it found.

    `depth_m` (particles.c:364) converts a raw reading to metres through `tan`; it is a
    parameter `depthM` here, and only its values matter. */
module TopEdges {
  import opened CArith
  import opened Layout
  import opened Stats
  import opened Slices

  /** `depth_here < depth_last - 0.3`: the drop that marks an edge. */
  const EdgeDrop: real := 0.3

  /** `depth_m(depth[x + y*640])` for y = 0 .. 479. */
  function ColumnMetres(depth: seq<int>, depthM: int -> real, x: int): (col: seq<real>)
    requires |depth| == CamSize && 0 <= x < CamWidth
    ensures |col| == CamHeight
  {
    seq(CamHeight, y requires 0 <= y < CamHeight => depthM(depth[x + y * CamWidth]))
  }

  /** Row y of a column is an edge: nearer than `depth_max` and more than 0.3 m nearer
      than the row above it. */
  predicate IsEdge(col: seq<real>, depthMax: real, y: int)
    requires |col| == CamHeight
  {
    1 <= y < CamHeight && col[y] < depthMax && col[y] < col[y - 1] - EdgeDrop
  }

  /** The inner loop from row y on: `last` is `depth_last`, `top` is `top_ys[x]` so far. */
  function TopScan(col: seq<real>, depthMax: real, y: int, last: real, top: int): (t: int)
    requires |col| == CamHeight && 1 <= y <= CamHeight && 0 <= top < y
    ensures 0 <= t < CamHeight
    decreases CamHeight - y
  {
    if y == CamHeight then top
    else
      var here := col[y];
      TopScan(col, depthMax, y + 1, here, if here < depthMax && here < last - EdgeDrop then y else top)
  }

  lemma {:induction false} TopScanLast(col: seq<real>, depthMax: real, y: int, last: real, top: int)
    requires |col| == CamHeight && 1 <= y <= CamHeight && 0 <= top < y
    requires last == col[y - 1]
    requires top == 0 || IsEdge(col, depthMax, top)
    requires forall k :: top < k < y ==> !IsEdge(col, depthMax, k)
    ensures var t := TopScan(col, depthMax, y, last, top);
            (t == 0 || IsEdge(col, depthMax, t)) && forall k :: t < k < CamHeight ==> !IsEdge(col, depthMax, k)
    decreases CamHeight - y
  {
    if y < CamHeight {
      var here := col[y];
      TopScanLast(col, depthMax, y + 1, here, if here < depthMax && here < last - EdgeDrop then y else top);
    }
  }

  /** `top_ys[x]` for one column. */
  function TopEdge(col: seq<real>, depthMax: real): (top: int)
    requires |col| == CamHeight
    ensures 0 <= top < CamHeight
  {
    TopScan(col, depthMax, 1, col[0], 0)
  }

  /** particles.c:397-411: the top is the largest edge row, and 0 exactly when the column
      has no edge. */
  lemma TopEdgeIsLast(col: seq<real>, depthMax: real)
    requires |col| == CamHeight
    ensures TopEdge(col, depthMax) == 0 || IsEdge(col, depthMax, TopEdge(col, depthMax))
    ensures forall y :: TopEdge(col, depthMax) < y < CamHeight ==> !IsEdge(col, depthMax, y)
    ensures TopEdge(col, depthMax) == 0 <==> forall y :: 0 <= y < CamHeight ==> !IsEdge(col, depthMax, y)
  {
    TopScanLast(col, depthMax, 1, col[0], 0);
  }

  /** `top_ys` and `top_depths` for the whole frame: the top row of each column and the
      raw reading there (0 where the column has no edge). */
  function TopYs(depth: seq<int>, depthM: int -> real, depthMax: real): (tops: seq<int>)
    requires |depth| == CamSize
    ensures |tops| == CamWidth
    ensures forall x :: 0 <= x < CamWidth ==> 0 <= tops[x] < CamHeight
  {
    seq(CamWidth, x requires 0 <= x < CamWidth => TopEdge(ColumnMetres(depth, depthM, x), depthMax))
  }

  /** Entry x of `top_ys` is the last edge row of camera column x, and 0 exactly when the
      column has no edge. */
  lemma TopYsLastEdge(depth: seq<int>, depthM: int -> real, depthMax: real, x: int)
    requires |depth| == CamSize && 0 <= x < CamWidth
    ensures var col := ColumnMetres(depth, depthM, x);
            var top := TopYs(depth, depthM, depthMax)[x];
            (top == 0 || IsEdge(col, depthMax, top)) &&
            (forall y :: top < y < CamHeight ==> !IsEdge(col, depthMax, y)) &&
            (top == 0 <==> forall y :: 0 <= y < CamHeight ==> !IsEdge(col, depthMax, y))
  {
    TopEdgeIsLast(ColumnMetres(depth, depthM, x), depthMax);
  }

  /** What `top_depths` should hold once the tops are known: the raw reading at each
      column's top row, 0 where the column has no top. */
  function TopDepths(depth: seq<int>, tops: seq<int>): (tds: seq<int>)
    requires |depth| == CamSize && |tops| == CamWidth
    requires forall x :: 0 <= x < CamWidth ==> 0 <= tops[x] < CamHeight
    ensures |tds| == CamWidth
  {
    seq(CamWidth, x requires 0 <= x < CamWidth => if tops[x] > 0 then depth[x + tops[x] * CamWidth] else 0)
  }

  // ---------------------------------------------------------------- the loop as written

  /** `top_ys[x]` and `top_depths[x]` as the inner loop keeps them. */
  datatype TopPair = TopPair(y: int, depth: int)

  /** The inner loop of particles.c:401-410 from row y on, with both of its stores: on an
      edge it sets `top_ys[x] = y` and `top_depths[x] = depth[i]` in the same step. */
  function PairScan(depth: seq<int>, depthM: int -> real, depthMax: real, x: int, y: int, last: real, acc: TopPair): (t: TopPair)
    requires |depth| == CamSize && 0 <= x < CamWidth && 1 <= y <= CamHeight && 0 <= acc.y < y
    ensures 0 <= t.y < CamHeight
    decreases CamHeight - y
  {
    if y == CamHeight then acc
    else
      var i := x + y * CamWidth;
      var here := depthM(depth[i]);
      PairScan(depth, depthM, depthMax, x, y + 1, here,
               if here < depthMax && here < last - EdgeDrop then TopPair(y, depth[i]) else acc)
  }

  /** One column of the pass: both entries start at 0 and `depth_last` at row 0. */
  function ColumnPass(depth: seq<int>, depthM: int -> real, depthMax: real, x: int): (t: TopPair)
    requires |depth| == CamSize && 0 <= x < CamWidth
    ensures 0 <= t.y < CamHeight
  {
    PairScan(depth, depthM, depthMax, x, 1, depthM(depth[x]), TopPair(0, 0))
  }

  /** The whole pass of particles.c:397-411: `top_ys` and `top_depths` filled together. */
  function TopPass(depth: seq<int>, depthM: int -> real, depthMax: real): (tops: (seq<int>, seq<int>))
    requires |depth| == CamSize
    ensures |tops.0| == CamWidth && |tops.1| == CamWidth
  {
    (seq(CamWidth, x requires 0 <= x < CamWidth => ColumnPass(depth, depthM, depthMax, x).y),
     seq(CamWidth, x requires 0 <= x < CamWidth => ColumnPass(depth, depthM, depthMax, x).depth))
  }

  /** From any row on, the paired loop finds the same top as the scan over metres, and
      its depth is the raw reading at that top (0 when there is none), provided that
      held of what it carried in. */
  lemma {:induction false} PairScanAgrees(depth: seq<int>, depthM: int -> real, depthMax: real, x: int, y: int, last: real, acc: TopPair)
    requires |depth| == CamSize && 0 <= x < CamWidth && 1 <= y <= CamHeight && 0 <= acc.y < y
    requires acc.depth == if acc.y > 0 then depth[x + acc.y * CamWidth] else 0
    ensures var t := PairScan(depth, depthM, depthMax, x, y, last, acc);
            t.y == TopScan(ColumnMetres(depth, depthM, x), depthMax, y, last, acc.y) &&
            t.depth == if t.y > 0 then depth[x + t.y * CamWidth] else 0
    decreases CamHeight - y
  {
    if y < CamHeight {
      var col := ColumnMetres(depth, depthM, x);
      var i := x + y * CamWidth;
      var here := depthM(depth[i]);
      assert col[y] == here;
      var acc' := if here < depthMax && here < last - EdgeDrop then TopPair(y, depth[i]) else acc;
      PairScanAgrees(depth, depthM, depthMax, x, y + 1, here, acc');
    }
  }

  /** One column of the pass: its top is `TopEdge` of the column and its depth the raw
      reading there. */
  lemma ColumnPassAgrees(depth: seq<int>, depthM: int -> real, depthMax: real, x: int)
    requires |depth| == CamSize && 0 <= x < CamWidth
    ensures var t := ColumnPass(depth, depthM, depthMax, x);
            t.y == TopEdge(ColumnMetres(depth, depthM, x), depthMax) &&
            t.depth == if t.y > 0 then depth[x + t.y * CamWidth] else 0
  {
    assert ColumnMetres(depth, depthM, x)[0] == depthM(depth[x]);
    PairScanAgrees(depth, depthM, depthMax, x, 1, depthM(depth[x]), TopPair(0, 0));
  }

  /** The loop as written computes exactly `(TopYs, TopDepths(TopYs))`: recording the
      depth in the same step as the row gives the reading at the last edge. */
  lemma TopPassMatches(depth: seq<int>, depthM: int -> real, depthMax: real)
    requires |depth| == CamSize
    ensures TopPass(depth, depthM, depthMax).0 == TopYs(depth, depthM, depthMax)
    ensures TopPass(depth, depthM, depthMax).1 == TopDepths(depth, TopYs(depth, depthM, depthMax))
  {
    var pass := TopPass(depth, depthM, depthMax);
    var tops := TopYs(depth, depthM, depthMax);
    var tds := TopDepths(depth, tops);
    forall x | 0 <= x < CamWidth
      ensures pass.0[x] == tops[x] && pass.1[x] == tds[x]
    {
      ColumnPassAgrees(depth, depthM, depthMax, x);
    }
    assert pass.0 == tops;
    assert pass.1 == tds;
  }

  // ---------------------------------------------------------------- column averaging

  /** Screen column x takes part in its slice's average. */
  predicate Counts(tops: seq<int>, tds: seq<int>, x: int)
    requires 0 <= x < |tops| && x < |tds|
  {
    tops[x] > 0 && tds[x] > 0
  }

  /** The counted columns of [lo, hi), in increasing order. */
  function Counted(tops: seq<int>, tds: seq<int>, lo: int, hi: int): (xs: seq<int>)
    requires 0 <= lo && hi <= |tops| && hi <= |tds|
    ensures forall k :: 0 <= k < |xs| ==> lo <= xs[k] < hi && Counts(tops, tds, xs[k])
    ensures forall x :: lo <= x < hi && Counts(tops, tds, x) ==> x in xs
    ensures forall j, k :: 0 <= j < k < |xs| ==> xs[j] < xs[k]
    decreases hi - lo
  {
    if lo >= hi then []
    else if Counts(tops, tds, lo) then [lo] + Counted(tops, tds, lo + 1, hi)
    else Counted(tops, tds, lo + 1, hi)
  }

  function Pick(vals: seq<int>, xs: seq<int>): (picked: seq<int>)
    requires forall k :: 0 <= k < |xs| ==> 0 <= xs[k] < |vals|
    ensures |picked| == |xs|
  {
    seq(|xs|, k requires 0 <= k < |xs| => vals[xs[k]])
  }

  /** `col_ys[c]` and `col_depths[c]`. */
  datatype ColumnTop = ColumnTop(y: int, depth: int)

  /** Slice c of `cols` ends inside the 640 columns. */
  lemma SliceInFrame(cols: int, c: int)
    requires 0 <= c < cols
    ensures 0 <= SliceStart(CamWidth, cols, c) <= SliceStart(CamWidth, cols, c + 1) <= CamWidth
  {
    SliceMonotone(CamWidth, cols, c, c + 1);
    SliceMonotone(CamWidth, cols, c + 1, cols);
    SliceEnds(CamWidth, cols);
  }

  /** particles.c:413-428: the integer means of the counted tops and depths of slice c,
      or zero for both when nothing in the slice counts. */
  function AverageSlice(tops: seq<int>, tds: seq<int>, cols: int, c: int): (top: ColumnTop)
    requires |tops| == CamWidth && |tds| == CamWidth && 0 <= c < cols
    requires forall x :: 0 <= x < CamWidth ==> 0 <= tops[x] < CamHeight
    ensures 0 <= top.y < CamHeight
    ensures top.y == 0 <==> |Counted(tops, tds, SliceStart(CamWidth, cols, c), SliceStart(CamWidth, cols, c + 1))| == 0
    ensures top.y == 0 ==> top.depth == 0
  {
    SliceInFrame(cols, c);
    var xs := Counted(tops, tds, SliceStart(CamWidth, cols, c), SliceStart(CamWidth, cols, c + 1));
    if |xs| > 0 then
      MeanWithin(Pick(tops, xs), 1, CamHeight - 1);
      ColumnTop(Mean(Pick(tops, xs)), Mean(Pick(tds, xs)))
    else ColumnTop(0, 0)
  }

  /** The slice's top lies between the least and the greatest counted top: any bounds
      that hold for every counted column of the slice hold for the average. */
  lemma AverageSliceWithin(tops: seq<int>, tds: seq<int>, cols: int, c: int, lo: int, hi: int)
    requires |tops| == CamWidth && |tds| == CamWidth && 0 <= c < cols
    requires forall x :: 0 <= x < CamWidth ==> 0 <= tops[x] < CamHeight
    requires forall x :: (0 <= x < CamWidth && SliceStart(CamWidth, cols, c) <= x < SliceStart(CamWidth, cols, c + 1)
                          && Counts(tops, tds, x)) ==> lo <= tops[x] <= hi
    requires exists x :: 0 <= x < CamWidth && SliceStart(CamWidth, cols, c) <= x < SliceStart(CamWidth, cols, c + 1)
                         && Counts(tops, tds, x)
    ensures lo <= AverageSlice(tops, tds, cols, c).y <= hi
  {
    SliceInFrame(cols, c);
    var s0, s1 := SliceStart(CamWidth, cols, c), SliceStart(CamWidth, cols, c + 1);
    var xs := Counted(tops, tds, s0, s1);
    var x0 :| 0 <= x0 < CamWidth && s0 <= x0 < s1 && Counts(tops, tds, x0);
    assert x0 in xs;
    var picked := Pick(tops, xs);
    forall k | 0 <= k < |picked|
      ensures lo <= picked[k] <= hi
    {
      assert s0 <= xs[k] < s1 && Counts(tops, tds, xs[k]);
    }
    MeanWithin(picked, lo, hi);
  }

  /** Every screen column belongs to exactly one slice, so each top is averaged once. */
  lemma SlicesPartitionColumns(cols: int, x: int, c: int)
    requires 0 < cols && 0 <= x < CamWidth && 0 <= c < cols
    ensures SliceStart(CamWidth, cols, c) <= x < SliceStart(CamWidth, cols, c + 1)
            <==> c == Owner(CamWidth, cols, x)
  {
    if SliceStart(CamWidth, cols, c) <= x < SliceStart(CamWidth, cols, c + 1) {
      OwnerUnique(CamWidth, cols, x, c);
    }
  }

  /** The `cols` slice averages of one frame. */
  function AverageSlices(tops: seq<int>, tds: seq<int>, cols: int): (colTops: seq<ColumnTop>)
    requires |tops| == CamWidth && |tds| == CamWidth && 0 < cols
    requires forall x :: 0 <= x < CamWidth ==> 0 <= tops[x] < CamHeight
    ensures |colTops| == cols
    ensures forall c :: 0 <= c < cols ==> 0 <= colTops[c].y < CamHeight
  {
    seq(cols, c requires 0 <= c < cols => AverageSlice(tops, tds, cols, c))
  }
}
