/** play.c's LED output: `g_draw_pixels` (play.c:477-506) paints one depth sample per grid
    cell through the depth ramp into a 1250-pixel buffer, and `g_put_pixel_ranges`
    (play.c:301-323) rearranges a buffer into the byte stream sent to the controller. */
module LedFrame {
  import opened CArith
  import opened Pixels
  import opened Ramps
  import opened Layout

  // ---------------------------------------------------------------- g_draw_pixels

  /** `depth[(r*480/50)*640 + (c*640/25)]`: the camera sample shown by grid cell (r, c). */
  function SampleIndex(r: int, c: int): (i: int)
    requires 0 <= r < LedRows && 0 <= c < LedCols
    ensures 0 <= i < CamSize
  {
    ScaledWithin(r, LedRows - 1, CamHeight);
    ScaledWithin(c, LedCols - 1, CamWidth);
    ScaledBelow(r, LedRows, CamHeight);
    ScaledBelow(c, LedCols, CamWidth);
    (r * CamHeight / LedRows) * CamWidth + c * CamWidth / LedCols
  }

  /** One store into the pixel buffer, or none. */
  datatype Write = Skip | Put(index: int, color: Pixel)

  predicate WritesFit(ws: seq<Write>, size: int)
  {
    forall k :: 0 <= k < |ws| ==> (ws[k].Put? ==> 0 <= ws[k].index < size)
  }

  /** The buffer after performing the stores in order. */
  function ApplyWrites(base: seq<Pixel>, ws: seq<Write>): (out: seq<Pixel>)
    requires WritesFit(ws, |base|)
    ensures |out| == |base|
  {
    if ws == [] then base
    else
      var prev := ApplyWrites(base, ws[..|ws| - 1]);
      match ws[|ws| - 1]
      case Skip => prev
      case Put(i, p) => prev[i := p]
  }

  /** An index no store targets keeps its original value. */
  lemma {:induction false} ApplyWritesUntouched(base: seq<Pixel>, ws: seq<Write>, i: int)
    requires WritesFit(ws, |base|) && 0 <= i < |base|
    requires forall k :: 0 <= k < |ws| ==> ws[k] == Skip || ws[k].index != i
    ensures ApplyWrites(base, ws)[i] == base[i]
  {
    if ws != [] {
      ApplyWritesUntouched(base, ws[..|ws| - 1], i);
    }
  }

  /** The last store to an index decides its value: earlier stores are overwritten. */
  lemma {:induction false} ApplyWritesLast(base: seq<Pixel>, ws: seq<Write>, j: int, i: int)
    requires WritesFit(ws, |base|) && 0 <= i < |base|
    requires 0 <= j < |ws| && ws[j].Put? && ws[j].index == i
    requires forall k :: j < k < |ws| ==> ws[k] == Skip || ws[k].index != i
    ensures ApplyWrites(base, ws)[i] == ws[j].color
  {
    var init := ws[..|ws| - 1];
    if j == |ws| - 1 {
    } else {
      ApplyWritesLast(base, init, j, i);
    }
  }

  lemma {:induction false} ApplyWritesValid(base: seq<Pixel>, ws: seq<Write>)
    requires WritesFit(ws, |base|)
    requires forall i :: 0 <= i < |base| ==> ValidPixel(base[i])
    requires forall k :: 0 <= k < |ws| ==> (ws[k].Put? ==> ValidPixel(ws[k].color))
    ensures forall i :: 0 <= i < |base| ==> ValidPixel(ApplyWrites(base, ws)[i])
  {
    if ws != [] {
      ApplyWritesValid(base, ws[..|ws| - 1]);
    }
  }

  predicate MapFitsLeds(pixelMap: seq<seq<int>>)
  {
    WellShapedMap(pixelMap) &&
    forall r, c :: 0 <= r < LedRows && 0 <= c < LedCols ==> 0 <= pixelMap[r][c] < LedCount
  }

  /** No two grid cells share an LED. */
  predicate MapInjective(pixelMap: seq<seq<int>>)
    requires WellShapedMap(pixelMap)
  {
    forall r1, c1, r2, c2 ::
      (0 <= r1 < LedRows && 0 <= c1 < LedCols && 0 <= r2 < LedRows && 0 <= c2 < LedCols &&
       pixelMap[r1][c1] == pixelMap[r2][c2]) ==> r1 == r2 && c1 == c2
  }

  /** `shifted_r = r + r_shift`: the sum is a float (`r_shift` steps by 0.1 under the
      control key), stored into an `int`, so it is truncated toward zero. */
  function ShiftedRow(r: int, rShift: real): int
  {
    Trunc(r as real + rShift)
  }

  /** No later row of the inner loop lands on the LED row that row r lands on. */
  predicate LastOnRow(r: int, rShift: real)
  {
    forall r' :: r < r' < LedRows ==> ShiftedRow(r', rShift) != ShiftedRow(r, rShift)
  }

  /** The store made for cell (r, c): shifted by `r_shift` rows, dropped when the shifted
      row leaves the grid. */
  function CellWrite(depth: seq<int>, minMm: int, maxMm: int, rShift: real, flip: bool,
                     pixelMap: seq<seq<int>>, r: int, c: int): Write
    requires |depth| == CamSize && minMm != maxMm && MapFitsLeds(pixelMap)
    requires 0 <= r < LedRows && 0 <= c < LedCols
  {
    var shifted := ShiftedRow(r, rShift);
    if 0 <= shifted < LedRows then
      Put(PlayPixelIndex(pixelMap, shifted, c, flip), PlayRamp(depth[SampleIndex(r, c)], minMm, maxMm))
    else Skip
  }

  /** The stores of the two nested loops, columns outside, rows inside: store t is cell
      (t % 50, t / 50). */
  function DrawWrites(depth: seq<int>, minMm: int, maxMm: int, rShift: real, flip: bool,
                      pixelMap: seq<seq<int>>): (ws: seq<Write>)
    requires |depth| == CamSize && minMm != maxMm && MapFitsLeds(pixelMap)
    ensures |ws| == LedCount && WritesFit(ws, LedCount)
  {
    seq(LedCount, t requires 0 <= t < LedCount =>
      CellWrite(depth, minMm, maxMm, rShift, flip, pixelMap, t % LedRows, t / LedRows))
  }

  /** `g_draw_pixels`: the 1250 LED colours, starting from black.  Every colour is a valid
      pixel. */
  function DrawPixels(depth: seq<int>, minMm: int, maxMm: int, rShift: real, flip: bool,
                      pixelMap: seq<seq<int>>): (out: seq<Pixel>)
    requires |depth| == CamSize && minMm != maxMm && MapFitsLeds(pixelMap)
    ensures |out| == LedCount
    ensures forall i :: 0 <= i < LedCount ==> ValidPixel(out[i])
  {
    var ws := DrawWrites(depth, minMm, maxMm, rShift, flip, pixelMap);
    ApplyWritesValid(seq(LedCount, _ => Black), ws);
    ApplyWrites(seq(LedCount, _ => Black), ws)
  }

  lemma WriteOrder(t: int)
    requires 0 <= t < LedCount
    ensures t == (t / LedRows) * LedRows + t % LedRows
    ensures 0 <= t / LedRows < LedCols
  {}

  /** With a map that gives every cell its own LED, the LED in row `shifted_r` of column c
      shows the ramp colour of the sample under cell (r, c), for the last row r of that
      column whose shifted row it is: a later store overwrites an earlier one. */
  lemma DrawPixelsPlaced(depth: seq<int>, minMm: int, maxMm: int, rShift: real, flip: bool,
                         pixelMap: seq<seq<int>>, r: int, c: int)
    requires |depth| == CamSize && minMm != maxMm && MapFitsLeds(pixelMap)
    requires MapInjective(pixelMap)
    requires 0 <= r < LedRows && 0 <= c < LedCols
    requires 0 <= ShiftedRow(r, rShift) < LedRows && LastOnRow(r, rShift)
    ensures DrawPixels(depth, minMm, maxMm, rShift, flip, pixelMap)[PlayPixelIndex(pixelMap, ShiftedRow(r, rShift), c, flip)]
         == PlayRamp(depth[SampleIndex(r, c)], minMm, maxMm)
  {
    var ws := DrawWrites(depth, minMm, maxMm, rShift, flip, pixelMap);
    var i := PlayPixelIndex(pixelMap, ShiftedRow(r, rShift), c, flip);
    var j := c * LedRows + r;
    DivModUnique(j, c, r, LedRows);
    forall k | j < k < |ws|
      ensures ws[k] == Skip || ws[k].index != i
    {
      WriteOrder(k);
      var rk, ck := k % LedRows, k / LedRows;
      if ws[k].Put? && ws[k].index == i {
        MirrorInvolution(ck, flip);
        MirrorInvolution(c, flip);
        assert false;
      }
    }
    ApplyWritesLast(seq(LedCount, _ => Black), ws, j, i);
  }

  /** With a map that gives every cell its own LED, an LED row no cell row lands on stays
      black in every column. */
  lemma DrawPixelsRowDark(depth: seq<int>, minMm: int, maxMm: int, rShift: real, flip: bool,
                          pixelMap: seq<seq<int>>, s: int, c: int)
    requires |depth| == CamSize && minMm != maxMm && MapFitsLeds(pixelMap)
    requires MapInjective(pixelMap)
    requires 0 <= s < LedRows && 0 <= c < LedCols
    requires forall r :: 0 <= r < LedRows ==> ShiftedRow(r, rShift) != s
    ensures DrawPixels(depth, minMm, maxMm, rShift, flip, pixelMap)[PlayPixelIndex(pixelMap, s, c, flip)] == Black
  {
    var ws := DrawWrites(depth, minMm, maxMm, rShift, flip, pixelMap);
    var i := PlayPixelIndex(pixelMap, s, c, flip);
    forall k | 0 <= k < |ws|
      ensures ws[k] == Skip || ws[k].index != i
    {
      WriteOrder(k);
      var rk, ck := k % LedRows, k / LedRows;
      if ws[k].Put? && ws[k].index == i {
        MirrorInvolution(ck, flip);
        MirrorInvolution(c, flip);
        assert false;
      }
    }
    ApplyWritesUntouched(seq(LedCount, _ => Black), ws, i);
  }

  /** A whole shift k moves every row by exactly k, and no two rows land together, so the
      LED of cell (r + k, c) shows the sample under cell (r, c). */
  lemma DrawPixelsWholeShift(depth: seq<int>, minMm: int, maxMm: int, k: int, flip: bool,
                             pixelMap: seq<seq<int>>, r: int, c: int)
    requires |depth| == CamSize && minMm != maxMm && MapFitsLeds(pixelMap)
    requires MapInjective(pixelMap)
    requires 0 <= r < LedRows && 0 <= c < LedCols && 0 <= r + k < LedRows
    ensures DrawPixels(depth, minMm, maxMm, k as real, flip, pixelMap)[PlayPixelIndex(pixelMap, r + k, c, flip)]
         == PlayRamp(depth[SampleIndex(r, c)], minMm, maxMm)
  {
    var x := k as real;
    forall r' | 0 <= r' < LedRows
      ensures ShiftedRow(r', x) == r' + k
    {
      WholeShiftRow(r', k);
    }
    DrawPixelsPlaced(depth, minMm, maxMm, k as real, flip, pixelMap, r, c);
  }

  lemma WholeShiftRow(r: int, k: int)
    ensures ShiftedRow(r, k as real) == r + k
  {
    assert r as real + k as real == (r + k) as real;
  }

  /** A shift of -0.1, one control-step below the start value 0: rows 0 and 1 both land on
      LED row 0, which shows row 1, the later store, and LED row 49 stays black. */
  lemma DrawPixelsTenthBelow(depth: seq<int>, minMm: int, maxMm: int, flip: bool,
                             pixelMap: seq<seq<int>>, c: int)
    requires |depth| == CamSize && minMm != maxMm && MapFitsLeds(pixelMap)
    requires MapInjective(pixelMap) && 0 <= c < LedCols
    ensures ShiftedRow(0, -0.1) == ShiftedRow(1, -0.1) == 0
    ensures DrawPixels(depth, minMm, maxMm, -0.1, flip, pixelMap)[PlayPixelIndex(pixelMap, 0, c, flip)]
         == PlayRamp(depth[SampleIndex(1, c)], minMm, maxMm)
    ensures DrawPixels(depth, minMm, maxMm, -0.1, flip, pixelMap)[PlayPixelIndex(pixelMap, LedRows - 1, c, flip)]
         == Black
  {
    forall r | 0 <= r < LedRows
      ensures ShiftedRow(r, -0.1) == if r == 0 then 0 else r - 1
    {
      TenthBelowRow(r);
    }
    DrawPixelsPlaced(depth, minMm, maxMm, -0.1, flip, pixelMap, 1, c);
    DrawPixelsRowDark(depth, minMm, maxMm, -0.1, flip, pixelMap, LedRows - 1, c);
  }

  lemma TenthBelowRow(r: int)
    requires 0 <= r
    ensures ShiftedRow(r, -0.1) == if r == 0 then 0 else r - 1
  {
    if r > 0 {
      assert (r - 1) as real <= r as real - 0.1 < r as real;
    }
  }

  /** An LED that the map assigns to no cell stays black. */
  lemma DrawPixelsUnmappedDark(depth: seq<int>, minMm: int, maxMm: int, rShift: real, flip: bool,
                               pixelMap: seq<seq<int>>, i: int)
    requires |depth| == CamSize && minMm != maxMm && MapFitsLeds(pixelMap)
    requires 0 <= i < LedCount
    requires forall r, c :: 0 <= r < LedRows && 0 <= c < LedCols ==> pixelMap[r][c] != i
    ensures DrawPixels(depth, minMm, maxMm, rShift, flip, pixelMap)[i] == Black
  {
    var ws := DrawWrites(depth, minMm, maxMm, rShift, flip, pixelMap);
    forall k | 0 <= k < |ws|
      ensures ws[k] == Skip || ws[k].index != i
    {
      WriteOrder(k);
    }
    ApplyWritesUntouched(seq(LedCount, _ => Black), ws, i);
  }

  // ---------------------------------------------------------------- g_put_pixel_ranges

  /** One line of ranges.txt. */
  datatype Range = Range(start: int, stop: int)

  /** Pixels a range contributes: a forward range copies stop - start pixels, any other
      range emits start - stop black pixels. */
  function Span(rg: Range): nat
  {
    Abs(rg.stop - rg.start)
  }

  /** The copies stay inside the 1250-pixel source and the 1250-pixel black buffer. */
  predicate RangeFits(rg: Range)
  {
    if rg.start < rg.stop then 0 <= rg.start && rg.stop <= LedCount
    else rg.start - rg.stop <= LedCount
  }

  function TotalSpan(ranges: seq<Range>): nat
  {
    if ranges == [] then 0 else Span(ranges[0]) + TotalSpan(ranges[1..])
  }

  /** `outs` holds 5000 pixels. */
  const OutCapacity := 5000

  predicate RangesFit(ranges: seq<Range>)
  {
    (forall k :: 0 <= k < |ranges| ==> RangeFits(ranges[k])) && TotalSpan(ranges) <= OutCapacity
  }

  /** Every range of the list fits, stated range by range from the first. */
  predicate AllFit(ranges: seq<Range>)
    decreases |ranges|
  {
    ranges == [] || (RangeFits(ranges[0]) && AllFit(ranges[1..]))
  }

  /** Range i of a list that fits throughout fits. */
  lemma {:induction false} AllFitAt(ranges: seq<Range>, i: nat)
    requires AllFit(ranges) && i < |ranges|
    ensures RangeFits(ranges[i])
    decreases |ranges|
  {
    if i > 0 {
      AllFitAt(ranges[1..], i - 1);
    }
  }

  /** A list whose every range fits fits throughout. */
  lemma {:induction false} AllFitFromEach(ranges: seq<Range>)
    requires forall k :: 0 <= k < |ranges| ==> RangeFits(ranges[k])
    ensures AllFit(ranges)
    decreases |ranges|
  {
    if ranges != [] {
      forall k | 0 <= k < |ranges[1..]|
        ensures RangeFits(ranges[1..][k])
      {
        assert ranges[1..][k] == ranges[k + 1];
      }
      AllFitFromEach(ranges[1..]);
    }
  }

  /** What one range appends to the output. */
  function Segment(pixels: seq<Pixel>, rg: Range): (seg: seq<Pixel>)
    requires |pixels| == LedCount && RangeFits(rg)
    ensures |seg| == Span(rg)
  {
    if rg.start < rg.stop then pixels[rg.start..rg.stop]
    else seq(rg.start - rg.stop, _ => Black)
  }

  /** The segments of all ranges, in file order. */
  function Composite(pixels: seq<Pixel>, ranges: seq<Range>): (out: seq<Pixel>)
    requires |pixels| == LedCount && AllFit(ranges)
    ensures |out| == TotalSpan(ranges)
  {
    if ranges == [] then []
    else Segment(pixels, ranges[0]) + Composite(pixels, ranges[1..])
  }

  /** `g_put_pixel_ranges`: the pixels handed to the network sink.  With no ranges the
      1250 input pixels go out as they are; otherwise the output is as long as all spans
      together (where each range sits is `CompositePlacement`). */
  function PutPixelRanges(pixels: seq<Pixel>, ranges: seq<Range>): (out: seq<Pixel>)
    requires |pixels| == LedCount && RangesFit(ranges)
    ensures |ranges| == 0 ==> out == pixels && |out| == LedCount
    ensures |ranges| > 0 ==> |out| == TotalSpan(ranges) <= OutCapacity
  {
    if |ranges| > 0 then
      AllFitFromEach(ranges);
      Composite(pixels, ranges)
    else pixels
  }

  /** Where range i starts in the output: the spans of the ranges before it. */
  function Offset(ranges: seq<Range>, i: nat): nat
    requires i <= |ranges|
  {
    TotalSpan(ranges[..i])
  }

  /** Range i ends within the output: the spans before it and its own add up to at most
      the total. */
  lemma {:induction false} OffsetBound(ranges: seq<Range>, i: nat)
    requires i < |ranges|
    ensures Offset(ranges, i) + Span(ranges[i]) <= TotalSpan(ranges)
  {
    if i == 0 {
      assert ranges[..0] == [];
    } else {
      OffsetBound(ranges[1..], i - 1);
      OffsetStep(ranges, i);
    }
  }

  /** Offsets after the first range are shifted by its span. */
  lemma OffsetStep(ranges: seq<Range>, i: nat)
    requires 0 < i <= |ranges|
    ensures Offset(ranges, i) == Span(ranges[0]) + Offset(ranges[1..], i - 1)
  {
    assert ranges[..i][1..] == ranges[1..][..i - 1];
  }

  /** One position of the composite: position k of range i's segment. */
  lemma {:induction false} CompositePixel(pixels: seq<Pixel>, ranges: seq<Range>, i: nat, k: nat)
    requires |pixels| == LedCount && AllFit(ranges)
    requires i < |ranges| && k < Span(ranges[i])
    ensures Offset(ranges, i) + k < TotalSpan(ranges)
    ensures RangeFits(ranges[i])
            && Composite(pixels, ranges)[Offset(ranges, i) + k] == Segment(pixels, ranges[i])[k]
    decreases |ranges|
  {
    if i == 0 {
      assert ranges[..0] == [];
      CompositeHead(pixels, ranges, k);
    } else {
      CompositePixel(pixels, ranges[1..], i - 1, k);
      CompositePixelLift(pixels, ranges, i, k);
    }
  }

  /** The composite starts with the first range's segment. */
  lemma CompositeHead(pixels: seq<Pixel>, ranges: seq<Range>, k: nat)
    requires |pixels| == LedCount && AllFit(ranges)
    requires ranges != [] && k < Span(ranges[0])
    ensures k < TotalSpan(ranges)
    ensures Composite(pixels, ranges)[k] == Segment(pixels, ranges[0])[k]
  {
  }

  /** Position k of range i's segment, found in the composite of the ranges after the
      first, is found one first span further on in the whole composite. */
  lemma CompositePixelLift(pixels: seq<Pixel>, ranges: seq<Range>, i: nat, k: nat)
    requires |pixels| == LedCount && AllFit(ranges)
    requires 0 < i < |ranges| && k < Span(ranges[i])
    requires Offset(ranges[1..], i - 1) + k < TotalSpan(ranges[1..])
    requires RangeFits(ranges[1..][i - 1])
    requires Composite(pixels, ranges[1..])[Offset(ranges[1..], i - 1) + k] == Segment(pixels, ranges[1..][i - 1])[k]
    ensures Offset(ranges, i) + k < TotalSpan(ranges)
    ensures RangeFits(ranges[i])
            && Composite(pixels, ranges)[Offset(ranges, i) + k] == Segment(pixels, ranges[i])[k]
  {
    var rest := ranges[1..];
    OffsetStep(ranges, i);
    var j := Offset(rest, i - 1) + k;
    var at := Offset(ranges, i) + k;
    assert at == Span(ranges[0]) + j;
    CompositeShift(pixels, ranges, j);
    assert rest[i - 1] == ranges[i];
    calc {
      Composite(pixels, ranges)[at];
      Composite(pixels, rest)[j];
      Segment(pixels, rest[i - 1])[k];
    }
  }

  /** After the first range's segment comes the composite of the other ranges. */
  lemma CompositeShift(pixels: seq<Pixel>, ranges: seq<Range>, j: nat)
    requires |pixels| == LedCount && AllFit(ranges)
    requires ranges != [] && j < TotalSpan(ranges[1..])
    ensures Span(ranges[0]) + j < TotalSpan(ranges)
    ensures Composite(pixels, ranges)[Span(ranges[0]) + j] == Composite(pixels, ranges[1..])[j]
  {
  }

  /** Range i occupies output positions [Offset(i), Offset(i) + Span(i)): a forward range
      holds pixels[start..stop) in order, any other range holds start - stop blacks. */
  lemma CompositePlacement(pixels: seq<Pixel>, ranges: seq<Range>, i: nat)
    requires |pixels| == LedCount && AllFit(ranges)
    requires i < |ranges|
    ensures Offset(ranges, i) + Span(ranges[i]) <= TotalSpan(ranges)
    ensures RangeFits(ranges[i])
            && Composite(pixels, ranges)[Offset(ranges, i)..Offset(ranges, i) + Span(ranges[i])]
               == Segment(pixels, ranges[i])
  {
    OffsetBound(ranges, i);
    AllFitAt(ranges, i);
    var lo, n := Offset(ranges, i), Span(ranges[i]);
    var out := Composite(pixels, ranges);
    forall k | 0 <= k < n
      ensures out[lo..lo + n][k] == Segment(pixels, ranges[i])[k]
    {
      CompositePixel(pixels, ranges, i, k);
    }
  }

  /** One position of a segment: a copied pixel or a black one. */
  lemma SegmentPixel(pixels: seq<Pixel>, rg: Range, k: nat)
    requires |pixels| == LedCount && RangeFits(rg) && k < Span(rg)
    ensures rg.start < rg.stop ==> 0 <= rg.start + k < LedCount
    ensures rg.start < rg.stop ==> Segment(pixels, rg)[k] == pixels[rg.start + k]
    ensures rg.stop <= rg.start ==> Segment(pixels, rg)[k] == Black
  {}

  /** Element by element: output position Offset(i) + k holds pixels[start + k] for a
      forward range and black otherwise. */
  lemma RangePixel(pixels: seq<Pixel>, ranges: seq<Range>, i: nat, k: nat)
    requires |pixels| == LedCount && RangesFit(ranges)
    requires i < |ranges| && k < Span(ranges[i])
    ensures Offset(ranges, i) + k < |PutPixelRanges(pixels, ranges)|
    ensures ranges[i].start < ranges[i].stop ==> 0 <= ranges[i].start + k < LedCount
    ensures ranges[i].start < ranges[i].stop
         ==> PutPixelRanges(pixels, ranges)[Offset(ranges, i) + k] == pixels[ranges[i].start + k]
    ensures ranges[i].stop <= ranges[i].start
         ==> PutPixelRanges(pixels, ranges)[Offset(ranges, i) + k] == Black
  {
    assert RangeFits(ranges[i]);
    AllFitFromEach(ranges);
    CompositePixel(pixels, ranges, i, k);
    SegmentPixel(pixels, ranges[i], k);
  }
}
