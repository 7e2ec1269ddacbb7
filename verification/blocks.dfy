/** avgdepth.c `depth_cb` (avgdepth.c:289-314): a preview of the whole depth frame, and
    one averaged colour per LED taken from a block of the lower half of the frame.
    Blocks cut columns [0, 640) into `cols` slices and rows [240, 480) into `rows` slices;
    a block averages the readings nearer than `max_depth`.

    The running sum `avg` is a `float`; its sums of integer readings are exact below
    2^24, and its conversion to `uint16_t` truncates, so the block value here is the
    integer mean of the counted readings. */
module Blocks {
  import opened CArith
  import opened Pixels
  import opened Ramps
  import opened Layout
  import opened Stats
  import opened Slices

  /** Every reading indexes the gamma table: the camera's 11-bit readings against the
      2048-entry `t_gamma`. */
  predicate ReadingsFit(depth: seq<int>, gamma: seq<nat>)
  {
    forall i :: 0 <= i < |depth| ==> 0 <= depth[i] < |gamma|
  }

  /** avgdepth.c:289-295: each preview pixel is coloured from its own reading when the
      reading is nearer than `max_depth`, and is black otherwise; depth 0 is black too. */
  method PreviewFrame(depth: seq<int>, gamma: seq<nat>, maxDepth: int) returns (frame: seq<Pixel>)
    requires |depth| == CamSize && ReadingsFit(depth, gamma)
    ensures |frame| == CamSize
    ensures forall i :: 0 <= i < CamSize && (depth[i] >= maxDepth || depth[i] == 0) ==> frame[i] == Black
    ensures forall i :: 0 <= i < CamSize && 0 < depth[i] < maxDepth ==>
              frame[i] == Quarter(SixBand(AvgDepthLevel(gamma, depth[i])))
    ensures forall i :: 0 <= i < CamSize ==> ValidPixel(frame[i]) && frame[i].r <= 63 && frame[i].g <= 63 && frame[i].b <= 63
  {
    frame := [];
    var i := 0;
    while i < CamSize
      invariant 0 <= i <= CamSize && |frame| == i
      invariant forall k :: 0 <= k < i && (depth[k] >= maxDepth || depth[k] == 0) ==> frame[k] == Black
      invariant forall k :: 0 <= k < i && 0 < depth[k] < maxDepth ==>
                  frame[k] == Quarter(SixBand(AvgDepthLevel(gamma, depth[k])))
      invariant forall k :: 0 <= k < i ==> ValidPixel(frame[k]) && frame[k].r <= 63 && frame[k].g <= 63 && frame[k].b <= 63
    {
      var px := if depth[i] < maxDepth then AvgDepthColor(gamma, depth[i]) else Black;
      frame := frame + [px];
      i := i + 1;
    }
  }

  // ---------------------------------------------------------------- block geometry

  /** Bounds of block (r, c): columns [x0, x1) and rows [y0, y1). */
  datatype Block = Block(x0: int, x1: int, y0: int, y1: int)

  const HalfHeight := 240

  function BlockOf(rows: int, cols: int, r: int, c: int): (b: Block)
    requires 0 <= r < rows && 0 <= c < cols
    ensures 0 <= b.x0 <= b.x1 <= CamWidth
    ensures HalfHeight <= b.y0 <= b.y1 <= CamHeight
  {
    SliceMonotone(CamWidth, cols, c, c + 1);
    SliceMonotone(CamWidth, cols, c + 1, cols);
    SliceMonotone(HalfHeight, rows, r, r + 1);
    SliceMonotone(HalfHeight, rows, r + 1, rows);
    SliceEnds(CamWidth, cols);
    SliceEnds(HalfHeight, rows);
    Block(SliceStart(CamWidth, cols, c), SliceStart(CamWidth, cols, c + 1),
          HalfHeight + SliceStart(HalfHeight, rows, r), HalfHeight + SliceStart(HalfHeight, rows, r + 1))
  }

  /** avgdepth.c:302-303: every pixel of the lower half of the frame lies in exactly one
      block, so the blocks partition it. */
  lemma BlocksPartition(rows: int, cols: int, x: int, y: int, r: int, c: int)
    requires 0 <= r < rows && 0 <= c < cols
    requires 0 <= x < CamWidth && HalfHeight <= y < CamHeight
    ensures (BlockOf(rows, cols, r, c).x0 <= x < BlockOf(rows, cols, r, c).x1
             && BlockOf(rows, cols, r, c).y0 <= y < BlockOf(rows, cols, r, c).y1)
            <==> (r == Owner(HalfHeight, rows, y - HalfHeight) && c == Owner(CamWidth, cols, x))
  {
    var b := BlockOf(rows, cols, r, c);
    if b.x0 <= x < b.x1 {
      OwnerUnique(CamWidth, cols, x, c);
    }
    if b.y0 <= y < b.y1 {
      OwnerUnique(HalfHeight, rows, y - HalfHeight, r);
    }
  }

  /** The readings of a block, column by column as the nested loops visit them. */
  function BlockSamples(depth: seq<int>, b: Block): (s: seq<int>)
    requires |depth| == CamSize && 0 <= b.x0 <= b.x1 <= CamWidth && 0 <= b.y0 <= b.y1 <= CamHeight
  {
    var h := b.y1 - b.y0;
    var w := b.x1 - b.x0;
    MulNonneg(w, h);
    seq(w * h, k requires 0 <= k < w * h =>
      BlockCell(b, h, k);
      depth[(b.x0 + k / h) + CamWidth * (b.y0 + k % h)])
  }

  lemma BlockCell(b: Block, h: int, k: int)
    requires 0 <= b.x0 <= b.x1 <= CamWidth && 0 <= b.y0 <= b.y1 <= CamHeight && h == b.y1 - b.y0
    requires 0 <= k < (b.x1 - b.x0) * h
    ensures h > 0 && b.x0 <= b.x0 + k / h < b.x1 && b.y0 <= b.y0 + k % h < b.y1
    ensures 0 <= (b.x0 + k / h) + CamWidth * (b.y0 + k % h) < CamSize
  {
    var w := b.x1 - b.x0;
    if h <= 0 {
      MulNonneg(w, -h);
      assert false;
    }
    DivNonneg(k, h);
    assert k == (k / h) * h + k % h;
    if k / h >= w {
      MulMonotone(w, k / h, h);
      assert false;
    }
  }

  /** Every pixel of the block is visited: pixel (x, y) is sample (x - x0) * h + (y - y0). */
  lemma BlockVisitsEveryPixel(depth: seq<int>, b: Block, x: int, y: int)
    requires |depth| == CamSize && 0 <= b.x0 <= b.x1 <= CamWidth && 0 <= b.y0 <= b.y1 <= CamHeight
    requires b.x0 <= x < b.x1 && b.y0 <= y < b.y1
    ensures 0 <= (x - b.x0) * (b.y1 - b.y0) + (y - b.y0) < |BlockSamples(depth, b)|
    ensures BlockSamples(depth, b)[(x - b.x0) * (b.y1 - b.y0) + (y - b.y0)] == depth[x + CamWidth * y]
  {
    var h := b.y1 - b.y0;
    var w := b.x1 - b.x0;
    var k := (x - b.x0) * h + (y - b.y0);
    MulNonneg(x - b.x0, h);
    MulMonotone(x - b.x0, w - 1, h);
    DivModUnique(k, x - b.x0, y - b.y0, h);
  }

  /** The readings kept by `if (d < max_depth)`, in order. */
  function Below(s: seq<int>, maxDepth: int): (kept: seq<int>)
    ensures forall k :: 0 <= k < |kept| ==> kept[k] < maxDepth && kept[k] in s
    ensures forall k :: 0 <= k < |s| && s[k] < maxDepth ==> s[k] in kept
    ensures |kept| <= |s|
  {
    if s == [] then []
    else if s[0] < maxDepth then [s[0]] + Below(s[1..], maxDepth)
    else Below(s[1..], maxDepth)
  }

  /** Every reading below `max_depth` is kept as often as it occurs, and no other reading
      is kept, so the sum and the count of the average are those of exactly these readings. */
  lemma {:induction false} BelowCounts(s: seq<int>, maxDepth: int)
    ensures forall v :: multiset(Below(s, maxDepth))[v] == if v < maxDepth then multiset(s)[v] else 0
  {
    if s != [] {
      BelowCounts(s[1..], maxDepth);
      assert s == [s[0]] + s[1..];
    }
  }

  // ---------------------------------------------------------------- the average

  /** The counted readings of block (r, c). */
  function Counted(depth: seq<int>, maxDepth: int, rows: int, cols: int, r: int, c: int): seq<int>
    requires |depth| == CamSize && 0 <= r < rows && 0 <= c < cols
  {
    Below(BlockSamples(depth, BlockOf(rows, cols, r, c)), maxDepth)
  }

  /** avgdepth.c:300-312: `avg` after the division, as the `uint16_t` that selects the
      colour.  With nothing counted it stays 0; otherwise it is a reading-sized value
      nearer than `max_depth`. */
  function BlockAverage(depth: seq<int>, gamma: seq<nat>, maxDepth: int, rows: int, cols: int,
                        r: int, c: int): (avg: int)
    requires |depth| == CamSize && ReadingsFit(depth, gamma) && 0 <= r < rows && 0 <= c < cols
    ensures |Counted(depth, maxDepth, rows, cols, r, c)| == 0 ==> avg == 0
    ensures |Counted(depth, maxDepth, rows, cols, r, c)| > 0 ==> 0 <= avg < maxDepth && avg < |gamma|
  {
    var counted := Counted(depth, maxDepth, rows, cols, r, c);
    if |counted| > 0 then
      BlockSamplesFit(depth, gamma, BlockOf(rows, cols, r, c));
      MeanWithin(counted, 0, if maxDepth < |gamma| then maxDepth - 1 else |gamma| - 1);
      Mean(counted)
    else 0
  }

  lemma BlockSamplesFit(depth: seq<int>, gamma: seq<nat>, b: Block)
    requires |depth| == CamSize && ReadingsFit(depth, gamma)
    requires 0 <= b.x0 <= b.x1 <= CamWidth && 0 <= b.y0 <= b.y1 <= CamHeight
    ensures forall v :: v in BlockSamples(depth, b) ==> 0 <= v < |gamma|
  {
    var s := BlockSamples(depth, b);
    var h := b.y1 - b.y0;
    forall k | 0 <= k < |s|
      ensures 0 <= s[k] < |gamma|
    {
      BlockCell(b, h, k);
      var idx := (b.x0 + k / h) + CamWidth * (b.y0 + k % h);
      assert s[k] == depth[idx];
    }
  }

  /** The average lies between the least and the greatest counted reading: any bounds
      that hold for every counted reading hold for it. */
  lemma BlockAverageWithin(depth: seq<int>, gamma: seq<nat>, maxDepth: int, rows: int, cols: int,
                           r: int, c: int, lo: int, hi: int)
    requires |depth| == CamSize && ReadingsFit(depth, gamma) && 0 <= r < rows && 0 <= c < cols
    requires |Counted(depth, maxDepth, rows, cols, r, c)| > 0
    requires forall v :: v in Counted(depth, maxDepth, rows, cols, r, c) ==> lo <= v <= hi
    ensures lo <= BlockAverage(depth, gamma, maxDepth, rows, cols, r, c) <= hi
  {
    MeanWithin(Counted(depth, maxDepth, rows, cols, r, c), lo, hi);
  }

  /** The colour of block (r, c) before the blend with the previous frame: black when the
      block holds no reading nearer than `max_depth`, a dimmed six-band colour otherwise. */
  function BlockColor(depth: seq<int>, gamma: seq<nat>, maxDepth: int, rows: int, cols: int,
                      r: int, c: int): (p: Pixel)
    requires |depth| == CamSize && ReadingsFit(depth, gamma) && 0 <= r < rows && 0 <= c < cols
    requires 0 < |gamma|
    ensures ValidPixel(p) && p.r <= 63 && p.g <= 63 && p.b <= 63
    ensures |Counted(depth, maxDepth, rows, cols, r, c)| == 0 ==> p == Black
  {
    AvgDepthColor(gamma, BlockAverage(depth, gamma, maxDepth, rows, cols, r, c))
  }
}
