/** The camera-rotation remap of play.c `f_depth_callback` (play.c:754-789): each incoming
    640x480 frame of raw depth readings is written into `f_depth`, in millimetres,
    rotated by `cam_rot` quarter turns.  A quarter turn only fits a 480x480 square, so
    rotations 1 and 3 fill the centred columns [80, 560), shifted vertically by `y_shift`,
    and zero the rest.  The conversion `depth_to_mm` is floating point and is a
    parameter `toMm` here. */
module Rotation {
  import opened CArith
  import opened Layout
  import Handoff

  /** The centred 480-pixel square that the quarter turns fill. */
  const SquareLeft := 80
  const SquareRight := 560

  /** `y_shift` is a parameter clamped to [-80, 80] (play.c:65). */
  const MaxYShift := 80

  predicate InSquare(x: int)
  {
    SquareLeft <= x < SquareRight
  }

  /** The rotations that `switch (cam_rot_int)` handles. */
  predicate KnownRotation(rot: int)
  {
    0 <= rot <= 3
  }

  /** Index of the raw sample that destination pixel (x, y) reads; for the quarter turns
      the index stays in the frame for every `y_shift` the parameter table allows. */
  function SourceIndex(rot: int, yShift: int, x: int, y: int): (j: int)
    requires KnownRotation(rot) && 0 <= x < CamWidth && 0 <= y < CamHeight
    requires rot == 1 || rot == 3 ==> InSquare(x)
    requires -MaxYShift <= yShift <= MaxYShift
    ensures 0 <= j < CamSize
  {
    if rot == 0 then y * CamWidth + x
    else if rot == 1 then (x - SquareLeft) * CamWidth + (479 - y) + 80 + yShift
    else if rot == 2 then (479 - y) * CamWidth + (639 - x)
    else (479 - (x - SquareLeft)) * CamWidth + y + 80 + yShift
  }

  /** The value the callback leaves at `f_depth[i]`. */
  function RotatedAt(prev: seq<int>, data: seq<int>, rot: int, yShift: int, toMm: int -> int, i: int): int
    requires |prev| == CamSize && |data| == CamSize && 0 <= i < CamSize
    requires -MaxYShift <= yShift <= MaxYShift
  {
    var x, y := i % CamWidth, i / CamWidth;
    if !KnownRotation(rot) then prev[i]
    else if (rot == 1 || rot == 3) && !InSquare(x) then 0
    else toMm(data[SourceIndex(rot, yShift, x, y)])
  }

  /** The whole remap.  Rotation 0 converts in place, rotation 2 is the half turn that
      reverses the frame, the quarter turns zero every column outside the square, and a
      rotation the switch does not handle leaves the previous frame untouched. */
  function Rotate(prev: seq<int>, data: seq<int>, rot: int, yShift: int, toMm: int -> int): (f: seq<int>)
    requires |prev| == CamSize && |data| == CamSize
    requires -MaxYShift <= yShift <= MaxYShift
    ensures |f| == CamSize
    ensures rot == 0 ==> forall i :: 0 <= i < CamSize ==> f[i] == toMm(data[i])
    ensures rot == 2 ==> forall i :: 0 <= i < CamSize ==> f[i] == toMm(data[CamSize - 1 - i])
    ensures rot == 1 || rot == 3 ==>
              forall i :: 0 <= i < CamSize && !InSquare(i % CamWidth) ==> f[i] == 0
    ensures !KnownRotation(rot) ==> f == prev
  {
    var f := seq(CamSize, i requires 0 <= i < CamSize => RotatedAt(prev, data, rot, yShift, toMm, i));
    assert rot == 0 ==> forall i :: 0 <= i < CamSize ==> f[i] == toMm(data[i]) by {
      forall i | 0 <= i < CamSize && rot == 0
        ensures f[i] == toMm(data[i])
      {
        assert i == (i / CamWidth) * CamWidth + i % CamWidth;
      }
    }
    assert rot == 2 ==> forall i :: 0 <= i < CamSize ==> f[i] == toMm(data[CamSize - 1 - i]) by {
      forall i | 0 <= i < CamSize && rot == 2
        ensures f[i] == toMm(data[CamSize - 1 - i])
      {
        assert i == (i / CamWidth) * CamWidth + i % CamWidth;
      }
    }
    f
  }

  /** Inside the square, rotation 1 reads row x - 80 of the raw frame, right to left. */
  lemma QuarterTurnSource(prev: seq<int>, data: seq<int>, yShift: int, toMm: int -> int, x: int, y: int)
    requires |prev| == CamSize && |data| == CamSize && -MaxYShift <= yShift <= MaxYShift
    requires InSquare(x) && 0 <= y < CamHeight
    ensures 0 <= 559 - y + yShift < CamWidth
    ensures Rotate(prev, data, 1, yShift, toMm)[y * CamWidth + x]
         == toMm(data[(x - SquareLeft) * CamWidth + (559 - y + yShift)])
  {
    var i := y * CamWidth + x;
    assert i % CamWidth == x && i / CamWidth == y;
  }

  /** Destination pixel (x, y) of rotation 2 reads source pixel (639 - x, 479 - y). */
  lemma HalfTurnSource(prev: seq<int>, data: seq<int>, yShift: int, toMm: int -> int, x: int, y: int)
    requires |prev| == CamSize && |data| == CamSize && -MaxYShift <= yShift <= MaxYShift
    requires 0 <= x < CamWidth && 0 <= y < CamHeight
    ensures Rotate(prev, data, 2, yShift, toMm)[y * CamWidth + x]
         == toMm(data[(479 - y) * CamWidth + (639 - x)])
  {}

  /** The half turn is its own inverse: rotating an already rotated frame (with the
      identity conversion) gives back the frame, so the remap is a bijection of
      [0, 640*480). */
  lemma HalfTurnInvolution(prev: seq<int>, data: seq<int>, yShift: int)
    requires |prev| == CamSize && |data| == CamSize && -MaxYShift <= yShift <= MaxYShift
    ensures Rotate(prev, Rotate(prev, data, 2, yShift, n => n), 2, yShift, n => n) == data
  {
    var once := Rotate(prev, data, 2, yShift, n => n);
    var twice := Rotate(prev, once, 2, yShift, n => n);
    assert forall i :: 0 <= i < CamSize ==> twice[i] == once[CamSize - 1 - i];
  }

  /** The quarter turns never read one raw sample twice: distinct destinations inside the
      square have distinct sources. */
  lemma QuarterTurnInjective(rot: int, yShift: int, x1: int, y1: int, x2: int, y2: int)
    requires rot == 1 || rot == 3
    requires -MaxYShift <= yShift <= MaxYShift
    requires InSquare(x1) && 0 <= y1 < CamHeight && InSquare(x2) && 0 <= y2 < CamHeight
    requires SourceIndex(rot, yShift, x1, y1) == SourceIndex(rot, yShift, x2, y2)
    ensures x1 == x2 && y1 == y2
  {
    var j := SourceIndex(rot, yShift, x1, y1);
    if rot == 1 {
      DivModUnique(j, x1 - SquareLeft, 559 - y1 + yShift, CamWidth);
      DivModUnique(j, x2 - SquareLeft, 559 - y2 + yShift, CamWidth);
    } else {
      DivModUnique(j, 559 - x1, y1 + 80 + yShift, CamWidth);
      DivModUnique(j, 559 - x2, y2 + 80 + yShift, CamWidth);
    }
  }

  /** Rotation 3 is rotation 1 followed by the half turn: the three-quarter turn. */
  lemma ThreeQuarters(prev: seq<int>, data: seq<int>, yShift: int, toMm: int -> int)
    requires |prev| == CamSize && |data| == CamSize && -MaxYShift <= yShift <= MaxYShift
    ensures Rotate(prev, Rotate(prev, data, 1, yShift, toMm), 2, yShift, n => n)
         == Rotate(prev, data, 3, yShift, toMm)
  {
    var quarter := Rotate(prev, data, 1, yShift, toMm);
    var lhs := Rotate(prev, quarter, 2, yShift, n => n);
    var rhs := Rotate(prev, data, 3, yShift, toMm);
    forall i | 0 <= i < CamSize
      ensures lhs[i] == rhs[i]
    {
      var x, y := i % CamWidth, i / CamWidth;
      var k := CamSize - 1 - i;
      DivModUnique(k, 479 - y, 639 - x, CamWidth);
      assert lhs[i] == quarter[k];
    }
  }

  // ---------------------------------------------------------------- the callback

  /** Both depth buffers hold whole frames. */
  predicate WholeFrames(st: Handoff.State<seq<int>>)
  {
    |st.one| == CamSize && |st.two| == CamSize && Handoff.Distinct(st)
  }

  /** `f_depth_callback` (play.c:746-795) on the handoff: while paused nothing changes;
      otherwise the remap is written over the camera side's buffer, which is then handed
      over.  The display side keeps showing its own frame until it swaps. */
  function DepthCallback(st: Handoff.State<seq<int>>, data: seq<int>, paused: bool, rot: int, yShift: int,
                         toMm: int -> int): (next: Handoff.State<seq<int>>)
    requires WholeFrames(st) && |data| == CamSize && -MaxYShift <= yShift <= MaxYShift
    ensures WholeFrames(next)
    ensures paused ==> next == st
    ensures !paused ==> next.ready && Handoff.Shown(next) == Handoff.Shown(st)
    ensures !paused ==>
              Handoff.Shown(Handoff.Consume(next)) == Rotate(Handoff.Pending(st), data, rot, yShift, toMm)
  {
    if paused then st
    else Handoff.Produce(st, Rotate(Handoff.Pending(st), data, rot, yShift, toMm))
  }

  /** A rotation the switch does not handle still raises the flag, so the display is
      handed the stale frame left in the camera side's buffer two swaps earlier. */
  lemma UnknownRotationHandsOverStale(st: Handoff.State<seq<int>>, data: seq<int>, rot: int, yShift: int,
                                      toMm: int -> int)
    requires WholeFrames(st) && |data| == CamSize && -MaxYShift <= yShift <= MaxYShift
    requires !KnownRotation(rot)
    ensures Handoff.Shown(Handoff.Consume(DepthCallback(st, data, false, rot, yShift, toMm)))
         == Handoff.Pending(st)
  {}
}
