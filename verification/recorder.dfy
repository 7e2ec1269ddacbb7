/** record.c: every depth frame the camera delivers is stored, up to `MAX_FRAMES`, and is
    drawn with the six-band ramp into the buffer the display then shows
    (`f_draw`, record.c:144-158, and `f_depth_callback`, record.c:160-174).  Once the
    store is full the callback asks the display to quit, which writes the stored frames
    out.  The time stamp stored with each frame and the file writing are not modelled. */
module Recorder {
  import opened Pixels
  import opened Ramps
  import opened Layout
  import Handoff

  const MaxFrames := 300

  /** `f_draw`: each pixel is the record.c ramp colour of its own reading. */
  function DrawFrame(depth: seq<nat>): (frame: seq<Pixel>)
    requires |depth| == CamSize
    ensures |frame| == CamSize
    ensures forall i :: 0 <= i < CamSize ==> ValidPixel(frame[i])
    ensures forall i :: 0 <= i < CamSize ==> (frame[i] == Black <==> depth[i] >= 1090)
    ensures forall i :: 0 <= i < CamSize ==> (frame[i] == White <==> depth[i] == 0)
  {
    seq(CamSize, i requires 0 <= i < CamSize => RecordColor(depth[i]))
  }

  /** The drawing is pointwise: pixel i depends on reading i alone. */
  lemma DrawFramePointwise(a: seq<nat>, b: seq<nat>, i: int)
    requires |a| == CamSize && |b| == CamSize && 0 <= i < CamSize && a[i] == b[i]
    ensures DrawFrame(a)[i] == DrawFrame(b)[i]
  {}

  datatype Recording = Recording(frames: seq<seq<nat>>, quit: bool, view: Handoff.State<seq<Pixel>>)

  predicate Sane(st: Recording)
  {
    |st.frames| <= MaxFrames && Handoff.Distinct(st.view)
  }

  /** `f_depth_callback`: store the frame while there is room, else ask to quit; then draw
      it for the display. */
  function Callback(st: Recording, depth: seq<nat>): (next: Recording)
    requires Sane(st) && |depth| == CamSize
    ensures Sane(next)
    ensures |st.frames| < MaxFrames ==> next.frames == st.frames + [depth] && next.quit == st.quit
    ensures |st.frames| >= MaxFrames ==> next.frames == st.frames && next.quit
    ensures Handoff.Pending(next.view) == DrawFrame(depth) && next.view.ready
  {
    var drawn := Handoff.Produce(st.view, DrawFrame(depth));
    if |st.frames| < MaxFrames then Recording(st.frames + [depth], st.quit, drawn)
    else Recording(st.frames, true, drawn)
  }

  function Min(a: int, b: int): int
  {
    if a < b then a else b
  }

  /** The callbacks for a sequence of camera frames, in order. */
  function Capture(st: Recording, depths: seq<seq<nat>>): (next: Recording)
    requires Sane(st) && forall k :: 0 <= k < |depths| ==> |depths[k]| == CamSize
    ensures Sane(next)
    decreases |depths|
  {
    if depths == [] then st
    else Capture(Callback(st, depths[0]), depths[1..])
  }

  /** From an empty store, frame k of the recording is the k-th frame the camera
      delivered; the store never exceeds `MAX_FRAMES`, and quitting is requested exactly
      when a frame arrived with the store full. */
  lemma {:induction false} CaptureKeepsFirstFrames(st: Recording, depths: seq<seq<nat>>)
    requires Sane(st) && forall k :: 0 <= k < |depths| ==> |depths[k]| == CamSize
    ensures Capture(st, depths).frames
         == st.frames + depths[..Min(|depths|, MaxFrames - |st.frames|)]
    ensures Capture(st, depths).quit <==> st.quit || |st.frames| + |depths| > MaxFrames
    decreases |depths|
  {
    if depths != [] {
      var next := Callback(st, depths[0]);
      CaptureKeepsFirstFrames(next, depths[1..]);
      if |st.frames| < MaxFrames {
        var m := Min(|depths[1..]|, MaxFrames - |next.frames|);
        assert depths[..m + 1] == [depths[0]] + depths[1..][..m];
      }
    }
  }

  lemma RecordingFromStart(view: Handoff.State<seq<Pixel>>, depths: seq<seq<nat>>)
    requires Handoff.Distinct(view) && forall k :: 0 <= k < |depths| ==> |depths[k]| == CamSize
    ensures Capture(Recording([], false, view), depths).frames == depths[..Min(|depths|, MaxFrames)]
    ensures Capture(Recording([], false, view), depths).quit <==> |depths| > MaxFrames
  {
    CaptureKeepsFirstFrames(Recording([], false, view), depths);
  }

  /** What the display shows after the last callback is the drawing of the last frame,
      whether or not it was stored. */
  lemma {:induction false} CaptureShowsLast(st: Recording, depths: seq<seq<nat>>)
    requires Sane(st) && forall k :: 0 <= k < |depths| ==> |depths[k]| == CamSize
    requires depths != []
    ensures Handoff.Shown(Handoff.Consume(Capture(st, depths).view)) == DrawFrame(depths[|depths| - 1])
    decreases |depths|
  {
    var next := Callback(st, depths[0]);
    if |depths| == 1 {
      assert Capture(next, depths[1..]) == next;
    } else {
      CaptureShowsLast(next, depths[1..]);
      assert depths[1..][|depths[1..]| - 1] == depths[|depths| - 1];
    }
  }
}
