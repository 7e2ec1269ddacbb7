/** The keyboard handlers `keyPressed` of avgdepth.c (avgdepth.c:115-168) and particles.c
    (particles.c:134-205).  Both tilt the camera with `w`, `s` and `x` between -30 and
    30 degrees; avgdepth.c moves its depth cut-off with `[` and `]`, and particles.c
    nudges its tuning knobs, where `s` and `x` also change the friction.  The LED-colour
    keys and the tilt call itself drive the device and are not modelled. */
module Keys {
  import ParticlePool

  const MaxTilt := 30

  const Escape: char := 27 as char

  predicate TiltInRange(angle: int)
  {
    -MaxTilt <= angle <= MaxTilt
  }

  /** `freenect_angle` after a key: `w` tilts up one degree and `x` down one, each
      clamped at the limit; `s` levels the camera. */
  function Tilt(angle: int, key: char): (a: int)
    ensures TiltInRange(angle) ==> TiltInRange(a)
    ensures key == 's' ==> a == 0
    ensures key == 'w' && angle < MaxTilt ==> a == angle + 1
    ensures key == 'x' && angle > -MaxTilt ==> a == angle - 1
    ensures key == 'w' && angle >= MaxTilt ==> a == MaxTilt
    ensures key == 'x' && angle <= -MaxTilt ==> a == -MaxTilt
    ensures key != 'w' && key != 's' && key != 'x' ==> a == angle
  {
    if key == 'w' then (if angle + 1 > MaxTilt then MaxTilt else angle + 1)
    else if key == 's' then 0
    else if key == 'x' then (if angle - 1 < -MaxTilt then -MaxTilt else angle - 1)
    else angle
  }

  /** How many times `c` occurs in `keys`. */
  function Count(keys: seq<char>, c: char): nat
  {
    if keys == [] then 0 else (if keys[0] == c then 1 else 0) + Count(keys[1..], c)
  }

  // ---------------------------------------------------------------- avgdepth.c

  datatype AvgDepthControls = AvgDepthControls(angle: int, maxDepth: int, quit: bool)

  /** avgdepth.c:62 and 77. */
  const AvgDepthStart := AvgDepthControls(0, 1090, false)

  /** One key: escape ends the program; otherwise tilt, and `[` / `]` lower or raise the
      depth cut-off by one raw unit. */
  function AvgDepthPress(st: AvgDepthControls, key: char): (next: AvgDepthControls)
    ensures key == Escape ==> next == st.(quit := true)
    ensures key != Escape ==> next.angle == Tilt(st.angle, key) && next.quit == st.quit
    ensures key != Escape ==> next.maxDepth == st.maxDepth + (if key == ']' then 1 else 0)
                                                            - (if key == '[' then 1 else 0)
  {
    if key == Escape then st.(quit := true)
    else
      var depth := if key == '[' then st.maxDepth - 1 else if key == ']' then st.maxDepth + 1 else st.maxDepth;
      AvgDepthControls(Tilt(st.angle, key), depth, st.quit)
  }

  /** The keys are handled one by one until escape ends the program. */
  function AvgDepthRun(st: AvgDepthControls, keys: seq<char>): AvgDepthControls
    decreases |keys|
  {
    if keys == [] || st.quit then st else AvgDepthRun(AvgDepthPress(st, keys[0]), keys[1..])
  }

  /** From a level camera, any key sequence keeps the tilt within [-30, 30]; without
      escape, the cut-off moves by the number of `]` minus the number of `[`. */
  lemma {:induction false} AvgDepthRunInvariant(st: AvgDepthControls, keys: seq<char>)
    requires TiltInRange(st.angle) && !st.quit
    ensures TiltInRange(AvgDepthRun(st, keys).angle)
    ensures Escape !in keys ==>
              AvgDepthRun(st, keys).maxDepth == st.maxDepth + Count(keys, ']') - Count(keys, '[')
              && !AvgDepthRun(st, keys).quit
    decreases |keys|
  {
    if keys != [] {
      var next := AvgDepthPress(st, keys[0]);
      if next.quit {
        assert keys[0] == Escape;
      } else {
        AvgDepthRunInvariant(next, keys[1..]);
        assert Escape !in keys ==> Escape !in keys[1..];
      }
    }
  }

  lemma AvgDepthTiltBounded(keys: seq<char>)
    ensures TiltInRange(AvgDepthRun(AvgDepthStart, keys).angle)
  {
    AvgDepthRunInvariant(AvgDepthStart, keys);
  }

  // ---------------------------------------------------------------- particles.c

  /** The tilt and the tuning knobs of particles.c (particles.c:69-75, 96). */
  datatype ParticlesControls = ParticlesControls(angle: int, depthMax: real, vrFriction: real, valDecay: real,
                                                 emit: ParticlePool.ParticlesKnobs, quit: bool)

  const ParticlesStart :=
    ParticlesControls(0, 3.0, 0.05, 0.95, ParticlePool.ParticlesKnobs(5.0, 0.05, 2.0, 0.03), false)

  /** The keys of the tuning switch (particles.c:182). */
  const TuningKeys := "[]azsxdcfvgbhn"

  /** The knob switch of particles.c:182-199: each listed key nudges one knob. */
  function Tune(st: ParticlesControls, key: char): (next: ParticlesControls)
    ensures next.angle == st.angle && next.quit == st.quit
    ensures key !in TuningKeys ==> next == st
    ensures key == 's' ==> next == st.(vrFriction := st.vrFriction + 0.01)
    ensures key == 'x' ==> next == st.(vrFriction := st.vrFriction - 0.01)
  {
    var e := st.emit;
    match key
    case '[' => st.(depthMax := st.depthMax - 0.1)
    case ']' => st.(depthMax := st.depthMax + 0.1)
    case 'a' => st.(emit := e.(minEmitVr := e.minEmitVr + 0.1))
    case 'z' => st.(emit := e.(minEmitVr := e.minEmitVr - 0.1))
    case 's' => st.(vrFriction := st.vrFriction + 0.01)
    case 'x' => st.(vrFriction := st.vrFriction - 0.01)
    case 'd' => st.(emit := e.(emitVelocity := e.emitVelocity + 0.01))
    case 'c' => st.(emit := e.(emitVelocity := e.emitVelocity - 0.01))
    case 'f' => st.(emit := e.(emitHue := e.emitHue + 0.01))
    case 'v' => st.(emit := e.(emitHue := e.emitHue - 0.01))
    case 'g' => st.(emit := e.(emitValue := e.emitValue + 0.01))
    case 'b' => st.(emit := e.(emitValue := e.emitValue - 0.01))
    case 'h' => st.(valDecay := st.valDecay + 0.01)
    case 'n' => st.(valDecay := st.valDecay - 0.01)
    case _ => st
  }

  /** One key of particles.c: escape ends the program; otherwise the tilt keys act and
      then the knob switch runs, so `s` both levels the camera and raises the friction,
      and `x` both tilts down and lowers it. */
  function ParticlesPress(st: ParticlesControls, key: char): (next: ParticlesControls)
    ensures key == Escape ==> next == st.(quit := true)
    ensures key != Escape ==> next.angle == Tilt(st.angle, key) && next.quit == st.quit
    ensures key != Escape && key !in TuningKeys ==> next == st.(angle := Tilt(st.angle, key))
  {
    if key == Escape then st.(quit := true)
    else Tune(st.(angle := Tilt(st.angle, key)), key)
  }

  function ParticlesRun(st: ParticlesControls, keys: seq<char>): ParticlesControls
    decreases |keys|
  {
    if keys == [] || st.quit then st else ParticlesRun(ParticlesPress(st, keys[0]), keys[1..])
  }

  lemma {:induction false} ParticlesRunTilt(st: ParticlesControls, keys: seq<char>)
    requires TiltInRange(st.angle)
    ensures TiltInRange(ParticlesRun(st, keys).angle)
    decreases |keys|
  {
    if keys != [] && !st.quit {
      ParticlesRunTilt(ParticlesPress(st, keys[0]), keys[1..]);
    }
  }

  lemma ParticlesTiltBounded(keys: seq<char>)
    ensures TiltInRange(ParticlesRun(ParticlesStart, keys).angle)
  {
    ParticlesRunTilt(ParticlesStart, keys);
  }

  /** Nothing bounds the knobs: six presses of `x` take the friction below zero, and a
      negative friction speeds particles up instead of slowing them. */
  lemma FrictionGoesNegative()
    ensures ParticlesRun(ParticlesStart, "xxxxxx").vrFriction < 0.0
    ensures ParticlePool.Friction(1.0, ParticlesRun(ParticlesStart, "xxxxxx").vrFriction) > 1.0
  {
    var st := ParticlesRun(ParticlesStart, "xxxxxx");
    assert st.vrFriction == 0.05 - 0.06;
  }
}
