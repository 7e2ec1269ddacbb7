/** The tunable parameters of play.c (the table `g_params`, play.c:55-76) and the keys that
    step them (`g_keypress` and `g_special`, play.c:641-704).  The up and down arrows
    step the selected parameter, either by `delta` scaled by the modifier keys and
    clamped at one end, or modulo `modulo` for the cyclic switches; left and right
    select the previous or next parameter, wrapping around.

    `value`, `delta`, `min` and `max` are `float`s; they are `real` here. */
module Params {
  import opened CArith

  datatype Param = Param(name: string, value: real, delta: real, min: real, max: real, modulo: int)

  /** play.c:55-76, without the names' print formats. */
  const InitialParams: seq<Param> := [
    Param("min_depth", 0.5, 0.1, 0.1, 9.0, 0),
    Param("max_depth", 2.7, 0.1, 0.1, 9.0, 0),
    Param("x_width", 640.0, 1.0, 10.0, 640.0, 0),
    Param("y_height", 460.0, 1.0, 10.0, 480.0, 0),
    Param("c_flip", 1.0, 1.0, 0.0, 1.0, 2),
    Param("r_shift", 0.0, 1.0, -50.0, 50.0, 0),
    Param("cam_rot", 0.0, 1.0, 0.0, 3.0, 4),
    Param("y_shift", 0.0, 1.0, -80.0, 80.0, 0),
    Param("emit_min_v", 10.0, 0.1, 0.1, 100.0, 0),
    Param("emit_velf", 0.05, 0.01, 0.0, 1.0, 0),
    Param("friction", 0.05, 0.01, 0.0, 1.0, 0),
    Param("depth_step", 0.15, 0.10, 0.0, 10.0, 0),
    Param("hue_cycles", 1.0, 0.1, 0.1, 4.0, 0),
    Param("emit_valf", 0.030, 0.01, 0.0, 1.0, 0),
    Param("val_decay", 0.950, 0.01, 0.0, 1.0, 0),
    Param("max_val", 255.0, 10.0, 0.0, 255.0, 0)
  ]

  /** Indices of the parameters other parts of the program read. */
  const CamRot := 6
  const YShift := 7

  /** A value that is a whole number. */
  predicate Whole(x: real)
  {
    Trunc(x) as real == x
  }

  /** A parameter the keys keep in shape: a positive step, the value within [min, max],
      and for a cyclic parameter a unit step, a whole value in [0, modulo) and bounds
      that do not cut the cycle short. */
  predicate WellFormed(p: Param)
  {
    && p.delta > 0.0
    && p.min <= p.value <= p.max
    && p.modulo >= 0
    && (p.modulo > 0 ==>
          && p.delta == 1.0 && Whole(p.value) && 0.0 <= p.value < p.modulo as real
          && p.min <= 0.0 && (p.modulo - 1) as real <= p.max)
  }

  lemma InitialWellFormed()
    ensures |InitialParams| == 16
    ensures forall i :: 0 <= i < |InitialParams| ==> WellFormed(InitialParams[i])
    ensures InitialParams[CamRot].name == "cam_rot" && InitialParams[YShift].name == "y_shift"
  {
    assert Trunc(1.0) == 1 && Trunc(0.0) == 0;
  }

  /** play.c:681: shift multiplies the step by 10, control by 0.1. */
  function Magnitude(shift: bool, ctrl: bool): (mag: real)
    ensures mag > 0.0
    ensures shift == ctrl ==> mag == 1.0
    ensures shift && !ctrl ==> mag == 10.0
    ensures !shift && ctrl ==> mag == 0.1
  {
    (if shift then 10.0 else 1.0) * (if ctrl then 0.1 else 1.0)
  }

  /** `GLUT_KEY_UP` (play.c:683-688): the cyclic parameters ignore the modifiers. */
  function StepUp(p: Param, mag: real): (q: Param)
    ensures q == p.(value := q.value)
    ensures q.value <= p.max
  {
    var v := if p.modulo != 0 then CMod(Trunc(p.value + p.delta), p.modulo) as real
             else p.value + p.delta * mag;
    p.(value := if v > p.max then p.max else v)
  }

  /** `GLUT_KEY_DOWN` (play.c:689-695). */
  function StepDown(p: Param, mag: real): (q: Param)
    ensures q == p.(value := q.value)
    ensures q.value >= p.min
  {
    var v := if p.modulo != 0 then CMod(Trunc(p.value + p.modulo as real - p.delta), p.modulo) as real
             else p.value - p.delta * mag;
    p.(value := if v < p.min then p.min else v)
  }

  /** Stepping a well-formed parameter either way keeps it well formed; in particular its
      value stays within [min, max]. */
  lemma StepsKeepWellFormed(p: Param, mag: real)
    requires WellFormed(p) && (p.modulo == 0 ==> mag > 0.0)
    ensures WellFormed(StepUp(p, mag)) && WellFormed(StepDown(p, mag))
  {
    if p.modulo > 0 {
      var k := Trunc(p.value);
      assert Trunc(p.value + p.delta) == k + 1;
      assert Trunc(p.value + p.modulo as real - p.delta) == k + p.modulo - 1;
      var up := (k + 1) % p.modulo;
      var down := (k + p.modulo - 1) % p.modulo;
      assert Trunc(up as real) == up && Trunc(down as real) == down;
    } else {
      MulPositive(p.delta, mag);
    }
  }

  lemma MulPositive(x: real, y: real)
    requires x > 0.0 && y > 0.0
    ensures x * y > 0.0
  {}

  /** A cyclic parameter holding k steps up to (k + 1) mod modulo and down to
      (k - 1) mod modulo. */
  lemma CyclicSteps(p: Param, mag: real)
    requires WellFormed(p) && p.modulo > 0
    ensures StepUp(p, mag).value == ((Trunc(p.value) + 1) % p.modulo) as real
    ensures StepDown(p, mag).value == ((Trunc(p.value) - 1) % p.modulo) as real
  {
    var k := Trunc(p.value);
    assert Trunc(p.value + p.delta) == k + 1;
    assert Trunc(p.value + p.modulo as real - p.delta) == k + p.modulo - 1;
    DivModUnique(k - 1, (k - 1) / p.modulo, (k - 1) % p.modulo, p.modulo);
    assert (k + p.modulo - 1) % p.modulo == (k - 1) % p.modulo by {
      DivModUnique(k + p.modulo - 1, (k - 1) / p.modulo + 1, (k - 1) % p.modulo, p.modulo);
    }
  }

  /** On a cyclic parameter, up and down undo each other. */
  lemma CyclicInverse(p: Param, mag: real)
    requires WellFormed(p) && p.modulo > 0
    ensures StepDown(StepUp(p, mag), mag) == p
    ensures StepUp(StepDown(p, mag), mag) == p
  {
    DownUndoesUp(p, mag);
    UpUndoesDown(p, mag);
  }

  lemma DownUndoesUp(p: Param, mag: real)
    requires WellFormed(p) && p.modulo > 0
    ensures StepDown(StepUp(p, mag), mag) == p
  {
    var k, m := Trunc(p.value), p.modulo;
    CyclicSteps(p, mag);
    StepsKeepWellFormed(p, mag);
    var up := StepUp(p, mag);
    CyclicSteps(up, mag);
    TruncWhole((k + 1) % m);
    ModShift(k + 1, -1, m);
    DivModUnique(k, 0, k, m);
  }

  lemma UpUndoesDown(p: Param, mag: real)
    requires WellFormed(p) && p.modulo > 0
    ensures StepUp(StepDown(p, mag), mag) == p
  {
    var k, m := Trunc(p.value), p.modulo;
    CyclicSteps(p, mag);
    StepsKeepWellFormed(p, mag);
    var down := StepDown(p, mag);
    CyclicSteps(down, mag);
    TruncWhole((k - 1) % m);
    ModShift(k - 1, 1, m);
    DivModUnique(k, 0, k, m);
  }

  /** ((a mod m) + d) mod m == (a + d) mod m. */
  lemma ModShift(a: int, d: int, m: int)
    requires m > 0
    ensures ((a % m) + d) % m == (a + d) % m
  {
    DivModUnique((a % m) + d, ((a % m) + d) / m, ((a % m) + d) % m, m);
    DivModUnique(a + d, ((a % m) + d) / m + a / m, ((a % m) + d) % m, m);
  }

  /** Pressing up `n` times from value k of a cyclic parameter reaches (k + n) mod modulo,
      so `modulo` presses visit every value and return to the start. */
  lemma {:induction false} CyclicOrbit(p: Param, mag: real, n: nat)
    requires WellFormed(p) && p.modulo > 0
    ensures WellFormed(UpTimes(p, mag, n)) && UpTimes(p, mag, n) == p.(value := UpTimes(p, mag, n).value)
    ensures UpTimes(p, mag, n).value == ((Trunc(p.value) + n) % p.modulo) as real
  {
    var k := Trunc(p.value);
    if n == 0 {
      DivModUnique(k, 0, k, p.modulo);
    } else {
      CyclicOrbit(p, mag, n - 1);
      var q := UpTimes(p, mag, n - 1);
      UpFromCycle(q, mag, k + n - 1);
      assert UpTimes(p, mag, n) == StepUp(q, mag);
    }
  }

  /** One press of up on a cyclic parameter holding j mod modulo. */
  lemma UpFromCycle(q: Param, mag: real, j: int)
    requires WellFormed(q) && q.modulo > 0 && q.value == (j % q.modulo) as real
    ensures WellFormed(StepUp(q, mag)) && StepUp(q, mag) == q.(value := StepUp(q, mag).value)
    ensures StepUp(q, mag).value == ((j + 1) % q.modulo) as real
  {
    StepsKeepWellFormed(q, mag);
    CyclicSteps(q, mag);
    TruncWhole(j % q.modulo);
    ModShift(j, 1, q.modulo);
  }

  lemma TruncWhole(j: int)
    ensures Trunc(j as real) == j
  {}

  function UpTimes(p: Param, mag: real, n: nat): Param
  {
    if n == 0 then p else StepUp(UpTimes(p, mag, n - 1), mag)
  }

  /** `GLUT_KEY_LEFT` (play.c:696-698). */
  function SelectPrevious(selected: int, count: int): (s: int)
    requires count > 0 && 0 <= selected < count
    ensures 0 <= s < count
    ensures s == (if selected == 0 then count - 1 else selected - 1)
  {
    DivModUnique(selected + count - 1, if selected == 0 then 0 else 1,
                 if selected == 0 then count - 1 else selected - 1, count);
    CMod(selected + count - 1, count)
  }

  /** `GLUT_KEY_RIGHT` (play.c:699-701). */
  function SelectNext(selected: int, count: int): (s: int)
    requires count > 0 && 0 <= selected < count
    ensures 0 <= s < count
    ensures s == (if selected == count - 1 then 0 else selected + 1)
  {
    DivModUnique(selected + 1, if selected == count - 1 then 1 else 0,
                 if selected == count - 1 then 0 else selected + 1, count);
    CMod(selected + 1, count)
  }

  /** Left and right undo each other. */
  lemma SelectionInverse(selected: int, count: int)
    requires count > 0 && 0 <= selected < count
    ensures SelectNext(SelectPrevious(selected, count), count) == selected
    ensures SelectPrevious(SelectNext(selected, count), count) == selected
  {}

  // ---------------------------------------------------------------- the keys

  datatype Special = Up | Down | Left | Right

  /** The state the keys act on. */
  datatype Ui = Ui(params: seq<Param>, selected: int, paused: bool, quit: bool)

  predicate UiWellFormed(ui: Ui)
  {
    && 0 <= ui.selected < |ui.params|
    && forall i :: 0 <= i < |ui.params| ==> WellFormed(ui.params[i])
  }

  /** The parameters differ at most in their values. */
  predicate SameShape(a: seq<Param>, b: seq<Param>)
  {
    |a| == |b| && forall i :: 0 <= i < |a| ==> b[i] == a[i].(value := b[i].value)
  }

  const InitialUi := Ui(InitialParams, 0, false, false)

  /** `g_special`: only the selected parameter changes, and only its value. */
  function PressSpecial(ui: Ui, key: Special, shift: bool, ctrl: bool): (next: Ui)
    requires UiWellFormed(ui)
    ensures UiWellFormed(next) && SameShape(ui.params, next.params)
    ensures next.paused == ui.paused && next.quit == ui.quit
    ensures forall i :: 0 <= i < |ui.params| && i != ui.selected ==> next.params[i] == ui.params[i]
    ensures key.Left? || key.Right? ==> next.params == ui.params
    ensures key.Up? || key.Down? ==> next.selected == ui.selected
  {
    var p := ui.params[ui.selected];
    var mag := Magnitude(shift, ctrl);
    StepsKeepWellFormed(p, mag);
    match key
    case Up => ui.(params := ui.params[ui.selected := StepUp(p, mag)])
    case Down => ui.(params := ui.params[ui.selected := StepDown(p, mag)])
    case Left => ui.(selected := SelectPrevious(ui.selected, |ui.params|))
    case Right => ui.(selected := SelectNext(ui.selected, |ui.params|))
  }

  const Escape: char := 27 as char

  /** `g_keypress` without the digit keys, which load and save parameter files: escape
      asks to quit, space toggles the pause, and `=`/`+`, `-`/`_`, `[` and `]` act as
      up, down, left and right. */
  function Press(ui: Ui, key: char, shift: bool, ctrl: bool): (next: Ui)
    requires UiWellFormed(ui)
    ensures UiWellFormed(next) && SameShape(ui.params, next.params)
    ensures next.quit == (ui.quit || key == Escape)
    ensures next.paused == (if key == ' ' then !ui.paused else ui.paused)
    ensures key !in "=+-_[]" ==> next.params == ui.params && next.selected == ui.selected
  {
    var ui1 := if key == Escape then ui.(quit := true) else ui;
    var ui2 := if key == ' ' then ui1.(paused := !ui1.paused) else ui1;
    if key == '=' || key == '+' then PressSpecial(ui2, Up, shift, ctrl)
    else if key == '-' || key == '_' then PressSpecial(ui2, Down, shift, ctrl)
    else if key == '[' then PressSpecial(ui2, Left, shift, ctrl)
    else if key == ']' then PressSpecial(ui2, Right, shift, ctrl)
    else ui2
  }

  /** A key press with its modifier state. */
  datatype Stroke = Stroke(key: char, shift: bool, ctrl: bool)

  function PressAll(ui: Ui, strokes: seq<Stroke>): Ui
    requires UiWellFormed(ui)
    decreases |strokes|
  {
    if strokes == [] then ui
    else
      var next := Press(ui, strokes[0].key, strokes[0].shift, strokes[0].ctrl);
      PressAll(next, strokes[1..])
  }

  /** From the initial table, any sequence of keys keeps every parameter within its
      bounds and keeps the bounds themselves; so the camera rotation stays one of the
      four quarter turns and the vertical shift stays within [-80, 80]. */
  lemma KeysKeepParamsInRange(strokes: seq<Stroke>)
    ensures UiWellFormed(PressAll(InitialUi, strokes))
    ensures SameShape(InitialParams, PressAll(InitialUi, strokes).params)
    ensures
            var ps := PressAll(InitialUi, strokes).params;
            Whole(ps[CamRot].value) && 0.0 <= ps[CamRot].value <= 3.0 && -80.0 <= ps[YShift].value <= 80.0
  {
    InitialWellFormed();
    PressAllKeeps(InitialUi, strokes);
  }

  /** Shift with `+`: the selected parameter steps up by ten deltas. */
  const BigUp := Stroke('+', true, false)
  const NextParam := Stroke(']', false, false)

  /** Nine big steps up on `min_depth`, then `]`, then seven big steps up on `max_depth`. */
  const EqualLimitKeys: seq<Stroke> := seq(9, _ => BigUp) + [NextParam] + seq(7, _ => BigUp)

  /** The keys can make the depth limits equal: both clamp at their common maximum 9.0,
      and then play.c's ramp (play.c:251, play.c:490) divides by `max_mm - min_mm == 0`. */
  lemma EqualDepthLimitsReachable()
    ensures var ps := PressAll(InitialUi, EqualLimitKeys).params;
            |ps| == 16 && ps[0].name == "min_depth" && ps[1].name == "max_depth" &&
            ps[0].value == 9.0 && ps[1].value == 9.0
  {
    InitialWellFormed();
    var keys := EqualLimitKeys;
    assert |keys| == 17;
    assert forall j :: 0 <= j < 17 ==> keys[j] == WitnessKey(j);
    var u := InitialUi;
    var i := 0;
    assert keys[0..] == keys;
    while i < 17
      invariant 0 <= i <= 17
      invariant WitnessState(u, i)
      invariant PressAll(u, keys[i..]) == PressAll(InitialUi, keys)
    {
      PressAllFirst(u, keys[i..]);
      assert keys[i..][0] == WitnessKey(i) && keys[i..][1..] == keys[i + 1..];
      u := WitnessStep(u, i);
      i := i + 1;
    }
    assert keys[17..] == [];
  }

  /** Stroke i of `EqualLimitKeys`. */
  function WitnessKey(i: int): Stroke
  {
    if i == 9 then NextParam else BigUp
  }

  /** The state after i strokes of `EqualLimitKeys`: `min_depth` climbs one unit per
      stroke to 9.0, then `max_depth` does. */
  predicate WitnessState(u: Ui, i: int)
  {
    && UiWellFormed(u) && |u.params| == 16
    && u.selected == (if i <= 9 then 0 else 1)
    && u.params[0] == InitialParams[0].(value := if i >= 9 then 9.0 else 0.5 + i as real)
    && u.params[1] == InitialParams[1].(value := if i == 17 then 9.0 else if i <= 10 then 2.7 else 2.7 + (i - 10) as real)
  }

  lemma WitnessStep(u: Ui, i: int) returns (next: Ui)
    requires 0 <= i < 17 && WitnessState(u, i)
    ensures next == Press(u, WitnessKey(i).key, WitnessKey(i).shift, WitnessKey(i).ctrl)
    ensures WitnessState(next, i + 1)
  {
    if i == 9 {
      next := NextParamStep(u);
    } else {
      next := BigUpStep(u);
    }
  }

  lemma PressAllFirst(u: Ui, strokes: seq<Stroke>)
    requires UiWellFormed(u) && strokes != []
    ensures PressAll(u, strokes) == PressAll(Press(u, strokes[0].key, strokes[0].shift, strokes[0].ctrl), strokes[1..])
  {}

  /** One shift-`+` press on a parameter stepping by 0.1: one whole unit up, clamped at the
      maximum, and nothing else changes. */
  lemma BigUpStep(u: Ui) returns (next: Ui)
    requires UiWellFormed(u)
    requires u.params[u.selected].modulo == 0 && u.params[u.selected].delta == 0.1
    ensures next == Press(u, BigUp.key, BigUp.shift, BigUp.ctrl)
    ensures next.selected == u.selected && |next.params| == |u.params|
    ensures var p := u.params[u.selected];
            next.params == u.params[u.selected := p.(value := if p.value + 1.0 > p.max then p.max else p.value + 1.0)]
  {
    next := Press(u, BigUp.key, BigUp.shift, BigUp.ctrl);
    assert Magnitude(true, false) == 10.0;
  }

  /** `]` moves the selection on and leaves the values alone. */
  lemma NextParamStep(u: Ui) returns (next: Ui)
    requires UiWellFormed(u)
    ensures next == Press(u, NextParam.key, NextParam.shift, NextParam.ctrl)
    ensures next.selected == SelectNext(u.selected, |u.params|) && next.params == u.params
  {
    next := Press(u, NextParam.key, NextParam.shift, NextParam.ctrl);
  }

  lemma {:induction false} PressAllKeeps(ui: Ui, strokes: seq<Stroke>)
    requires UiWellFormed(ui)
    ensures UiWellFormed(PressAll(ui, strokes)) && SameShape(ui.params, PressAll(ui, strokes).params)
    decreases |strokes|
  {
    if strokes != [] {
      var next := Press(ui, strokes[0].key, strokes[0].shift, strokes[0].ctrl);
      PressAllKeeps(next, strokes[1..]);
    }
  }
}
