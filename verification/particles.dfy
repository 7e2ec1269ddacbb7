/** The particle pool of play.c (`g_advance_particles`, `g_emit_particles`) and particles.c
    (`advance_particles`, `emit_particles`).  A particle falls along one LED column with
    velocity v, dims by a decay factor each frame, and is slowed by friction; it is
    removed once it is too dim or too far off the strip.  Emission adds one particle per
    column whose detected edge moved fast enough.

    The particle fields are `float`s; here they are `real`, so rounding is not modelled. */
module ParticlePool {
  import opened CArith
  import Columns
  import Layout

  datatype Particle = Particle(c: real, r: real, v: real, hue: real, sat: real, val: real)

  datatype Option<T> = None | Some(value: T)

  /** `particles[MAX_PARTICLES]` in both programs. */
  const MaxParticles := 2000

  /** A particle dimmer than this is removed. */
  const MinVal: real := 0.001

  /** How far past either end of the strip a particle may travel. */
  const Margin: real := 50.0

  /** The decay factor particles.c applies (its `val_decay` variable is never read). */
  const ParticlesDecay: real := 0.95

  /** The fixed strip height of play.c. */
  const PlayRows := 50

  function RAbs(x: real): real
  {
    if x < 0.0 then -x else x
  }

  // ---------------------------------------------------------------- one particle

  /** particles.c:328-330: move the velocity toward zero by `f`, stopping at zero.  With
      a nonnegative friction it never changes the sign of v and never speeds it up; a
      velocity within `f` of zero stops exactly. */
  function Friction(v: real, f: real): (w: real)
    ensures f >= 0.0 ==> (v >= 0.0 ==> w >= 0.0) && (v <= 0.0 ==> w <= 0.0)
    ensures f >= 0.0 ==> RAbs(w) <= RAbs(v)
    ensures RAbs(v) <= f ==> w == 0.0
    ensures f >= 0.0 && RAbs(v) > f ==> RAbs(w) == RAbs(v) - f
  {
    if v > f then v - f
    else if v < -f then v + f
    else 0.0
  }

  /** play.c:289 writes the same rule as one increment. */
  function PlayFriction(v: real, f: real): real
  {
    v + (if v > f then -f else if v < -f then f else -v)
  }

  lemma FrictionForms(v: real, f: real)
    ensures PlayFriction(v, f) == Friction(v, f)
  {}

  /** One frame of one particle: move by the old velocity, dim, then apply friction.
      With a nonnegative friction the particle never speeds up or turns round; with a
      decay in [0, 1] a nonnegative brightness never grows or goes negative; the column
      and the colour stay put. */
  function Step(p: Particle, decay: real, friction: real): (q: Particle)
    ensures friction >= 0.0 ==> RAbs(q.v) <= RAbs(p.v)
    ensures friction >= 0.0 ==> (p.v >= 0.0 ==> q.v >= 0.0) && (p.v <= 0.0 ==> q.v <= 0.0)
    ensures 0.0 <= decay <= 1.0 && p.val >= 0.0 ==> 0.0 <= q.val <= p.val
    ensures q.c == p.c && q.hue == p.hue && q.sat == p.sat
  {
    p.(r := p.r + p.v, val := p.val * decay, v := Friction(p.v, friction))
  }

  /** The negation of the removal test `val < 0.001 || r < -50 || r > rows + 50`. */
  predicate Alive(p: Particle, rows: int)
  {
    !(p.val < MinVal || p.r < -Margin || p.r > rows as real + Margin)
  }

  // ---------------------------------------------------------------- the advance

  /** What an advance should leave: every particle stepped once, the dead ones dropped. */
  function Survivors(ps: seq<Particle>, decay: real, friction: real, rows: int): (out: seq<Particle>)
    ensures |out| <= |ps|
    ensures forall k :: 0 <= k < |out| ==> Alive(out[k], rows)
  {
    if ps == [] then []
    else
      var q := Step(ps[|ps| - 1], decay, friction);
      Survivors(ps[..|ps| - 1], decay, friction, rows) + (if Alive(q, rows) then [q] else [])
  }

  lemma SurvivorsAppend(ps: seq<Particle>, p: Particle, decay: real, friction: real, rows: int)
    ensures Survivors([p], decay, friction, rows)
         == (if Alive(Step(p, decay, friction), rows) then [Step(p, decay, friction)] else [])
    ensures Survivors(ps + [p], decay, friction, rows)
         == Survivors(ps, decay, friction, rows) + Survivors([p], decay, friction, rows)
  {
    assert (ps + [p])[..|ps|] == ps;
    assert [p][..0] == [];
  }

  lemma {:induction false} SurvivorsConcat(a: seq<Particle>, b: seq<Particle>, decay: real, friction: real, rows: int)
    ensures Survivors(a + b, decay, friction, rows)
         == Survivors(a, decay, friction, rows) + Survivors(b, decay, friction, rows)
    decreases |b|
  {
    if b == [] {
      assert a + b == a;
    } else {
      var b' := b[..|b| - 1];
      var x := b[|b| - 1];
      assert b == b' + [x];
      assert a + b == (a + b') + [x];
      var sa, sb', sx := Survivors(a, decay, friction, rows), Survivors(b', decay, friction, rows),
                         Survivors([x], decay, friction, rows);
      SurvivorsConcat(a, b', decay, friction, rows);
      SurvivorsAppend(a + b', x, decay, friction, rows);
      SurvivorsAppend(b', x, decay, friction, rows);
      assert (sa + sb') + sx == sa + (sb' + sx);
    }
  }

  /** The survivors do not depend on the order of the pool, only on its contents. */
  lemma {:induction false} SurvivorsPermutation(a: seq<Particle>, b: seq<Particle>, decay: real, friction: real, rows: int)
    requires multiset(a) == multiset(b)
    ensures multiset(Survivors(a, decay, friction, rows)) == multiset(Survivors(b, decay, friction, rows))
    decreases |a|
  {
    if a == [] {
      assert |b| == |multiset(b)| == 0;
    } else {
      var a' := a[..|a| - 1];
      var x := a[|a| - 1];
      assert a == a' + [x];
      assert x in multiset(b);
      var j :| 0 <= j < |b| && b[j] == x;
      var rest := b[..j] + b[j + 1..];
      assert b == b[..j] + [x] + b[j + 1..];
      assert multiset(a') == multiset(a) - multiset{x};
      assert multiset(rest) == multiset(b) - multiset{x};
      SurvivorsPermutation(a', rest, decay, friction, rows);
      SurvivorsExtract(b, j, decay, friction, rows);
      SurvivorsAppend(a', x, decay, friction, rows);
    }
  }

  /** Taking element j out of a pool takes its survivor, if any, out of the survivors. */
  lemma SurvivorsExtract(b: seq<Particle>, j: int, decay: real, friction: real, rows: int)
    requires 0 <= j < |b|
    ensures multiset(Survivors(b, decay, friction, rows))
         == multiset(Survivors(b[..j] + b[j + 1..], decay, friction, rows))
            + multiset(Survivors([b[j]], decay, friction, rows))
  {
    var b1, x, b2 := b[..j], b[j], b[j + 1..];
    assert b == (b1 + [x]) + b2;
    SurvivorsConcat(b1 + [x], b2, decay, friction, rows);
    SurvivorsConcat(b1, [x], decay, friction, rows);
    SurvivorsConcat(b1, b2, decay, friction, rows);
  }

  /** `g_advance_particles` (play.c:283-296) and `advance_particles` (particles.c:322-337):
      walk the pool once; a particle that dies is overwritten by the last unvisited one,
      which is then visited in its place.  Every particle is stepped exactly once, and
      the pool that remains holds exactly the survivors, in some order. */
  method Advance(ps: seq<Particle>, decay: real, friction: real, rows: int) returns (out: seq<Particle>)
    ensures multiset(out) == multiset(Survivors(ps, decay, friction, rows))
    ensures |out| <= |ps|
    ensures forall k :: 0 <= k < |out| ==> Alive(out[k], rows)
  {
    var pool := ps;
    var n := |ps|;
    var i := 0;
    ghost var visited: seq<Particle> := [];
    AdvanceStart(ps, decay, friction, rows);
    while i < n
      invariant AdvanceState(ps, pool, i, n, visited, decay, friction, rows)
      decreases n - i
    {
      var p := pool[i];
      var q := Step(p, decay, friction);
      if !Alive(q, rows) {
        SwapInLast(ps, pool, i, n, visited, decay, friction, rows);
        n := n - 1;
        pool := pool[i := pool[n]];
      } else {
        Overwrite(ps, pool, i, n, visited, decay, friction, rows);
        pool := pool[i := q];
        i := i + 1;
      }
      visited := visited + [p];
    }
    AdvanceDone(ps, pool, n, visited, decay, friction, rows);
    out := pool[..n];
  }

  lemma AdvanceStart(ps: seq<Particle>, decay: real, friction: real, rows: int)
    ensures AdvanceState(ps, ps, 0, |ps|, [], decay, friction, rows)
  {
    assert ps[0..|ps|] == ps;
  }

  /** With nothing left to visit, the kept prefix is the survivors. */
  lemma AdvanceDone(ps: seq<Particle>, pool: seq<Particle>, n: int, visited: seq<Particle>,
                    decay: real, friction: real, rows: int)
    requires AdvanceState(ps, pool, n, n, visited, decay, friction, rows)
    ensures multiset(pool[..n]) == multiset(Survivors(ps, decay, friction, rows))
    ensures n <= |ps| && forall k :: 0 <= k < n ==> Alive(pool[..n][k], rows)
  {
    assert pool[n..n] == [];
    SurvivorsPermutation(visited, ps, decay, friction, rows);
  }

  /** The loop state of `Advance` after visiting `visited`: [0, i) holds their survivors,
      [i, n) the particles not yet visited. */
  ghost predicate AdvanceState(ps: seq<Particle>, pool: seq<Particle>, i: int, n: int, visited: seq<Particle>,
                               decay: real, friction: real, rows: int)
  {
    && 0 <= i <= n <= |pool| == |ps|
    && multiset(pool[i..n]) + multiset(visited) == multiset(ps)
    && multiset(pool[..i]) == multiset(Survivors(visited, decay, friction, rows))
    && forall k :: 0 <= k < i ==> Alive(pool[k], rows)
  }

  /** The removal `*p = particles[--num_particles]` keeps the loop state. */
  lemma SwapInLast(ps: seq<Particle>, pool: seq<Particle>, i: int, n: int, visited: seq<Particle>,
                   decay: real, friction: real, rows: int)
    requires AdvanceState(ps, pool, i, n, visited, decay, friction, rows) && i < n
    requires !Alive(Step(pool[i], decay, friction), rows)
    ensures AdvanceState(ps, pool[i := pool[n - 1]], i, n - 1, visited + [pool[i]], decay, friction, rows)
  {
    var pool' := pool[i := pool[n - 1]];
    SwapSlices(pool, i, n);
    assert multiset(visited + [pool[i]]) == multiset(visited) + multiset{pool[i]};
    SurvivorsAppend(visited, pool[i], decay, friction, rows);
  }

  lemma SwapSlices(pool: seq<Particle>, i: int, n: int)
    requires 0 <= i < n <= |pool|
    ensures multiset(pool[i := pool[n - 1]][i..n - 1]) + multiset{pool[i]} == multiset(pool[i..n])
    ensures pool[i := pool[n - 1]][..i] == pool[..i]
  {
    var pool' := pool[i := pool[n - 1]];
    assert pool[i..n] == [pool[i]] + pool[i + 1..n];
    if i < n - 1 {
      assert pool'[i..n - 1] == [pool[n - 1]] + pool[i + 1..n - 1];
      assert pool[i + 1..n] == pool[i + 1..n - 1] + [pool[n - 1]];
    }
  }

  /** Updating a survivor in place keeps the loop state. */
  lemma Overwrite(ps: seq<Particle>, pool: seq<Particle>, i: int, n: int, visited: seq<Particle>,
                  decay: real, friction: real, rows: int)
    requires AdvanceState(ps, pool, i, n, visited, decay, friction, rows) && i < n
    requires Alive(Step(pool[i], decay, friction), rows)
    ensures AdvanceState(ps, pool[i := Step(pool[i], decay, friction)], i + 1, n, visited + [pool[i]],
                         decay, friction, rows)
  {
    var q := Step(pool[i], decay, friction);
    var pool' := pool[i := q];
    assert pool[i..n] == [pool[i]] + pool[i + 1..n];
    assert pool'[i + 1..n] == pool[i + 1..n];
    assert pool'[..i + 1] == pool[..i] + [q];
    assert multiset(visited + [pool[i]]) == multiset(visited) + multiset{pool[i]};
    SurvivorsAppend(visited, pool[i], decay, friction, rows);
  }

  // ---------------------------------------------------------------- emission

  /** The offered particles, in column order. */
  function Offered(offers: seq<Option<Particle>>): (ps: seq<Particle>)
    ensures |ps| <= |offers|
  {
    if offers == [] then []
    else (if offers[0].Some? then [offers[0].value] else []) + Offered(offers[1..])
  }

  /** play.c:460: push each offered particle while `num_particles < MAX_PARTICLES`. */
  function EmitCapped(ps: seq<Particle>, offers: seq<Option<Particle>>): (out: seq<Particle>)
    ensures |ps| <= MaxParticles ==> |out| <= MaxParticles
    ensures |out| >= |ps| && out[..|ps|] == ps
    decreases |offers|
  {
    if offers == [] then ps
    else
      var next := if offers[0].Some? && |ps| < MaxParticles then ps + [offers[0].value] else ps;
      EmitCapped(next, offers[1..])
  }

  function Min(a: int, b: int): int
  {
    if a < b then a else b
  }

  /** The capped emission keeps the pool and appends the first offers that fit: as many
      as the free slots allow, in column order, and no more. */
  lemma {:induction false} EmitCappedTakesPrefix(ps: seq<Particle>, offers: seq<Option<Particle>>)
    requires |ps| <= MaxParticles
    ensures EmitCapped(ps, offers)
         == ps + Offered(offers)[..Min(|Offered(offers)|, MaxParticles - |ps|)]
    decreases |offers|
  {
    if offers != [] {
      var rest := Offered(offers[1..]);
      if offers[0].Some? && |ps| < MaxParticles {
        var next := ps + [offers[0].value];
        EmitCappedTakesPrefix(next, offers[1..]);
        var m := Min(|rest|, MaxParticles - |next|);
        assert Offered(offers) == [offers[0].value] + rest;
        assert ([offers[0].value] + rest)[..m + 1] == [offers[0].value] + rest[..m];
      } else if offers[0].Some? {
        EmitCappedTakesPrefix(ps, offers[1..]);
      } else {
        EmitCappedTakesPrefix(ps, offers[1..]);
        assert Offered(offers) == rest;
      }
    }
  }

  /** Emission without the capacity check: every offer is pushed. */
  function EmitUncapped(ps: seq<Particle>, offers: seq<Option<Particle>>): (out: seq<Particle>)
    ensures |out| >= |ps| && out[..|ps|] == ps
    decreases |offers|
  {
    if offers == [] then ps
    else
      var next := if offers[0].Some? then ps + [offers[0].value] else ps;
      EmitUncapped(next, offers[1..])
  }

  lemma {:induction false} EmitUncappedAppendsAll(ps: seq<Particle>, offers: seq<Option<Particle>>)
    ensures EmitUncapped(ps, offers) == ps + Offered(offers)
    decreases |offers|
  {
    if offers != [] {
      var next := if offers[0].Some? then ps + [offers[0].value] else ps;
      EmitUncappedAppendsAll(next, offers[1..]);
    }
  }

  // ---------------------------------------------------------------- play.c offers

  /** The emission knobs of play.c. */
  datatype PlayKnobs = PlayKnobs(emitMinV: real, emitVelf: real, emitValf: real)

  /** A column record whose altitude is set has a positive depth, as every record of
      `g_analyze_columns` does. */
  predicate Ready(rec: Columns.ColRecord)
  {
    rec.altitude != 0 ==> rec.depthM > 0.0
  }

  /** play.c:456-469 for column c: a particle when both frames saw the column and the
      altitude moved faster than `emit_min_v` per metre of depth.  It starts at row
      `40 - altitude*20/480` (integer arithmetic), moves against the motion, and its
      brightness is proportional to the speed.  The hue formula is floating point and is
      the parameter `hueOf`. */
  function PlayOffer(rec: Columns.ColRecord, last: Columns.ColRecord, c: int, k: PlayKnobs,
                     hueOf: real -> real): (o: Option<Particle>)
    requires Ready(rec) && rec.altitude >= 0
    ensures o.Some? <==> rec.altitude != 0 && last.altitude != 0
                         && RAbs((rec.altitude - last.altitude) as real / rec.depthM) > k.emitMinV
    ensures o.Some? ==> o.value.c == c as real && o.value.sat == 1.0
                        && o.value.r == (40 - rec.altitude * 20 / 480) as real
                        && o.value.val == RAbs((rec.altitude - last.altitude) as real / rec.depthM) * k.emitValf
  {
    if rec.altitude != 0 && last.altitude != 0 then
      var v := (rec.altitude - last.altitude) as real / rec.depthM;
      if RAbs(v) > k.emitMinV then
        Some(Particle(c as real, (40 - rec.altitude * 20 / 480) as real, -v * k.emitVelf,
                      hueOf(rec.depthM), 1.0, RAbs(v) * k.emitValf))
      else None
    else None
  }

  /** `g_emit_particles`: one offer per column of the 25, pushed under the cap. */
  function PlayEmit(ps: seq<Particle>, recs: seq<Columns.ColRecord>, lasts: seq<Columns.ColRecord>,
                    k: PlayKnobs, hueOf: real -> real): (out: seq<Particle>)
    requires |recs| == 25 && |lasts| == 25
    requires forall c :: 0 <= c < 25 ==> Ready(recs[c]) && recs[c].altitude >= 0
    ensures |ps| <= MaxParticles ==> |out| <= MaxParticles
    ensures |out| >= |ps| && out[..|ps|] == ps
  {
    EmitCapped(ps, seq(25, c requires 0 <= c < 25 => PlayOffer(recs[c], lasts[c], c, k, hueOf)))
  }

  /** Every record `g_analyze_columns` produces is Ready: a set altitude comes with a depth
      above `min_depth`, which is at least 0.1. */
  lemma AnalyzeColumnsReady(depth: seq<int>, s: Columns.Settings)
    requires |depth| == Layout.CamSize && Columns.SettingsInRange(s)
    ensures forall c :: 0 <= c < 25 ==>
              Ready(Columns.AnalyzeColumns(depth, s)[c]) && Columns.AnalyzeColumns(depth, s)[c].altitude >= 0
  {
    var recs := Columns.AnalyzeColumns(depth, s);
    forall c | 0 <= c < 25
      ensures Ready(recs[c]) && recs[c].altitude >= 0
    {
      assert recs[c] == Columns.AnalyzeColumn(depth, s, c);
    }
  }

  /** The analysis and emission of one pass of play.c's display loop: this frame's
      records, and the previous pass's (`last_col_records`, all zero at start and copied
      after each pass), feed `g_emit_particles`; a pool within the cap stays within it. */
  function EmitFromFrame(ps: seq<Particle>, depth: seq<int>, s: Columns.Settings,
                         lasts: seq<Columns.ColRecord>, k: PlayKnobs, hueOf: real -> real): (out: seq<Particle>)
    requires |depth| == Layout.CamSize && Columns.SettingsInRange(s) && |lasts| == 25
    ensures |ps| <= MaxParticles ==> |out| <= MaxParticles
    ensures |out| >= |ps| && out[..|ps|] == ps
  {
    AnalyzeColumnsReady(depth, s);
    PlayEmit(ps, Columns.AnalyzeColumns(depth, s), lasts, k, hueOf)
  }

  // ---------------------------------------------------------------- particles.c offers

  /** The emission knobs of particles.c. */
  datatype ParticlesKnobs = ParticlesKnobs(minEmitVr: real, emitVelocity: real, emitHue: real,
                                           emitValue: real)

  /** particles.c:371-382 as written: the brightness is `vr*emit_value`, negative for an
      edge that moved up. */
  function ParticlesOfferAsWritten(y: int, lastY: int, colDepth: int, c: int, rows: int,
                                   k: ParticlesKnobs, depthM: int -> real): (o: Option<Particle>)
    ensures o.Some? <==> y != 0 && lastY != 0 && Abs(y - lastY) as real > k.minEmitVr
    ensures o.Some? ==> o.value.r == rows as real && o.value.val == (y - lastY) as real * k.emitValue
  {
    if y != 0 && lastY != 0 && Abs(y - lastY) as real > k.minEmitVr then
      var vr := y - lastY;
      Some(Particle(c as real, rows as real, vr as real * k.emitVelocity, depthM(colDepth) * k.emitHue,
                    1.0, vr as real * k.emitValue))
    else None
  }

  /** particles.c:371-382 with the brightness taken from the speed `|vr|`, as play.c does
      with `fabs(v)`.  The particle starts at row `rows`, the bottom of the strip. */
  function ParticlesOffer(y: int, lastY: int, colDepth: int, c: int, rows: int,
                          k: ParticlesKnobs, depthM: int -> real): (o: Option<Particle>)
    ensures o.Some? <==> y != 0 && lastY != 0 && Abs(y - lastY) as real > k.minEmitVr
    ensures o.Some? ==> o.value.r == rows as real && o.value.c == c as real
    ensures o.Some? ==> o.value.val == Abs(y - lastY) as real * k.emitValue
    ensures o.Some? && k.emitValue >= 0.0 ==> o.value.val >= 0.0
  {
    if y != 0 && lastY != 0 && Abs(y - lastY) as real > k.minEmitVr then
      var vr := y - lastY;
      Some(Particle(c as real, rows as real, vr as real * k.emitVelocity, depthM(colDepth) * k.emitHue,
                    1.0, Abs(vr) as real * k.emitValue))
    else None
  }

  function ParticlesOffers(ys: seq<int>, lastYs: seq<int>, depths: seq<int>, rows: int,
                           k: ParticlesKnobs, depthM: int -> real, asWritten: bool): (offers: seq<Option<Particle>>)
    requires |lastYs| == |ys| && |depths| == |ys|
    ensures |offers| == |ys|
  {
    seq(|ys|, c requires 0 <= c < |ys| =>
      if asWritten then ParticlesOfferAsWritten(ys[c], lastYs[c], depths[c], c, rows, k, depthM)
      else ParticlesOffer(ys[c], lastYs[c], depths[c], c, rows, k, depthM))
  }

  /** `emit_particles` as written: every offer is pushed, with no capacity check. */
  function ParticlesEmitAsWritten(ps: seq<Particle>, ys: seq<int>, lastYs: seq<int>, depths: seq<int>,
                                  rows: int, k: ParticlesKnobs, depthM: int -> real): (out: seq<Particle>)
    requires |lastYs| == |ys| && |depths| == |ys|
    ensures out == ps + Offered(ParticlesOffers(ys, lastYs, depths, rows, k, depthM, true))
  {
    EmitUncappedAppendsAll(ps, ParticlesOffers(ys, lastYs, depths, rows, k, depthM, true));
    EmitUncapped(ps, ParticlesOffers(ys, lastYs, depths, rows, k, depthM, true))
  }

  /** `emit_particles` corrected: pushed under the cap, brightness from the speed. */
  function ParticlesEmit(ps: seq<Particle>, ys: seq<int>, lastYs: seq<int>, depths: seq<int>,
                         rows: int, k: ParticlesKnobs, depthM: int -> real): (out: seq<Particle>)
    requires |lastYs| == |ys| && |depths| == |ys|
    ensures |ps| <= MaxParticles ==> |out| <= MaxParticles
    ensures |ps| <= MaxParticles ==>
              out == ps + Offered(ParticlesOffers(ys, lastYs, depths, rows, k, depthM, false))
                            [..Min(|Offered(ParticlesOffers(ys, lastYs, depths, rows, k, depthM, false))|,
                                   MaxParticles - |ps|)]
  {
    var offers := ParticlesOffers(ys, lastYs, depths, rows, k, depthM, false);
    if |ps| <= MaxParticles then
      EmitCappedTakesPrefix(ps, offers);
      EmitCapped(ps, offers)
    else EmitCapped(ps, offers)
  }

  /** Findings, as written: a full pool and one moving column push the pool past
      `MAX_PARTICLES`, a write beyond the end of `particles`. */
  lemma EmitOverflowWitness()
    ensures var ps := seq(MaxParticles, _ => Particle(0.0, 0.0, 0.0, 0.0, 1.0, 1.0));
            |ParticlesEmitAsWritten(ps, [100], [200], [500], 50, ParticlesKnobs(5.0, 0.05, 2.0, 0.03), d => 1.0)|
              > MaxParticles
  {
    var k := ParticlesKnobs(5.0, 0.05, 2.0, 0.03);
    var offers := ParticlesOffers([100], [200], [500], 50, k, d => 1.0, true);
    assert offers[0].Some?;
    assert offers[1..] == [];
    assert |Offered(offers)| == 1;
  }

  /** Findings, as written: an edge that moved up by 100 rows emits a particle of
      brightness -3, which the very next advance removes before it is ever drawn. */
  lemma NegativeBrightnessWitness()
    ensures var o := ParticlesOfferAsWritten(100, 200, 500, 0, 50, ParticlesKnobs(5.0, 0.05, 2.0, 0.03), d => 1.0);
            o.Some? && o.value.val < 0.0 && !Alive(Step(o.value, ParticlesDecay, 0.05), 50)
  {}

  /** Corrected: the same edge emits a particle of brightness 3 that survives the advance. */
  lemma PositiveBrightness()
    ensures var o := ParticlesOffer(100, 200, 500, 0, 50, ParticlesKnobs(5.0, 0.05, 2.0, 0.03), d => 1.0);
            o.Some? && o.value.val == 3.0 && Alive(Step(o.value, ParticlesDecay, 0.05), 50)
  {}
}
