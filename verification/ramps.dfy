/** Depth-to-colour ramps.  Each program maps an integer depth to a level, splits the
    level into a band (`v >> 8`) and an offset within the band (`v & 0xff`), and picks a
    colour from the band table.

    - play.c (the full-frame pass and `g_draw_pixels`): four bands between a near and a far
      limit in millimetres, white at the near limit, black at the far limit.
    - record.c `f_draw`, avgdepth.c and particles.c `set_rgb_by_depth`: one six-band table
      (white, red, yellow, green, cyan, blue, fading to black), reached through a fixed
      scale (record.c) or through a gamma table (avgdepth.c, particles.c). */
module Ramps {
  import opened CArith
  import opened Pixels

  // ---------------------------------------------------------------- play.c

  /** `256*4`: the level of the far limit. */
  const RampTop := 1024

  /** `d = depth < min_mm ? min_mm : depth > max_mm ? max_mm : depth`. */
  function ClampDepth(depth: int, minMm: int, maxMm: int): int
  {
    if depth < minMm then minMm else if depth > maxMm then maxMm else depth
  }

  /** `v = (d - min_mm) * (256*4) / (max_mm - min_mm)` with C's truncating division.
      The limits come from two independently adjustable parameters, so they may be
      crossed; only equal limits, where play.c divides by zero, are excluded, although
      the keys can reach them (`Params.EqualDepthLimitsReachable`). */
  function PlayLevel(depth: int, minMm: int, maxMm: int): (v: int)
    requires minMm != maxMm
    ensures 0 <= v <= RampTop
    ensures minMm < maxMm && depth <= minMm ==> v == 0
    ensures minMm < maxMm && depth >= maxMm ==> v == RampTop
    ensures minMm < maxMm && minMm < depth < maxMm ==> v < RampTop
    ensures maxMm < minMm ==> (v == 0 <==> depth < minMm)
    ensures maxMm < minMm ==> (v == RampTop <==> depth >= minMm)
  {
    var d := ClampDepth(depth, minMm, maxMm);
    if minMm < maxMm then
      ScaledWithin(d - minMm, maxMm - minMm, RampTop);
      if d < maxMm then
        ScaledBelow(d - minMm, maxMm - minMm, RampTop);
        CDiv((d - minMm) * RampTop, maxMm - minMm)
      else
        DivModUnique((maxMm - minMm) * RampTop, RampTop, 0, maxMm - minMm);
        CDiv((d - minMm) * RampTop, maxMm - minMm)
    else
      // Crossed limits: d is one of the two limits, so the quotient is 0 or exactly 1024.
      DivModUnique((minMm - maxMm) * RampTop, RampTop, 0, minMm - maxMm);
      CDiv((d - minMm) * RampTop, maxMm - minMm)
  }

  /** The band table of play.c; `hi` is a `u8`, so the band wraps modulo 256. */
  function PlayBand(v: nat): (p: Pixel)
    ensures ValidPixel(p)
    ensures v <= RampTop ==> p != Grey
    ensures v <= RampTop ==> (p == White <==> v == 0)
    ensures v <= RampTop ==> (p == Black <==> v == RampTop)
  {
    var hi := (v / 256) % 256;
    var lo := v % 256;
    if v == 0 then White
    else if v == RampTop then Black
    else if hi == 0 then Pixel(255, lo, 0)
    else if hi == 1 then Pixel(255 - lo, 255, 0)
    else if hi == 2 then Pixel(0, 255, lo)
    else if hi == 3 then Pixel(0, 255 - lo, 255)
    else Grey
  }

  /** play.c:249-259 and play.c:489-498: the colour of one depth sample.  The grey
      fallback is unreachable; white is exactly level 0, which every depth at or before
      the near limit gets, and black is exactly the depths at or beyond the far limit. */
  function PlayRamp(depth: int, minMm: int, maxMm: int): (p: Pixel)
    requires minMm != maxMm
    ensures ValidPixel(p)
    ensures p != Grey
    ensures p == White <==> PlayLevel(depth, minMm, maxMm) == 0
    ensures minMm < maxMm && depth <= minMm ==> p == White
    ensures minMm < maxMm ==> (p == Black <==> depth >= maxMm)
  {
    PlayBand(PlayLevel(depth, minMm, maxMm))
  }

  /** Inside the ramp (levels 1 to 1023) the four bands join without a jump. */
  lemma PlayBandContinuous(v: int)
    requires 1 <= v && v + 1 <= RampTop - 1
    ensures Near(PlayBand(v), PlayBand(v + 1))
  {
    var q := v / 256;
    assert v == q * 256 + v % 256;
    assert 0 <= q < 4 && q % 256 == q;
    if v % 256 == 255 {
      DivModUnique(v + 1, q + 1, 0, 256);
      assert (q + 1) % 256 == q + 1;
    } else {
      DivModUnique(v + 1, q, v % 256 + 1, 256);
    }
  }

  /** A nearer depth never gets a farther level. */
  lemma PlayLevelMonotone(d1: int, d2: int, minMm: int, maxMm: int)
    requires minMm < maxMm && d1 <= d2
    ensures PlayLevel(d1, minMm, maxMm) <= PlayLevel(d2, minMm, maxMm)
  {
    var a1 := ClampDepth(d1, minMm, maxMm) - minMm;
    var a2 := ClampDepth(d2, minMm, maxMm) - minMm;
    MulMonotone(a1, a2, RampTop);
    DivMonotone(a1 * RampTop, a2 * RampTop, maxMm - minMm);
  }

  // ---------------------------------------------------------------- the six-band table

  /** Levels at or beyond `256*6` fall out of the table. */
  const SixBandTop := 1536

  /** The six-band table shared by record.c `f_draw` and `set_rgb_by_depth` in avgdepth.c and
      particles.c; the `default` arm (band 6 and above) is black. */
  function SixBand(v: nat): (p: Pixel)
    ensures ValidPixel(p)
    ensures v >= SixBandTop ==> p == Black
    ensures p == White <==> v == 0
    ensures p == Black <==> v >= SixBandTop - 1
  {
    var hi := v / 256;
    var lo := v % 256;
    if hi == 0 then Pixel(255, 255 - lo, 255 - lo)
    else if hi == 1 then Pixel(255, lo, 0)
    else if hi == 2 then Pixel(255 - lo, 255, 0)
    else if hi == 3 then Pixel(0, 255, lo)
    else if hi == 4 then Pixel(0, 255 - lo, 255)
    else if hi == 5 then Pixel(0, 0, 255 - lo)
    else Black
  }

  /** The six bands join without a jump everywhere, including the fade into black. */
  lemma SixBandContinuous(v: nat)
    ensures Near(SixBand(v), SixBand(v + 1))
  {
    var q := v / 256;
    assert v == q * 256 + v % 256;
    if v % 256 == 255 {
      DivModUnique(v + 1, q + 1, 0, 256);
    } else {
      DivModUnique(v + 1, q, v % 256 + 1, 256);
    }
  }

  // ---------------------------------------------------------------- record.c

  /** `v = depth[i] * (256*6) / 1090`. */
  function RecordLevel(depth: nat): nat
  {
    depth * SixBandTop / 1090
  }

  /** record.c:146-155: one pixel of `f_draw`.  Depth 1090 and beyond is black, and
      nothing nearer is; depth 0 is white. */
  function RecordColor(depth: nat): (p: Pixel)
    ensures ValidPixel(p)
    ensures p == Black <==> depth >= 1090
    ensures p == White <==> depth == 0
    ensures depth < 1090 ==> RecordLevel(depth) / 256 <= 5
  {
    RecordLevelRange(depth);
    SixBand(RecordLevel(depth))
  }

  /** Depths below 1090 stay below the last table step; 1090 and beyond leave the table. */
  lemma RecordLevelRange(depth: nat)
    ensures depth >= 1090 ==> RecordLevel(depth) >= SixBandTop
    ensures depth < 1090 ==> RecordLevel(depth) < SixBandTop - 1
    ensures depth > 0 ==> RecordLevel(depth) > 0
  {
    if depth >= 1090 {
      MulMonotone(1090, depth, SixBandTop);
      DivModUnique(1090 * SixBandTop, SixBandTop, 0, 1090);
      DivMonotone(1090 * SixBandTop, depth * SixBandTop, 1090);
    } else {
      MulMonotone(depth, 1089, SixBandTop);
      DivMonotone(depth * SixBandTop, 1089 * SixBandTop, 1090);
    }
    if depth > 0 {
      MulMonotone(1, depth, SixBandTop);
      DivMonotone(SixBandTop, depth * SixBandTop, 1090);
    }
  }

  // ---------------------------------------------------------------- avgdepth.c

  /** `pval = (t_gamma[depth] * 8) % (256*6)`: always inside the table. */
  function AvgDepthLevel(gamma: seq<nat>, depth: nat): (pval: nat)
    requires depth < |gamma|
    ensures pval < SixBandTop
    ensures pval / 256 <= 5
  {
    (gamma[depth] * 8) % SixBandTop
  }

  /** avgdepth.c:224-274: depth 0 is black; every other depth lands in one of the six
      bands (the `default` arm is unreachable), and after the final `>> 2` no channel
      exceeds 63. */
  function AvgDepthColor(gamma: seq<nat>, depth: nat): (p: Pixel)
    requires depth < |gamma|
    ensures ValidPixel(p)
    ensures p.r <= 63 && p.g <= 63 && p.b <= 63
    ensures depth == 0 ==> p == Black
    ensures depth != 0 ==> p == Quarter(SixBand(AvgDepthLevel(gamma, depth)))
  {
    if depth == 0 then Black
    else
      var q := SixBand(AvgDepthLevel(gamma, depth));
      QuarterBounds(q);
      Quarter(q)
  }

  /** A nonzero depth renders black only when its level is the last step of band 5. */
  lemma AvgDepthBlackOnlyAtBandEnd(gamma: seq<nat>, depth: nat)
    requires 0 < depth < |gamma|
    ensures AvgDepthColor(gamma, depth) == Black <==> AvgDepthLevel(gamma, depth) >= 1532
  {
    var v := AvgDepthLevel(gamma, depth);
    var q := v / 256;
    assert v == q * 256 + v % 256;
  }

  // ---------------------------------------------------------------- particles.c

  /** particles.c:261-301: `pval = t_gamma[depth]` used directly, so levels past the
      table (the gamma table reaches 9216) fall into the black `default` arm. */
  function ParticlesColor(gamma: seq<nat>, depth: nat): (p: Pixel)
    requires depth < |gamma|
    ensures ValidPixel(p)
    ensures gamma[depth] >= SixBandTop ==> p == Black
    ensures gamma[depth] < SixBandTop ==> (gamma[depth] / 256 <= 5 && p == SixBand(gamma[depth]))
  {
    SixBand(gamma[depth])
  }
}
