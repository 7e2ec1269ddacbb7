/** RGB pixels as the programs hold them (three `u8` channels), and the two pure colour
    helpers play.c and particles.c both define: `hue_pixel` and `clamp_byte`.
    Channels are kept as `int` so that the contracts can state that every value the
    programs assign to a `u8` channel already fits, i.e. the implicit truncation to
    eight bits never changes a value. */
module Pixels {

  datatype Pixel = Pixel(r: int, g: int, b: int)

  const Black := Pixel(0, 0, 0)
  const White := Pixel(255, 255, 255)
  const Grey := Pixel(128, 128, 128)

  predicate IsByte(x: int)
  {
    0 <= x <= 255
  }

  predicate ValidPixel(p: Pixel)
  {
    IsByte(p.r) && IsByte(p.g) && IsByte(p.b)
  }

  /** Neighbouring colours of a continuous ramp: no channel moves by more than one step. */
  predicate Near(p: Pixel, q: Pixel)
  {
    -1 <= p.r - q.r <= 1 && -1 <= p.g - q.g <= 1 && -1 <= p.b - q.b <= 1
  }

  /** `x >>= 2` on each channel. */
  function Quarter(p: Pixel): Pixel
  {
    Pixel(p.r / 4, p.g / 4, p.b / 4)
  }

  lemma QuarterBounds(p: Pixel)
    requires ValidPixel(p)
    ensures ValidPixel(Quarter(p))
    ensures Quarter(p).r <= 63 && Quarter(p).g <= 63 && Quarter(p).b <= 63
  {}

  /** Number of wheel positions: three arcs of 255 steps. */
  const WheelSize := 765

  /** Wheel position of a hue: the fractional part of the hue scaled to [0, 765),
      truncated as the `int k = ...` conversion does. */
  function HueStep(hue: real): (k: int)
    ensures 0 <= k < WheelSize
  {
    var frac := hue - hue.Floor as real;
    (frac * 765.0).Floor
  }

  /** The colour wheel: red to green, green to blue, blue back to red. */
  function Wheel(k: int): (p: Pixel)
    requires 0 <= k < WheelSize
    ensures ValidPixel(p)
    ensures p.r + p.g + p.b == 255
    ensures p.r == 0 || p.g == 0 || p.b == 0
  {
    if k < 255 then Pixel(255 - k, k, 0)
    else if k < 510 then Pixel(0, 255 - (k - 255), k - 255)
    else Pixel(k - 510, 0, 255 - (k - 510))
  }

  /** `hue_pixel`: a fully saturated colour whose channels always add up to 255. */
  function HuePixel(hue: real): (p: Pixel)
    ensures ValidPixel(p)
    ensures p.r + p.g + p.b == 255
  {
    Wheel(HueStep(hue))
  }

  /** A colour of the wheel: channels that are bytes, add up to 255, one of them 0. */
  predicate OnWheel(p: Pixel)
  {
    ValidPixel(p) && p.r + p.g + p.b == 255 && (p.r == 0 || p.g == 0 || p.b == 0)
  }

  /** Inverse of the wheel: the position a wheel colour came from.  Every colour with the
      shape of `Wheel`'s results comes from exactly this position. */
  function WheelIndex(p: Pixel): (k: int)
    ensures OnWheel(p) ==> 0 <= k < WheelSize && Wheel(k) == p
  {
    if p.b == 0 && p.g < 255 then p.g
    else if p.r == 0 then 255 + p.b
    else 510 + p.r
  }

  lemma WheelRoundTrip(k: int)
    requires 0 <= k < WheelSize
    ensures WheelIndex(Wheel(k)) == k
  {}

  /** Distinct wheel positions give distinct colours. */
  lemma WheelInjective(k1: int, k2: int)
    requires 0 <= k1 < WheelSize && 0 <= k2 < WheelSize
    requires Wheel(k1) == Wheel(k2)
    ensures k1 == k2
  {
    WheelRoundTrip(k1);
    WheelRoundTrip(k2);
  }

  /** Walking the wheel one step, including the wrap from the last position back to the
      first, changes each channel by at most one. */
  lemma WheelContinuous(k: int)
    requires 0 <= k < WheelSize
    ensures Near(Wheel(k), Wheel((k + 1) % WheelSize))
  {
    if k + 1 < WheelSize {
      assert (k + 1) % WheelSize == k + 1;
    } else {
      assert (k + 1) % WheelSize == 0;
    }
  }

  /** Hues one apart name the same colour. */
  lemma HuePeriodic(hue: real)
    ensures HuePixel(hue + 1.0) == HuePixel(hue)
  {
    assert (hue + 1.0).Floor == hue.Floor + 1;
  }

  /** `clamp_byte`: clamp into [0, 255], then convert to `u8` by truncation. */
  function ClampByte(val: real): (b: int)
    ensures IsByte(b)
    ensures val <= 0.0 ==> b == 0
    ensures val >= 255.0 ==> b == 255
    ensures 0.0 <= val <= 255.0 ==> b as real <= val < b as real + 1.0
  {
    if val < 0.0 then 0 else if val > 255.0 then 255 else val.Floor
  }

  lemma ClampByteMonotone(x: real, y: real)
    requires x <= y
    ensures ClampByte(x) <= ClampByte(y)
  {}

  /** Every byte value passes through unchanged. */
  lemma ClampByteKeepsBytes(n: int)
    requires IsByte(n)
    ensures ClampByte(n as real) == n
  {}
}
