/** Splitting a range of `total` items into `parts` consecutive slices with integer
    bounds `k*total/parts`: the columns of the LED grid over the 640 camera columns
    (avgdepth.c:302, particles.c:417) and its rows over the lower 240 camera rows
    (avgdepth.c:303). */
module Slices {
  import opened CArith

  /** `k*total/parts`: the whole number of slices' worth of items below the k-th
      boundary, rounded down; no boundary before the last passes `total`. */
  function SliceStart(total: nat, parts: nat, k: nat): (start: nat)
    requires 0 < parts
    ensures start * parts <= k * total < (start + 1) * parts
    ensures k <= parts ==> start <= total
  {
    MulNonneg(k, total);
    DivNonneg(k * total, parts);
    StartWithinTotal(total, parts, k);
    var q := k * total / parts;
    assert k * total == q * parts + k * total % parts;
    q
  }

  lemma StartWithinTotal(total: nat, parts: nat, k: nat)
    requires 0 < parts
    ensures k <= parts ==> k * total / parts <= total
  {
    if k <= parts {
      MulMonotone(k, parts, total);
      DivMonotone(k * total, parts * total, parts);
      DivModUnique(parts * total, total, 0, parts);
    }
  }

  lemma SliceMonotone(total: nat, parts: nat, j: nat, k: nat)
    requires 0 < parts && j <= k
    ensures SliceStart(total, parts, j) <= SliceStart(total, parts, k)
  {
    MulMonotone(j, k, total);
    DivMonotone(j * total, k * total, parts);
  }

  /** The slices start at 0 and the last one ends at `total`. */
  lemma SliceEnds(total: nat, parts: nat)
    requires 0 < parts
    ensures SliceStart(total, parts, 0) == 0
    ensures SliceStart(total, parts, parts) == total
  {
    DivModUnique(parts * total, total, 0, parts);
  }

  /** The slice that holds item x, searching upward from slice k. */
  function OwnerFrom(total: nat, parts: nat, x: nat, k: nat): (j: nat)
    requires 0 < parts && x < total && k < parts
    requires SliceStart(total, parts, k) <= x
    ensures k <= j < parts
    ensures SliceStart(total, parts, j) <= x < SliceStart(total, parts, j + 1)
    decreases parts - k
  {
    SliceEnds(total, parts);
    if x < SliceStart(total, parts, k + 1) then k
    else OwnerFrom(total, parts, x, k + 1)
  }

  /** Every item of [0, total) lies in some slice ... */
  function Owner(total: nat, parts: nat, x: nat): (j: nat)
    requires 0 < parts && x < total
    ensures j < parts
    ensures SliceStart(total, parts, j) <= x < SliceStart(total, parts, j + 1)
  {
    SliceEnds(total, parts);
    OwnerFrom(total, parts, x, 0)
  }

  /** ... and in no other: the slices partition [0, total). */
  lemma OwnerUnique(total: nat, parts: nat, x: nat, j: nat)
    requires 0 < parts && x < total && j < parts
    requires SliceStart(total, parts, j) <= x < SliceStart(total, parts, j + 1)
    ensures j == Owner(total, parts, x)
  {
    var k := Owner(total, parts, x);
    if j < k {
      SliceMonotone(total, parts, j + 1, k);
    } else if k < j {
      SliceMonotone(total, parts, k + 1, j);
    }
  }
}
