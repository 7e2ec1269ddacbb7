/** Integer semantics of the C operators and conversions the four programs rely on.
    Dafny's `/` and `%` are Euclidean; C truncates toward zero, and a C conversion
    from a floating value to an integer type also truncates toward zero.
    The lemmas at the end are the few facts about multiplication and division the
    rest of the model needs spelled out for the solver. */
module CArith {

  function Abs(x: int): nat
  {
    if x < 0 then -x else x
  }

  /** C's `/` on `int`: the magnitude is |a| / |b| and the sign is the product of signs. */
  function CDiv(a: int, b: int): (q: int)
    requires b != 0
    ensures Abs(q) == Abs(a) / Abs(b)
    ensures a >= 0 && b > 0 ==> q == a / b
  {
    DivNonneg(Abs(a), Abs(b));
    var m := Abs(a) / Abs(b);
    if (a < 0) == (b < 0) then m else -m
  }

  /** C's `%` on `int`: the remainder left by the truncating quotient. */
  function CMod(a: int, b: int): (m: int)
    requires b != 0
    ensures a >= 0 && b > 0 ==> m == a % b
  {
    a - b * CDiv(a, b)
  }

  /** Conversion of a floating value to an integer type: truncation toward zero. */
  function Trunc(x: real): (n: int)
    ensures x >= 0.0 ==> n == x.Floor && 0 <= n
    ensures x < 0.0 ==> n == -((-x).Floor) && n <= 0
  {
    if x >= 0.0 then x.Floor else -((-x).Floor)
  }

  /** The least integer not below x: the first value a loop `for (i = ..; i < x; i++)`
      with a floating bound x does not reach. */
  function Ceil(x: real): (n: int)
    ensures x <= n as real < x + 1.0
  {
    -((-x).Floor)
  }

  lemma MulNonneg(x: int, y: int)
    requires 0 <= x && 0 <= y
    ensures 0 <= x * y
  {}

  lemma RealMulNonneg(x: real, y: real)
    requires 0.0 <= x && 0.0 <= y
    ensures 0.0 <= x * y
  {}

  lemma MulMonotone(x: int, y: int, m: int)
    requires x <= y && 0 <= m
    ensures x * m <= y * m
  {
    MulNonneg(y - x, m);
  }

  lemma MulAtLeast(k: int, n: int)
    requires 1 <= k && 0 < n
    ensures n <= k * n
  {
    MulNonneg(k - 1, n);
  }

  /** Division and remainder are determined by the decomposition a == q * n + r with 0 <= r < n. */
  lemma DivModUnique(a: int, q: int, r: int, n: int)
    requires 0 < n && 0 <= r < n && a == q * n + r
    ensures a / n == q && a % n == r
  {
    var d := a / n;
    var k := q - d;
    assert a == d * n + a % n;
    assert k * n == q * n - d * n;
    if k >= 1 {
      MulAtLeast(k, n);
      assert false;
    } else if k <= -1 {
      MulAtLeast(-k, n);
      assert false;
    }
  }

  lemma DivNonneg(x: int, d: int)
    requires 0 <= x && 0 < d
    ensures 0 <= x / d
  {
    var q := x / d;
    assert x == q * d + x % d;
    if q <= -1 {
      MulAtLeast(-q, d);
      assert false;
    }
  }

  /** Integer division by a positive number is monotone. */
  lemma DivMonotone(x: int, y: int, d: int)
    requires x <= y && 0 < d
    ensures x / d <= y / d
  {
    var qx, qy := x / d, y / d;
    assert x == qx * d + x % d;
    assert y == qy * d + y % d;
    if qx > qy {
      MulAtLeast(qx - qy, d);
      assert false;
    }
  }

  /** a * m / b stays within [0, m] when 0 <= a <= b. */
  lemma ScaledWithin(a: int, b: int, m: nat)
    requires 0 <= a <= b && 0 < b
    ensures 0 <= a * m / b <= m
  {
    MulNonneg(a, m);
    MulMonotone(a, b, m);
    DivNonneg(a * m, b);
    DivMonotone(a * m, b * m, b);
    DivModUnique(b * m, m, 0, b);
  }

  /** a * m / b stays below m when 0 <= a < b. */
  lemma ScaledBelow(a: int, b: int, m: int)
    requires 0 <= a < b && 0 < m
    ensures a * m / b < m
  {
    MulMonotone(a, b - 1, m);
    DivMonotone(a * m, b * m - m, b);
    var q := (b * m - m) / b;
    assert b * m - m == q * b + (b * m - m) % b;
    if q >= m {
      MulMonotone(m, q, b);
      assert false;
    }
  }

  /** The quotient of x by d is within [lo, hi] when x is within [lo * d, hi * d]. */
  lemma DivWithin(x: int, d: int, lo: int, hi: int)
    requires 0 < d && lo * d <= x <= hi * d
    ensures lo <= x / d <= hi
  {
    DivMonotone(lo * d, x, d);
    DivMonotone(x, hi * d, d);
    DivModUnique(lo * d, lo, 0, d);
    DivModUnique(hi * d, hi, 0, d);
  }
}
