/** Floor/ceiling arithmetic over exact reals, standing in for Python's
    math.floor, math.ceil and the float remainder operator. */
module Numeric {

  /** math.ceil, written with Dafny's floor as ceil(x) = -floor(-x). */
  function Ceil(x: real): (k: int)
    ensures x <= k as real < x + 1.0
  {
    -((-x).Floor)
  }

  predicate IsInt(x: real) {
    x.Floor as real == x
  }

  function Max(a: int, b: int): (m: int)
    ensures m >= a && m >= b && (m == a || m == b)
  {
    if a >= b then a else b
  }

  function Abs(x: real): (r: real)
    ensures r >= 0.0 && (r == x || r == -x)
  {
    if x < 0.0 then -x else x
  }

  /** Python's x % m for a positive float divisor m: the remainder takes the
      sign of the divisor, so it lies in [0, m). */
  function FMod(x: real, m: real): (r: real)
    requires m > 0.0
    ensures 0.0 <= r < m
    ensures IsInt((x - r) / m)
  {
    FloorDivBounds(x, m);
    var k := (x / m).Floor;
    assert (k as real * m) / m == k as real;
    x - k as real * m
  }

  lemma MulLeRight(x: real, y: real, m: real)
    requires m > 0.0 && x <= y
    ensures x * m <= y * m
  {
  }

  lemma MulLtRight(x: real, y: real, m: real)
    requires m > 0.0 && x < y
    ensures x * m < y * m
  {
  }

  /** The floor of z/m, scaled back by m, is the last multiple of m at or below z. */
  lemma FloorDivBounds(z: real, m: real)
    requires m > 0.0
    ensures (z / m).Floor as real * m <= z < ((z / m).Floor + 1) as real * m
  {
    var q := z / m;
    assert q * m == z;
    MulLeRight(q.Floor as real, q, m);
    var k := q.Floor;
    assert q < (k + 1) as real;
    MulLtRight(q, (k + 1) as real, m);
    assert z < (k + 1) as real * m;
  }

  /** The ceiling of z/m, scaled back by m, is the first multiple of m at or above z. */
  lemma CeilDivBounds(z: real, m: real)
    requires m > 0.0
    ensures Ceil(z / m) as real * m >= z
    ensures (Ceil(z / m) - 1) as real * m < z
  {
    var q := z / m;
    assert q * m == z;
    MulLeRight(q, Ceil(q) as real, m);
    var k := Ceil(q);
    assert (k - 1) as real < q;
    MulLtRight((k - 1) as real, q, m);
    assert (k - 1) as real * m < z;
  }

  /** An integer multiple of m divided by m is that integer. */
  lemma MultipleIsInt(k: int, m: real)
    requires m != 0.0
    ensures IsInt((k as real * m) / m)
  {
    assert (k as real * m) / m == k as real;
  }
}
