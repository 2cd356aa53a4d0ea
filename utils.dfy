/** The joystick arithmetic helpers: centring, clamping and linear rescaling. */
module Utils {
  /** The joystick reading when the stick is centred. */
  const Centre: int := 128

  function Abs(a: int): (r: nat)
  {
    if a < 0 then -a else a
  }

  function Max(a: int, b: int): (m: int)
    ensures m >= a && m >= b && (m == a || m == b)
  {
    if a >= b then a else b
  }

  function Min(a: int, b: int): (m: int)
    ensures m <= a && m <= b && (m == a || m == b)
  {
    if a <= b then a else b
  }

  /**
   * `normalise`: shift a joystick reading so that the centre is 0; a reading
   * of 0..255 becomes -128..127, below the centre negative, above it positive.
   */
  function Normalise(val: int): (r: int)
    ensures r == 0 <==> val == Centre
    ensures r < 0 <==> val < Centre
    ensures 0 <= val < 256 ==> -128 <= r < 128
  {
    val - Centre
  }

  /** Normalising keeps the order of readings and their distances. */
  lemma NormalisePreservesDistance(a: int, b: int)
    ensures Normalise(a) - Normalise(b) == a - b
  {
  }

  /**
   * `constrain`: `low` below `low`, `high` above `high`, the value itself in
   * between. The `low` test is made first, so when `low > high` a value
   * below `low` still gives `low`.
   */
  function Constrain(val: int, low: int, high: int): (r: int)
    ensures val < low ==> r == low
    ensures low <= val && val > high ==> r == high
    ensures low <= val <= high ==> r == val
    ensures low <= high ==> low <= r <= high
  {
    if val < low then low
    else if val > high then high
    else val
  }

  /** For an ordered range `constrain` is the clamp `max(low, min(val, high))`. */
  lemma ConstrainIsClamp(val: int, low: int, high: int)
    requires low <= high
    ensures Constrain(val, low, high) == Max(low, Min(val, high))
  {
  }

  /** Constraining twice to an ordered range is constraining once. */
  lemma ConstrainIdempotent(val: int, low: int, high: int)
    requires low <= high
    ensures Constrain(Constrain(val, low, high), low, high) == Constrain(val, low, high)
  {
  }

  /** `constrain` keeps the order of its inputs. */
  lemma ConstrainMonotone(a: int, b: int, low: int, high: int)
    requires low <= high && a <= b
    ensures Constrain(a, low, high) <= Constrain(b, low, high)
  {
  }

  /**
   * C's `/` on `int`: the quotient rounded toward zero, so the remainder
   * `a - q * b` is smaller than `b` in size and never of the opposite sign
   * to `a`.
   */
  function TruncDiv(a: int, b: int): (q: int)
    requires b != 0
    ensures Abs(a - q * b) < Abs(b)
    ensures a - q * b == 0 || (a - q * b < 0 <==> a < 0)
  {
    var n, m := Abs(a), Abs(b);
    DivMod(n, m);
    var q := n / m;
    assert n - q * m == n % m;
    if (a < 0) == (b < 0) then
      assert q * b == if b < 0 then -(q * m) else q * m;
      q
    else
      assert (-q) * b == if b < 0 then q * m else -(q * m);
      -q
  }

  /** Euclidean division of a natural number by a positive one. */
  lemma DivMod(n: int, m: int)
    requires n >= 0 && m > 0
    ensures n == (n / m) * m + n % m && 0 <= n % m < m
  {
  }

  /** On a non-negative numerator and a positive divisor C and Euclidean division agree. */
  lemma TruncDivNonNegative(a: int, b: int)
    requires a >= 0 && b > 0
    ensures TruncDiv(a, b) == a / b
  {
  }

  /**
   * On a negative numerator C rounds the quotient up where Euclidean division
   * rounds it down, so the two differ by one unless the division is exact.
   */
  lemma TruncDivNegative(a: int, b: int)
    requires a < 0 && b > 0
    ensures TruncDiv(a, b) == if a % b == 0 then a / b else a / b + 1
  {
    var n := -a;
    DivMod(n, b);
    var q, r := n / b, n % b;
    assert TruncDiv(a, b) == -q;
    assert (-q) * b == -(q * b);
    if r == 0 {
      DivUnique(a, b, -q, 0);
    } else {
      assert (-q - 1) * b == -(q * b) - b;
      DivUnique(a, b, -q - 1, b - r);
    }
  }

  /** Euclidean quotient and remainder are the only ones with a remainder in `[0, b)`. */
  lemma DivUnique(a: int, b: int, q: int, r: int)
    requires b > 0 && 0 <= r < b && a == q * b + r
    ensures a / b == q && a % b == r
  {
    var e := q - a / b;
    assert e * b == a % b - r;
    MulSign(e, b);
  }

  /** A nonzero whole multiple of a positive `b` is at least `b` away from 0. */
  lemma MulSign(e: int, b: int)
    requires b > 0
    ensures e >= 1 ==> e * b >= b
    ensures e <= -1 ==> e * b <= -b
  {
    if e >= 1 {
      MulMonotone(1, e, b);
    } else if e <= -1 {
      MulMonotone(e, -1, b);
    }
  }

  /** Dividing an exact multiple gives the factor. */
  lemma TruncDivExact(w: int, d: int)
    requires d != 0
    ensures TruncDiv(w * d, d) == w
  {
    var q := TruncDiv(w * d, d);
    var e := w - q;
    assert w * d - q * d == e * d;
    if e > 0 {
      MulAtLeast(e, d);
    } else if e < 0 {
      assert (-e) * d == -(e * d);
      MulAtLeast(-e, d);
    }
  }

  lemma MulAtLeast(e: int, d: int)
    requires e >= 1
    ensures Abs(e * d) >= Abs(d)
  {
    if d >= 0 {
      assert e * d >= 1 * d;
    } else {
      assert e * d <= 1 * d;
    }
  }

  /** Division by a positive number keeps the order of non-negative numerators. */
  lemma DivMonotone(a: int, b: int, d: int)
    requires 0 <= a <= b && d > 0
    ensures a / d <= b / d
  {
    var qa, qb := a / d, b / d;
    assert a == qa * d + a % d && b == qb * d + b % d;
    if qa > qb {
      MulMonotone(qb + 1, qa, d);
    }
  }

  lemma MulMonotone(a: int, b: int, c: int)
    requires a <= b && c >= 0
    ensures a * c <= b * c
  {
  }

  /**
   * `map`: rescale `x` from the range `in_min..in_max` to `out_min..out_max`,
   * with C's truncating division.
   */
  function Map(x: int, inMin: int, inMax: int, outMin: int, outMax: int): (r: int)
    requires inMax != inMin
    ensures x == inMin ==> r == outMin
  {
    TruncDiv((x - inMin) * (outMax - outMin), inMax - inMin) + outMin
  }

  /** `map` sends the ends of the input range to the ends of the output range. */
  lemma MapEndpoints(inMin: int, inMax: int, outMin: int, outMax: int)
    requires inMax != inMin
    ensures Map(inMin, inMin, inMax, outMin, outMax) == outMin
    ensures Map(inMax, inMin, inMax, outMin, outMax) == outMax
  {
    assert (inMax - inMin) * (outMax - outMin) == (outMax - outMin) * (inMax - inMin);
    TruncDivExact(outMax - outMin, inMax - inMin);
  }

  /**
   * On an increasing input range and a non-decreasing output range the
   * numerator is never negative, so the truncating division rounds down and
   * `map` is monotone in `x`.
   */
  lemma MapMonotone(x: int, y: int, inMin: int, inMax: int, outMin: int, outMax: int)
    requires inMin <= x <= y <= inMax && inMin < inMax && outMin <= outMax
    ensures Map(x, inMin, inMax, outMin, outMax) <= Map(y, inMin, inMax, outMin, outMax)
  {
    var w, d := outMax - outMin, inMax - inMin;
    var nx, ny := (x - inMin) * w, (y - inMin) * w;
    MulMonotone(0, x - inMin, w);
    MulMonotone(x - inMin, y - inMin, w);
    TruncDivNonNegative(nx, d);
    TruncDivNonNegative(ny, d);
    DivMonotone(nx, ny, d);
  }

  /** Inside the input range `map` stays inside the output range. */
  lemma MapInRange(x: int, inMin: int, inMax: int, outMin: int, outMax: int)
    requires inMin <= x <= inMax && inMin < inMax && outMin <= outMax
    ensures outMin <= Map(x, inMin, inMax, outMin, outMax) <= outMax
  {
    MapEndpoints(inMin, inMax, outMin, outMax);
    MapMonotone(inMin, x, inMin, inMax, outMin, outMax);
    MapMonotone(x, inMax, inMin, inMax, outMin, outMax);
  }
}
