/**
 * The arithmetic the library takes from JavaScript, written out over
 * unbounded reals: Math.max/min/abs, Math.round, the truncating `%`
 * operator, and the "round to two decimals" idiom of the getters.
 */
module Numbers {

  /** Math.max(a, b, c). */
  function Max3(a: real, b: real, c: real): (m: real)
    ensures a <= m && b <= m && c <= m
    ensures m == a || m == b || m == c
  {
    if a >= b && a >= c then a else if b >= c then b else c
  }

  /** Math.min(a, b, c). */
  function Min3(a: real, b: real, c: real): (m: real)
    ensures m <= a && m <= b && m <= c
    ensures m == a || m == b || m == c
  {
    if a <= b && a <= c then a else if b <= c then b else c
  }

  /** Math.min(a, b). */
  function Min(a: real, b: real): (m: real)
    ensures m <= a && m <= b && (m == a || m == b)
  {
    if a <= b then a else b
  }

  /** Math.max(a, b). */
  function Max(a: real, b: real): (m: real)
    ensures a <= m && b <= m && (m == a || m == b)
  {
    if a >= b then a else b
  }

  /** Math.abs(x). */
  function Abs(x: real): (a: real)
    ensures 0.0 <= a && (a == x || a == -x)
  {
    if x < 0.0 then -x else x
  }

  /** True of the reals that are whole numbers. */
  predicate IsInt(x: real) {
    x == x.Floor as real
  }

  /**
   * Math.round(x): the nearest integer, a half rounded towards +infinity
   * (Math.round(2.5) == 3, Math.round(-2.5) == -2).
   */
  function Round(x: real): (n: int)
    ensures n as real - 0.5 <= x < n as real + 0.5
  {
    (x + 0.5).Floor
  }

  /** Math.round(x * 100) / 100: a ratio rounded to two decimals. */
  function Round2(x: real): (y: real)
    ensures y - 0.005 <= x < y + 0.005
    ensures IsInt(100.0 * y)
  {
    Round(100.0 * x) as real / 100.0
  }

  /** The integer part of y, rounding towards zero. */
  function Trunc(y: real): (n: int)
    ensures 0.0 <= y ==> 0 <= n && n as real <= y < n as real + 1.0
    ensures y < 0.0 ==> n <= 0 && n as real - 1.0 < y <= n as real
  {
    if y >= 0.0 then y.Floor else -((-y).Floor)
  }

  /**
   * JavaScript's `x % 360`: the remainder of the division truncated towards
   * zero, which carries the sign of x.
   */
  function Rem360(x: real): (r: real)
    ensures 0.0 <= x ==> 0.0 <= r < 360.0
    ensures x < 0.0 ==> -360.0 < r <= 0.0
    ensures IsInt((x - r) / 360.0)
  {
    var n := Trunc(x / 360.0);
    assert (n as real).Floor == n;
    x - 360.0 * n as real
  }

  /** JavaScript's `x % 2`, the sign of x kept. */
  function Rem2(x: real): (r: real)
    ensures 0.0 <= x ==> 0.0 <= r < 2.0
    ensures x < 0.0 ==> -2.0 < r <= 0.0
    ensures IsInt((x - r) / 2.0)
  {
    var n := Trunc(x / 2.0);
    assert (n as real).Floor == n;
    x - 2.0 * n as real
  }

  /** JavaScript's `i % m` on integers, m > 0 (the sign of i is kept). */
  function RemInt(i: int, m: int): (r: int)
    requires m > 0
    ensures 0 <= i ==> 0 <= r < m
    ensures i < 0 ==> -m < r <= 0
    ensures (i - r) % m == 0
  {
    RemIntMultiple(i, m);
    if i >= 0 then i % m else -((-i) % m)
  }

  /** What the truncated remainder leaves behind is a multiple of m. */
  lemma RemIntMultiple(i: int, m: int)
    requires m > 0
    ensures i >= 0 ==> (i - i % m) % m == 0
    ensures i < 0 ==> (i + (-i) % m) % m == 0
  {
    var j := if i >= 0 then i else -i;
    var q := j / m;
    assert j == m * q + j % m;
    if i >= 0 {
      assert i - i % m == m * q;
      MultipleRem(m, q);
    } else {
      assert i + (-i) % m == m * -q;
      MultipleRem(m, -q);
    }
  }

  /** A multiple of m leaves no remainder. */
  lemma MultipleRem(m: int, k: int)
    requires m > 0
    ensures (m * k) % m == 0
  {
    var n := m * k;
    var q := n / m;
    var r := n % m;
    assert n == m * q + r && 0 <= r < m;
    Distribute(m, k, q);
    assert m * (k - q) == r;
    MultipleBounds(m, k - q);
  }

  /** m * k - m * q == m * (k - q). */
  lemma Distribute(m: int, k: int, q: int)
    ensures m * k - m * q == m * (k - q)
  {
  }

  /** A non-zero multiple of m > 0 is at least m away from zero. */
  lemma MultipleBounds(m: int, d: int)
    requires m > 0
    ensures d > 0 ==> m * d >= m
    ensures d < 0 ==> m * d <= -m
  {
  }

  /** Math.round keeps a whole number as it is. */
  lemma RoundInt(n: int)
    ensures Round(n as real) == n
  {
  }

  /** Math.round is monotone. */
  lemma RoundMonotone(x: real, y: real)
    requires x <= y
    ensures Round(x) <= Round(y)
  {
  }

  /** Rounding a value inside [lo, hi] with whole bounds stays inside. */
  lemma RoundWithin(x: real, lo: int, hi: int)
    requires lo as real <= x <= hi as real
    ensures lo <= Round(x) <= hi
  {
    RoundMonotone(lo as real, x);
    RoundMonotone(x, hi as real);
    RoundInt(lo);
    RoundInt(hi);
  }

  /** A ratio in [0, 1] stays in [0, 1] when rounded to two decimals. */
  lemma Round2Unit(x: real)
    requires 0.0 <= x <= 1.0
    ensures 0.0 <= Round2(x) <= 1.0
  {
    RoundWithin(100.0 * x, 0, 100);
  }

  /** A value that already has two decimals is not changed by Round2. */
  lemma Round2Hundredths(n: int)
    ensures Round2(n as real / 100.0) == n as real / 100.0
  {
    assert 100.0 * (n as real / 100.0) == n as real;
    RoundInt(n);
  }

  /** A factor in [0, 1] scales a non-negative a into [0, a]. */
  lemma MulUnit(a: real, x: real)
    requires 0.0 <= a && 0.0 <= x <= 1.0
    ensures 0.0 <= a * x <= a && 0.0 <= x * a <= a
  {
  }

  /** A non-negative a no larger than d > 0 gives a ratio a / d in [0, 1]. */
  lemma UnitQuotient(a: real, d: real)
    requires 0.0 < d && 0.0 <= a <= d
    ensures 0.0 <= a / d <= 1.0
  {
  }

  /** p == c r with c >= 0 and r in [0, 1] lies in [0, c]. */
  lemma ProductBelow(c: real, r: real, p: real)
    requires 0.0 <= c && 0.0 <= r <= 1.0 && p == c * r
    ensures 0.0 <= p <= c
  {
    MulUnit(c, r);
  }

  /** a / v == q when a == v q and v != 0. */
  lemma DivExact(a: real, v: real, q: real)
    requires v != 0.0 && a == v * q
    ensures a / v == q
  {
  }

  /** q t == a when q == a / t. */
  lemma QuotientTimes(a: real, t: real, q: real)
    requires t != 0.0 && q == a / t
    ensures q * t == a
  {
  }

  /** a / v lies in [1, 2] when a lies in [v, 2v]. */
  lemma Quotient(a: real, v: real)
    requires 0.0 < v && v <= a <= 2.0 * v
    ensures 1.0 <= a / v <= 2.0
  {
  }
}
