/** Integer arithmetic of the toroidal pixel store: C++ signed remainder,
    the positive modulus built from it, and the wrapped linear index `At`. */
module Toroidal {

  const INT32_MIN: int := -0x8000_0000
  const INT32_MAX: int := 0x7FFF_FFFF

  predicate IsInt32(v: int) {
    INT32_MIN <= v <= INT32_MAX
  }

  function Abs(v: int): nat {
    if v < 0 then -v else v
  }

  /** Row-major linear index of column `x` in row `y` of a grid `width` cells wide. */
  function Cell(width: int, x: int, y: int): int {
    y * width + x
  }

  /** C++ `%` on signed integers: the quotient is truncated toward zero, so the
      remainder is smaller than the divisor in magnitude and takes the sign of
      the dividend. */
  function TruncRem(a: int, n: int): (r: int)
    requires n != 0
    ensures Abs(r) < Abs(n)
    ensures a >= 0 ==> r >= 0
    ensures a <= 0 ==> r <= 0
    ensures (a - r) % n == 0
  {
    RemainderDivisible(a, n);
    if a >= 0 then a % Abs(n) else -((-a) % Abs(n))
  }

  /** `(i % n + n) % n` with C++ `%`. For a positive divisor it is the
      mathematical (Euclidean) modulus, Dafny's own `%`. */
  function PositiveMod(i: int, n: int): (r: int)
    requires n != 0
    ensures n > 0 ==> r == i % n && 0 <= r < n
    ensures n < 0 ==> n < r <= 0
  {
    var t := TruncRem(i, n);
    var r := TruncRem(t + n, n);
    if n > 0 then
      ModOfCongruent(i, i - t, n);
      MultipleMod(1, n);
      ModOfCongruent(t + n, n, n);
      r
    else
      r
  }

  /** The wrapped linear index of `(x, y)` into a `sizeX` by `sizeY` store. */
  function At(x: int, y: int, sizeX: int, sizeY: int): (r: int)
    requires sizeX > 0 && sizeY > 0
    ensures 0 <= r < sizeX * sizeY
  {
    var px := PositiveMod(x, sizeX);
    var py := PositiveMod(y, sizeY);
    CellBound(sizeX, sizeY, px, py);
    Cell(sizeX, px, py)
  }

  // ---------------------------------------------------------------------------
  // Arithmetic helpers

  lemma RemainderDivisible(a: int, n: int)
    requires n != 0
    ensures a >= 0 ==> (a - a % Abs(n)) % n == 0
    ensures a < 0 ==> (a + (-a) % Abs(n)) % n == 0
  {
    var m := Abs(n);
    var s := if n > 0 then 1 else -1;
    assert m == s * n;
    if a >= 0 {
      var q := a / m;
      assert a - a % m == q * m == (q * s) * n;
      MultipleMod(q * s, n);
    } else {
      var q := (-a) / m;
      assert a + (-a) % m == -(q * m) == (-(q * s)) * n;
      MultipleMod(-(q * s), n);
    }
  }

  lemma MultipleMod(q: int, n: int)
    requires n != 0
    ensures (q * n) % n == 0
  {
    var m := (q * n) % n;
    var d := (q * n) / n;
    assert q * n == d * n + m;
    assert (q - d) * n == m;
    if q - d != 0 {
      MulAtLeast(q - d, n);
      assert false;
    }
  }

  /** A nonzero multiple of `n` is at least `|n|` in magnitude. */
  lemma MulAtLeast(k: int, n: int)
    requires k != 0 && n != 0
    ensures Abs(k * n) >= Abs(n)
    decreases (if k > 0 then 0 else 2) + (if n > 0 then 0 else 1)
  {
    if k > 0 && n > 0 {
      assert k * n == (k - 1) * n + n;
      MulNonNeg(k - 1, n);
    } else if k > 0 {
      assert k * n == -(k * -n);
      MulAtLeast(k, -n);
    } else {
      assert k * n == -((-k) * n);
      MulAtLeast(-k, n);
    }
  }

  lemma MulNonNeg(a: int, b: int)
    requires a >= 0 && b >= 0
    ensures a * b >= 0
  {
  }

  /** Euclidean modulus is determined by any representation `a == q * n + r` with `0 <= r < n`. */
  lemma ModUnique(a: int, n: int, q: int, r: int)
    requires n > 0 && 0 <= r < n && a == q * n + r
    ensures a % n == r && a / n == q
  {
    var q' := a / n;
    var r' := a % n;
    assert (q - q') * n == r' - r;
    if q - q' != 0 {
      MulAtLeast(q - q', n);
      assert false;
    }
  }

  /** Two values that differ by a multiple of `n` have the same modulus. */
  lemma ModOfCongruent(a: int, d: int, n: int)
    requires n > 0 && d % n == 0
    ensures a % n == (a - d) % n
  {
    var k := d / n;
    assert d == k * n;
    var b := a - d;
    assert a == (b / n + k) * n + b % n;
    ModUnique(a, n, b / n + k, b % n);
  }

  lemma CellBound(width: int, height: int, x: int, y: int)
    requires 0 <= x < width && 0 <= y < height
    ensures 0 <= Cell(width, x, y) < width * height
  {
    MulNonNeg(y, width);
    assert Cell(width, x, y) < y * width + width == (y + 1) * width;
    assert (y + 1) * width <= height * width by {
      MulNonNeg(height - (y + 1), width);
      assert height * width - (y + 1) * width == (height - (y + 1)) * width;
    }
  }

  lemma CellDivMod(width: int, x: int, y: int)
    requires 0 <= x < width
    ensures Cell(width, x, y) % width == x
    ensures Cell(width, x, y) / width == y
  {
    ModUnique(Cell(width, x, y), width, y, x);
  }

  /** An index below `width * height` lies in one of the first `height` rows. */
  lemma RowBound(i: int, width: int, height: int)
    requires width > 0 && 0 <= i < width * height
    ensures 0 <= i / width < height
  {
    var q, r := i / width, i % width;
    assert i == q * width + r;
    if q >= height {
      MulNonNeg(q - height, width);
      assert false;
    }
    if q < 0 {
      MulNonNeg(-q, width);
      assert false;
    }
  }

  lemma CellOfIndex(width: int, i: int)
    requires width > 0
    ensures Cell(width, i % width, i / width) == i
  {
  }

  // ---------------------------------------------------------------------------
  // Properties of the wrapped addressing

  /** Coordinates already inside `[0, n)` are left alone by `PositiveMod`. */
  lemma PositiveModIdentity(i: int, n: int)
    requires 0 <= i < n
    ensures PositiveMod(i, n) == i
  {
    ModUnique(i, n, 0, i);
  }

  /** Inside the store, `At` is the plain row-major index: no wrapping happens. */
  lemma AtInRange(x: int, y: int, sizeX: int, sizeY: int)
    requires 0 <= x < sizeX && 0 <= y < sizeY
    ensures At(x, y, sizeX, sizeY) == Cell(sizeX, x, y)
  {
    PositiveModIdentity(x, sizeX);
    PositiveModIdentity(y, sizeY);
  }

  /** `At` is periodic in both coordinates: moving by whole store sizes lands on the same index. */
  lemma AtPeriodic(x: int, y: int, k: int, m: int, sizeX: int, sizeY: int)
    requires sizeX > 0 && sizeY > 0
    ensures At(x + k * sizeX, y + m * sizeY, sizeX, sizeY) == At(x, y, sizeX, sizeY)
  {
    MultipleMod(k, sizeX);
    ModOfCongruent(x + k * sizeX, k * sizeX, sizeX);
    MultipleMod(m, sizeY);
    ModOfCongruent(y + m * sizeY, m * sizeY, sizeY);
  }

  /** Distinct in-range coordinates get distinct indices. */
  lemma AtInjective(x1: int, y1: int, x2: int, y2: int, sizeX: int, sizeY: int)
    requires 0 <= x1 < sizeX && 0 <= y1 < sizeY
    requires 0 <= x2 < sizeX && 0 <= y2 < sizeY
    requires At(x1, y1, sizeX, sizeY) == At(x2, y2, sizeX, sizeY)
    ensures x1 == x2 && y1 == y2
  {
    AtInRange(x1, y1, sizeX, sizeY);
    AtInRange(x2, y2, sizeX, sizeY);
    CellDivMod(sizeX, x1, y1);
    CellDivMod(sizeX, x2, y2);
  }

  /** Every index of the store is `At` of exactly one in-range coordinate pair. */
  lemma AtSurjective(i: int, sizeX: int, sizeY: int)
    requires sizeX > 0 && sizeY > 0 && 0 <= i < sizeX * sizeY
    ensures 0 <= i % sizeX < sizeX && 0 <= i / sizeX < sizeY
    ensures At(i % sizeX, i / sizeX, sizeX, sizeY) == i
  {
    RowBound(i, sizeX, sizeY);
    AtInRange(i % sizeX, i / sizeX, sizeX, sizeY);
  }
}
