/**
 * The escape-time evaluator and the grid sampler of Mandelbrot.c: the iteration
 * count of one point, and the square plane of counts around a centre point.
 */
module EscapeTime {

  import opened ComplexNumber

  // ---------------------------------------------------------------------------
  // Escape time of one point.

  /** z_k of the orbit of `point`: z_0 = 0 and z_k = z_(k-1)^2 + point. */
  function Orbit(point: Complex, k: nat): Complex {
    if k == 0 then Zero
    else
      var z := Orbit(point, k - 1);
      Sum(Product(z, z), point)
  }

  /** |z_j| < threshold at every step j in 1..i-1. */
  predicate BelowBefore(point: Complex, threshold: real, i: nat) {
    forall j :: 1 <= j < i ==> !AbsAtLeast(Orbit(point, j), threshold)
  }

  /** |z_j| < threshold at every step j in 1..maxIters. */
  predicate StaysBelow(maxIters: nat, point: Complex, threshold: real) {
    BelowBefore(point, threshold, maxIters + 1)
  }

  /** Step k is in 1..maxIters, |z_k| >= threshold there, and at no earlier step. */
  predicate IsFirstEscape(maxIters: nat, point: Complex, threshold: real, k: nat) {
    1 <= k <= maxIters && AbsAtLeast(Orbit(point, k), threshold) && BelowBefore(point, threshold, k)
  }

  /** The first step among k..maxIters at which |z| reaches the threshold, or 0 if there is none. */
  function EscapeFrom(maxIters: nat, point: Complex, threshold: real, k: nat): (r: nat)
    requires 1 <= k
    ensures r == 0 || k <= r <= maxIters
    decreases maxIters + 1 - k
  {
    if k > maxIters then 0
    else if AbsAtLeast(Orbit(point, k), threshold) then k
    else EscapeFrom(maxIters, point, threshold, k + 1)
  }

  /**
   * The escape time of `point`: the 1-based step at which the orbit first reaches
   * the threshold, or 0 when it stays below it for all maxIters steps.
   */
  function EscapeTime(maxIters: nat, point: Complex, threshold: real): (r: nat)
    ensures r <= maxIters
  {
    EscapeFrom(maxIters, point, threshold, 1)
  }

  /** What the search from step k finds: the first escape at or after k, or 0 if none up to maxIters. */
  lemma {:induction false} EscapeFromIsFirst(maxIters: nat, point: Complex, threshold: real, k: nat)
    requires 1 <= k
    ensures var r := EscapeFrom(maxIters, point, threshold, k);
      (r != 0 ==> AbsAtLeast(Orbit(point, r), threshold)) &&
      forall j :: k <= j <= maxIters && (r == 0 || j < r) ==> !AbsAtLeast(Orbit(point, j), threshold)
    decreases maxIters + 1 - k
  {
    if k <= maxIters && !AbsAtLeast(Orbit(point, k), threshold) {
      EscapeFromIsFirst(maxIters, point, threshold, k + 1);
    }
  }

  /**
   * The escape time is 0 exactly when the orbit stays below the threshold for steps
   * 1..maxIters, and otherwise it is a step at which the orbit escapes for the first time.
   */
  lemma EscapeTimeSpec(maxIters: nat, point: Complex, threshold: real)
    ensures var r := EscapeTime(maxIters, point, threshold);
      (r == 0 <==> StaysBelow(maxIters, point, threshold)) &&
      (r != 0 ==> IsFirstEscape(maxIters, point, threshold, r))
  {
    EscapeFromIsFirst(maxIters, point, threshold, 1);
  }

  /** Steps before i where the orbit stays below the threshold are skipped by the search. */
  lemma {:induction false} SearchSkipsBelow(maxIters: nat, point: Complex, threshold: real, i: nat)
    requires 1 <= i
    requires BelowBefore(point, threshold, i)
    ensures EscapeTime(maxIters, point, threshold) == EscapeFrom(maxIters, point, threshold, i)
    decreases i
  {
    if i > 1 {
      SearchSkipsBelow(maxIters, point, threshold, i - 1);
      if i - 1 <= maxIters {
        assert !AbsAtLeast(Orbit(point, i - 1), threshold);
      }
    }
  }

  /** A first escape at step k is what the escape time reports. */
  lemma FirstEscapeFound(maxIters: nat, point: Complex, threshold: real, k: nat)
    requires IsFirstEscape(maxIters, point, threshold, k)
    ensures EscapeTime(maxIters, point, threshold) == k
  {
    SearchSkipsBelow(maxIters, point, threshold, k);
  }

  /** An orbit that stays below the threshold has escape time 0. */
  lemma NoEscapeFound(maxIters: nat, point: Complex, threshold: real)
    requires StaysBelow(maxIters, point, threshold)
    ensures EscapeTime(maxIters, point, threshold) == 0
  {
    SearchSkipsBelow(maxIters, point, threshold, maxIters + 1);
  }

  /** The first escape is unique: a step k >= 1 is the escape time exactly when it is the first escape. */
  lemma EscapeTimeIsFirstEscape(maxIters: nat, point: Complex, threshold: real, k: nat)
    requires k >= 1
    ensures EscapeTime(maxIters, point, threshold) == k <==> IsFirstEscape(maxIters, point, threshold, k)
  {
    if IsFirstEscape(maxIters, point, threshold, k) {
      FirstEscapeFound(maxIters, point, threshold, k);
    } else {
      EscapeTimeSpec(maxIters, point, threshold);
    }
  }

  /** The orbit of 0 never leaves 0. */
  lemma {:induction false} OrbitOfZero(k: nat)
    ensures Orbit(Zero, k) == Zero
  {
    if k > 0 {
      OrbitOfZero(k - 1);
    }
  }

  /** The worked example: with threshold 2 the origin never escapes, as its orbit stays at 0. */
  lemma OriginNeverEscapes(maxIters: nat)
    ensures EscapeTime(maxIters, Zero, 2.0) == 0
  {
    assert StaysBelow(maxIters, Zero, 2.0) by {
      forall j | 1 <= j <= maxIters
        ensures !AbsAtLeast(Orbit(Zero, j), 2.0)
      {
        OrbitOfZero(j);
        assert AbsSquared(Zero) == 0.0;
      }
    }
    NoEscapeFound(maxIters, Zero, 2.0);
  }

  /** z_1 = 0^2 + point is the point itself. */
  lemma OrbitOne(point: Complex)
    ensures Orbit(point, 1) == point
  {
    assert Orbit(point, 0) == Zero;
    assert Product(Zero, Zero) == Zero;
    assert Sum(Zero, point) == point;
  }

  /** z_1 is the point itself, so a point already at the threshold escapes at step 1. */
  lemma EscapesAtFirstStep(maxIters: nat, point: Complex, threshold: real)
    requires maxIters >= 1 && AbsAtLeast(point, threshold)
    ensures EscapeTime(maxIters, point, threshold) == 1
  {
    assert IsFirstEscape(maxIters, point, threshold, 1) by {
      OrbitOne(point);
    }
    FirstEscapeFound(maxIters, point, threshold, 1);
  }

  /** The worked example: (2, 0) with threshold 2 escapes at step 1, as z_1 = (2, 0). */
  lemma TwoEscapesAtOnce(maxIters: nat)
    requires maxIters >= 1
    ensures EscapeTime(maxIters, Complex(2.0, 0.0), 2.0) == 1
  {
    EscapesAtFirstStep(maxIters, Complex(2.0, 0.0), 2.0);
  }

  /** `MandelbrotIterations`: iterate z <- z^2 + point from 0 and stop at the first escape. */
  method MandelbrotIterations(maxIters: nat, point: Complex, threshold: real) returns (r: nat)
    ensures r == EscapeTime(maxIters, point, threshold)
  {
    var m := Zero;
    var i := 1;
    while i <= maxIters
      invariant 1 <= i <= maxIters + 1
      invariant m == Orbit(point, i - 1)
      invariant BelowBefore(point, threshold, i)
    {
      var product := Product(m, m);
      m := Sum(product, point);
      assert m == Orbit(point, i);
      if AbsAtLeast(m, threshold) {
        FirstEscapeFound(maxIters, point, threshold, i);
        return i;
      }
      i := i + 1;
    }
    NoEscapeFound(maxIters, point, threshold);
    return 0;
  }

  // ---------------------------------------------------------------------------
  // The plane of escape times around a centre.

  /** The side of the square plane: `resolution` pixels on each side of the centre pixel. */
  function Side(resolution: nat): nat {
    2 * resolution + 1
  }

  /**
   * The point `Mandelbrot` samples for the pixel in row `row` and column `col`:
   * (initialReal + col * interval, initialImaginary - interval * row), where
   * initialReal = centre.re - scale, initialImaginary = centre.im + scale and
   * interval = scale / resolution. Row 0 is the top edge, column 0 the left edge.
   */
  function GridPoint(center: Complex, scale: real, resolution: nat, row: nat, col: nat): Complex
    requires resolution >= 1
  {
    var interval := scale / resolution as real;
    Complex(center.re - scale + col as real * interval, center.im + scale - interval * row as real)
  }

  /**
   * The sampled square is centred on `center` with half-width `scale`: the top-left,
   * centre and bottom-right pixels sample its corners and centre, and a step right or
   * down moves by scale / resolution along one axis only.
   */
  lemma GridGeometry(center: Complex, scale: real, resolution: nat, row: nat, col: nat)
    requires resolution >= 1
    ensures GridPoint(center, scale, resolution, 0, 0) == Complex(center.re - scale, center.im + scale)
    ensures GridPoint(center, scale, resolution, resolution, resolution) == center
    ensures GridPoint(center, scale, resolution, 2 * resolution, 2 * resolution) == Complex(center.re + scale, center.im - scale)
    ensures GridPoint(center, scale, resolution, row, col + 1).re == GridPoint(center, scale, resolution, row, col).re + scale / resolution as real
    ensures GridPoint(center, scale, resolution, row, col + 1).im == GridPoint(center, scale, resolution, row, col).im
    ensures GridPoint(center, scale, resolution, row + 1, col).im == GridPoint(center, scale, resolution, row, col).im - scale / resolution as real
    ensures GridPoint(center, scale, resolution, row + 1, col).re == GridPoint(center, scale, resolution, row, col).re
  {
    var res := resolution as real;
    var interval := scale / res;
    assert res * interval == scale;
    assert (2 * resolution) as real * interval == 2.0 * scale;
    assert (col + 1) as real * interval == col as real * interval + interval;
    assert interval * (row + 1) as real == interval * row as real + interval;
  }

  /** d * n lies strictly between -n and n only for d == 0. */
  lemma MultipleInRange(d: int, n: nat)
    requires n > 0 && -(n as int) < d * n < n
    ensures d == 0
  {

  }

  /** Quotient and remainder are the unique q, m with x == q * n + m and 0 <= m < n. */
  lemma DivModUnique(x: nat, n: nat, q: int, m: int)
    requires n > 0 && x == q * n + m && 0 <= m < n
    ensures x / n == q && x % n == m
  {
    var q', m' := x / n, x % n;
    assert q' * n + m' == x;
    assert (q - q') * n == m' - m;
    MultipleInRange(q - q', n);
  }

  lemma RowMajorBound(row: nat, col: nat, n: nat)
    requires row < n && col < n
    ensures row * n + col < n * n
  {
    assert n * n == (row + 1) * n + (n - row - 1) * n;
  }

  /** Row-major index arithmetic: index row * n + col of an n * n plane is cell (row, col). */
  lemma RowMajor(row: nat, col: nat, n: nat)
    requires row < n && col < n
    ensures row * n + col < n * n
    ensures (row * n + col) / n == row && (row * n + col) % n == col
  {
    RowMajorBound(row, col, n);
    DivModUnique(row * n + col, n, row, col);
  }

  /**
   * The plane `Mandelbrot` fills, row-major: cell idx holds the escape time of the
   * point sampled by row idx / n and column idx % n, with n = Side(resolution).
   */
  function Plane(threshold: real, maxIters: nat, center: Complex, scale: real, resolution: nat): (p: seq<nat>)
    requires resolution >= 1
    ensures |p| == Side(resolution) * Side(resolution)
    ensures forall idx :: 0 <= idx < |p| ==> p[idx] <= maxIters
  {
    var n := Side(resolution);
    seq(n * n, idx requires 0 <= idx < n * n =>
      EscapeTime(maxIters, GridPoint(center, scale, resolution, idx / n, idx % n), threshold))
  }

  /** Cell row * n + col of the plane is the escape time of pixel (row, col). */
  lemma PlaneCell(threshold: real, maxIters: nat, center: Complex, scale: real, resolution: nat, row: nat, col: nat)
    requires resolution >= 1
    requires row < Side(resolution) && col < Side(resolution)
    ensures row * Side(resolution) + col < Side(resolution) * Side(resolution)
    ensures Plane(threshold, maxIters, center, scale, resolution)[row * Side(resolution) + col]
      == EscapeTime(maxIters, GridPoint(center, scale, resolution, row, col), threshold)
  {
    RowMajor(row, col, Side(resolution));
  }

  /**
   * At every resolution the centre cell of the plane, row and column `resolution`,
   * is the escape time of the centre point itself.
   */
  lemma PlaneCentre(threshold: real, maxIters: nat, center: Complex, scale: real, resolution: nat)
    requires resolution >= 1
    ensures resolution * Side(resolution) + resolution < Side(resolution) * Side(resolution)
    ensures Plane(threshold, maxIters, center, scale, resolution)[resolution * Side(resolution) + resolution]
      == EscapeTime(maxIters, center, threshold)
  {
    PlaneCell(threshold, maxIters, center, scale, resolution, resolution, resolution);
    GridGeometry(center, scale, resolution, 0, 0);
  }

  /**
   * `Mandelbrot`: fills the first n * n cells of `output` (n = Side(resolution)) with
   * the plane, row by row, and leaves every other cell as it was.
   */
  method Mandelbrot(threshold: real, maxIters: nat, center: Complex, scale: real, resolution: nat, output: array<nat>)
    requires resolution >= 1
    requires Side(resolution) * Side(resolution) <= output.Length
    modifies output
    ensures output[..Side(resolution) * Side(resolution)] == Plane(threshold, maxIters, center, scale, resolution)
    ensures output[Side(resolution) * Side(resolution)..] == old(output[Side(resolution) * Side(resolution)..])
  {
    var n := Side(resolution);
    ghost var plane := Plane(threshold, maxIters, center, scale, resolution);
    ghost var size := n * n;
    ghost var done := 0;
    var i := 0;
    while i < n
      invariant 0 <= i <= n
      invariant done == i * n && done <= size
      invariant forall idx :: 0 <= idx < done ==> output[idx] == plane[idx]
      invariant forall idx :: size <= idx < output.Length ==> output[idx] == old(output[idx])
    {
      RowStep(i, n);
      var j := 0;
      while j < n
        invariant 0 <= j <= n
        invariant forall idx :: 0 <= idx < done + j ==> output[idx] == plane[idx]
        invariant forall idx :: size <= idx < output.Length ==> output[idx] == old(output[idx])
      {
        var c := GridPoint(center, scale, resolution, i, j);
        PlaneCell(threshold, maxIters, center, scale, resolution, i, j);
        var count := MandelbrotIterations(maxIters, c, threshold);
        assert count == plane[done + j];
        output[i * n + j] := count;
        j := j + 1;
      }
      done := done + n;
      i := i + 1;
    }
    assert output[..n * n] == plane;
  }

  lemma RowStep(i: nat, n: nat)
    requires i < n
    ensures (i + 1) * n == i * n + n && (i + 1) * n <= n * n
  {
    assert (i + 1) * n <= n * n;
  }
}
