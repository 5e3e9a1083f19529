/** The window resampler (`DrawSubregionToRenderTarget`): every output cell is
    the bounds-checked canvas pixel at a scaled, offset sample position. The
    sample arithmetic of the source is in `double`; here it is exact real
    arithmetic. */
module Resample {
  import opened Toroidal
  import opened Colors
  import opened PixelStore

  datatype Vector2D = Vector2D(X: real, Y: real)

  /** The implicit `double` to `int32` conversion of a sample coordinate:
      truncation toward zero, not rounding. */
  function TruncateToInt(v: real): (n: int)
    ensures v >= 0.0 ==> 0 <= n && n as real <= v < n as real + 1.0
    ensures v < 0.0 ==> n <= 0 && n as real - 1.0 < v <= n as real
  {
    if v >= 0.0 then v.Floor else -((-v).Floor)
  }

  /** The sample positions are finite only with a nonzero fog-of-war
      resolution and nonzero scale factors. */
  predicate SampleDefined(fow: int, scale: Vector2D) {
    fow != 0 && scale.X != 0.0 && scale.Y != 0.0
  }

  /** `SampleOffset` for output cell `(x, y)` of a `targetX` by `targetY` target:
      the canvas is normalised by `VirtualScale = (SizeX, SizeY) / FoWResolution`
      and the visible window is centred on the fog-of-war square, then panned by
      `offset` and zoomed by `scale`. */
  function SampleOffset(fow: int, sizeX: int, sizeY: int, targetX: nat, targetY: nat,
                        offset: Vector2D, scale: Vector2D, x: nat, y: nat): Vector2D
    requires SampleDefined(fow, scale)
  {
    var fogScale := fow as real;
    var virtualScale := Vector2D(sizeX as real / fogScale, sizeY as real / fogScale);
    var starterCorner := Vector2D((fogScale - targetX as real / scale.X) / 2.0 - offset.X,
                                  (fogScale - targetY as real / scale.Y) / 2.0 - offset.Y);
    Vector2D((starterCorner.X + x as real / scale.X) * virtualScale.X,
             (starterCorner.Y + y as real / scale.Y) * virtualScale.Y)
  }

  /** The window is centred: the centre column and row of the target sample the
      centre of the canvas, moved against the offset, which is measured in
      fog-of-war units and converted to canvas pixels. */
  lemma SampleCentred(fow: int, sizeX: int, sizeY: int, targetX: nat, targetY: nat,
                      offset: Vector2D, scale: Vector2D, x: nat, y: nat)
    requires SampleDefined(fow, scale) && 2 * x == targetX && 2 * y == targetY
    ensures var s := SampleOffset(fow, sizeX, sizeY, targetX, targetY, offset, scale, x, y);
      s.X == sizeX as real / 2.0 - offset.X * sizeX as real / fow as real
      && s.Y == sizeY as real / 2.0 - offset.Y * sizeY as real / fow as real
  {
    CentredAxis(fow as real, targetX as real, x as real, scale.X, offset.X, sizeX as real);
    CentredAxis(fow as real, targetY as real, y as real, scale.Y, offset.Y, sizeY as real);
  }

  /** One axis of `SampleCentred`: the corner term and the half-target step
      cancel, leaving the fog-of-war centre moved by the offset. */
  lemma CentredAxis(fogScale: real, target: real, x: real, scale: real, offset: real, size: real)
    requires fogScale != 0.0 && scale != 0.0 && target == 2.0 * x
    ensures ((fogScale - target / scale) / 2.0 - offset + x / scale) * (size / fogScale)
      == size / 2.0 - offset * size / fogScale
  {
    assert target / scale == 2.0 * (x / scale);
    assert (fogScale - target / scale) / 2.0 - offset + x / scale == fogScale / 2.0 - offset;
    assert fogScale / 2.0 * (size / fogScale) == size / 2.0;
  }

  /** The canvas pixel drawn into output cell `(x, y)`. */
  function Sample(c: Canvas, fow: int, targetX: nat, targetY: nat, offset: Vector2D, scale: Vector2D, x: nat, y: nat): (p: Color)
    requires Valid(c) && SampleDefined(fow, scale)
    ensures p == Zero || p in c.data
    ensures var s := SampleOffset(fow, c.sizeX, c.sizeY, targetX, targetY, offset, scale, x, y);
      !InBounds(c, TruncateToInt(s.X), TruncateToInt(s.Y)) ==> p == Zero
  {
    var s := SampleOffset(fow, c.sizeX, c.sizeY, targetX, targetY, offset, scale, x, y);
    PixelChecked(c, TruncateToInt(s.X), TruncateToInt(s.Y))
  }

  /** The `w * h` buffer the resampler uploads, in row-major order. Every cell
      is either the zero pixel or a pixel of the canvas: nothing is read from
      outside the store. */
  function DrawWindow(c: Canvas, fow: int, w: nat, h: nat, offset: Vector2D, scale: Vector2D): (r: seq<Color>)
    requires Valid(c) && (w * h > 0 ==> SampleDefined(fow, scale))
    ensures |r| == w * h
    ensures forall k :: 0 <= k < |r| ==> r[k] == Zero || r[k] in c.data
  {
    seq(w * h, k requires 0 <= k < w * h => Sample(c, fow, w, h, offset, scale, k % w, k / w))
  }

  /** Cell `(x, y)` of the output is the sample for `(x, y)`; it is the zero
      pixel exactly when the truncated sample position falls outside the canvas. */
  lemma DrawWindowAt(c: Canvas, fow: int, w: nat, h: nat, offset: Vector2D, scale: Vector2D, x: nat, y: nat)
    requires Valid(c) && SampleDefined(fow, scale) && x < w && y < h
    ensures 0 <= Cell(w, x, y) < w * h
    ensures var s := SampleOffset(fow, c.sizeX, c.sizeY, w, h, offset, scale, x, y);
      var sx, sy := TruncateToInt(s.X), TruncateToInt(s.Y);
      DrawWindow(c, fow, w, h, offset, scale)[Cell(w, x, y)] ==
        if InBounds(c, sx, sy) then Pixel(c, sx, sy) else Zero
  {
    CellBound(w, h, x, y);
    CellDivMod(w, x, y);
  }

  /** With the fog-of-war square, the canvas and the target all `n` pixels
      wide, unit scale and no offset, the resampler reproduces the canvas
      cell for cell. */
  lemma DrawIdentity(c: Canvas, n: nat)
    requires Valid(c) && n > 0 && c.sizeX == n && c.sizeY == n
    ensures DrawWindow(c, n, n, n, Vector2D(0.0, 0.0), Vector2D(1.0, 1.0)) == c.data
  {
    var r := DrawWindow(c, n, n, n, Vector2D(0.0, 0.0), Vector2D(1.0, 1.0));
    forall k | 0 <= k < n * n
      ensures r[k] == c.data[k]
    {
      var x, y := k % n, k / n;
      RowBound(k, n, n);
      CellOfIndex(n, k);
      var s := SampleOffset(n, n, n, n, n, Vector2D(0.0, 0.0), Vector2D(1.0, 1.0), x, y);
      assert n as real / n as real == 1.0;
      assert s == Vector2D(x as real, y as real);
      assert TruncateToInt(x as real) == x;
      assert TruncateToInt(y as real) == y;
      DrawWindowAt(c, n, n, n, Vector2D(0.0, 0.0), Vector2D(1.0, 1.0), x, y);
    }
  }
}
