/** The tile dump of the cheat command (`UOrthoMapCME::DumpVRT2D`): the canvas
    is cut into 4096 by 4096 tiles, each read through the window exporter and
    saved as `"{x/4096}_{y/4096}.png"`. */
module TileExport {
  import opened Toroidal
  import opened Colors
  import opened PixelStore
  import opened Surfaces
  import opened Export
  import opened VirtualCanvas

  /** Side of the render target every tile is read into. */
  const RTSize: int := 4096

  /** How many tile origins `0, RTSize, 2 * RTSize, ...` lie below `size`:
      `ceil(size / RTSize)` for a positive size, none otherwise. */
  function TileCount(size: int): (n: nat)
    ensures size > 0 ==> n * RTSize >= size && (n - 1) * RTSize < size
  {
    if size <= 0 then 0 else (size + RTSize - 1) / RTSize
  }

  lemma TileCountSpec(size: int, i: int)
    requires i >= 0
    ensures i < TileCount(size) <==> i * RTSize < size
  {
  }

  /** The tile origins in the order the loops visit them: rows (`y`) outer,
      columns (`x`) inner. */
  function TileOrigins(sizeX: int, sizeY: int): (r: seq<(int, int)>)
    ensures |r| == TileCount(sizeX) * TileCount(sizeY)
  {
    var nx, ny := TileCount(sizeX), TileCount(sizeY);
    seq(nx * ny, k requires 0 <= k < nx * ny => OriginOf(nx, k))
  }

  /** Origin number `k` when a row holds `nx` tiles. */
  function OriginOf(nx: int, k: nat): (o: (int, int))
    requires nx > 0
    ensures o.0 >= 0 && o.1 >= 0
  {
    ((k % nx) * RTSize, (k / nx) * RTSize)
  }

  /** Origin number `Cell(nx, i, j)` is `(i * RTSize, j * RTSize)`. */
  lemma {:induction false} TileOriginAt(sizeX: int, sizeY: int, i: int, j: int)
    requires 0 <= i < TileCount(sizeX) && 0 <= j < TileCount(sizeY)
    ensures 0 <= Cell(TileCount(sizeX), i, j) < |TileOrigins(sizeX, sizeY)|
    ensures TileOrigins(sizeX, sizeY)[Cell(TileCount(sizeX), i, j)] == (i * RTSize, j * RTSize)
  {
    CellBound(TileCount(sizeX), TileCount(sizeY), i, j);
    CellDivMod(TileCount(sizeX), i, j);
  }

  /** The origins are exactly the multiples of `RTSize` inside the canvas. */
  lemma {:induction false} TileOriginsExact(sizeX: int, sizeY: int, ox: int, oy: int)
    ensures (ox, oy) in TileOrigins(sizeX, sizeY) <==>
      ox % RTSize == 0 && oy % RTSize == 0 && 0 <= ox < sizeX && 0 <= oy < sizeY
  {
    var r := TileOrigins(sizeX, sizeY);
    var nx, ny := TileCount(sizeX), TileCount(sizeY);
    if (ox, oy) in r {
      var k :| 0 <= k < |r| && r[k] == (ox, oy);
      RowBound(k, nx, ny);
      TileCountSpec(sizeX, k % nx);
      TileCountSpec(sizeY, k / nx);
      MultipleMod(k % nx, RTSize);
      MultipleMod(k / nx, RTSize);
    }
    if ox % RTSize == 0 && oy % RTSize == 0 && 0 <= ox < sizeX && 0 <= oy < sizeY {
      var i, j := ox / RTSize, oy / RTSize;
      TileCountSpec(sizeX, i);
      TileCountSpec(sizeY, j);
      TileOriginAt(sizeX, sizeY, i, j);
    }
  }

  /** There are no tiles when either size is not positive. */
  lemma NoTilesForEmptyCanvas(sizeX: int, sizeY: int)
    requires sizeX <= 0 || sizeY <= 0
    ensures TileOrigins(sizeX, sizeY) == []
  {
  }

  /** Tiles are visited in row-major order: a later tile lies in a later row,
      or further right in the same row. */
  lemma TileOriginsRowMajor(sizeX: int, sizeY: int, k1: int, k2: int)
    requires 0 <= k1 < k2 < |TileOrigins(sizeX, sizeY)|
    ensures var r := TileOrigins(sizeX, sizeY);
      r[k1].1 < r[k2].1 || (r[k1].1 == r[k2].1 && r[k1].0 < r[k2].0)
  {
    OriginOrder(TileCount(sizeX), k1, k2);
  }

  lemma {:induction false} OriginOrder(nx: int, k1: nat, k2: nat)
    requires nx > 0 && k1 < k2
    ensures var o1, o2 := OriginOf(nx, k1), OriginOf(nx, k2);
      o1.1 < o2.1 || (o1.1 == o2.1 && o1.0 < o2.0)
  {
    var q1, q2 := k1 / nx, k2 / nx;
    if q2 < q1 {
      assert Cell(nx, k2 % nx, q2) == k2 && Cell(nx, k1 % nx, q1) == k1;
      MulNonNeg(q1 - q2 - 1, nx);
      assert false;
    }
  }

  // ---------------------------------------------------------------------------
  // File names

  function DigitChar(d: int): char
    requires 0 <= d < 10
  {
    "0123456789"[d]
  }

  predicate IsDigit(ch: char) {
    '0' <= ch <= '9'
  }

  /** `%u` formatting: the decimal digits of `n`, most significant first. */
  function Decimal(n: nat): (s: string)
    ensures |s| >= 1
    ensures forall i :: 0 <= i < |s| ==> IsDigit(s[i])
  {
    if n < 10 then [DigitChar(n)] else Decimal(n / 10) + [DigitChar(n % 10)]
  }

  function DigitValue(ch: char): (d: nat)
    requires IsDigit(ch)
    ensures d < 10
  {
    ch as int - '0' as int
  }

  /** Reads a string of decimal digits back as a number. */
  function ParseDecimal(s: string): nat
    requires forall i :: 0 <= i < |s| ==> IsDigit(s[i])
  {
    if |s| == 0 then 0 else ParseDecimal(s[..|s| - 1]) * 10 + DigitValue(s[|s| - 1])
  }

  lemma {:induction false} DecimalRoundTrip(n: nat)
    ensures ParseDecimal(Decimal(n)) == n
  {
    if n >= 10 {
      DecimalRoundTrip(n / 10);
      var s := Decimal(n);
      assert s[..|s| - 1] == Decimal(n / 10);
    }
  }

  lemma DecimalInjective(a: nat, b: nat)
    requires Decimal(a) == Decimal(b)
    ensures a == b
  {
    DecimalRoundTrip(a);
    DecimalRoundTrip(b);
  }

  /** The name of the tile in column `i`, row `j`. */
  function TileFileName(i: nat, j: nat): (name: string)
    ensures |Decimal(i)| + 5 <= |name|
    ensures name[..|Decimal(i)|] == Decimal(i) && name[|Decimal(i)|] == '_'
    ensures name[|name| - 4..] == ".png"
  {
    Decimal(i) + "_" + Decimal(j) + ".png"
  }

  /** The longest run of digits that starts `s`: how a reader of the tile
      names finds where each number ends. */
  function LeadingDigits(s: string): (r: string)
    ensures |r| <= |s| && r == s[..|r|]
    decreases |s|
  {
    if |s| == 0 || !IsDigit(s[0]) then [] else [s[0]] + LeadingDigits(s[1..])
  }

  /** A number followed by a non-digit is read back whole. */
  lemma {:induction false} LeadingDigitsOfNumber(a: string, t: string)
    requires forall i :: 0 <= i < |a| ==> IsDigit(a[i])
    requires |t| > 0 && !IsDigit(t[0])
    ensures LeadingDigits(a + t) == a
  {
    if |a| > 0 {
      LeadingDigitsOfNumber(a[1..], t);
      assert (a + t)[1..] == a[1..] + t;
    } else {
      assert a + t == t;
    }
  }

  /** A tile name splits into the column number, the separator, and the row
      number followed by the extension. */
  lemma TileFileNameParts(i: nat, j: nat)
    ensures LeadingDigits(TileFileName(i, j)) == Decimal(i)
    ensures |Decimal(i)| < |TileFileName(i, j)|
    ensures TileFileName(i, j)[|Decimal(i)| + 1..] == Decimal(j) + ".png"
  {
    NameParts(Decimal(i), Decimal(j));
  }

  lemma NameParts(a: string, c: string)
    requires forall k :: 0 <= k < |a| ==> IsDigit(a[k])
    ensures LeadingDigits(a + "_" + c + ".png") == a
    ensures (a + "_" + c + ".png")[|a| + 1..] == c + ".png"
  {
    var t := "_" + c + ".png";
    assert a + "_" + c + ".png" == a + t;
    LeadingDigitsOfNumber(a, t);
    assert (a + t)[|a|..] == t;
    assert t[1..] == c + ".png";
  }

  /** Distinct tiles get distinct file names: no export overwrites another. */
  lemma TileFileNameInjective(i1: nat, j1: nat, i2: nat, j2: nat)
    requires TileFileName(i1, j1) == TileFileName(i2, j2)
    ensures i1 == i2 && j1 == j2
  {
    TileFileNameParts(i1, j1);
    TileFileNameParts(i2, j2);
    DecimalInjective(i1, i2);
    LeadingDigitsOfNumber(Decimal(j1), ".png");
    LeadingDigitsOfNumber(Decimal(j2), ".png");
    DecimalInjective(j1, j2);
  }

  // ---------------------------------------------------------------------------
  // The dump

  /** What one iteration of the dump writes: a tile's origin, its file name and
      the pixels read into the render target. */
  datatype ExportedTile = ExportedTile(originX: int, originY: int, fileName: string, pixels: seq<Color>)

  /** The tile exported for `origin`: the `RTSize` by `RTSize` window starting
      there, named after its column and row. */
  function TileFor(c: Canvas, origin: (int, int)): (t: ExportedTile)
    requires Addressable(c) && origin.0 >= 0 && origin.1 >= 0
  {
    ExportedTile(origin.0, origin.1, TileFileName(origin.0 / RTSize, origin.1 / RTSize),
                 ExportWindow(c, origin.0, origin.1, RTSize, RTSize))
  }

  /** The tile for an origin: a full `RTSize` by `RTSize` window whose cell
      `(dx, dy)` is the transformed canvas pixel at `origin + (dx, dy)`, named
      after the origin's column first. */
  lemma TileForContents(c: Canvas, origin: (int, int), dx: int, dy: int)
    requires Addressable(c) && origin.0 >= 0 && origin.1 >= 0
    requires 0 <= dx < RTSize && 0 <= dy < RTSize
    ensures |TileFor(c, origin).pixels| == RTSize * RTSize
    ensures 0 <= Cell(RTSize, dx, dy) < RTSize * RTSize
    ensures TileFor(c, origin).pixels[Cell(RTSize, dx, dy)] == ExportTransform(Pixel(c, origin.0 + dx, origin.1 + dy))
    ensures LeadingDigits(TileFor(c, origin).fileName) == Decimal(origin.0 / RTSize)
  {
    ExportWindowAt(c, origin.0, origin.1, RTSize, RTSize, dx, dy);
    TileFileNameParts(origin.0 / RTSize, origin.1 / RTSize);
  }

  /** `tiles` are the tiles of the first `|tiles|` origins, in order. */
  ghost predicate ExportedPrefix(c: Canvas, origins: seq<(int, int)>, tiles: seq<ExportedTile>) {
    && |tiles| <= |origins|
    && (|tiles| > 0 ==> Addressable(c))
    && forall k :: 0 <= k < |tiles| ==>
         origins[k].0 >= 0 && origins[k].1 >= 0 && Addressable(c) && tiles[k] == TileFor(c, origins[k])
  }

  /** One iteration of the dump: the tile read at column `i`, row `j` is the
      tile of the next origin. */
  lemma DumpStep(c: Canvas, tiles: seq<ExportedTile>, i: int, j: int, t: ExportedTile)
    requires Valid(c) && 0 <= i < TileCount(c.sizeX) && 0 <= j < TileCount(c.sizeY)
    requires ExportedPrefix(c, TileOrigins(c.sizeX, c.sizeY), tiles)
    requires |tiles| == Cell(TileCount(c.sizeX), i, j)
    requires Addressable(c) ==>
      t == ExportedTile(i * RTSize, j * RTSize, TileFileName(i * RTSize / RTSize, j * RTSize / RTSize),
                        ExportWindow(c, i * RTSize, j * RTSize, RTSize, RTSize))
    ensures ExportedPrefix(c, TileOrigins(c.sizeX, c.sizeY), tiles + [t])
  {
    var origins := TileOrigins(c.sizeX, c.sizeY);
    assert Addressable(c) by {
      TileCountSpec(c.sizeX, i);
      TileCountSpec(c.sizeY, j);
    }
    assert |tiles| < |origins| && origins[|tiles|] == (i * RTSize, j * RTSize) by {
      TileOriginAt(c.sizeX, c.sizeY, i, j);
    }
    assert t == TileFor(c, origins[|tiles|]);
    var next := tiles + [t];
    forall k | 0 <= k < |next|
      ensures origins[k].0 >= 0 && origins[k].1 >= 0 && next[k] == TileFor(c, origins[k])
    {
      if k < |tiles| {
        assert next[k] == tiles[k];
      }
    }
  }

  /** The 4096 by 4096 `RTF_RGBA8` target the dump creates. */
  const DumpTarget: RenderTarget2D := RenderTarget2D(B8G8R8A8, true, RTSize, RTSize)

  /** Exports every tile of the canvas. `vrt` is the subsystem's canvas (null
      when the subsystem or its canvas is invalid) and `targetCreated` says
      whether creating the render target succeeded; either failure exports
      nothing. */
  method DumpVRT2D(vrt: VirtualRenderTarget2D?, targetCreated: bool) returns (tiles: seq<ExportedTile>)
    requires vrt != null ==> vrt.Valid()
    ensures vrt == null || !targetCreated ==> tiles == []
    ensures vrt != null && targetCreated ==>
      var origins := TileOrigins(vrt.SizeX, vrt.SizeY);
      |tiles| == |origins| && ExportedPrefix(vrt.View(), origins, tiles)
  {
    if vrt == null || !targetCreated {
      return [];
    }
    var rt := Some(DumpTarget);
    var sizeY := vrt.SizeY;
    ghost var nx, ny := TileCount(vrt.SizeX), TileCount(sizeY);
    tiles := [];

    var y := 0;
    ghost var j := 0;
    while y < sizeY
      invariant 0 <= j <= ny && y == j * RTSize
      invariant |tiles| == Cell(nx, 0, j)
      invariant ExportedPrefix(vrt.View(), TileOrigins(vrt.SizeX, sizeY), tiles)
    {
      TileCountSpec(sizeY, j);
      tiles := DumpRow(vrt, rt, y, j, tiles);
      y := y + RTSize;
      j := j + 1;
    }
    TileCountSpec(sizeY, j);
  }

  /** One pass of the dump's inner loop: exports the tiles of row `j`, whose
      top edge is `y`, appending them to `tiles` from left to right. */
  method DumpRow(vrt: VirtualRenderTarget2D, rt: Option<RenderTarget2D>, y: int, ghost j: int, tiles: seq<ExportedTile>)
    returns (row: seq<ExportedTile>)
    requires vrt.Valid() && rt == Some(DumpTarget)
    requires 0 <= j < TileCount(vrt.SizeY) && y == j * RTSize
    requires |tiles| == Cell(TileCount(vrt.SizeX), 0, j)
    requires ExportedPrefix(vrt.View(), TileOrigins(vrt.SizeX, vrt.SizeY), tiles)
    ensures |row| == Cell(TileCount(vrt.SizeX), 0, j + 1)
    ensures ExportedPrefix(vrt.View(), TileOrigins(vrt.SizeX, vrt.SizeY), row)
  {
    var sizeX := vrt.SizeX;
    ghost var nx := TileCount(sizeX);
    ghost var canvas := vrt.View();
    assert vrt.SizeY > 0 by {
      TileCountSpec(vrt.SizeY, j);
    }
    row := tiles;
    var x := 0;
    ghost var i := 0;
    while x < sizeX
      invariant 0 <= i <= nx && x == i * RTSize
      invariant |row| == Cell(nx, i, j)
      invariant ExportedPrefix(canvas, TileOrigins(sizeX, vrt.SizeY), row)
    {
      TileCountSpec(sizeX, i);
      var read := vrt.ReadIntoRenderTarget(rt, x, y);
      var name := TileFileName(x / RTSize, y / RTSize);
      DumpStep(canvas, row, i, j, ExportedTile(x, y, name, read.value));
      row := row + [ExportedTile(x, y, name, read.value)];
      x := x + RTSize;
      i := i + 1;
    }
    TileCountSpec(sizeX, i);
    assert Cell(nx, i, j) == Cell(nx, 0, j + 1);
  }

  /** A tile that runs past the right edge of the canvas continues from the
      left edge: its column `dx` shows canvas column `ox + dx - sizeX`, which
      lies left of `dx`. */
  lemma TileWrapsPastEdge(c: Canvas, ox: int, oy: int, dx: int, dy: int)
    requires Addressable(c) && (ox, oy) in TileOrigins(c.sizeX, c.sizeY)
    requires 0 <= dx < RTSize && 0 <= dy < RTSize && c.sizeX <= ox + dx
    ensures 0 <= ox + dx - c.sizeX < dx
    ensures 0 <= Cell(RTSize, dx, dy) < RTSize * RTSize
    ensures ExportWindow(c, ox, oy, RTSize, RTSize)[Cell(RTSize, dx, dy)] ==
      ExportTransform(Pixel(c, ox + dx - c.sizeX, oy + dy))
  {
    assert 0 <= ox < c.sizeX by {
      TileOriginsExact(c.sizeX, c.sizeY, ox, oy);
    }
    var x0, y0 := ox + dx - c.sizeX, oy + dy;
    assert Pixel(c, ox + dx, oy + dy) == Pixel(c, x0, y0) by {
      assert x0 + 1 * c.sizeX == ox + dx && y0 + 0 * c.sizeY == y0;
      PixelPeriodic(c, x0, y0, 1, 0);
    }
    ExportWindowAt(c, ox, oy, RTSize, RTSize, dx, dy);
  }

  /** A 10000 by 10000 canvas is cut into three tiles per axis, named and
      visited in row-major order. */
  lemma DumpScenario()
    ensures TileCount(10000) == 3
    ensures TileOrigins(10000, 10000) == [
      (0, 0), (4096, 0), (8192, 0),
      (0, 4096), (4096, 4096), (8192, 4096),
      (0, 8192), (4096, 8192), (8192, 8192)]
    ensures TileFileName(2, 1) == "2_1.png"
  {
    var r := TileOrigins(10000, 10000);
    assert |r| == 9;
  }
}
