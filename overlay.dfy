/** Tile ingestion (`OverlayRenderTarget2D`): the guards, the copied window
    and the canvas that results from copying it. */
module TileOverlay {
  import opened Toroidal
  import opened Colors
  import opened PixelStore
  import opened Surfaces

  /** Border discarded from every edge of a tile. */
  const Padding: int := 4
  const MinSize: int := Padding + Padding

  function Max(a: int, b: int): int { if a < b then b else a }
  function Min(a: int, b: int): int { if a < b then a else b }

  /** A half-open rectangle `[lowerX, upperX) x [lowerY, upperY)`, in tile-local coordinates. */
  datatype Window = Window(lowerX: int, lowerY: int, upperX: int, upperY: int)

  predicate Contains(w: Window, x: int, y: int) {
    w.lowerX <= x < w.upperX && w.lowerY <= y < w.upperY
  }

  /** The tile's interior: at least `Padding` away from each of its edges. */
  predicate InInterior(lenX: int, lenY: int, x: int, y: int) {
    Padding <= x < lenX - Padding && Padding <= y < lenY - Padding
  }

  /** The loop bounds of the copy, taken as signed integers. The window is
      exactly the part of the tile's interior that lands inside the canvas
      once the tile is placed at `(atX, atY)`. */
  function OverlayWindow(sizeX: int, sizeY: int, lenX: int, lenY: int, atX: int, atY: int): (w: Window)
    ensures w.lowerX >= Padding && w.lowerY >= Padding
    ensures w.upperX <= lenX - Padding && w.upperY <= lenY - Padding
    ensures forall x, y :: Contains(w, x, y) <==>
      InInterior(lenX, lenY, x, y) && 0 <= atX + x < sizeX && 0 <= atY + y < sizeY
  {
    Window(Max(-atX, Padding), Max(-atY, Padding), Min(-atX + sizeX, lenX - Padding), Min(-atY + sizeY, lenY - Padding))
  }

  /** Every cell of the window maps to a cell of the canvas (so wrapping never
      happens) and reads a cell of the tile's readback. */
  lemma OverlayWindowSafe(sizeX: int, sizeY: int, lenX: nat, lenY: nat, atX: int, atY: int, x: int, y: int)
    requires Contains(OverlayWindow(sizeX, sizeY, lenX, lenY, atX, atY), x, y)
    ensures 0 <= atX + x < sizeX && 0 <= atY + y < sizeY
    ensures 0 <= Cell(lenX, x, y) < lenX * lenY
  {
    CellBound(lenX, lenY, x, y);
  }

  /** The guards of the overlay, in source order, followed by the readback
      check that the render thread performs. `readCount` is the number of
      pixels the GPU readback returned. */
  function OverlayCheck(rt: Option<RenderTarget2D>, readCount: int): (r: Outcome)
    ensures r == Pass <==>
      && rt.Some?
      && rt.value.format == B8G8R8A8
      && rt.value.hasResource
      && rt.value.sizeX > MinSize && rt.value.sizeY > MinSize
      && readCount == rt.value.sizeX * rt.value.sizeY
    ensures rt.None? ==> r == Fail(NullTarget)
    ensures rt.Some? && rt.value.format != B8G8R8A8 ==> r == Fail(UnsupportedFormat)
    ensures rt.Some? && rt.value.format == B8G8R8A8 && !rt.value.hasResource ==> r == Fail(NoResource)
    ensures (rt.Some? && rt.value.format == B8G8R8A8 && rt.value.hasResource
             && (rt.value.sizeX <= MinSize || rt.value.sizeY <= MinSize)) ==> r == Fail(TooSmall)
    ensures r == Fail(ReadbackMismatch) ==> rt.Some? && readCount != rt.value.sizeX * rt.value.sizeY
    ensures (rt.Some? && rt.value.format == B8G8R8A8 && rt.value.hasResource
             && rt.value.sizeX > MinSize && rt.value.sizeY > MinSize
             && readCount != rt.value.sizeX * rt.value.sizeY) ==> r == Fail(ReadbackMismatch)
  {
    if rt.None? then Fail(NullTarget)
    else if rt.value.format != B8G8R8A8 then Fail(UnsupportedFormat)
    else if !rt.value.hasResource then Fail(NoResource)
    else if rt.value.sizeX <= MinSize || rt.value.sizeY <= MinSize then Fail(TooSmall)
    else if readCount != rt.value.sizeX * rt.value.sizeY then Fail(ReadbackMismatch)
    else Pass
  }

  /** The readback pixel at tile-local `(x, y)`. */
  function TileAt(tile: seq<Color>, lenX: nat, lenY: nat, x: int, y: int): (p: Color)
    requires |tile| == lenX * lenY && 0 <= x < lenX && 0 <= y < lenY
    ensures p in tile
  {
    CellBound(lenX, lenY, x, y);
    tile[Cell(lenX, x, y)]
  }

  /** Cell `i` of the canvas after the overlay. */
  function Overlaid(c: Canvas, tile: seq<Color>, lenX: nat, lenY: nat, atX: int, atY: int, i: int): (p: Color)
    requires Valid(c) && |tile| == lenX * lenY && 0 <= i < |c.data|
    ensures p == c.data[i] || p in tile
  {
    var w := OverlayWindow(c.sizeX, c.sizeY, lenX, lenY, atX, atY);
    var x, y := i % c.sizeX - atX, i / c.sizeX - atY;
    if Contains(w, x, y) then TileAt(tile, lenX, lenY, x, y) else c.data[i]
  }

  /** The canvas after copying the window of `tile` (a `lenX` by `lenY`
      readback) to the canvas position `(atX, atY)`. */
  function Overlay(c: Canvas, tile: seq<Color>, lenX: nat, lenY: nat, atX: int, atY: int): (r: Canvas)
    requires Valid(c) && |tile| == lenX * lenY
    ensures Valid(r) && r.sizeX == c.sizeX && r.sizeY == c.sizeY
  {
    Canvas(c.sizeX, c.sizeY, seq(|c.data|, i requires 0 <= i < |c.data| => Overlaid(c, tile, lenX, lenY, atX, atY, i)))
  }

  /** The overlay in canvas coordinates: a canvas pixel whose tile-local
      position lies in the window becomes that tile pixel; every other canvas
      pixel keeps its value. */
  lemma {:induction false} OverlayAt(c: Canvas, tile: seq<Color>, lenX: nat, lenY: nat, atX: int, atY: int, cx: int, cy: int)
    requires Valid(c) && |tile| == lenX * lenY && InBounds(c, cx, cy)
    ensures Addressable(c)
    ensures var w := OverlayWindow(c.sizeX, c.sizeY, lenX, lenY, atX, atY);
      Pixel(Overlay(c, tile, lenX, lenY, atX, atY), cx, cy) ==
        if Contains(w, cx - atX, cy - atY) then TileAt(tile, lenX, lenY, cx - atX, cy - atY) else Pixel(c, cx, cy)
  {
    CellDivMod(c.sizeX, cx, cy);
    CellBound(c.sizeX, c.sizeY, cx, cy);
  }

  /** Placing a tile changes only canvas pixels that come from the tile's
      interior: the padding border of the tile is never copied. */
  lemma OverlayKeepsPadding(c: Canvas, tile: seq<Color>, lenX: nat, lenY: nat, atX: int, atY: int, cx: int, cy: int)
    requires Valid(c) && |tile| == lenX * lenY && InBounds(c, cx, cy)
    requires !InInterior(lenX, lenY, cx - atX, cy - atY)
    ensures Addressable(c)
    ensures Pixel(Overlay(c, tile, lenX, lenY, atX, atY), cx, cy) == Pixel(c, cx, cy)
  {
    OverlayAt(c, tile, lenX, lenY, atX, atY, cx, cy);
  }

  /** An 8 by 8 blank canvas overlaid at the origin with a 16 by 16 tile of one
      color: only the 4 by 4 block `[4, 8) x [4, 8)` takes the color. */
  lemma OverlayScenario(color: Color, cx: int, cy: int)
    requires 0 <= cx < 8 && 0 <= cy < 8
    ensures Pixel(Overlay(Blank(8, 8), seq(256, _ => color), 16, 16, 0, 0), cx, cy) ==
      if 4 <= cx && 4 <= cy then color else Zero
  {
    OverlayAt(Blank(8, 8), seq(256, _ => color), 16, 16, 0, 0, cx, cy);
  }

  // ---------------------------------------------------------------------------
  // The loop bounds as written: `size_t` counters against `int32` bounds

  const SizeTModulus: int := 0x1_0000_0000_0000_0000

  /** An `int32` loop bound as the comparison `y < UpperY` sees it when `y` is a
      `size_t`: a negative bound becomes a huge unsigned one. */
  function AsSizeT(b: int): (u: int)
    requires IsInt32(b)
    ensures u >= 0
    ensures b >= 0 ==> u == b
    ensures b < 0 ==> u > INT32_MAX
  {
    if b >= 0 then b else b + SizeTModulus
  }

  /** The window the copy loops actually run over. It starts where the
      intended window starts; an upper bound differs from the intended one
      exactly when that bound is negative, and then it is larger than any
      `int32`. */
  function AsWrittenWindow(sizeX: int, sizeY: int, lenX: int, lenY: int, atX: int, atY: int): (w: Window)
    requires IsInt32(-atX + sizeX) && IsInt32(-atY + sizeY)
    requires IsInt32(lenX - Padding) && IsInt32(lenY - Padding)
    ensures var v := OverlayWindow(sizeX, sizeY, lenX, lenY, atX, atY);
      && w.lowerX == v.lowerX && w.lowerY == v.lowerY
      && (w.upperX == v.upperX <==> v.upperX >= 0) && (v.upperX < 0 ==> w.upperX > INT32_MAX)
      && (w.upperY == v.upperY <==> v.upperY >= 0) && (v.upperY < 0 ==> w.upperY > INT32_MAX)
  {
    var w := OverlayWindow(sizeX, sizeY, lenX, lenY, atX, atY);
    Window(w.lowerX, w.lowerY, AsSizeT(w.upperX), AsSizeT(w.upperY))
  }

  /** When the tile is not placed past the canvas's right or bottom edge, the
      unsigned loops run over the intended window. */
  lemma AsWrittenAgreesWhenAnchored(sizeX: int, sizeY: int, lenX: int, lenY: int, atX: int, atY: int)
    requires IsInt32(-atX + sizeX) && IsInt32(-atY + sizeY)
    requires IsInt32(lenX - Padding) && IsInt32(lenY - Padding)
    requires lenX > MinSize && lenY > MinSize
    requires atX <= sizeX && atY <= sizeY
    ensures AsWrittenWindow(sizeX, sizeY, lenX, lenY, atX, atY) == OverlayWindow(sizeX, sizeY, lenX, lenY, atX, atY)
  {
  }

  /** A 16 by 16 tile placed at `(0, 20)` on an 8 by 8 canvas lies wholly
      below the canvas, and nothing should be copied. As written, the row bound
      `min(8 - 20, 12) = -12` becomes `2^64 - 12`, so the loops reach row 16 of
      the tile and read readback index 260 of a 256-pixel readback. */
  lemma AsWrittenOverlayReadsPastTile()
    ensures Contains(AsWrittenWindow(8, 8, 16, 16, 0, 20), 4, 16)
    ensures Cell(16, 4, 16) >= 16 * 16
    ensures forall x, y :: !Contains(OverlayWindow(8, 8, 16, 16, 0, 20), x, y)
  {
  }
}
