/** `UVirtualRenderTarget2D`: the canvas object. Its pixels live in the array
    `Data`, resized by `SetSize` and written in place by the overlay; the
    exporter and the resampler only read it and fill a fresh buffer. */
module VirtualCanvas {
  import opened Toroidal
  import opened Colors
  import opened PixelStore
  import opened Surfaces
  import opened TileOverlay
  import opened Export
  import opened Resample

  /** Whether canvas cell `i` has already been visited by copy loops that are
      at tile-local row `y`, column `x` (rows outer, columns inner). */
  predicate Visited(sizeX: int, atX: int, atY: int, i: int, y: int, x: int)
    requires sizeX != 0
  {
    var ly, lx := i / sizeX - atY, i % sizeX - atX;
    ly < y || (ly == y && lx < x)
  }

  class VirtualRenderTarget2D {
    var Data: array<Color>
    var SizeX: int
    var SizeY: int
    var FoWResolution: int

    /** One pixel per cell, and every size an `int32` whose product is one too. */
    ghost predicate Valid()
      reads this
    {
      && Data.Length == SizeX * SizeY
      && IsInt32(SizeX) && IsInt32(SizeY) && IsInt32(FoWResolution)
      && 0 <= SizeX * SizeY <= INT32_MAX
    }

    /** The canvas as a value. */
    function View(): Canvas
      reads this, Data
    {
      Canvas(SizeX, SizeY, Data[..])
    }

    /** A new canvas is empty, with the default fog-of-war resolution. */
    constructor ()
      ensures Valid() && fresh(Data)
      ensures SizeX == 0 && SizeY == 0 && FoWResolution == 1024 && Data.Length == 0
    {
      Data := new Color[0];
      SizeX, SizeY := 0, 0;
      FoWResolution := 1024;
    }

    /** Reallocates the store to `newX * newY` zero pixels, discarding what it
        held. `mapFogOfWarResolution` is the map manager's resolution when a map
        manager exists; the canvas keeps twice that as its fog-of-war resolution. */
    method SetSize(newX: int, newY: int, mapFogOfWarResolution: Option<int>)
      requires IsInt32(newX) && IsInt32(newY) && 0 <= newX * newY <= INT32_MAX
      requires mapFogOfWarResolution.Some? ==> IsInt32(2 * mapFogOfWarResolution.value)
      requires IsInt32(FoWResolution)
      modifies this
      ensures Valid() && fresh(Data)
      ensures SizeX == newX && SizeY == newY
      ensures View() == Blank(newX, newY)
      ensures FoWResolution == match mapFogOfWarResolution
        case Some(r) => 2 * r
        case None => old(FoWResolution)
    {
      SizeX := newX;
      SizeY := newY;
      Data := new Color[newX * newY](_ => Zero);
      match mapFogOfWarResolution {
        case Some(r) => FoWResolution := r * 2;
        case None =>
      }
    }

    /** Copies the padding-trimmed part of a tile that falls inside the canvas
        into `Data`. `readback` is what the GPU readback of the tile returned;
        every guard that fails leaves the canvas as it was. */
    method OverlayRenderTarget2D(rt: Option<RenderTarget2D>, readback: seq<Color>, atX: int, atY: int)
      returns (outcome: Outcome)
      requires Valid()
      modifies Data
      ensures Valid()
      ensures outcome == OverlayCheck(rt, |readback|)
      ensures outcome == Pass ==> View() == Overlay(old(View()), readback, rt.value.sizeX, rt.value.sizeY, atX, atY)
      ensures outcome != Pass ==> Data[..] == old(Data[..])
    {
      outcome := OverlayCheck(rt, |readback|);
      if outcome != Pass {
        return;
      }
      var lenX, lenY := rt.value.sizeX, rt.value.sizeY;
      var win := OverlayWindow(SizeX, SizeY, lenX, lenY, atX, atY);
      ghost var before := View();
      ghost var after := Overlay(before, readback, lenX, lenY, atX, atY);

      var y := win.lowerY;
      while y < win.upperY
        invariant win.lowerY <= y && (y <= win.upperY || y == win.lowerY)
        invariant forall i :: 0 <= i < Data.Length ==>
          Data[i] == if Visited(SizeX, atX, atY, i, y, win.lowerX) then after.data[i] else before.data[i]
      {
        var x := win.lowerX;
        while x < win.upperX
          invariant win.lowerX <= x && (x <= win.upperX || x == win.lowerX)
          invariant forall i :: 0 <= i < Data.Length ==>
            Data[i] == if Visited(SizeX, atX, atY, i, y, x) then after.data[i] else before.data[i]
        {
          OverlayWindowSafe(SizeX, SizeY, lenX, lenY, atX, atY, x, y);
          var k := At(atX + x, atY + y, SizeX, SizeY);
          AtInRange(atX + x, atY + y, SizeX, SizeY);
          CellDivMod(SizeX, atX + x, atY + y);
          assert after.data[k] == readback[Cell(lenX, x, y)];
          forall i | 0 <= i < Data.Length && i != k
            ensures Visited(SizeX, atX, atY, i, y, x + 1) == Visited(SizeX, atX, atY, i, y, x)
          {
            CellOfIndex(SizeX, i);
          }
          Data[k] := readback[Cell(lenX, x, y)];
          x := x + 1;
        }
        y := y + 1;
      }
      assert Data[..] == after.data;
    }

    /** Fills a buffer of the target's size from the window of the canvas that
        starts at `(startX, startY)`, with wrapped addressing and the export
        transform. The canvas is not changed. */
    method ReadIntoRenderTarget(rt: Option<RenderTarget2D>, startX: int, startY: int)
      returns (r: Result<seq<Color>>)
      requires Valid()
      requires UploadCheck(rt) == Pass && rt.value.sizeX * rt.value.sizeY > 0 ==> SizeX > 0 && SizeY > 0
      ensures r.Failure? <==> UploadCheck(rt).Fail?
      ensures r.Failure? ==> r.error == UploadCheck(rt).error
      ensures r.Success? ==> |r.value| == rt.value.sizeX * rt.value.sizeY
      ensures r.Success? ==> r.value == ExportWindow(View(), startX, startY, rt.value.sizeX, rt.value.sizeY)
    {
      var check := UploadCheck(rt);
      if check.Fail? {
        return Failure(check.error);
      }
      var w, h := rt.value.sizeX, rt.value.sizeY;
      ghost var canvas := View();
      ghost var expected := ExportWindow(canvas, startX, startY, w, h);
      var buffer := new Color[w * h](_ => Zero);

      var y := 0;
      while y < h
        invariant 0 <= y <= h
        invariant Cell(w, 0, y) <= w * h
        invariant forall k :: 0 <= k < Cell(w, 0, y) ==> buffer[k] == expected[k]
      {
        var x := 0;
        while x < w
          invariant 0 <= x <= w
          invariant Cell(w, x, y) <= w * h
          invariant forall k :: 0 <= k < Cell(w, x, y) ==> buffer[k] == expected[k]
        {
          assert 0 <= Cell(w, x, y) < w * h && Addressable(canvas)
            && expected[Cell(w, x, y)] == ExportTransform(Pixel(canvas, x + startX, y + startY)) by {
            CellBound(w, h, x, y);
            ExportWindowAt(canvas, startX, startY, w, h, x, y);
            assert x + startX == startX + x && y + startY == startY + y;
          }
          buffer[Cell(w, x, y)] := ExportTransform(Data[At(x + startX, y + startY, SizeX, SizeY)]);
          x := x + 1;
        }
        assert Cell(w, w, y) == Cell(w, 0, y + 1);
        y := y + 1;
      }
      assert Cell(w, 0, h) == w * h;
      assert buffer[..] == expected;
      return Success(buffer[..]);
    }

    /** Fills a buffer of the target's size with the scaled, offset view of the
        canvas: each cell is the bounds-checked pixel at its truncated sample
        position. The canvas is not changed. */
    method DrawSubregionToRenderTarget(rt: Option<RenderTarget2D>, offset: Vector2D, scale: Vector2D)
      returns (r: Result<seq<Color>>)
      requires Valid()
      requires UploadCheck(rt) == Pass && rt.value.sizeX * rt.value.sizeY > 0 ==> SampleDefined(FoWResolution, scale)
      ensures r.Failure? <==> UploadCheck(rt).Fail?
      ensures r.Failure? ==> r.error == UploadCheck(rt).error
      ensures r.Success? ==> |r.value| == rt.value.sizeX * rt.value.sizeY
      ensures r.Success? ==> r.value == DrawWindow(View(), FoWResolution, rt.value.sizeX, rt.value.sizeY, offset, scale)
    {
      var check := UploadCheck(rt);
      if check.Fail? {
        return Failure(check.error);
      }
      var w, h := rt.value.sizeX, rt.value.sizeY;
      ghost var canvas := View();
      ghost var expected := DrawWindow(canvas, FoWResolution, w, h, offset, scale);
      var buffer := new Color[w * h](_ => Zero);

      var y := 0;
      while y < h
        invariant 0 <= y <= h
        invariant Cell(w, 0, y) <= w * h
        invariant forall k :: 0 <= k < Cell(w, 0, y) ==> buffer[k] == expected[k]
      {
        var x := 0;
        while x < w
          invariant 0 <= x <= w
          invariant Cell(w, x, y) <= w * h
          invariant forall k :: 0 <= k < Cell(w, x, y) ==> buffer[k] == expected[k]
        {
          CellBound(w, h, x, y);
          DrawWindowAt(canvas, FoWResolution, w, h, offset, scale, x, y);
          var s := SampleOffset(FoWResolution, SizeX, SizeY, w, h, offset, scale, x, y);
          var sx, sy := TruncateToInt(s.X), TruncateToInt(s.Y);
          buffer[Cell(w, x, y)] := if sx >= 0 && sy >= 0 && sx < SizeX && sy < SizeY then Data[At(sx, sy, SizeX, SizeY)] else Zero;
          x := x + 1;
        }
        assert Cell(w, w, y) == Cell(w, 0, y + 1);
        y := y + 1;
      }
      assert Cell(w, 0, h) == w * h;
      assert buffer[..] == expected;
      return Success(buffer[..]);
    }
  }
}
