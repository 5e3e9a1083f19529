/** The window exporter (`ReadIntoRenderTarget`): a literal, unscaled window
    of the canvas read with wrapped addressing, each pixel passed through the
    export transform. */
module Export {
  import opened Toroidal
  import opened Colors
  import opened PixelStore

  /** The `w * h` buffer filled from the window whose top-left corner is
      `(startX, startY)`, in row-major order. */
  function ExportWindow(c: Canvas, startX: int, startY: int, w: nat, h: nat): (r: seq<Color>)
    requires Valid(c) && (w * h > 0 ==> Addressable(c))
    ensures |r| == w * h
  {
    seq(w * h, k requires 0 <= k < w * h => ExportTransform(Pixel(c, startX + k % w, startY + k / w)))
  }

  /** Cell `(x, y)` of the exported buffer is the transformed canvas pixel at
      `(startX + x, startY + y)` reduced modulo the canvas size: a window that
      runs past an edge continues from the opposite edge. */
  lemma ExportWindowAt(c: Canvas, startX: int, startY: int, w: nat, h: nat, x: int, y: int)
    requires Addressable(c) && 0 <= x < w && 0 <= y < h
    ensures 0 <= Cell(w, x, y) < w * h
    ensures ExportWindow(c, startX, startY, w, h)[Cell(w, x, y)] == ExportTransform(Pixel(c, startX + x, startY + y))
    ensures InBounds(c, (startX + x) % c.sizeX, (startY + y) % c.sizeY)
    ensures ExportWindow(c, startX, startY, w, h)[Cell(w, x, y)] ==
      ExportTransform(c.data[Cell(c.sizeX, (startX + x) % c.sizeX, (startY + y) % c.sizeY)])
  {
    CellBound(w, h, x, y);
    CellDivMod(w, x, y);
    PixelWraps(c, startX + x, startY + y);
  }

  /** Shifting the start by whole canvas sizes exports the same buffer. */
  lemma ExportWindowPeriodic(c: Canvas, startX: int, startY: int, w: nat, h: nat, k: int, m: int)
    requires Addressable(c)
    ensures ExportWindow(c, startX + k * c.sizeX, startY + m * c.sizeY, w, h) == ExportWindow(c, startX, startY, w, h)
  {
    var a := ExportWindow(c, startX + k * c.sizeX, startY + m * c.sizeY, w, h);
    var b := ExportWindow(c, startX, startY, w, h);
    forall i | 0 <= i < w * h
      ensures a[i] == b[i]
    {
      assert startX + k * c.sizeX + i % w == (startX + i % w) + k * c.sizeX;
      assert startY + m * c.sizeY + i / w == (startY + i / w) + m * c.sizeY;
      PixelPeriodic(c, startX + i % w, startY + i / w, k, m);
    }
  }

  /** Exporting the whole canvas from the origin yields every stored pixel, in
      order, with its alpha complemented; applying the transform again gives
      back the canvas itself. */
  lemma ExportWholeCanvas(c: Canvas)
    requires Addressable(c)
    ensures var r := ExportWindow(c, 0, 0, c.sizeX, c.sizeY);
      |r| == |c.data| && forall i :: 0 <= i < |r| ==> r[i] == ExportTransform(c.data[i]) && ExportTransform(r[i]) == c.data[i]
  {
    var r := ExportWindow(c, 0, 0, c.sizeX, c.sizeY);
    forall i | 0 <= i < |r|
      ensures r[i] == ExportTransform(c.data[i]) && ExportTransform(r[i]) == c.data[i]
    {
      var x, y := i % c.sizeX, i / c.sizeX;
      RowBound(i, c.sizeX, c.sizeY);
      CellOfIndex(c.sizeX, i);
      ExportWindowAt(c, 0, 0, c.sizeX, c.sizeY, x, y);
      assert r[Cell(c.sizeX, x, y)] == ExportTransform(Pixel(c, x, y));
      ExportTransformInvolution(c.data[i]);
    }
  }
}
