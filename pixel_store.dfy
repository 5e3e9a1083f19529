/** The toroidal pixel store as a value: its size and its flat row-major pixel
    sequence, with the wrapped access `Pixel` and the bounds-checked access
    `PixelChecked` of `UVirtualRenderTarget2D`. */
module PixelStore {
  import opened Toroidal
  import opened Colors

  datatype Canvas = Canvas(sizeX: int, sizeY: int, data: seq<Color>)

  /** The store's invariant: one pixel per cell. */
  predicate Valid(c: Canvas) {
    |c.data| == c.sizeX * c.sizeY
  }

  /** Wrapped access needs a non-empty store: `At` divides by both sizes. */
  predicate Addressable(c: Canvas) {
    Valid(c) && c.sizeX > 0 && c.sizeY > 0
  }

  predicate InBounds(c: Canvas, x: int, y: int) {
    0 <= x < c.sizeX && 0 <= y < c.sizeY
  }

  /** Wrapped access: any coordinate pair reads some pixel of the store, and
      inside the store it reads the row-major cell. */
  function Pixel(c: Canvas, x: int, y: int): (p: Color)
    requires Addressable(c)
    ensures p in c.data
    ensures InBounds(c, x, y) ==> 0 <= Cell(c.sizeX, x, y) < |c.data| && p == c.data[Cell(c.sizeX, x, y)]
  {
    var i := At(x, y, c.sizeX, c.sizeY);
    if InBounds(c, x, y) then
      AtInRange(x, y, c.sizeX, c.sizeY);
      c.data[i]
    else
      c.data[i]
  }

  /** Bounds-checked access: inside the store it is the wrapped access, outside
      it is the zero pixel and never wraps. */
  function PixelChecked(c: Canvas, x: int, y: int): (p: Color)
    requires Valid(c)
    ensures InBounds(c, x, y) ==> Addressable(c) && p == Pixel(c, x, y)
    ensures !InBounds(c, x, y) ==> p == Zero
    ensures p == Zero || p in c.data
  {
    if x >= 0 && y >= 0 && x < c.sizeX && y < c.sizeY then
      c.data[At(x, y, c.sizeX, c.sizeY)]
    else
      Zero
  }

  /** Wrapped access repeats with the store's period on both axes. */
  lemma PixelPeriodic(c: Canvas, x: int, y: int, k: int, m: int)
    requires Addressable(c)
    ensures Pixel(c, x + k * c.sizeX, y + m * c.sizeY) == Pixel(c, x, y)
  {
    AtPeriodic(x, y, k, m, c.sizeX, c.sizeY);
  }

  /** Wrapped access agrees with the in-store coordinate obtained by reducing
      both coordinates modulo the sizes. */
  lemma PixelWraps(c: Canvas, x: int, y: int)
    requires Addressable(c)
    ensures InBounds(c, x % c.sizeX, y % c.sizeY)
    ensures Pixel(c, x, y) == Pixel(c, x % c.sizeX, y % c.sizeY)
  {
    AtInRange(x % c.sizeX, y % c.sizeY, c.sizeX, c.sizeY);
  }

  /** The store right after a resize: `sizeX * sizeY` zero pixels. */
  function Blank(sizeX: int, sizeY: int): (c: Canvas)
    requires sizeX * sizeY >= 0
    ensures Valid(c) && c.sizeX == sizeX && c.sizeY == sizeY
  {
    Canvas(sizeX, sizeY, seq(sizeX * sizeY, _ => Zero))
  }

  /** A freshly resized store reads as zero everywhere, through either access. */
  lemma BlankReadsZero(sizeX: int, sizeY: int, x: int, y: int)
    requires sizeX * sizeY >= 0
    ensures Addressable(Blank(sizeX, sizeY)) ==> Pixel(Blank(sizeX, sizeY), x, y) == Zero
    ensures PixelChecked(Blank(sizeX, sizeY), x, y) == Zero
  {
  }
}
