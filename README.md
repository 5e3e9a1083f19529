# OrthoMap virtual canvas, modelled in Dafny

OrthoMap builds one large orthographic map image from many small GPU render
targets. At its centre is `UVirtualRenderTarget2D`, a toroidal pixel canvas:
a flat array of 4-byte `FColor` pixels with `SizeX` and `SizeY`, addressed
with wraparound on both axes. Three operations use it:

- tile ingestion (`OverlayRenderTarget2D`), which copies the padding-trimmed,
  canvas-clipped part of a tile into the canvas in place;
- the window exporter (`ReadIntoRenderTarget`), which fills a buffer from a
  wrapped window of the canvas and XORs every pixel with `FColor(0, 0, 0)`;
- the resampler (`DrawSubregionToRenderTarget`), which fills a buffer with
  bounds-checked samples at a scaled, offset position.

The cheat command `DumpVRT2D` cuts the canvas into 4096 by 4096 tiles, exports
each through the window exporter, and names each tile `"{x/4096}_{y/4096}.png"`.

The model, module by module:

- `Toroidal` (toroidal.dfy): C++'s truncating `%` (`TruncRem`), `PositiveMod`
  built from it, the wrapped index `At`, and the row-major `Cell` index.
- `Colors` (colors.dfy): `FColor` as four bytes, its packed `Bits` word, and
  the export transform.
- `PixelStore` (pixel_store.dfy): the canvas as a value (`Canvas`), with the
  wrapped `Pixel` and the bounds-checked `PixelChecked`.
- `Surfaces` (surfaces.dfy): a render target as the canvas sees it (nullable,
  pixel format, resource present, size) and the guards that turn an operation
  into a logged no-op.
- `TileOverlay` (overlay.dfy): the overlay's guards, its copy window, and the
  canvas that results. It also holds the unsigned loop bounds as written (see
  Findings).
- `Export` (export.dfy): the buffer the window exporter produces.
- `Resample` (resample.dfy): the buffer the resampler produces, with the
  sample arithmetic over exact reals.
- `VirtualCanvas` (virtual_canvas.dfy): the class `VirtualRenderTarget2D`.
  Its pixels are an `array<Color>` field. `SetSize` reallocates it. The overlay
  writes into it with nested loops. The exporter and the resampler fill a fresh
  buffer with nested loops. Each method is proved against the function of the
  module above that specifies it.
- `TileExport` (tile_export.dfy): the tile origins, the tile file names, and
  `DumpVRT2D` as a loop that collects the exported tiles.

Three behaviours of the code that a reader might not expect:

- The export XOR is not an identity. `FColor(0, 0, 0)` has alpha 255, so the
  transform complements the alpha byte. It is an involution, and it changes
  every pixel.
- The resampler's `double` to `int32` conversion truncates toward zero. It does
  not round.
- `SetSize` with two negative sizes gives a non-empty store, because the product
  of the sizes is positive. The model admits any pair of `int32` sizes whose
  product lies in `[0, INT32_MAX]`.

## Model

| member | source | states |
|---|---|---|
| Toroidal.TruncRem | Source/OrthoMap/Public/VirtualRenderTarget2D.h:36 | C++ `%`: the remainder is smaller in magnitude than the divisor, takes the sign of the dividend, and differs from it by a multiple of the divisor |
| Toroidal.PositiveMod | Source/OrthoMap/Public/VirtualRenderTarget2D.h:33-37 | for a positive divisor, the result lies in `[0, n)` and is congruent to `i` modulo `n` for every `i`, negative ones included |
| Toroidal.PositiveModIdentity | Source/OrthoMap/Public/VirtualRenderTarget2D.h:33-37 | `PositiveMod(i, n) == i` whenever `0 <= i < n` |
| Toroidal.At | Source/OrthoMap/Public/VirtualRenderTarget2D.h:51-56 | with positive sizes, the wrapped index of any coordinate pair lies in `[0, SizeX*SizeY)` |
| Toroidal.AtInRange | Source/OrthoMap/Public/VirtualRenderTarget2D.h:51-56 | inside the canvas, `At(x, y) == y*SizeX + x` |
| Toroidal.AtPeriodic | Source/OrthoMap/Public/VirtualRenderTarget2D.h:51-56 | `At(x + k*SizeX, y + m*SizeY) == At(x, y)` for all integers `k`, `m` |
| Toroidal.AtInjective | Source/OrthoMap/Public/VirtualRenderTarget2D.h:51-56 | two in-canvas coordinate pairs with the same index are equal |
| Toroidal.AtSurjective | Source/OrthoMap/Public/VirtualRenderTarget2D.h:51-56 | every index of `Data` is `At` of an in-canvas pair, so `At` is a bijection from the rectangle onto `Data` |
| Colors.Bits | Source/OrthoMap/Private/VirtualRenderTarget2D.cpp:200 | the packed `FColor::Bits` word holds alpha in its high byte, then red, green, and blue in its low byte |
| Colors.BlackMask | Source/OrthoMap/Private/VirtualRenderTarget2D.cpp:200 | the word the exporter XORs with, `FColor(0, 0, 0).Bits`, is `0xFF000000`: only the alpha byte is set, because the alpha parameter defaults to 255 |
| Colors.BitsRoundTrip | Source/OrthoMap/Private/VirtualRenderTarget2D.cpp:200 | unpacking the packed `Bits` word gives back the color |
| Colors.FromBitsRoundTrip | Source/OrthoMap/Private/VirtualRenderTarget2D.cpp:200 | packing an unpacked word gives back the word |
| Colors.BitsInjective | Source/OrthoMap/Private/VirtualRenderTarget2D.cpp:200 | two colors with the same packed word are equal |
| Colors.ExportTransform | Source/OrthoMap/Private/VirtualRenderTarget2D.cpp:200 | XOR with `FColor(0, 0, 0).Bits` keeps R, G and B and complements alpha; an opaque pixel becomes fully transparent and only such a pixel does |
| Colors.ExportTransformInvolution | Source/OrthoMap/Private/VirtualRenderTarget2D.cpp:200 | applying the transform twice gives back the pixel |
| Colors.ExportTransformChangesEveryPixel | Source/OrthoMap/Private/VirtualRenderTarget2D.cpp:200 | the transform is not the identity on any pixel |
| PixelStore.Pixel | Source/OrthoMap/Public/VirtualRenderTarget2D.h:58-66 | wrapped access on a non-empty canvas always reads a stored pixel; inside the canvas it reads cell `y*SizeX + x` |
| PixelStore.PixelChecked | Source/OrthoMap/Public/VirtualRenderTarget2D.h:68-75 | outside `[0,SizeX)x[0,SizeY)` the zero pixel, with no wrapping; inside, the same pixel as `Pixel` |
| PixelStore.PixelPeriodic | Source/OrthoMap/Public/VirtualRenderTarget2D.h:51-66 | wrapped access repeats with period `SizeX` and `SizeY` |
| PixelStore.PixelWraps | Source/OrthoMap/Public/VirtualRenderTarget2D.h:51-66 | wrapped access equals access at the coordinates reduced modulo the sizes, which lie in the canvas |
| PixelStore.Blank | Source/OrthoMap/Private/VirtualRenderTarget2D.cpp:22-25 | the resized store has the new sizes and one pixel per cell |
| PixelStore.BlankReadsZero | Source/OrthoMap/Private/VirtualRenderTarget2D.cpp:24-25 | every pixel of a freshly resized store is zero, through either access |
| Surfaces.UploadCheck | Source/OrthoMap/Private/VirtualRenderTarget2D.cpp:176-188 | the exporter and the resampler proceed exactly when the target is non-null, its block size is 4 bytes and it has a resource; otherwise the first failing guard is reported |
| Surfaces.UploadCheckAcceptsColorTargets | Source/OrthoMap/Private/OrthoMapCME.cpp:32 | a `PF_B8G8R8A8` target with a resource, such as the dump's `RTF_RGBA8` target, passes those guards |
| TileOverlay.OverlayWindow | Source/OrthoMap/Private/VirtualRenderTarget2D.cpp:100-103 | the signed loop bounds contain a tile-local `(x, y)` exactly when it lies at least 4 pixels inside the tile and `(AtX+x, AtY+y)` lies in the canvas |
| TileOverlay.OverlayWindowSafe | Source/OrthoMap/Private/VirtualRenderTarget2D.cpp:104-106 | every copied cell has an in-canvas destination, so no wrapping happens, and a source index in `[0, LenX*LenY)` |
| TileOverlay.OverlayCheck | Source/OrthoMap/Private/VirtualRenderTarget2D.cpp:34-86 | the copy runs exactly when the tile is non-null, `PF_B8G8R8A8`, has a resource, is larger than 8 on both axes, and its readback has `LenX*LenY` pixels; otherwise the first failing guard, in source order, is reported |
| TileOverlay.TileAt | Source/OrthoMap/Private/VirtualRenderTarget2D.cpp:106 | the readback pixel at `y*LenX + x` is a pixel of the readback |
| TileOverlay.Overlaid | Source/OrthoMap/Private/VirtualRenderTarget2D.cpp:104-106 | each canvas cell after the copy either keeps its old pixel or holds a pixel of the readback |
| TileOverlay.Overlay | Source/OrthoMap/Private/VirtualRenderTarget2D.cpp:100-108 | the overlaid canvas keeps its sizes and has one pixel per cell |
| TileOverlay.OverlayAt | Source/OrthoMap/Private/VirtualRenderTarget2D.cpp:100-108 | after the overlay, a canvas pixel whose tile-local position is in the window holds `RTData[y*LenX + x]`; every other canvas pixel is unchanged |
| TileOverlay.OverlayKeepsPadding | Source/OrthoMap/Private/VirtualRenderTarget2D.cpp:100-108 | canvas pixels under the tile's 4-pixel border are never changed |
| TileOverlay.OverlayScenario | Source/OrthoMap/Private/VirtualRenderTarget2D.cpp:100-108 | a solid 16x16 tile at `(0, 0)` on a blank 8x8 canvas colors exactly `[4,8)x[4,8)` |
| TileOverlay.AsSizeT | Source/OrthoMap/Private/VirtualRenderTarget2D.cpp:104-105 | an `int32` bound compared with a `size_t` counter is kept when non-negative and becomes larger than any `int32` when negative |
| TileOverlay.AsWrittenWindow | Source/OrthoMap/Private/VirtualRenderTarget2D.cpp:100-105 | the loops as written start where the intended window starts; an upper bound differs from the intended one exactly when that bound is negative, and then it exceeds every `int32` |
| TileOverlay.AsWrittenAgreesWhenAnchored | Source/OrthoMap/Private/VirtualRenderTarget2D.cpp:100-105 | when `AtX <= SizeX` and `AtY <= SizeY`, the unsigned loops cover the intended window |
| TileOverlay.AsWrittenOverlayReadsPastTile | Source/OrthoMap/Private/VirtualRenderTarget2D.cpp:103-106 | for a 16x16 tile at `(0, 20)` on an 8x8 canvas, the unsigned loops reach a readback index past the tile while the intended window is empty |
| Export.ExportWindow | Source/OrthoMap/Private/VirtualRenderTarget2D.cpp:198-202 | the exported buffer has exactly `W*H` pixels |
| Export.ExportWindowAt | Source/OrthoMap/Private/VirtualRenderTarget2D.cpp:198-202 | cell `y*W + x` is the transformed canvas pixel at `((StartX+x) mod SizeX, (StartY+y) mod SizeY)`: a window past an edge continues from the opposite edge |
| Export.ExportWindowPeriodic | Source/OrthoMap/Private/VirtualRenderTarget2D.cpp:198-202 | moving the start by whole canvas sizes exports the same buffer |
| Export.ExportWholeCanvas | Source/OrthoMap/Private/VirtualRenderTarget2D.cpp:198-202 | exporting the whole canvas from the origin gives every stored pixel in order, transformed, and transforming it again gives back the canvas |
| Resample.TruncateToInt | Source/OrthoMap/Private/VirtualRenderTarget2D.cpp:148 | the `double` to `int32` conversion truncates toward zero |
| Resample.SampleCentred | Source/OrthoMap/Private/VirtualRenderTarget2D.cpp:138-147 | `SampleOffset`, the sample position of an output cell: the centre column and row of the target sample the centre of the canvas, moved against the offset, which is measured in fog-of-war units |
| Resample.Sample | Source/OrthoMap/Private/VirtualRenderTarget2D.cpp:147-148 | a sample is the zero pixel or a stored pixel, and it is the zero pixel whenever its truncated position lies outside the canvas |
| Resample.DrawWindow | Source/OrthoMap/Private/VirtualRenderTarget2D.cpp:145-150 | the resampled buffer has `W*H` cells, and each is the zero pixel or a pixel of the store |
| Resample.DrawWindowAt | Source/OrthoMap/Private/VirtualRenderTarget2D.cpp:138-148 | cell `y*W + x` is the canvas pixel at the truncated sample position when it lies in the canvas, and the zero pixel otherwise |
| Resample.DrawIdentity | Source/OrthoMap/Private/VirtualRenderTarget2D.cpp:138-150 | with canvas, target and fog-of-war square all `n` wide, unit scale and no offset, the resampler reproduces the canvas |
| VirtualCanvas.VirtualRenderTarget2D.constructor | Source/OrthoMap/Public/VirtualRenderTarget2D.h:22-31 | a new canvas is empty, with fog-of-war resolution 1024 |
| VirtualCanvas.VirtualRenderTarget2D.SetSize | Source/OrthoMap/Private/VirtualRenderTarget2D.cpp:20-30 | the sizes become the new ones and the store is a fresh all-zero array; the fog-of-war resolution doubles the map manager's when one exists and is kept otherwise |
| VirtualCanvas.VirtualRenderTarget2D.OverlayRenderTarget2D | Source/OrthoMap/Private/VirtualRenderTarget2D.cpp:32-112 | when a guard fails, the store is unchanged; otherwise the new canvas is `Overlay` of the old one. The loops run over the signed window, so a tile placed at `AtX > SizeX` or `AtY > SizeY` copies nothing. The code as written reads past the readback in that case whenever the other axis's window, as written, is not empty (see Findings) |
| VirtualCanvas.VirtualRenderTarget2D.ReadIntoRenderTarget | Source/OrthoMap/Private/VirtualRenderTarget2D.cpp:174-206 | fails with the first failing guard; otherwise returns `ExportWindow` of the canvas; the canvas is not changed |
| VirtualCanvas.VirtualRenderTarget2D.DrawSubregionToRenderTarget | Source/OrthoMap/Private/VirtualRenderTarget2D.cpp:114-172 | fails with the first failing guard; otherwise returns `DrawWindow` of the canvas; the canvas is not changed |
| TileExport.TileCount | Source/OrthoMap/Private/OrthoMapCME.cpp:45-46 | for a positive size, the number of tiles per axis is `ceil(size / 4096)` |
| TileExport.TileCountSpec | Source/OrthoMap/Private/OrthoMapCME.cpp:45-46 | `i` counts as a tile index exactly when `i*4096` is below the size |
| TileExport.TileOrigins | Source/OrthoMap/Private/OrthoMapCME.cpp:45-46 | there are `TileCount(SizeX) * TileCount(SizeY)` origins |
| TileExport.OriginOf | Source/OrthoMap/Private/OrthoMapCME.cpp:45-46 | every origin has non-negative coordinates |
| TileExport.TileOriginAt | Source/OrthoMap/Private/OrthoMapCME.cpp:45-46 | origin number `j*nx + i` is `(i*4096, j*4096)` |
| TileExport.TileOriginsExact | Source/OrthoMap/Private/OrthoMapCME.cpp:45-46 | the origins are exactly the pairs of multiples of 4096 inside the canvas |
| TileExport.NoTilesForEmptyCanvas | Source/OrthoMap/Private/OrthoMapCME.cpp:45-46 | there are no origins when either size is not positive |
| TileExport.TileOriginsRowMajor | Source/OrthoMap/Private/OrthoMapCME.cpp:45-46 | a later origin is in a later row, or in the same row further right |
| TileExport.OriginOrder | Source/OrthoMap/Private/OrthoMapCME.cpp:45-46 | row-major order of origin numbers, for any row length |
| TileExport.Decimal | Source/OrthoMap/Private/OrthoMapCME.cpp:48 | `%u` formatting gives a non-empty string of decimal digits |
| TileExport.DigitValue | Source/OrthoMap/Private/OrthoMapCME.cpp:48 | a digit character stands for a value below 10 |
| TileExport.DecimalRoundTrip | Source/OrthoMap/Private/OrthoMapCME.cpp:48 | reading the decimal digits of `n` back gives `n` |
| TileExport.DecimalInjective | Source/OrthoMap/Private/OrthoMapCME.cpp:48 | distinct numbers format to distinct strings |
| TileExport.TileFileName | Source/OrthoMap/Private/OrthoMapCME.cpp:48 | the `%u_%u.png` name starts with the column number, followed by `_`, and ends in `.png` |
| TileExport.LeadingDigits | Source/OrthoMap/Private/OrthoMapCME.cpp:48 | the leading digits of a name are a prefix of it |
| TileExport.LeadingDigitsOfNumber | Source/OrthoMap/Private/OrthoMapCME.cpp:48 | a number followed by a non-digit is read back whole |
| TileExport.NameParts | Source/OrthoMap/Private/OrthoMapCME.cpp:48 | a name built as number, `_`, rest and `.png` splits back into those parts |
| TileExport.TileFileNameParts | Source/OrthoMap/Private/OrthoMapCME.cpp:48 | a tile name splits back into its column number and the row number with the extension |
| TileExport.TileFileNameInjective | Source/OrthoMap/Private/OrthoMapCME.cpp:48 | distinct tiles get distinct file names |
| TileExport.TileForContents | Source/OrthoMap/Private/OrthoMapCME.cpp:47-48 | `TileFor`, the tile exported at an origin, holds a full 4096x4096 window whose cell `(dx, dy)` is the transformed wrapped pixel at `origin + (dx, dy)`, and its name begins with the origin's column number `x/4096` |
| TileExport.DumpStep | Source/OrthoMap/Private/OrthoMapCME.cpp:46-50 | the tile read at column `i`, row `j` is the tile of the next origin in order |
| TileExport.DumpVRT2D | Source/OrthoMap/Private/OrthoMapCME.cpp:21-53 | nothing is exported when the canvas is missing or the render target cannot be created; otherwise one tile per origin, in row-major order, each the 4096x4096 exported window at its origin with name `"{x/4096}_{y/4096}.png"` |
| TileExport.DumpRow | Source/OrthoMap/Private/OrthoMapCME.cpp:46-51 | one pass of the inner loop over row `j` appends that row's tiles, each the exported window at the next origin in row-major order, so the list grows from the first `j` rows to the first `j + 1` |
| TileExport.TileWrapsPastEdge | Source/OrthoMap/Private/OrthoMapCME.cpp:25-47 | a tile that runs past the right edge of the canvas continues from the left edge |
| TileExport.DumpScenario | Source/OrthoMap/Private/OrthoMapCME.cpp:45-48 | a 10000x10000 canvas gives 3x3 tiles with origins in row-major order; the tile in column 2, row 1 is named `2_1.png` |

## Left out

- GPU and render-thread plumbing is not modelled: `ENQUEUE_RENDER_COMMAND`, `ReadSurfaceData`, `UpdateTextureRegion` and `RHIUpdateTexture2D` with the deferred free. The readback is a parameter of the overlay. The filled buffer is the exporter's and the resampler's result.
- `AsyncTask` dispatch and the unsynchronised sharing of `Data` between threads are not modelled. Each copy loop is one sequential method. Torn reads between a concurrent overlay and a concurrent read cannot occur in the model.
- The race in `DumpVRT2D` is not modelled. `ExportRenderTarget` runs right after the asynchronous fill and may save a target that is not filled yet. The model pairs each tile with the buffer its fill produces.
- PNG export, the timestamped folder, logging and the `RUNNING!` banner are not modelled. A tile is its origin, its file name and its pixels.
- The out-of-memory branches after `FMemory::Malloc` are not modelled. Allocation always succeeds.
- `double` arithmetic is not modelled. The resampler's sample positions are exact reals, so `double` rounding is not captured. An out-of-range `double` to `int32` conversion is undefined in C++; the model truncates it like any other.
- Resample.DrawWindow: requires a nonzero fog-of-war resolution and nonzero scale factors whenever the buffer is not empty. The source divides by them; with IEEE doubles the result would be an infinity or a NaN, and the model has no such values.
- Toroidal.PositiveMod: does not model the `int32` overflow of `i % n + n` when `n` exceeds `2^30`, because canvas sizes stay far below that.
- TileOverlay.OverlayWindow: does not model the `int32` overflow of `-AtX` and `-AtY` at `INT32_MIN`, nor that of `-AtX + SizeX` and `-AtY + SizeY` for very negative anchors, nor the truncation of `AtX + x` from `size_t` back to `int32`, which is exact for every in-window cell.
- Export.ExportWindow: does not model the `int32` wrap of `x + StartX` when `StartX` is close to `INT32_MAX`. For a non-empty buffer it also requires positive canvas sizes (`Addressable`), for the reasons given for `ReadIntoRenderTarget`: a zero size divides by zero and negative sizes index `Data` out of range.
- TileExport.DumpVRT2D: does not model the `int32` overflow of `x += 4096` or `y += 4096` for a size within 4096 of `INT32_MAX`.
- VirtualCanvas.VirtualRenderTarget2D.SetSize: requires the product of the sizes to lie in `[0, INT32_MAX]`. The source computes it in `int32`, and `TArray::SetNum` rejects a negative count.
- The subsystem lookup, the cheat-manager registration, the console variable and `OrthoMap.Build.cs` are host glue and are not modelled. The subsystem's canvas is a possibly-null parameter of `DumpVRT2D`. Whether its render target was created is a boolean.
- `QuantizeVector2D` (floating-point rounding in the blueprint library) is not part of this model.
- The disabled `#if 0` branch of the overlay and the `#else` branch of the resampler are not modelled, because they are not compiled.
- `FColor(EForceInit::ForceInit)` is the all-zero pixel. The pixels `TArray::SetNum` default-constructs after `TArray::Reset` are modelled as zero too. That is the model's choice, not something the code guarantees: `FColor()` need not initialise its bytes, and `Reset` keeps the old allocation, so the store may still hold the old image.
- VirtualCanvas.VirtualRenderTarget2D.SetSize: the all-zero store it promises rests on that choice.
- PixelStore.BlankReadsZero: the zero pixels it proves for a freshly resized store rest on the same choice; `SetNum` after `Reset` does not promise them.
- VirtualCanvas.VirtualRenderTarget2D.SetSize: requires twice the map manager's fog-of-war resolution to fit in `int32`. The source doubles it in `int32` arithmetic, and the model does not capture the overflow.
- VirtualCanvas.VirtualRenderTarget2D.ReadIntoRenderTarget: requires positive canvas sizes when the guards pass and the target is not empty. With a zero size the source divides by zero in `PositiveMod`. With negative sizes, which `SetSize` accepts, `At` gives negative indices and the source indexes `Data` out of range. The model captures neither.
- VirtualCanvas.VirtualRenderTarget2D.DrawSubregionToRenderTarget: requires a nonzero fog-of-war resolution and nonzero scale factors when the guards pass and the target is not empty, for the reason given for `Resample.DrawWindow`.

## Findings

| source | as written | input that shows it | evidently intended | confidence | as-written member | corrected member |
|---|---|---|---|---|---|---|
| Source/OrthoMap/Private/VirtualRenderTarget2D.cpp:104-105 | the `size_t` loop counters are compared with the `int32` bounds `UpperX` and `UpperY`; a negative bound converts to `2^64` minus its magnitude | `SizeX = SizeY = 8`, a 16x16 tile at `AtX = 0, AtY = 20`: `UpperY = min(8 - 20, 12) = -12`, so the loops run from row 4 up and read `RTData[16*16 + 4]`, past the 256-pixel readback | a tile wholly beyond the canvas's right or bottom edge copies nothing: the signed window `[max(-At, 4), min(Size - At, Len - 4))` is empty | not executed | TileOverlay.AsWrittenOverlayReadsPastTile | TileOverlay.OverlayWindow |
