/** The GPU render targets the canvas reads from and writes to, seen only at
    the interface the canvas checks: a possibly-null handle, its pixel format,
    whether it has a resource, and its size. */
module Surfaces {

  /** `PF_B8G8R8A8`, the one format a tile may have, or any other format with
      its block size in bytes. */
  datatype PixelFormat = B8G8R8A8 | OtherFormat(blockBytes: nat)

  function BlockBytes(f: PixelFormat): nat {
    match f
    case B8G8R8A8 => 4
    case OtherFormat(b) => b
  }

  /** `sizeof(FColor)`, the store's `Data.GetTypeSize()`. */
  const ColorBytes: nat := 4

  datatype RenderTarget2D = RenderTarget2D(format: PixelFormat, hasResource: bool, sizeX: nat, sizeY: nat)

  /** A `UTextureRenderTarget2D*`: `None` is the null pointer. */
  datatype Option<T> = None | Some(value: T)

  /** Why an operation became a no-op (each is logged in the source). */
  datatype Error = NullTarget | UnsupportedFormat | NoResource | TooSmall | ReadbackMismatch

  datatype Outcome = Pass | Fail(error: Error)

  datatype Result<T> = Success(value: T) | Failure(error: Error)

  /** The guards shared by the resampler and the exporter, in source order:
      a null target, a format whose block size is not that of a pixel, a target
      without a resource. */
  function UploadCheck(rt: Option<RenderTarget2D>): (r: Outcome)
    ensures r == Pass <==> rt.Some? && BlockBytes(rt.value.format) == ColorBytes && rt.value.hasResource
    ensures rt.None? ==> r == Fail(NullTarget)
    ensures rt.Some? && BlockBytes(rt.value.format) != ColorBytes ==> r == Fail(UnsupportedFormat)
    ensures rt.Some? && BlockBytes(rt.value.format) == ColorBytes && !rt.value.hasResource ==> r == Fail(NoResource)
  {
    if rt.None? then Fail(NullTarget)
    else if BlockBytes(rt.value.format) != ColorBytes then Fail(UnsupportedFormat)
    else if !rt.value.hasResource then Fail(NoResource)
    else Pass
  }

  /** Any 4-byte format passes the upload guards; the render target that the
      tile dump creates (`RTF_RGBA8`, i.e. `PF_B8G8R8A8`) always does. */
  lemma UploadCheckAcceptsColorTargets(sizeX: nat, sizeY: nat)
    ensures UploadCheck(Some(RenderTarget2D(B8G8R8A8, true, sizeX, sizeY))) == Pass
    ensures UploadCheck(Some(RenderTarget2D(OtherFormat(ColorBytes), true, sizeX, sizeY))) == Pass
  {
  }
}
