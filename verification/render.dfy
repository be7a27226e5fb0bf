/** The split-out render entry points (render.c): the RGB image-buffer
    render and the cairo render, each receiving the libspectre page
    alongside the host's page. */
module Render {
  import opened Types
  import opened Raster

  // ---------------------------------------------------------------------
  // ps_page_render

  /** The error out-parameter of `ps_page_render` after the call. A NULL
      page stores INVALID_ARGUMENTS; a page without a document, or a NULL
      libspectre page, goes straight to `error_ret`; a failed buffer
      allocation stores OUT_OF_MEMORY; a failed render context or render
      goes to `error_ret`; success leaves the cell untouched. */
  function RenderErrorCell(page: Option<Page>, spectrePage: bool, hasBuffer: bool, contextOk: bool,
                           rendered: bool, error: Option<ErrorCode>): (e: Option<ErrorCode>)
    ensures e.None? <==> error.None?
    ensures page.None? ==> e == SetError(error, InvalidArguments)
    ensures page.Some? && !(page.value.hasDocument && spectrePage) ==> e == ErrorExit(error)
    ensures page.Some? && page.value.hasDocument && spectrePage && !hasBuffer ==> e == SetError(error, OutOfMemory)
    ensures page.Some? && page.value.hasDocument && spectrePage && hasBuffer && !(contextOk && rendered)
            ==> e == ErrorExit(error)
    ensures page.Some? && page.value.hasDocument && spectrePage && hasBuffer && contextOk && rendered
            ==> e == error
    ensures error.Some? && !(page.Some? && page.value.hasDocument && spectrePage && hasBuffer && contextOk && rendered)
            ==> e.value != Ok
  {
    if page.None? then ErrorExit(SetError(error, InvalidArguments))
    else if !page.value.hasDocument || !spectrePage then ErrorExit(error)
    else if !hasBuffer then ErrorExit(SetError(error, OutOfMemory))
    else if !contextOk || !rendered then ErrorExit(error)
    else error
  }

  /** `ps_page_render`: the page rendered into the RGB image buffer that
      `zathura_image_buffer_create` allocated for `width` x `height` pixels
      (`buffer`, NULL when allocation failed), or NULL and an error code. */
  method PageRender(page: Option<Page>, spectrePage: bool, width: nat, height: nat, buffer: Option<ImageBuffer>,
                    contextOk: bool, rendering: Rendering, error: Option<ErrorCode>)
    returns (image: Option<ImageBuffer>, errorOut: Option<ErrorCode>)
    requires buffer.Some? ==> Covers(|buffer.value.data|, buffer.value.rowStride, 3 * width, height)
    requires RasterCovers(rendering, width, height)
    ensures image.Some? <==> page.Some? && page.value.hasDocument && spectrePage && buffer.Some?
                             && contextOk && Rendered(rendering)
    ensures errorOut == RenderErrorCell(page, spectrePage, buffer.Some?, contextOk, Rendered(rendering), error)
    ensures image.Some? ==> image.value.rowStride == buffer.value.rowStride
    ensures image.Some? ==> PixelsCopied(image.value.data, rendering.data.value, rendering.rowLength,
                                         buffer.value.rowStride, 3, width, height)
    ensures image.Some? ==> UnchangedOutside(image.value.data, buffer.value.data, buffer.value.rowStride, 3 * width, height)
  {
    errorOut := RenderErrorCell(page, spectrePage, buffer.Some?, contextOk, Rendered(rendering), error);
    if page.None? || !page.value.hasDocument || !spectrePage || buffer.None? || !contextOk || !Rendered(rendering) {
      image := None;
      return;
    }
    var data := CopyRgb(rendering.data.value, rendering.rowLength, buffer.value.data, buffer.value.rowStride, width, height);
    image := Some(ImageBuffer(data, buffer.value.rowStride));
  }

  // ---------------------------------------------------------------------
  // ps_page_render_cairo

  /** The code `ps_page_render_cairo` returns: INVALID_ARGUMENTS for a NULL
      page or cairo context; UNKNOWN for missing page data, a target surface
      that is NULL, in an error state or not an image surface, or a failed
      render context or render; OK otherwise. */
  function CairoRenderError(page: Option<Page>, cairo: Option<Cairo>, contextOk: bool, rendered: bool): (e: ErrorCode)
    ensures e == InvalidArguments <==> page.None? || cairo.None?
    ensures e == Ok <==> page.Some? && page.value.hasData && cairo.Some? && Drawable(cairo.value.target)
                         && contextOk && rendered
    ensures e == Ok || e == Unknown || e == InvalidArguments
  {
    if page.None? || cairo.None? then InvalidArguments
    else if !page.value.hasData || !Drawable(cairo.value.target) then Unknown
    else if !contextOk || !rendered then Unknown
    else Ok
  }

  /** `ps_page_render_cairo`: on OK, `written` holds the image surface's
      bytes after the RGBA copy; on any error no byte was written. */
  method PageRenderCairo(page: Option<Page>, cairo: Option<Cairo>, contextOk: bool, rendering: Rendering)
    returns (error: ErrorCode, written: Option<seq<byte>>)
    requires cairo.Some? && Drawable(cairo.value.target) ==> SurfaceCovers(cairo.value.target.value)
    requires cairo.Some? && Drawable(cairo.value.target) ==>
               RasterCovers(rendering, cairo.value.target.value.width, cairo.value.target.value.height)
    ensures error == CairoRenderError(page, cairo, contextOk, Rendered(rendering))
    ensures written.Some? <==> error == Ok
    ensures written.Some? ==>
              var s := cairo.value.target.value;
              && PixelsCopied(written.value, rendering.data.value, rendering.rowLength, s.stride, 4, s.width, s.height)
              && UnchangedOutside(written.value, s.data, s.stride, 4 * s.width, s.height)
  {
    error := CairoRenderError(page, cairo, contextOk, Rendered(rendering));
    if error != Ok {
      written := None;
      return;
    }
    var s := cairo.value.target.value;
    var data := CopyRgba(rendering.data.value, rendering.rowLength, s.data, s.stride, s.width, s.height);
    written := Some(data);
  }
}
