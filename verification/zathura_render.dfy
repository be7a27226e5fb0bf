/** The cairo render entry point of the current plugin interface
    (zathura-ps/render.c): the libspectre page arrives as the page's private
    data, and the copy goes row by row with `memcpy`. */
module ZathuraRender {
  import opened Types
  import opened Raster

  /** The code `ps_page_render_cairo` returns: INVALID_ARGUMENTS for a NULL
      page or cairo context; UNKNOWN for NULL page data, a target surface
      that is NULL, in an error state or not an image surface, or a failed
      render context or render; OK otherwise. Of the page only its pointer
      is examined. */
  function CairoRenderError(page: Option<Page>, data: bool, cairo: Option<Cairo>, contextOk: bool, rendered: bool)
    : (e: ErrorCode)
    ensures e == InvalidArguments <==> page.None? || cairo.None?
    ensures e == Ok <==> page.Some? && data && cairo.Some? && Drawable(cairo.value.target) && contextOk && rendered
    ensures e == Ok || e == Unknown || e == InvalidArguments
  {
    if page.None? || cairo.None? then InvalidArguments
    else if !data || !Drawable(cairo.value.target) then Unknown
    else if !contextOk || !rendered then Unknown
    else Ok
  }

  /** `ps_page_render_cairo`: on OK, `written` holds the image surface's
      bytes after one `memcpy` of `4 * width` bytes per row; on any error no
      byte was written. */
  method PageRenderCairo(page: Option<Page>, data: bool, cairo: Option<Cairo>, contextOk: bool, rendering: Rendering)
    returns (error: ErrorCode, written: Option<seq<byte>>)
    requires cairo.Some? && Drawable(cairo.value.target) ==> SurfaceCovers(cairo.value.target.value)
    requires cairo.Some? && Drawable(cairo.value.target) ==>
               RasterCovers(rendering, cairo.value.target.value.width, cairo.value.target.value.height)
    ensures error == CairoRenderError(page, data, cairo, contextOk, Rendered(rendering))
    ensures written.Some? <==> error == Ok
    ensures written.Some? ==>
              var s := cairo.value.target.value;
              && RowsCopied(written.value, rendering.data.value, rendering.rowLength, s.stride, SourceBpp * s.width, s.height)
              && UnchangedOutside(written.value, s.data, s.stride, SourceBpp * s.width, s.height)
  {
    error := CairoRenderError(page, data, cairo, contextOk, Rendered(rendering));
    if error != Ok {
      written := None;
      return;
    }
    var s := cairo.value.target.value;
    var out := CopyRows(rendering.data.value, rendering.rowLength, s.data, s.stride, s.width, s.height);
    written := Some(out);
  }
}
