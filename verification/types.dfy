/** Records shared by the whole plugin model: bytes, nullable values, the
    host viewer's error enumeration, libspectre's status enumeration, and the
    handles and surfaces the entry points receive. Every backend call is
    represented by the value it would return, passed in as an input. */
module Types {

  /** An unsigned 8-bit value, the C `unsigned char` of every raster buffer. */
  type byte = b: int | 0 <= b < 256

  /** A C pointer that may be NULL. */
  datatype Option<+T> = None | Some(value: T)

  /** A heap string on success, or the code written through the error
      out-parameter on failure. */
  datatype Result<+T> = Value(value: T) | Error(code: ErrorCode)

  /** The host's error enumeration (ZATHURA_ERROR_* in the current plugin,
      ZATHURA_PLUGIN_ERROR_* in the legacy one; the enumerators agree). */
  datatype ErrorCode = Ok | Unknown | OutOfMemory | NotImplemented | InvalidArguments | InvalidPassword

  /** libspectre's status enumeration; the plugin only ever compares against `Success`. */
  datatype SpectreStatus =
    | Success | NoMemory | LoadError | DocumentNotLoaded | InvalidPage | RenderError | ExportError | SaveError

  /** An opaque libspectre document handle; `id` only gives handles identity. */
  datatype SpectreDocument = SpectreDocument(id: nat)

  /** The host's document record: the plugin's private data pointer and the
      page count the plugin reports. */
  datatype Document = Document(data: Option<SpectreDocument>, pageCount: nat)

  /** The host's page record, reduced to the two pointers the plugin tests:
      its private data (the libspectre page) and its owning document. */
  datatype Page = Page(hasData: bool, hasDocument: bool)

  /** What `spectre_page_render` hands back: a malloc'd raster of 4 bytes per
      pixel (or NULL), its row length in bytes, and the page status read
      right after the call. */
  datatype Rendering = Rendering(data: Option<seq<byte>>, rowLength: nat, status: SpectreStatus)

  /** The render succeeded: data is non-NULL and the page status is success. */
  predicate Rendered(r: Rendering) {
    r.data.Some? && r.status == Success
  }

  /** The host's RGB image buffer, as `zathura_image_buffer_create`
      allocates it: its bytes and its row stride. */
  datatype ImageBuffer = ImageBuffer(data: seq<byte>, rowStride: nat)

  /** A cairo surface's own state: whether cairo_surface_status reports
      success, whether cairo_surface_get_type reports an image surface, and
      its geometry and pixel bytes. What the cairo_image_surface_get_*
      accessors report depends on the type as well (see `Ps.ImageView`);
      for an image surface it is exactly this geometry and these bytes. */
  datatype Surface = Surface(statusOk: bool, isImage: bool, width: nat, height: nat, stride: nat, data: seq<byte>)

  /** The target surface can be drawn into: non-NULL, in a good state, and
      an image surface. */
  predicate Drawable(target: Option<Surface>) {
    target.Some? && target.value.statusOk && target.value.isImage
  }

  /** A cairo context, reduced to its target surface (NULL or not). */
  datatype Cairo = Cairo(target: Option<Surface>)

  /** The two ways a document can be written back: libspectre's native
      PostScript save or its PDF export. */
  datatype SaveFormat = Pdf | Native

  /** The backend save call an entry point issues. */
  datatype SaveRequest = SaveRequest(format: SaveFormat, path: string)

  /** The code a save entry point returns and the backend call it made, if any. */
  datatype SaveOutcome = SaveOutcome(error: ErrorCode, request: Option<SaveRequest>)

  /** `if (error != NULL) *error = code;`: the error out-parameter after an
      assignment, where None stands for a NULL pointer. */
  function SetError(error: Option<ErrorCode>, code: ErrorCode): (r: Option<ErrorCode>)
    ensures r.None? <==> error.None?
    ensures r.Some? ==> r.value == code
  {
    if error.Some? then Some(code) else None
  }

  /** The `error_ret` label of the RGB render entry points: a code already
      stored through the out-parameter is kept, and only OK is turned into
      UNKNOWN, so a failed render never reports OK to a caller that asked. */
  function ErrorExit(error: Option<ErrorCode>): (r: Option<ErrorCode>)
    ensures r.None? <==> error.None?
    ensures r != Some(Ok)
    ensures error.Some? && error.value != Ok ==> r == error
    ensures error == Some(Ok) ==> r == Some(Unknown)
  {
    match error
    case Some(Ok) => Some(Unknown)
    case _ => error
  }
}
