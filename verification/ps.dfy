/** The legacy single-file plugin (ps.c): extension sniffing and save-format
    dispatch, metadata selection, and the RGB and cairo render entry points
    of the old plugin interface. */
module Ps {
  import opened Types
  import opened Raster

  // ---------------------------------------------------------------------
  // get_extension

  /** Character `i` of a C string; index `|path|` is the NUL terminator. */
  function CharAt(path: string, i: nat): char
    requires i <= |path|
  {
    if i == |path| then '\0' else path[i]
  }

  /** The downward scan of `get_extension`: starting at index `i` (the
      terminator on the first call) and stopping before index 0, the first
      index that holds a dot, or 0 when none does. Index 0 is never read. */
  function ScanForDot(path: string, i: nat): (j: nat)
    requires i <= |path|
    ensures j <= i
    ensures j == 0 || (j < |path| && path[j] == '.')
    ensures forall k :: j < k <= i && k < |path| ==> path[k] != '.'
    decreases i
  {
    if i == 0 then 0
    else if CharAt(path, i) == '.' then i
    else ScanForDot(path, i - 1)
  }

  /** `ext` is the text after the last dot of `path`, and that dot is not
      the first character. */
  predicate IsExtension(path: string, ext: string) {
    && |ext| + 2 <= |path|
    && path[|path| - |ext| - 1] == '.'
    && path[|path| - |ext|..] == ext
    && '.' !in ext
  }

  /** `get_extension`: the text after the last dot at an index of at least
      1, or NULL for a NULL path or a path with no such dot. */
  function GetExtension(path: Option<string>): (ext: Option<string>)
    ensures path.None? ==> ext.None?
    ensures path.Some? ==> (ext.Some? <==> exists i :: 1 <= i < |path.value| && path.value[i] == '.')
    ensures ext.Some? ==> path.Some? && IsExtension(path.value, ext.value)
  {
    match path
    case None => None
    case Some(p) =>
      var i := ScanForDot(p, |p|);
      if i == 0 then None
      else Some(p[i + 1..])
  }

  /** Two paths that differ at most in their first character scan alike. */
  lemma {:induction false} ScanIgnoresFirstCharacter(p: string, q: string, i: nat)
    requires |p| == |q| && i <= |p|
    requires forall k :: 1 <= k < |p| ==> p[k] == q[k]
    ensures ScanForDot(p, i) == ScanForDot(q, i)
    decreases i
  {
    if i > 0 && CharAt(p, i) != '.' {
      ScanIgnoresFirstCharacter(p, q, i - 1);
    }
  }

  /** The first character of a path never influences its extension: a
      leading dot, as in ".pdf", is not an extension separator. */
  lemma FirstCharacterIgnored(p: string, c: char)
    requires |p| >= 1
    ensures GetExtension(Some(p)) == GetExtension(Some([c] + p[1..]))
  {
    var q := [c] + p[1..];
    assert forall k :: 1 <= k < |p| ==> p[k] == q[k];
    ScanIgnoresFirstCharacter(p, q, |p|);
    var i := ScanForDot(p, |p|);
    if i != 0 {
      assert p[i + 1..] == q[i + 1..];
    }
  }

  /** A bare ".pdf" has no extension. */
  lemma DotFileHasNoExtension()
    ensures GetExtension(Some(".pdf")) == None
  {
    assert ScanForDot(".pdf", 4) == 0;
  }

  /** The last dot wins even when it sits in a directory component: the
      "extension" of "a.d/f" is "d/f". */
  lemma LastDotMayBeInDirectory()
    ensures GetExtension(Some("a.d/f")) == Some("d/f")
  {
    assert ScanForDot("a.d/f", 5) == 1;
  }

  // ---------------------------------------------------------------------
  // ps_document_save_as

  /** `get_extension` yields exactly "pdf" when the path ends in ".pdf" with
      at least one character before the dot. */
  lemma PdfExtensionIffSuffix(path: string)
    ensures GetExtension(Some(path)) == Some("pdf") <==> 5 <= |path| && path[|path| - 4..] == ".pdf"
  {
    var n := |path|;
    if GetExtension(Some(path)) == Some("pdf") {
      assert path[n - 3..] == "pdf";
      assert path[n - 4..] == [path[n - 4]] + path[n - 3..];
    }
    if 5 <= n && path[n - 4..] == ".pdf" {
      assert path[n - 4] == '.';
      var ext := GetExtension(Some(path));
      assert ext.Some?;
      var e := ext.value;
      assert IsExtension(path, e);
      if |e| > 3 {
        assert false;
      }
      if |e| < 3 {
        assert false;
      }
      assert e == path[n - 3..] == "pdf";
    }
  }

  /** The format ps.c saves in: PDF export exactly when the path ends in
      ".pdf" (case-sensitively) with at least one character before the dot,
      native PostScript otherwise. */
  function SaveFormatFor(path: string): (f: SaveFormat)
    ensures f == Pdf <==> 5 <= |path| && path[|path| - 4..] == ".pdf"
  {
    PdfExtensionIffSuffix(path);
    var ext := GetExtension(Some(path));
    if ext.Some? && ext.value == "pdf" then Pdf else Native
  }

  /** `ps_document_save_as`: a NULL document, document data or path is
      rejected before any save; otherwise the path goes to PDF export or to
      native save, and libspectre's status afterwards decides OK or UNKNOWN. */
  function SaveAs(document: Option<Document>, path: Option<string>, statusAfterSave: SpectreStatus): (r: SaveOutcome)
    ensures r.error == InvalidArguments <==> document.None? || document.value.data.None? || path.None?
    ensures r.request.Some? <==> r.error != InvalidArguments
    ensures r.request.Some? ==> r.request.value.path == path.value
    ensures r.request.Some? ==> (r.request.value.format == Pdf <==> 5 <= |path.value| && path.value[|path.value| - 4..] == ".pdf")
    ensures r.error == Ok <==> r.request.Some? && statusAfterSave == Success
    ensures r.error == Ok || r.error == Unknown || r.error == InvalidArguments
  {
    if document.None? || document.value.data.None? || path.None? then
      SaveOutcome(InvalidArguments, None)
    else
      var request := SaveRequest(SaveFormatFor(path.value), path.value);
      SaveOutcome(if statusAfterSave != Success then Unknown else Ok, Some(request))
  }

  // ---------------------------------------------------------------------
  // ps_document_meta_get

  /** The metadata kinds of the host's enumeration: the three ps.c answers
      and any other member, identified by its numeric value. */
  datatype MetaKind = Title | Author | CreationDate | OtherMeta(code: nat)

  /** What libspectre's getters return for a document: each string may be NULL. */
  datatype DocumentInfo = DocumentInfo(creator: Option<string>, title: Option<string>,
                                       forField: Option<string>, creationDate: Option<string>)

  /** A document the plugin has opened: neither it nor its data is NULL. */
  predicate IsOpen(document: Option<Document>) {
    document.Some? && document.value.data.Some?
  }

  /** `ps_document_meta_get`. A document without a creator answers UNKNOWN
      for every kind; otherwise TITLE answers the title, AUTHOR the creator
      and CREATION_DATE the creation date, when that string is present and
      non-empty, and everything else is UNKNOWN. */
  function MetaGet(document: Option<Document>, kind: MetaKind, info: DocumentInfo): (r: Result<string>)
    ensures !IsOpen(document) ==> r == Error(InvalidArguments)
    ensures IsOpen(document) && info.creator.None? ==> r == Error(Unknown)
    ensures r.Error? ==> r.code == InvalidArguments || r.code == Unknown
    ensures IsOpen(document) && r.Error? ==> r.code == Unknown
    ensures r.Value? ==> r.value != [] && info.creator.Some?
    ensures r.Value? && kind == Title ==> info.title == Some(r.value)
    ensures r.Value? && kind == Author ==> info.creator == Some(r.value)
    ensures r.Value? && kind == CreationDate ==> info.creationDate == Some(r.value)
    ensures kind.OtherMeta? ==> r.Error?
    ensures IsOpen(document) && kind == Author && info.creator.Some? && info.creator.value != []
            ==> r == Value(info.creator.value)
    ensures IsOpen(document) && kind == Title && info.creator.Some? && info.title.Some? && info.title.value != []
            ==> r == Value(info.title.value)
    ensures IsOpen(document) && kind == CreationDate && info.creator.Some?
            && info.creationDate.Some? && info.creationDate.value != []
            ==> r == Value(info.creationDate.value)
  {
    if !IsOpen(document) then Error(InvalidArguments)
    else if info.creator.None? then Error(Unknown)
    else if kind.OtherMeta? then Error(Unknown)
    else
      var selected :=
        match kind
        case Title => info.title
        case Author => if info.creator.Some? then info.creator else info.forField
        case CreationDate => info.creationDate;
      if selected.None? || selected.value == [] then Error(Unknown)
      else Value(selected.value)
  }

  /** The AUTHOR fallback to the "for" field is dead code: the creator has
      already been found non-NULL, so no answer depends on the "for" field. */
  lemma ForFieldNeverRead(document: Option<Document>, kind: MetaKind, info: DocumentInfo, other: Option<string>)
    ensures MetaGet(document, kind, info) == MetaGet(document, kind, info.(forField := other))
  {
  }

  // ---------------------------------------------------------------------
  // ps_page_render

  /** The page and its data and document pointers are all non-NULL. */
  predicate PageUsable(page: Option<Page>) {
    page.Some? && page.value.hasData && page.value.hasDocument
  }

  /** The error out-parameter of `ps_page_render` after the call, given
      which steps succeed: a missing page pointer stores INVALID_ARGUMENTS,
      a failed buffer allocation OUT_OF_MEMORY, a failed render context or
      render goes through `error_ret`, and success leaves it untouched. */
  function RenderErrorCell(page: Option<Page>, hasBuffer: bool, contextOk: bool, rendered: bool,
                           error: Option<ErrorCode>): (e: Option<ErrorCode>)
    ensures e.None? <==> error.None?
    ensures !PageUsable(page) ==> e == SetError(error, InvalidArguments)
    ensures PageUsable(page) && !hasBuffer ==> e == SetError(error, OutOfMemory)
    ensures PageUsable(page) && hasBuffer && !(contextOk && rendered) ==> e == ErrorExit(error)
    ensures PageUsable(page) && hasBuffer && contextOk && rendered ==> e == error
    ensures !(PageUsable(page) && hasBuffer && contextOk && rendered) && error.Some? ==> e.value != Ok
  {
    if !PageUsable(page) then ErrorExit(SetError(error, InvalidArguments))
    else if !hasBuffer then ErrorExit(SetError(error, OutOfMemory))
    else if !contextOk || !rendered then ErrorExit(error)
    else error
  }

  /** `ps_page_render`: the page rendered into the RGB image buffer that
      `zathura_image_buffer_create` allocated for `width` x `height` pixels
      (`buffer`, NULL when allocation failed), or NULL and an error code. */
  method PageRender(page: Option<Page>, width: nat, height: nat, buffer: Option<ImageBuffer>,
                    contextOk: bool, rendering: Rendering, error: Option<ErrorCode>)
    returns (image: Option<ImageBuffer>, errorOut: Option<ErrorCode>)
    requires buffer.Some? ==> Covers(|buffer.value.data|, buffer.value.rowStride, 3 * width, height)
    requires RasterCovers(rendering, width, height)
    ensures image.Some? <==> PageUsable(page) && buffer.Some? && contextOk && Rendered(rendering)
    ensures errorOut == RenderErrorCell(page, buffer.Some?, contextOk, Rendered(rendering), error)
    ensures image.Some? ==> image.value.rowStride == buffer.value.rowStride
    ensures image.Some? ==> PixelsCopied(image.value.data, rendering.data.value, rendering.rowLength,
                                         buffer.value.rowStride, 3, width, height)
    ensures image.Some? ==> UnchangedOutside(image.value.data, buffer.value.data, buffer.value.rowStride, 3 * width, height)
  {
    errorOut := RenderErrorCell(page, buffer.Some?, contextOk, Rendered(rendering), error);
    if !PageUsable(page) || buffer.None? || !contextOk || !Rendered(rendering) {
      image := None;
      return;
    }
    var data := CopyRgb(rendering.data.value, rendering.rowLength, buffer.value.data, buffer.value.rowStride, width, height);
    image := Some(ImageBuffer(data, buffer.value.rowStride));
  }

  // ---------------------------------------------------------------------
  // ps_page_render_cairo

  /** The code `ps_page_render_cairo` returns: INVALID_ARGUMENTS for a NULL
      page, page data, cairo context or target surface; UNKNOWN when the
      render context or the render fails; OK otherwise. The surface's
      status and type are not examined. */
  function CairoRenderError(page: Option<Page>, cairo: Option<Cairo>, contextOk: bool, rendered: bool): (e: ErrorCode)
    ensures e == InvalidArguments <==> page.None? || !page.value.hasData || cairo.None? || cairo.value.target.None?
    ensures e == Ok <==> page.Some? && page.value.hasData && cairo.Some? && cairo.value.target.Some? && contextOk && rendered
    ensures e == Ok || e == Unknown || e == InvalidArguments
  {
    if page.None? || !page.value.hasData || cairo.None? then InvalidArguments
    else if cairo.value.target.None? then InvalidArguments
    else if !contextOk then Unknown
    else if !rendered then Unknown
    else Ok
  }

  /** What cairo's image-surface accessors (cairo_image_surface_get_width,
      _height, _stride and _data) report for the target: the surface's own
      geometry and bytes for an image surface; for any other surface a
      width, height and stride of 0 and a NULL (here: empty) data pointer. */
  function ImageView(s: Surface): (v: Surface)
    ensures v.isImage == s.isImage
    ensures s.isImage ==> v == s
    ensures !s.isImage ==> v.width == 0 && v.height == 0 && v.data == []
  {
    if s.isImage then s else s.(width := 0, height := 0, stride := 0, data := [])
  }

  /** `ps_page_render_cairo`: on OK, `written` holds the bytes behind the
      target's image accessors after the RGBA copy; on any error no byte was
      written. A target that is not an image surface reports a 0 x 0 image,
      so nothing is drawn and OK is still returned. */
  method PageRenderCairo(page: Option<Page>, cairo: Option<Cairo>, contextOk: bool, rendering: Rendering)
    returns (error: ErrorCode, written: Option<seq<byte>>)
    requires cairo.Some? && cairo.value.target.Some? ==> SurfaceCovers(ImageView(cairo.value.target.value))
    requires cairo.Some? && cairo.value.target.Some? ==>
               var v := ImageView(cairo.value.target.value);
               RasterCovers(rendering, v.width, v.height)
    ensures error == CairoRenderError(page, cairo, contextOk, Rendered(rendering))
    ensures written.Some? <==> error == Ok
    ensures written.Some? ==>
              var v := ImageView(cairo.value.target.value);
              && PixelsCopied(written.value, rendering.data.value, rendering.rowLength, v.stride, 4, v.width, v.height)
              && UnchangedOutside(written.value, v.data, v.stride, 4 * v.width, v.height)
    ensures written.Some? && !cairo.value.target.value.isImage ==> written.value == []
  {
    error := CairoRenderError(page, cairo, contextOk, Rendered(rendering));
    if error != Ok {
      written := None;
      return;
    }
    var v := ImageView(cairo.value.target.value);
    var data := CopyRgba(rendering.data.value, rendering.rowLength, v.data, v.stride, v.width, v.height);
    written := Some(data);
  }
}
