# zathura-ps, modelled in Dafny

zathura-ps is the PostScript backend of the zathura document viewer. It is
mostly glue between the viewer's plugin interface and libspectre. This
project models the parts that hold real logic. Two generations of the plugin
are covered:

- **The legacy plugin** (`ps.c`, with its render entry points later split
  into `render.c`):
  - `get_extension`, which scans a C string from its terminator down to
    index 1 for the last dot;
  - the `save_as` choice between PDF export and native save;
  - the metadata selection of `meta_get`;
  - the error rules of the RGB and cairo render entry points, including
    the `error_ret` rule, which keeps a stored error and turns OK into
    UNKNOWN;
  - the two per-pixel copies from libspectre's 4-byte raster: RGB (alpha
    dropped) and RGBA.
- **The current plugin** (`zathura-ps/`):
  - the cairo render, which copies row by row with `memcpy`;
  - `open`, `free` and `save_as` for documents, where `save_as` uses a
    case-sensitive ".pdf" suffix test.

Modules:

- `Types`: shared records, plus the two error-cell rules `SetError` and `ErrorExit`.
- `Raster`: the three copy loops and their specifications:
  - which pixels are copied (`PixelsCopied`, `RowsCopied`);
  - that bytes outside the copied block are unchanged (`UnchangedOutside`);
  - that the result depends only on the copied channels.
- `Ps`: `ps.c`.
- `Render`: `render.c`.
- `ZathuraRender`: `zathura-ps/render.c`.
- `ZathuraDocument`: `zathura-ps/document.c`.
- `Comparison`: lemmas that relate the versions, stating where they agree and
  the exact inputs on which they differ.

Modelling conventions:

- Every libspectre and cairo call is replaced by the value it would return,
  passed in as an input. So is the host's `zathura_image_buffer_create`.
- cairo's image-surface accessors (`cairo_image_surface_get_width`,
  `_height`, `_stride`, `_data`) are assumed to report a 0 x 0 image with
  stride 0 and NULL data for a surface that is not an image surface, as
  cairo documents. `Ps.ImageView` states this, and the ps.c cairo model and
  the finding below rest on it.
- A NULL pointer is `None` or a `false` flag.
- A C string is the sequence of its characters before the NUL, so it never
  contains `'\0'`. A Dafny string with an embedded `'\0'` does not stand
  for any C string, and the model promises nothing about such paths.
- Buffers are byte sequences. A copy returns the new contents of its target.

In `ps_document_meta_get` the AUTHOR case falls back to the "for" field
when the creator is NULL (ps.c:160-161). That fallback cannot be reached:
the creator was already found non-NULL before the switch (ps.c:144-150),
so AUTHOR always answers the creator. `Ps.ForFieldNeverRead` proves that
the "for" field cannot change any answer.

## Model

| member | source | states |
|---|---|---|
| Types.SetError | render.c:14-16 | Storing a code through the error pointer: nothing happens for a NULL pointer, otherwise the cell holds exactly that code |
| Types.ErrorExit | ps.c:311-317 | The `error_ret` rule: a NULL pointer stays NULL, a non-OK code is kept, OK becomes UNKNOWN, so a failed render never leaves OK behind |
| Raster.CopyRgb | ps.c:297-305 | Every channel 0..2 of every pixel in the w x h block equals the same channel of the same source pixel, with 3 target bytes and 4 source bytes per pixel; every target byte outside the block, including row padding, is unchanged |
| Raster.CopyRgba | ps.c:363-372 | All four channels of every pixel in the block, alpha included, are copied at `y*stride + 4x`; every target byte outside the block is unchanged |
| Raster.MemCopy | zathura-ps/render.c:53 | `memcpy` of n bytes: the destination range holds the source range in order, and every other destination byte is kept |
| Raster.CopyRows | zathura-ps/render.c:52-54 | For each row y < h, target bytes `[y*rs, y*rs+4w)` equal source bytes `[y*rl, y*rl+4w)`; padding after `4w` in each row and the rows below are unchanged |
| Raster.CopyIsDetermined | render.c:62-70 | Two RGB (or RGBA) copies into the same target from rasters that agree on the copied channels give identical buffers, so the RGB path never depends on alpha, on source padding past `4w`, or on rows below h |
| Raster.RowsCopiedIffPixelsCopied | zathura-ps/render.c:52-54 | The row-wise `memcpy` postcondition and the per-pixel 4-channel postcondition are equivalent, in both directions |
| Raster.RowCopyMatchesPixelCopy | render.c:130-139 | When rs >= 4w and rl >= 4w, the row-wise `memcpy` and the per-pixel RGBA loop produce the same target buffer |
| Raster.EmptyCopyIsNoOp | zathura-ps/render.c:52-58 | A copy with height 0 or width 0 leaves the target buffer exactly as it was |
| Ps.ScanForDot | ps.c:387-394 | The downward scan stops at the highest dot at an index of at least 1, or at 0 when there is none; index 0 is never examined |
| Ps.GetExtension | ps.c:380-401 | A NULL path gives NULL; a path gives non-NULL exactly when it has a dot at an index of at least 1; the result is the dot-free text after the last such dot |
| Ps.FirstCharacterIgnored | ps.c:388-398 | Replacing a path's first character never changes its extension |
| Ps.DotFileHasNoExtension | ps.c:388-398 | The path ".pdf" has no extension, because its only dot is at index 0 |
| Ps.LastDotMayBeInDirectory | ps.c:387-400 | The last dot wins even inside a directory component: the extension of "a.d/f" is "d/f" |
| Ps.PdfExtensionIffSuffix | ps.c:117 | The extension is exactly "pdf" iff the path ends in ".pdf" and has at least one character before that dot |
| Ps.SaveFormatFor | ps.c:115-121 | PDF export iff the path ends in ".pdf" (case-sensitive) after at least one character; native save otherwise |
| Ps.SaveAs | ps.c:106-128 | A NULL document, document data or path gives INVALID_ARGUMENTS and no save; otherwise one save is issued for the path in the chosen format; OK iff the status after saving is success, UNKNOWN otherwise |
| Ps.MetaGet | ps.c:130-182 | A closed document gives INVALID_ARGUMENTS. A NULL creator gives UNKNOWN for every kind. TITLE, AUTHOR and CREATION_DATE answer the title, the creator and the date when that value is present and non-empty. A NULL or empty value, or any other kind, gives UNKNOWN |
| Ps.ForFieldNeverRead | ps.c:158-161 | No answer of `meta_get` depends on the "for" field: the AUTHOR fallback is unreachable |
| Ps.RenderErrorCell | ps.c:253-317 | A missing page, page data or document stores INVALID_ARGUMENTS; a failed buffer stores OUT_OF_MEMORY; a failed context or render keeps the stored code or turns OK into UNKNOWN; any failure with a non-NULL cell leaves a non-OK code; success leaves the cell untouched |
| Ps.PageRender | ps.c:250-318 | An image is returned iff page, buffer, context and render all succeed; it is the buffer `zathura_image_buffer_create` returned (an input, NULL when allocation fails) with the RGB copy applied, bytes outside the block unchanged; the error cell follows `Ps.RenderErrorCell` |
| Ps.CairoRenderError | ps.c:324-361 | INVALID_ARGUMENTS iff the page, its data, the cairo context or its target is NULL; OK iff all of these are present and the context and render succeed; never another code; surface status and type play no part |
| Ps.PageRenderCairo | ps.c:321-377 | Bytes are written iff OK is returned. The written bytes are the RGBA copy into the target as its image accessors report it. For a target that is not an image surface, the accessors report a 0 x 0 image, nothing is drawn, and OK is still returned |
| Render.RenderErrorCell | render.c:13-80 | A NULL page stores INVALID_ARGUMENTS; a NULL document or libspectre page, a failed context or a failed render keeps the stored code or turns OK into UNKNOWN; a failed buffer stores OUT_OF_MEMORY; success leaves the cell untouched |
| Render.PageRender | render.c:10-83 | An image is returned iff page, document, libspectre page, buffer, context and render all succeed; it is the buffer `zathura_image_buffer_create` returned (an input, NULL when allocation fails) with the RGB copy applied, alpha dropped, bytes outside the block unchanged |
| Render.CairoRenderError | render.c:88-128 | INVALID_ARGUMENTS iff the page or cairo context is NULL; OK iff the page data is present, the target is a non-NULL image surface in a good state, and the context and render succeed; UNKNOWN otherwise |
| Render.PageRenderCairo | render.c:85-144 | Bytes are written iff OK is returned, so a failed render touches nothing; the written buffer is the RGBA copy at `y*rowstride + 4x` with bytes outside the w x h block unchanged |
| ZathuraRender.CairoRenderError | zathura-ps/render.c:10-50 | INVALID_ARGUMENTS iff the page or cairo context is NULL; OK iff the private data is non-NULL, the target is a good image surface, and the context and render succeed; UNKNOWN otherwise |
| ZathuraRender.PageRenderCairo | zathura-ps/render.c:10-59 | Bytes are written iff OK is returned; each of the first h rows carries the first `4w` bytes of the matching source row, and padding and lower rows are unchanged |
| ZathuraDocument.Open | zathura-ps/document.c:8-44 | OK iff the document is non-NULL, the handle was created and the load succeeded. A NULL document gives UNKNOWN, and a failed create gives OUT_OF_MEMORY. A failed load gives UNKNOWN and releases the handle. On OK the handle and page count are stored; on failure the document record is unchanged. A handle is released iff the document is non-NULL, a handle was created and the load failed, and then it is the created handle |
| ZathuraDocument.Free | zathura-ps/document.c:46-60 | A NULL document gives INVALID_ARGUMENTS. Otherwise OK; a non-NULL handle is released and the data pointer cleared; a NULL handle changes nothing |
| ZathuraDocument.OpenThenFree | zathura-ps/document.c:30-59 | Freeing a freshly opened document releases exactly the handle `open` stored, clears the data and keeps the page count |
| ZathuraDocument.FreeTwice | zathura-ps/document.c:54-59 | A second free, given the cleared data pointer, releases nothing and changes nothing |
| ZathuraDocument.HasSuffix | zathura-ps/document.c:70 | `g_str_has_suffix`: true iff the string is some prefix followed by the suffix |
| ZathuraDocument.SaveFormatFor | zathura-ps/document.c:70-74 | PDF export iff the path is some (possibly empty) name followed by ".pdf", case-sensitive |
| ZathuraDocument.SaveAs | zathura-ps/document.c:62-81 | A NULL document, handle or path gives INVALID_ARGUMENTS and no save; otherwise one save in the chosen format; OK iff the status afterwards is success, UNKNOWN otherwise |
| Comparison.PdfSuffixIffLastFour | zathura-ps/document.c:70 | A path has the ".pdf" suffix iff its last four characters are ".pdf" |
| Comparison.SaveRulesDisagreeOnlyOnBareDotPdf | ps.c:115-121 | The legacy extension rule and the current suffix rule choose different formats for exactly one path, ".pdf" |
| Comparison.NativeSaveExamples | ps.c:117-121 | "x.PDF" and "a.pdf/file" go to native save under both rules |
| Comparison.SaveAsAgree | zathura-ps/document.c:62-81 | For an open document whose handle is passed as private data, both `save_as` versions give the same code and backend call for every path except ".pdf" |
| Comparison.RgbErrorCellsAgree | render.c:13-23 | The legacy and split-out RGB error rules agree iff the page is NULL or fully set up, no cell was passed, or the cell already held INVALID_ARGUMENTS |
| Comparison.CairoChecksAgree | zathura-ps/render.c:12-21 | render.c and zathura-ps/render.c classify every cairo render the same way once the private data is the page's data |
| Comparison.CairoAcceptanceRelation | render.c:95-99 | render.c accepts a cairo render iff ps.c does and the target is additionally an image surface in a good state |
| Comparison.NonImageSurfaceReportedOk | ps.c:324-331 | For a target that is not an image surface, ps.c returns OK with a 0 x 0 image drawn, while render.c returns UNKNOWN |

## Left out

- libspectre itself: PostScript interpretation, rendering, page sizes, saving
  and PDF conversion. Its results (handles, status codes, the rendered raster
  and its row length, the page count, the metadata strings) are inputs.
- The `double` arithmetic of the RGB entry points, which derives the image
  width and height from the document scale and the page size (ps.c:261-262,
  render.c:26-28): width and height are taken as given naturals.
- The `double` arithmetic of the cairo entry points, which derives the
  render scale from the surface's width and height and the page size
  (ps.c:345-346, render.c:112-113, zathura-ps/render.c:34-35): the scale is
  not modelled; the surface's own width and height are used directly.
- All copy loops require, as the C code silently assumes, that libspectre's
  raster covers the copied block: a row length of at least `4w` and at least
  h rows.
- Ps.PageRender: requires the buffer `zathura_image_buffer_create(width,
  height)` returned (ps.c:265) to hold `height` rows of `rowStride >=
  3*width` bytes, as that allocator lays them out; the allocator itself is
  not part of this model.
- Render.PageRender: makes the same assumption about the buffer
  `zathura_image_buffer_create(width, height)` returned (render.c:31).
- Ps.PageRenderCairo: requires the target image surface to hold 4 bytes per
  pixel (stride at least `4*width`, `height` rows). The C copy writes 4 bytes
  per pixel without checking the surface format (ps.c:363-372), so an A8, A1
  or RGB16_565 surface would be overrun. The model assumes the ARGB32 or
  RGB24 image surface the viewer creates for rendering.
- Render.PageRenderCairo: makes the same 4-bytes-per-pixel assumption about
  the target surface, which render.c:130-139 does not check.
- ZathuraRender.PageRenderCairo: makes the same 4-bytes-per-pixel
  assumption; its `memcpy` of `4*width` bytes per row
  (zathura-ps/render.c:52-54) does not check the surface format.
- Integer widths: offsets are unbounded naturals, so a negative or
  overflowing `int` stride is not modelled.
- Memory management is not modelled:
  - the `malloc`/`free` of buffers;
  - freeing the raster;
  - the `g_strdup` copy of a metadata answer;
  - the image buffer that the RGB entry points leak when the context or the
    render fails (ps.c:277-279, render.c:42-44).
- ps.c reads `page_data` uninitialised if libspectre leaves it unset
  (ps.c:284-286). The model takes the raster libspectre hands back as an
  input.
- The legacy `ps_document_open`, `ps_document_free`, `ps_page_get` and
  `ps_page_free` (ps.c:30-104, ps.c:184-248) fill function tables and
  allocate records. Their current counterparts `open` and `free` are
  modelled in `ZathuraDocument`.
- Plugin registration tables, MIME type lists and the headers (plugin.c,
  zathura-ps/plugin.c, ps.c:17-28, plugin.h, ps.h, zathura-ps/plugin.h) are
  declarations only.
- meta.c and page.c forward backend strings and page sizes without logic of
  their own.
- `render.c`'s cairo entry point takes a `spectre_page` argument but never
  uses it. It reads the page's own data instead, so the model has no such
  parameter. The `printing` flag is unused everywhere.
- Rendering context setup (scale, rotation) is left out: the model reduces
  it to whether the context could be created.
- Ps.MetaGet: returns the code `meta_get` would store through its error
  pointer; it does not distinguish a NULL error pointer, for which nothing
  is stored.

## Findings

| source | as written | input that shows it | evidently intended | confidence | as-written member | corrected member |
|---|---|---|---|---|---|---|
| ps.c:324-331 | The cairo render checks only that the page, its data, the context and the target are non-NULL. A target that is not an image surface passes these checks, its image accessors report a 0 x 0 image, nothing is drawn, and OK is returned | A page with data and a cairo context whose target is a PDF or recording surface, with a successful render | Report UNKNOWN for a target that is not an image surface in a good state, as render.c:95-99 does | medium; not executed | Comparison.NonImageSurfaceReportedOk | Render.CairoRenderError |
