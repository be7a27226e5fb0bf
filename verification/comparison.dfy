/** How the legacy plugin (ps.c), the split-out render file (render.c) and
    the current plugin (zathura-ps/) relate: where their rules coincide and
    the exact inputs on which they part. */
module Comparison {
  import opened Types
  import Ps
  import Render
  import ZathuraRender
  import ZathuraDocument

  // ---------------------------------------------------------------------
  // Save format: get_extension + strcmp against g_str_has_suffix

  /** A path ends in ".pdf" in the sense of `g_str_has_suffix` exactly when
      its last four characters are ".pdf". */
  lemma PdfSuffixIffLastFour(path: string)
    ensures (exists name :: path == name + ".pdf") <==> 4 <= |path| && path[|path| - 4..] == ".pdf"
  {
    if 4 <= |path| && path[|path| - 4..] == ".pdf" {
      assert path == path[..|path| - 4] + ".pdf";
    }
    forall name | path == name + ".pdf"
      ensures 4 <= |path| && path[|path| - 4..] == ".pdf"
    {
      ZathuraDocument.EndsWithSuffix(name, ".pdf");
    }
  }

  /** The two save rules pick different formats for exactly one path: the
      bare ".pdf", whose only dot is its first character and so is not an
      extension for ps.c, while the current plugin sees the suffix. */
  lemma SaveRulesDisagreeOnlyOnBareDotPdf(path: string)
    ensures Ps.SaveFormatFor(path) != ZathuraDocument.SaveFormatFor(path) <==> path == ".pdf"
  {
    PdfSuffixIffLastFour(path);
    if |path| == 4 && path[|path| - 4..] == ".pdf" {
      assert path == path[0..];
    }
  }

  /** Both save rules are case-sensitive and look only at the end of the
      path: an upper-case extension, or ".pdf" in a directory component, is
      saved in the native format by both. */
  lemma NativeSaveExamples()
    ensures Ps.SaveFormatFor("x.PDF") == Native
    ensures ZathuraDocument.SaveFormatFor("x.PDF") == Native
    ensures Ps.SaveFormatFor("a.pdf/file") == Native
    ensures ZathuraDocument.SaveFormatFor("a.pdf/file") == Native
  {
    PdfSuffixIffLastFour("x.PDF");
    PdfSuffixIffLastFour("a.pdf/file");
  }

  /** For an open document whose handle is passed as the private data, the
      two `save_as` entry points return the same code and issue the same
      backend call, except for the path ".pdf". */
  lemma SaveAsAgree(document: Document, path: Option<string>, status: SpectreStatus)
    requires path != Some(".pdf")
    ensures Ps.SaveAs(Some(document), path, status) == ZathuraDocument.SaveAs(Some(document), document.data, path, status)
  {
    if path.Some? {
      SaveRulesDisagreeOnlyOnBareDotPdf(path.value);
    }
  }

  // ---------------------------------------------------------------------
  // RGB render: ps.c against render.c

  /** The legacy page stores its libspectre page as its data, so render.c's
      separate `spectre_page` argument corresponds to the page's data
      pointer. With that argument, the two error rules agree exactly when
      the page is NULL or fully set up, when no error cell was passed, or
      when the caller's cell already held INVALID_ARGUMENTS: for a page
      missing its data or document, ps.c stores INVALID_ARGUMENTS while
      render.c keeps the caller's code (turning OK into UNKNOWN). */
  lemma RgbErrorCellsAgree(page: Option<Page>, hasBuffer: bool, contextOk: bool, rendered: bool, error: Option<ErrorCode>)
    ensures Ps.RenderErrorCell(page, hasBuffer, contextOk, rendered, error)
            == Render.RenderErrorCell(page, page.Some? && page.value.hasData, hasBuffer, contextOk, rendered, error)
            <==> page.None? || Ps.PageUsable(page) || error.None? || error == Some(InvalidArguments)
  {
  }

  // ---------------------------------------------------------------------
  // Cairo render: ps.c, render.c and zathura-ps/render.c

  /** render.c and zathura-ps/render.c apply the same checks in the same
      order once zathura-ps's private data is the page's data. */
  lemma CairoChecksAgree(page: Option<Page>, cairo: Option<Cairo>, contextOk: bool, rendered: bool)
    ensures Render.CairoRenderError(page, cairo, contextOk, rendered)
            == ZathuraRender.CairoRenderError(page, page.Some? && page.value.hasData, cairo, contextOk, rendered)
  {
  }

  /** render.c accepts a cairo render exactly when ps.c does and the target
      is additionally in a good state and an image surface. */
  lemma CairoAcceptanceRelation(page: Option<Page>, cairo: Option<Cairo>, contextOk: bool, rendered: bool)
    ensures Render.CairoRenderError(page, cairo, contextOk, rendered) == Ok
            <==> Ps.CairoRenderError(page, cairo, contextOk, rendered) == Ok && Drawable(cairo.value.target)
  {
  }

  /** A target that is not an image surface (a PDF or recording surface,
      say): ps.c reports OK while drawing a 0 x 0 image, and render.c
      reports UNKNOWN. */
  lemma NonImageSurfaceReportedOk(page: Page, target: Surface)
    requires page.hasData && page.hasDocument && !target.isImage
    ensures Ps.CairoRenderError(Some(page), Some(Cairo(Some(target))), true, true) == Ok
    ensures Ps.ImageView(target).width == 0 && Ps.ImageView(target).height == 0
    ensures Render.CairoRenderError(Some(page), Some(Cairo(Some(target))), true, true) == Unknown
  {
  }
}
