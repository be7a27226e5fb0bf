/** The document entry points of the current plugin interface
    (zathura-ps/document.c): opening a document with libspectre, freeing the
    libspectre handle, and saving under a path. The private data pointer
    arrives as a separate argument to `free` and `save_as`. */
module ZathuraDocument {
  import opened Types

  // ---------------------------------------------------------------------
  // ps_document_open

  /** The code `ps_document_open` returns, the host's document record
      afterwards, and the libspectre handle it released, if any. */
  datatype OpenOutcome = OpenOutcome(error: ErrorCode, document: Option<Document>, released: Option<SpectreDocument>)

  /** `ps_document_open`, given the handle `spectre_document_new` returns
      (NULL when out of memory), the status after loading the document's
      path, and the page count libspectre reports. A NULL document is
      UNKNOWN before anything is created; a NULL handle is OUT_OF_MEMORY; a
      failed load is UNKNOWN and releases the handle; a successful load
      stores the handle and the page count in the document. */
  function Open(document: Option<Document>, created: Option<SpectreDocument>, loaded: SpectreStatus, pageCount: nat)
    : (r: OpenOutcome)
    ensures r.error == Ok <==> document.Some? && created.Some? && loaded == Success
    ensures document.None? ==> r.error == Unknown
    ensures document.Some? && created.None? ==> r.error == OutOfMemory
    ensures document.Some? && created.Some? && loaded != Success ==> r.error == Unknown
    ensures r.error == Ok ==> r.document == Some(document.value.(data := created, pageCount := pageCount))
    ensures r.error != Ok ==> r.document == document
    ensures r.released.Some? <==> document.Some? && created.Some? && loaded != Success
    ensures r.released.Some? ==> r.released == created
    ensures document.Some? && created.Some? ==> (r.released.None? <==> r.error == Ok)
  {
    if document.None? then OpenOutcome(Unknown, document, None)
    else if created.None? then OpenOutcome(OutOfMemory, document, None)
    else if loaded != Success then OpenOutcome(Unknown, document, created)
    else OpenOutcome(Ok, Some(document.value.(data := created, pageCount := pageCount)), None)
  }

  // ---------------------------------------------------------------------
  // ps_document_free

  /** The code `ps_document_free` returns, the host's document record
      afterwards, and the libspectre handle it released, if any. */
  datatype FreeOutcome = FreeOutcome(error: ErrorCode, document: Option<Document>, released: Option<SpectreDocument>)

  /** `ps_document_free`: INVALID_ARGUMENTS for a NULL document; otherwise
      OK, and a non-NULL handle `data` is released and the document's data
      pointer cleared. */
  function Free(document: Option<Document>, data: Option<SpectreDocument>): (r: FreeOutcome)
    ensures r.error == InvalidArguments <==> document.None?
    ensures r.error == Ok <==> document.Some?
    ensures r.released.Some? <==> document.Some? && data.Some?
    ensures r.released.Some? ==> r.released == data
    ensures r.released.Some? ==> r.document == Some(document.value.(data := None))
    ensures r.released.None? ==> r.document == document
  {
    if document.None? then FreeOutcome(InvalidArguments, document, None)
    else if data.None? then FreeOutcome(Ok, document, None)
    else FreeOutcome(Ok, Some(document.value.(data := None)), data)
  }

  /** Freeing a document that `Open` just opened releases exactly the handle
      `Open` stored, and leaves the document without data but with its
      page count. */
  lemma OpenThenFree(document: Document, created: SpectreDocument, pageCount: nat)
    ensures var afterOpen := Open(Some(document), Some(created), Success, pageCount);
            var freed := Free(afterOpen.document, afterOpen.document.value.data);
            && afterOpen.error == Ok
            && freed.error == Ok
            && freed.released == Some(created)
            && freed.document == Some(document.(data := None, pageCount := pageCount))
  {
  }

  /** Freeing twice is harmless: once the handle is gone, a second `Free`
      with the cleared data pointer releases nothing and changes nothing. */
  lemma FreeTwice(document: Document, data: SpectreDocument)
    ensures var first := Free(Some(document), Some(data));
            var second := Free(first.document, first.document.value.data);
            && second.error == Ok
            && second.released.None?
            && second.document == first.document
  {
  }

  // ---------------------------------------------------------------------
  // ps_document_save_as

  /** `g_str_has_suffix`: `s` ends with `suffix`. */
  function HasSuffix(s: string, suffix: string): (b: bool)
    ensures b <==> exists prefix :: s == prefix + suffix
  {
    if |suffix| <= |s| && s[|s| - |suffix|..] == suffix then
      assert s == s[..|s| - |suffix|] + suffix;
      true
    else
      forall prefix ensures s != prefix + suffix {
        EndsWithSuffix(prefix, suffix);
      }
      false
  }

  /** A concatenation ends with its second part. */
  lemma EndsWithSuffix(prefix: string, suffix: string)
    ensures var s := prefix + suffix; |suffix| <= |s| && s[|s| - |suffix|..] == suffix
  {
  }

  /** The format `ps_document_save_as` saves in: PDF export exactly when
      the path ends in ".pdf" (case-sensitively, a bare ".pdf" included),
      native PostScript otherwise. */
  function SaveFormatFor(path: string): (f: SaveFormat)
    ensures f == Pdf <==> exists name :: path == name + ".pdf"
  {
    if HasSuffix(path, ".pdf") then Pdf else Native
  }

  /** `ps_document_save_as`: a NULL document, handle or path is rejected
      before any save; otherwise the path goes to PDF export or to native
      save, and libspectre's status afterwards decides OK or UNKNOWN. */
  function SaveAs(document: Option<Document>, data: Option<SpectreDocument>, path: Option<string>,
                  statusAfterSave: SpectreStatus): (r: SaveOutcome)
    ensures r.error == InvalidArguments <==> document.None? || data.None? || path.None?
    ensures r.request.Some? <==> r.error != InvalidArguments
    ensures r.request.Some? ==> r.request.value.path == path.value
    ensures r.request.Some? ==> (r.request.value.format == Pdf <==> exists name :: path.value == name + ".pdf")
    ensures r.error == Ok <==> r.request.Some? && statusAfterSave == Success
    ensures r.error == Ok || r.error == Unknown || r.error == InvalidArguments
  {
    if document.None? || data.None? || path.None? then
      SaveOutcome(InvalidArguments, None)
    else
      var request := SaveRequest(SaveFormatFor(path.value), path.value);
      SaveOutcome(if statusAfterSave != Success then Unknown else Ok, Some(request))
  }
}
