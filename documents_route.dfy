/**
 * The upload route's `determine_document_type`: only PDF, DOCX and DOC
 * uploads are accepted, by lower-cased file extension; anything else is
 * refused with a message that lists the accepted extensions in sorted order.
 */
module DocumentsRoute {

  import opened Wrappers
  import opened Strings
  import opened DocumentTypes

  /** The route's own extension table (narrower than `DocumentType.from_filename`'s). */
  const ExtMapping: map<string, DocumentType> := map["pdf" := PDF, "docx" := DOCX, "doc" := DOC]

  /** `sorted(ext_mapping.keys())` */
  const SupportedExtensions: seq<string> := ["doc", "docx", "pdf"]

  /** Python's string ordering: lexicographic by code point, a proper prefix first. */
  predicate StrLess(a: string, b: string)
    decreases |a|
  {
    if |a| == 0 then |b| > 0
    else if |b| == 0 then false
    else if a[0] != b[0] then a[0] < b[0]
    else StrLess(a[1..], b[1..])
  }

  predicate StrictlySorted(xs: seq<string>)
  {
    forall i, j :: 0 <= i < j < |xs| ==> StrLess(xs[i], xs[j])
  }

  /** The message of the `InvalidDocumentTypeError` raised for an unsupported extension. */
  function UnsupportedMessage(ext: string): string
  {
    "Unsupported file extension: ." + ext + ". Supported types: " + Join(", ", SupportedExtensions)
  }

  /** `determine_document_type`: the raised error is the `Failure` case. */
  function DetermineDocumentType(filename: string): Result<DocumentType, string>
  {
    var ext := Extension(filename);
    if ext in ExtMapping then Success(ExtMapping[ext]) else Failure(UnsupportedMessage(ext))
  }

  // ---------------------------------------------------------------------------
  // Properties
  // ---------------------------------------------------------------------------

  /** The listed extensions are the table's keys, each once, in Python's sorted order. */
  lemma SupportedExtensionsSorted()
    ensures StrictlySorted(SupportedExtensions)
    ensures forall e :: e in ExtMapping <==> e in SupportedExtensions
  {
    assert StrLess("doc", "docx") by {
      assert StrLess("", "x");
      assert "doc"[1..] == "oc" && "docx"[1..] == "ocx";
      assert "oc"[1..] == "c" && "ocx"[1..] == "cx";
      assert "c"[1..] == "" && "cx"[1..] == "x";
    }
    assert StrLess("docx", "pdf");
    assert StrLess("doc", "pdf");
  }

  /** The list as it appears in the message. */
  lemma SupportedText()
    ensures Join(", ", SupportedExtensions) == "doc, docx, pdf"
  {
    assert Join(", ", ["pdf"]) == "pdf";
    assert Join(", ", ["docx", "pdf"]) == "docx, pdf";
  }

  /** Success exactly for the three extensions, with the type the table gives. */
  lemma DetermineAccepts(filename: string)
    ensures DetermineDocumentType(filename).Success? <==> Extension(filename) in {"pdf", "docx", "doc"}
    ensures DetermineDocumentType(filename).Success? ==>
      DetermineDocumentType(filename).value in {PDF, DOCX, DOC}
    ensures DetermineDocumentType(filename).Success? ==>
      DetermineDocumentType(filename).value == ExtMapping[Extension(filename)]
  {
  }

  /** The refusal names the extension and lists the accepted ones in sorted order. */
  lemma UnsupportedMessageText(ext: string)
    ensures UnsupportedMessage(ext) ==
      "Unsupported file extension: ." + ext + ". Supported types: " + "doc, docx, pdf"
  {
    SupportedText();
  }

  /** Every other extension, the empty one included, is refused with that message. */
  lemma DetermineRefuses(filename: string)
    requires Extension(filename) !in {"pdf", "docx", "doc"}
    ensures DetermineDocumentType(filename) == Failure(UnsupportedMessage(Extension(filename)))
  {
  }

  /** Where the route accepts a file, it agrees with `DocumentType.from_filename`. */
  lemma DetermineAgreesWithFromFilename(filename: string)
    requires DetermineDocumentType(filename).Success?
    ensures DetermineDocumentType(filename).value == FromFilename(filename)
    ensures FromFilename(filename) in {PDF, DOCX, DOC}
  {
  }

  /** The last suffix decides, in any letter case: `report.v2.PDF` is a PDF, `notes.md` is refused. */
  lemma DetermineBySuffix(stem: string, ext: string)
    requires |stem| > 0 && |ext| > 0
    requires forall i :: 0 <= i < |stem| ==> stem[i] != '/'
    requires forall i :: 0 <= i < |ext| ==> ext[i] != '.' && ext[i] != '/'
    ensures DetermineDocumentType(stem + "." + ext) ==
      if ToLower(ext) in ExtMapping then Success(ExtMapping[ToLower(ext)])
      else Failure(UnsupportedMessage(ToLower(ext)))
  {
    ExtensionOfName(stem, ext);
  }
}
