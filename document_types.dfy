/**
 * The `DocumentType` value object: the document kinds the service knows, and
 * the constant tables that map file extensions and MIME types to them and a
 * kind back to its MIME type.
 */
module DocumentTypes {

  import opened Strings

  datatype DocumentType = PDF | DOCX | DOC | MARKDOWN | HTML | PPTX | UNKNOWN

  /** The enum member's string value. */
  function TypeValue(t: DocumentType): string
  {
    match t
    case PDF => "pdf"
    case DOCX => "docx"
    case DOC => "doc"
    case MARKDOWN => "md"
    case HTML => "html"
    case PPTX => "pptx"
    case UNKNOWN => "unknown"
  }

  const FilenameMap: map<string, DocumentType> :=
    map["pdf" := PDF, "docx" := DOCX, "doc" := DOC, "md" := MARKDOWN,
        "html" := HTML, "htm" := HTML, "pptx" := PPTX, "ppt" := PPTX]

  const MimePdf: string := "application/pdf"
  const MimeDocx: string :=
    "application/vnd." + "openxmlformats-" + "officedocument." + "wordprocessingml" + ".document"
  const MimeDoc: string := "application/msword"
  const MimeMarkdown: string := "text/markdown"
  const MimeHtml: string := "text/html"
  const MimePptx: string :=
    "application/vnd." + "openxmlformats-" + "officedocument." + "presentationml" + ".presentation"
  const MimePpt: string := "application/vnd." + "ms-powerpoint"
  const OctetStream: string := "application/octet-stream"

  const MimeTypeMap: map<string, DocumentType> :=
    map[MimePdf := PDF, MimeDocx := DOCX, MimeDoc := DOC, MimeMarkdown := MARKDOWN,
        MimeHtml := HTML, MimePptx := PPTX, MimePpt := PPTX]

  const MimeTypeInverseMap: map<DocumentType, string> :=
    map[PDF := MimePdf, DOCX := MimeDocx, DOC := MimeDoc, MARKDOWN := MimeMarkdown,
        HTML := MimeHtml, PPTX := MimePptx]

  /** `DocumentType.from_filename` */
  function FromFilename(filename: string): DocumentType
  {
    var ext := Extension(filename);
    if ext in FilenameMap then FilenameMap[ext] else UNKNOWN
  }

  /** `DocumentType.from_mime_type` */
  function FromMimeType(mimeType: string): DocumentType
  {
    var low := ToLower(mimeType);
    if low in MimeTypeMap then MimeTypeMap[low] else UNKNOWN
  }

  /** `DocumentType.get_mime_type` */
  function GetMimeType(t: DocumentType): string
  {
    if t in MimeTypeInverseMap then MimeTypeInverseMap[t] else OctetStream
  }

  // ---------------------------------------------------------------------------
  // Properties
  // ---------------------------------------------------------------------------

  /** A file name's type is read off its lower-cased last suffix alone. */
  lemma FromFilenameSuffix(stem: string, ext: string)
    requires |stem| > 0 && |ext| > 0
    requires forall i :: 0 <= i < |stem| ==> stem[i] != '/'
    requires forall i :: 0 <= i < |ext| ==> ext[i] != '.' && ext[i] != '/'
    ensures FromFilename(stem + "." + ext) ==
      (if ToLower(ext) in FilenameMap then FilenameMap[ToLower(ext)] else UNKNOWN)
  {
    ExtensionOfName(stem, ext);
  }

  /** `from_filename` is total, and gives `UNKNOWN` exactly for the extensions outside the table. */
  lemma FromFilenameUnknown(filename: string)
    ensures FromFilename(filename) == UNKNOWN <==> Extension(filename) !in FilenameMap
  {
    assert UNKNOWN !in FilenameMap.Values;
  }

  /** The table: `htm`/`html` give HTML, `ppt`/`pptx` give PPTX, and so on. */
  lemma FilenameMapEntries()
    ensures FilenameMap.Keys == {"pdf", "docx", "doc", "md", "html", "htm", "pptx", "ppt"}
    ensures FilenameMap["htm"] == FilenameMap["html"] == HTML
    ensures FilenameMap["ppt"] == FilenameMap["pptx"] == PPTX
    ensures forall e :: e in FilenameMap ==> TypeValue(FilenameMap[e]) == e || e in {"htm", "ppt"}
  {
  }

  /** `from_mime_type` does not depend on letter case, and gives `UNKNOWN` exactly for unlisted types. */
  lemma FromMimeTypeCase(mimeType: string)
    ensures FromMimeType(mimeType) == FromMimeType(ToLower(mimeType))
    ensures FromMimeType(mimeType) == UNKNOWN <==> ToLower(mimeType) !in MimeTypeMap
  {
    ToLowerIdempotent(mimeType);
    assert UNKNOWN !in MimeTypeMap.Values;
  }

  /** The OpenXML MIME types are lower case (the table keys are compared after lower-casing). */
  lemma OpenXmlLower(kind: string, tail: string)
    requires ToLower(kind) == kind && ToLower(tail) == tail
    ensures IsLower("application/vnd." + "openxmlformats-" + "officedocument." + kind + tail)
  {
    var a, b, c := "application/vnd.", "openxmlformats-", "officedocument.";
    assert ToLower(a) == a;
    assert ToLower(b) == b;
    assert ToLower(c) == c;
    ToLowerConcat(a, b);
    ToLowerConcat(a + b, c);
    ToLowerConcat(a + b + c, kind);
    ToLowerConcat(a + b + c + kind, tail);
  }

  lemma PdfLower() ensures IsLower(MimePdf) {}
  lemma DocLower() ensures IsLower(MimeDoc) {}
  lemma MarkdownLower() ensures IsLower(MimeMarkdown) {}
  lemma HtmlLower() ensures IsLower(MimeHtml) {}
  lemma PptLower() ensures IsLower(MimePpt) { ToLowerConcat("application/vnd.", "ms-powerpoint"); }

  lemma DocxLower() ensures IsLower(MimeDocx)
  {
    assert ToLower("wordprocessingml") == "wordprocessingml";
    assert ToLower(".document") == ".document";
    OpenXmlLower("wordprocessingml", ".document");
  }

  lemma PptxLower() ensures IsLower(MimePptx)
  {
    assert ToLower("presentationml") == "presentationml";
    assert ToLower(".presentation") == ".presentation";
    OpenXmlLower("presentationml", ".presentation");
  }

  /** `get_mime_type(UNKNOWN)` is the octet-stream default. */
  lemma UnknownMimeType()
    ensures GetMimeType(UNKNOWN) == OctetStream
  {
  }

  /** Round trip: every known type is recovered from its MIME type. */
  lemma MimeRoundTrip(t: DocumentType)
    requires t != UNKNOWN
    ensures FromMimeType(GetMimeType(t)) == t
  {
    match t
    case PDF => PdfLower();
    case DOCX => DocxLower();
    case DOC => DocLower();
    case MARKDOWN => MarkdownLower();
    case HTML => HtmlLower();
    case PPTX => PptxLower();
  }

  /** The reverse round trip fails: the legacy PowerPoint MIME type is read as PPTX, whose MIME type is another. */
  lemma PowerPointReverse()
    ensures FromMimeType(MimePpt) == PPTX
    ensures GetMimeType(FromMimeType(MimePpt)) == MimePptx != MimePpt
  {
    PptLower();
  }
}
