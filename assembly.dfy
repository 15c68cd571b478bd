/**
 * `process_document` and `_create_token_chunks` of `DoclingDocumentProcessor`:
 * the supported-type check, the rejection of empty extractions, and the
 * assembly of `DocumentChunk`s from the recursive split: pieces too short
 * after stripping are skipped, the others keep their position in the split as
 * their index and carry per-chunk metadata merged with the document's.
 */
module Assembly {

  import opened Wrappers
  import opened Seqs
  import opened Strings
  import opened ChunkConfig
  import opened DocumentTypes
  import opened RecursiveChunker

  /** A metadata value: the chunker stores texts and counts; extraction may add any of these kinds. */
  datatype MetaValue = Text(s: string) | Number(n: int) | Flag(b: bool)

  type Metadata = map<string, MetaValue>

  /** The fields of the `Document` entity the processor reads. */
  datatype Document = Document(
    id: string,
    filename: string,
    originalFilename: string,
    documentType: DocumentType,
    filePath: string)

  /** A created `DocumentChunk`, without its generated id and timestamp. */
  datatype DocumentChunk = DocumentChunk(documentId: string, content: string, chunkIndex: nat, metadata: Metadata)

  const ProcessingMethod: string := "docling_token_chunking"

  /** The chunk's own entries, then `**doc_metadata`: document-level keys win on a clash. */
  function ChunkMetadata(p: Processor, doc: Document, chunkText: string, docMeta: Metadata): Metadata
  {
    map["document_filename" := Text(doc.originalFilename),
        "document_type" := Text(TypeValue(doc.documentType)),
        "chunk_token_count" := Number(p.countTokens(chunkText)),
        "chunk_char_count" := Number(|chunkText|),
        "processing_method" := Text(ProcessingMethod)] + docMeta
  }

  /** A piece is kept when its stripped length reaches `min_chunk_size`. */
  predicate Kept(p: Processor, chunkText: string)
  {
    |Strip(chunkText)| >= p.minChunkSize
  }

  function MakeChunk(p: Processor, doc: Document, chunkText: string, docMeta: Metadata, i: nat): DocumentChunk
  {
    DocumentChunk(doc.id, Strip(chunkText), i, ChunkMetadata(p, doc, chunkText, docMeta))
  }

  /** The chunks made from the pieces at positions `i` and after; a piece's position is its chunk index. */
  function AssembleFrom(p: Processor, doc: Document, texts: seq<string>, docMeta: Metadata, i: nat): seq<DocumentChunk>
    decreases |texts| - i
  {
    if i >= |texts| then []
    else
      (if Kept(p, texts[i]) then [MakeChunk(p, doc, texts[i], docMeta, i)] else []) +
      AssembleFrom(p, doc, texts, docMeta, i + 1)
  }

  /** `_create_token_chunks`, on the pieces of `_recursive_token_split`. */
  function TokenChunks(p: Processor, doc: Document, text: string, docMeta: Metadata): seq<DocumentChunk>
  {
    AssembleFrom(p, doc, RecursiveChunks(p, text), docMeta, 0)
  }

  /** The message of the `DocumentProcessingError` every failure is re-raised as. */
  function FailureMessage(doc: Document, reason: string): string
  {
    "Failed to process document " + doc.filename + ": " + reason
  }

  /**
   * `process_document`. `extracted` is what `_extract_with_docling` returns for
   * the document's file: its text and metadata, or the message of the error it raised.
   */
  function ProcessResult(p: Processor, doc: Document, extracted: Result<(string, Metadata), string>)
    : Result<(seq<DocumentChunk>, string), string>
  {
    var value := TypeValue(doc.documentType);
    if value !in p.supportedTypes then
      Failure(FailureMessage(doc, "Document type " + value + " not supported"))
    else
      match extracted
      case Failure(reason) => Failure(FailureMessage(doc, reason))
      case Success((text, docMeta)) =>
        if AllSpace(text) then Failure(FailureMessage(doc, "No text content extracted from document"))
        else Success((TokenChunks(p, doc, text, docMeta), text))
  }

  // ---------------------------------------------------------------------------
  // Methods
  // ---------------------------------------------------------------------------

  /** `chunks.append(chunk)` for a kept piece, keeping the loop invariant. */
  lemma KeepChunk(chunks: seq<DocumentChunk>, head: seq<DocumentChunk>, rest: seq<DocumentChunk>,
                  target: seq<DocumentChunk>)
    requires chunks + (head + rest) == target
    ensures (chunks + head) + rest == target
  {
    AppendAssoc(chunks, head, rest);
  }

  method CreateTokenChunks(p: Processor, doc: Document, text: string, docMeta: Metadata)
    returns (chunks: seq<DocumentChunk>)
    ensures chunks == TokenChunks(p, doc, text, docMeta)
  {
    var textChunks := RecursiveTokenSplit(p, text);
    ghost var target := AssembleFrom(p, doc, textChunks, docMeta, 0);
    chunks := [];
    EmptyLeft(chunks, target);
    var i := 0;
    while i < |textChunks|
      invariant 0 <= i <= |textChunks|
      invariant chunks + AssembleFrom(p, doc, textChunks, docMeta, i) == target
      decreases |textChunks| - i
    {
      var chunkText := textChunks[i];
      var next := i + 1;
      ghost var rest := AssembleFrom(p, doc, textChunks, docMeta, next);
      if |Strip(chunkText)| < p.minChunkSize {
        EmptyLeft([], rest);
        i := next;
        continue;
      }
      var tokenCount := p.countTokens(chunkText);
      var chunkMetadata := map["document_filename" := Text(doc.originalFilename),
                               "document_type" := Text(TypeValue(doc.documentType)),
                               "chunk_token_count" := Number(tokenCount),
                               "chunk_char_count" := Number(|chunkText|),
                               "processing_method" := Text(ProcessingMethod)] + docMeta;
      var chunk := DocumentChunk(doc.id, Strip(chunkText), i, chunkMetadata);
      KeepChunk(chunks, [chunk], rest, target);
      chunks := chunks + [chunk];
      i := next;
    }
    EmptyRight(chunks, AssembleFrom(p, doc, textChunks, docMeta, i));
  }

  method ProcessDocument(p: Processor, doc: Document, extracted: Result<(string, Metadata), string>)
    returns (r: Result<(seq<DocumentChunk>, string), string>)
    ensures r == ProcessResult(p, doc, extracted)
  {
    var value := TypeValue(doc.documentType);
    if value !in p.supportedTypes {
      return Failure(FailureMessage(doc, "Document type " + value + " not supported"));
    }
    if extracted.Failure? {
      return Failure(FailureMessage(doc, extracted.error));
    }
    var (completeText, docMetadata) := extracted.value;
    if Strip(completeText) == "" {
      StripBlank(completeText);
      return Failure(FailureMessage(doc, "No text content extracted from document"));
    }
    StripBlank(completeText);
    var docChunks := CreateTokenChunks(p, doc, completeText, docMetadata);
    return Success((docChunks, completeText));
  }

  // ---------------------------------------------------------------------------
  // Properties of the assembly
  // ---------------------------------------------------------------------------

  /** `c` is the chunk made from the kept piece at its own index. */
  predicate ChunkFrom(p: Processor, doc: Document, texts: seq<string>, docMeta: Metadata, c: DocumentChunk)
  {
    c.chunkIndex < |texts| &&
    Kept(p, texts[c.chunkIndex]) &&
    c == MakeChunk(p, doc, texts[c.chunkIndex], docMeta, c.chunkIndex)
  }

  /** Every chunk is made from the kept piece at its index, at position `i` or later. */
  lemma {:induction false} AssembleIndices(p: Processor, doc: Document, texts: seq<string>, docMeta: Metadata, i: nat)
    ensures forall c :: c in AssembleFrom(p, doc, texts, docMeta, i) ==>
      i <= c.chunkIndex && ChunkFrom(p, doc, texts, docMeta, c)
    decreases |texts| - i
  {
    if i < |texts| {
      var rest := AssembleFrom(p, doc, texts, docMeta, i + 1);
      AssembleIndices(p, doc, texts, docMeta, i + 1);
      var head := if Kept(p, texts[i]) then [MakeChunk(p, doc, texts[i], docMeta, i)] else [];
      assert AssembleFrom(p, doc, texts, docMeta, i) == head + rest;
    }
  }

  predicate Increasing(chunks: seq<DocumentChunk>)
  {
    forall a, b :: 0 <= a < b < |chunks| ==> chunks[a].chunkIndex < chunks[b].chunkIndex
  }

  lemma IncreasingCons(head: seq<DocumentChunk>, rest: seq<DocumentChunk>, i: nat)
    requires |head| <= 1 && (forall c :: c in head ==> c.chunkIndex == i)
    requires (forall c :: c in rest ==> c.chunkIndex > i) && Increasing(rest)
    ensures Increasing(head + rest)
  {
    var r := head + rest;
    forall a, b | 0 <= a < b < |r| ensures r[a].chunkIndex < r[b].chunkIndex {
      assert r[b] == rest[b - |head|] && rest[b - |head|] in rest;
      if a < |head| {
        assert r[a] == head[a] && head[a] in head;
      } else {
        assert r[a] == rest[a - |head|];
      }
    }
  }

  /** The chunk indices are strictly increasing. */
  lemma {:induction false} AssembleOrdered(p: Processor, doc: Document, texts: seq<string>, docMeta: Metadata, i: nat)
    ensures Increasing(AssembleFrom(p, doc, texts, docMeta, i))
    decreases |texts| - i
  {
    if i < |texts| {
      var rest := AssembleFrom(p, doc, texts, docMeta, i + 1);
      AssembleOrdered(p, doc, texts, docMeta, i + 1);
      AssembleIndices(p, doc, texts, docMeta, i + 1);
      var head := if Kept(p, texts[i]) then [MakeChunk(p, doc, texts[i], docMeta, i)] else [];
      assert AssembleFrom(p, doc, texts, docMeta, i) == head + rest;
      IncreasingCons(head, rest, i);
    }
  }

  /** Every kept piece yields a chunk with its index; skipped pieces yield none. */
  lemma {:induction false} AssembleKept(p: Processor, doc: Document, texts: seq<string>, docMeta: Metadata, i: nat)
    ensures forall j :: i <= j < |texts| ==>
      (Kept(p, texts[j]) <==> exists c :: c in AssembleFrom(p, doc, texts, docMeta, i) && c.chunkIndex == j)
    decreases |texts| - i
  {
    AssembleIndices(p, doc, texts, docMeta, i);
    if i < |texts| {
      var rest := AssembleFrom(p, doc, texts, docMeta, i + 1);
      AssembleKept(p, doc, texts, docMeta, i + 1);
      var head := if Kept(p, texts[i]) then [MakeChunk(p, doc, texts[i], docMeta, i)] else [];
      assert AssembleFrom(p, doc, texts, docMeta, i) == head + rest;
      if Kept(p, texts[i]) {
        assert head[0] in AssembleFrom(p, doc, texts, docMeta, i);
      }
    }
  }

  /** The chunks carry the indices `i`, `i + 1`, ... in turn. */
  predicate Consecutive(chunks: seq<DocumentChunk>, i: nat)
  {
    forall k :: 0 <= k < |chunks| ==> chunks[k].chunkIndex == i + k
  }

  lemma ConsecutiveCons(c: DocumentChunk, rest: seq<DocumentChunk>, i: nat)
    requires c.chunkIndex == i && Consecutive(rest, i + 1)
    ensures Consecutive([c] + rest, i)
  {
    var r := [c] + rest;
    forall k | 0 <= k < |r| ensures r[k].chunkIndex == i + k {
      if k > 0 {
        assert r[k] == rest[k - 1];
      }
    }
  }

  /** With every piece kept, there is one chunk per piece, in order. */
  lemma {:induction false} AssembleAllKept(p: Processor, doc: Document, texts: seq<string>, docMeta: Metadata, i: nat)
    requires i <= |texts|
    requires forall j :: i <= j < |texts| ==> Kept(p, texts[j])
    ensures |AssembleFrom(p, doc, texts, docMeta, i)| == |texts| - i
    ensures Consecutive(AssembleFrom(p, doc, texts, docMeta, i), i)
    decreases |texts| - i
  {
    if i < |texts| {
      var rest := AssembleFrom(p, doc, texts, docMeta, i + 1);
      AssembleAllKept(p, doc, texts, docMeta, i + 1);
      var c := MakeChunk(p, doc, texts[i], docMeta, i);
      assert AssembleFrom(p, doc, texts, docMeta, i) == [c] + rest;
      ConsecutiveCons(c, rest, i);
    }
  }

  /** The metadata holds the five chunk entries unless the document overrides them, and all document entries. */
  lemma ChunkMetadataEntries(p: Processor, doc: Document, chunkText: string, docMeta: Metadata)
    ensures var m := ChunkMetadata(p, doc, chunkText, docMeta);
      m.Keys == docMeta.Keys + {"document_filename", "document_type", "chunk_token_count",
                                "chunk_char_count", "processing_method"} &&
      (forall key :: key in docMeta ==> m[key] == docMeta[key]) &&
      ("chunk_token_count" !in docMeta ==> m["chunk_token_count"] == Number(p.countTokens(chunkText))) &&
      ("chunk_char_count" !in docMeta ==> m["chunk_char_count"] == Number(|chunkText|)) &&
      ("document_type" !in docMeta ==> m["document_type"] == Text(TypeValue(doc.documentType))) &&
      ("document_filename" !in docMeta ==> m["document_filename"] == Text(doc.originalFilename)) &&
      ("processing_method" !in docMeta ==> m["processing_method"] == Text(ProcessingMethod))
  {
  }

  /** With a positive `min_chunk_size`, every chunk's content is a non-empty stripped text. */
  lemma ChunkContentTrimmed(p: Processor, doc: Document, text: string, docMeta: Metadata)
    requires p.minChunkSize > 0
    ensures forall c :: c in TokenChunks(p, doc, text, docMeta) ==>
      Trimmed(c.content) && |c.content| >= p.minChunkSize
  {
    AssembleIndices(p, doc, RecursiveChunks(p, text), docMeta, 0);
  }

  /** A chunk's content is its stripped piece, while its counts describe the piece before stripping. */
  lemma ChunkRecordFields(p: Processor, doc: Document, text: string, docMeta: Metadata)
    requires "chunk_char_count" !in docMeta && "chunk_token_count" !in docMeta
    ensures var texts := RecursiveChunks(p, text);
      forall c :: c in TokenChunks(p, doc, text, docMeta) ==>
        c.chunkIndex < |texts| &&
        c.content == Strip(texts[c.chunkIndex]) &&
        "chunk_char_count" in c.metadata && c.metadata["chunk_char_count"] == Number(|texts[c.chunkIndex]|) &&
        "chunk_token_count" in c.metadata && c.metadata["chunk_token_count"] == Number(p.countTokens(texts[c.chunkIndex]))
  {
    var texts := RecursiveChunks(p, text);
    AssembleIndices(p, doc, texts, docMeta, 0);
    forall c | c in TokenChunks(p, doc, text, docMeta)
      ensures c.metadata == ChunkMetadata(p, doc, texts[c.chunkIndex], docMeta)
    {
      assert ChunkFrom(p, doc, texts, docMeta, c);
    }
  }

  function Contents(chunks: seq<DocumentChunk>): (r: seq<string>)
    ensures |r| == |chunks|
    ensures forall k :: 0 <= k < |chunks| ==> r[k] == chunks[k].content
  {
    seq(|chunks|, k requires 0 <= k < |chunks| => chunks[k].content)
  }

  /** Stripping every piece keeps the words. */
  lemma {:induction false} WordsStripEach(texts: seq<string>, contents: seq<string>)
    requires |contents| == |texts|
    requires forall k :: 0 <= k < |texts| ==> contents[k] == Strip(texts[k])
    ensures Words(contents) == Words(texts)
    decreases |texts|
  {
    if |texts| > 0 {
      SplitStrip(texts[0]);
      WordsStripEach(texts[1..], contents[1..]);
    }
  }

  /** When every piece is kept, the records' contents hold exactly the pieces' words. */
  lemma AssembleAllKeptWords(p: Processor, doc: Document, texts: seq<string>, docMeta: Metadata)
    requires forall i :: 0 <= i < |texts| ==> Kept(p, texts[i])
    ensures Words(Contents(AssembleFrom(p, doc, texts, docMeta, 0))) == Words(texts)
  {
    var r := AssembleFrom(p, doc, texts, docMeta, 0);
    AssembleAllKept(p, doc, texts, docMeta, 0);
    AssembleIndices(p, doc, texts, docMeta, 0);
    forall k | 0 <= k < |texts| ensures Contents(r)[k] == Strip(texts[k]) {
      assert r[k] in r;
    }
    WordsStripEach(texts, Contents(r));
  }

  /**
   * When no overlap is added and no piece is too short to keep, the chunks'
   * contents hold exactly the words of the extracted text, in order.
   */
  lemma ChunkContentsWords(p: Processor, doc: Document, text: string, docMeta: Metadata)
    requires p.chunkOverlap <= 0
    requires forall i :: 0 <= i < |RecursiveChunks(p, text)| ==> Kept(p, RecursiveChunks(p, text)[i])
    ensures Words(Contents(TokenChunks(p, doc, text, docMeta))) == Split(text)
  {
    AssembleAllKeptWords(p, doc, RecursiveChunks(p, text), docMeta);
    RecursiveChunksWords(p, text);
  }

  // ---------------------------------------------------------------------------
  // Properties of process_document
  // ---------------------------------------------------------------------------

  /** Success exactly for a supported type, a successful extraction and a non-blank text. */
  lemma ProcessSucceeds(p: Processor, doc: Document, extracted: Result<(string, Metadata), string>)
    ensures ProcessResult(p, doc, extracted).Success? <==>
      TypeValue(doc.documentType) in p.supportedTypes && extracted.Success? && !AllSpace(extracted.value.0)
    ensures ProcessResult(p, doc, extracted).Success? ==>
      ProcessResult(p, doc, extracted).value ==
        (TokenChunks(p, doc, extracted.value.0, extracted.value.1), extracted.value.0)
  {
  }

  /** The failures, each wrapped with the file name; the type check comes before extraction. */
  lemma ProcessFailures(p: Processor, doc: Document, extracted: Result<(string, Metadata), string>)
    ensures TypeValue(doc.documentType) !in p.supportedTypes ==>
      ProcessResult(p, doc, extracted) ==
        Failure(FailureMessage(doc, "Document type " + TypeValue(doc.documentType) + " not supported"))
    ensures TypeValue(doc.documentType) in p.supportedTypes && extracted.Failure? ==>
      ProcessResult(p, doc, extracted) == Failure(FailureMessage(doc, extracted.error))
    ensures TypeValue(doc.documentType) in p.supportedTypes && extracted.Success? && AllSpace(extracted.value.0) ==>
      ProcessResult(p, doc, extracted) == Failure(FailureMessage(doc, "No text content extracted from document"))
  {
  }

  /** Every returned chunk belongs to the processed document, and its text data is the chunk's own. */
  lemma ProcessedChunksOwned(p: Processor, doc: Document, extracted: Result<(string, Metadata), string>)
    requires ProcessResult(p, doc, extracted).Success?
    ensures var (chunks, text) := ProcessResult(p, doc, extracted).value;
      forall c :: c in chunks ==>
        c.documentId == doc.id &&
        c.chunkIndex < |RecursiveChunks(p, text)| &&
        c.content == Strip(RecursiveChunks(p, text)[c.chunkIndex])
  {
    var (text, docMeta) := extracted.value;
    assert ProcessResult(p, doc, extracted).value == (TokenChunks(p, doc, text, docMeta), text);
    AssembleIndices(p, doc, RecursiveChunks(p, text), docMeta, 0);
  }

}
