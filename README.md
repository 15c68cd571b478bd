# Document-Processing-Service: token-budget chunker, document types, upload route, shutdown markers

This project is a Dafny model of the core of the Document-Processing-Service. Every property listed
below is proved.

- **Chunker.** `DoclingDocumentProcessor` takes the text already extracted from a document and cuts it
  into an ordered list of chunk strings under a token budget. It falls back from paragraphs to
  sentences to words. It adds token overlap between neighbouring chunks. Then it wraps every chunk
  big enough to keep as a chunk record with its index and metadata.
- **Document types.** The `DocumentType` value object maps file extensions to types and maps types
  to and from MIME types.
- **Upload route.** The route's `determine_document_type` accepts a smaller set of extensions than
  `DocumentType` knows.
- **Shutdown script.** Its marker parsing and its process-matching rule decide which processes
  count as the service.

The token counter (`token_service.count_tokens`) is a field `countTokens: string -> nat` of the
`ChunkConfig.Processor` value. It is an arbitrary total function. No proof assumes it is monotone,
additive or related to string length.

## Structure

- **Wrappers, Seqs.** `Result`/`Option`, and small generic sequence lemmas.
- **Strings.** The Python string primitives the code relies on:
  - `str.isspace`, `str.strip`, `str.split()`, `str.split(sep)`, `str.join`;
  - the sentence split `re.split(r'(?<=[.!?])\s+', ...)`;
  - ASCII `str.lower`, `str.replace` of one character, `str.lstrip('.')`;
  - `Path(...).name` and `Path(...).suffix` for POSIX paths.
- **ChunkConfig.** The processor's parameters and `_validate_chunk_parameters`.
- **Packing.** The greedy loop that the paragraph loop and the sentence loop share.
  - The specification function `PlanFrom` groups the pieces. Each group is either a packed run of
    pieces whose token counts sum to at most the budget, or one oversized piece.
  - The helper methods `EmitPending`, `AddToPending` and `FlushPending` are the source's updates of
    `current_chunk`, `current_tokens` and `chunks`.
- **WordChunker, SentenceChunker, RecursiveChunker, Overlap, Fallback.** One imperative method per
  source method. Each loop is proved equal to a specification function, and the properties are
  proved about that function.
- **Assembly.** `_create_token_chunks`, and `process_document` with the extraction result as an
  input.
- **DocumentTypes, DocumentsRoute, Shutdown.** The three pure cores, as functions and lemmas.

Where the code and its own documentation disagree, the model follows the code:

- The route's docstring says it supports PDF, DOCX, DOC, PPTX, HTML and MD. The mapping in the code
  accepts only `pdf`, `docx` and `doc`; the other entries are commented out.
- Chunk indices are the positions in the split result. When small chunks are skipped, the stored
  indices have gaps. They are not renumbered.
- The overlap for chunk `i` is computed from the original chunk `i-1`, not from the already
  overlapped one.
- `_split_by_words` rebuilds chunks from `text.split()`, so it normalises every whitespace run to
  one space.

## Model

| member | source | states |
|---|---|---|
| ChunkConfig.ValidateChunkParameters | app/adapters/document_processor/docling_document_processor.py:170-195 | parameters are accepted iff chunk_size > 0, 0 <= chunk_overlap < chunk_size and min_chunk_size > 0; on acceptance the flag says exactly whether the min_chunk_size > 4*chunk_size warning fires, which never rejects; on rejection the error is the first violated condition in the source's order (chunk_size, negative overlap, overlap not below chunk_size, min_chunk_size), carrying the offending values |
| ChunkConfig.NewProcessor | app/adapters/document_processor/docling_document_processor.py:86-117 | the processor is built iff validation passes, keeping exactly the given token counter, chunk parameters and supported types; otherwise it fails with validation's error |
| ChunkConfig.DefaultsAccepted | app/adapters/document_processor/docling_document_processor.py:82-84 | the defaults 1000/200/100 pass validation without the warning |
| Strings.StripBlank | app/adapters/document_processor/docling_document_processor.py:285 | `strip()` is empty exactly when the string is all whitespace |
| Strings.SplitIsWords | app/adapters/document_processor/docling_document_processor.py:441 | `str.split()` yields only non-empty pieces with no whitespace |
| Strings.JoinSplitOn | app/adapters/document_processor/docling_document_processor.py:331 | splitting on "\n\n" and joining back with "\n\n" gives the text back |
| Strings.WordsSentenceSplit | app/adapters/document_processor/docling_document_processor.py:394 | the sentence split cuts only at whitespace: the words of all sentences are the words of the text, in order |
| Strings.WordsStrippedNonBlank | app/adapters/document_processor/docling_document_processor.py:395 | stripping the pieces and dropping blank ones loses no word |
| WordChunker.SplitByWords | app/adapters/document_processor/docling_document_processor.py:439-458 | the word loop returns exactly the word-packing specification of the text |
| WordChunker.WordChunksWords | app/adapters/document_processor/docling_document_processor.py:441-456 | the words of the chunks, concatenated, are exactly `text.split()`: no word is lost, reordered or invented |
| WordChunker.WordChunksJoin | app/adapters/document_processor/docling_document_processor.py:441-458 | `" ".join(chunks) == " ".join(text.split())` |
| WordChunker.WordChunksBound | app/adapters/document_processor/docling_document_processor.py:445-456 | every chunk is non-empty and stripped, and it is a single word or within the token budget |
| WordChunker.WordChunksEmpty | app/adapters/document_processor/docling_document_processor.py:441-458 | the result is empty iff the text is all whitespace |
| Packing.PlanWithinBudget | app/adapters/document_processor/docling_document_processor.py:356-369 | in every packed group the sum of per-piece token counts (`current_tokens`) is at most chunk_size; only a piece over the budget on its own is emitted alone (this bounds the sum, not the count of the joined text) |
| Packing.PlanFlatten | app/adapters/document_processor/docling_document_processor.py:337-369 | the groups, read in order, are exactly the pieces in input order |
| Packing.PlanGreedy | app/adapters/document_processor/docling_document_processor.py:357-361 | when a packed group is followed by another packed group, adding the next group's first piece would have taken the sum over the budget |
| Packing.AddToPending | app/adapters/document_processor/docling_document_processor.py:363-369 | appending a piece keeps `current_chunk == sep.join(group)` and `current_tokens == ` the sum of the group's counts |
| Packing.EmitPending | app/adapters/document_processor/docling_document_processor.py:347-350 | emitting the pending chunk appends exactly the joined group |
| Packing.FlushPending | app/adapters/document_processor/docling_document_processor.py:371-373 | the final flush appends the joined group iff it is non-empty |
| SentenceChunker.SplitBySentences | app/adapters/document_processor/docling_document_processor.py:389-433 | the sentence loop returns exactly the sentence-level specification |
| SentenceChunker.SentenceChunksBlank | app/adapters/document_processor/docling_document_processor.py:394-398 | no non-blank sentence exists iff the text is all whitespace, and then the result is `[text]` |
| SentenceChunker.RenderSentencesOversized | app/adapters/document_processor/docling_document_processor.py:408-416 | for an oversized sentence, the pending chunk is flushed first, then that sentence's word chunks follow |
| SentenceChunker.WordsSentenceChunks | app/adapters/document_processor/docling_document_processor.py:404-431 | the words of the sentence chunks are exactly the words of the text |
| SentenceChunker.SentenceChunksTrimmed | app/adapters/document_processor/docling_document_processor.py:395-431 | for non-blank text every sentence chunk is non-empty and stripped |
| RecursiveChunker.PackParagraphs | app/adapters/document_processor/docling_document_processor.py:334-373 | the paragraph loop returns the rendering of the greedy plan over the stripped non-blank paragraphs |
| RecursiveChunker.RecursiveTokenSplit | app/adapters/document_processor/docling_document_processor.py:318-382 | the method returns exactly the recursive-split specification |
| RecursiveChunker.RecursiveChunksContent | app/adapters/document_processor/docling_document_processor.py:322-380 | text within the budget gives `[text]`. Otherwise: overlap is applied only with more than one chunk and overlap > 0; the count is unchanged; the first chunk is unchanged; with overlap, chunk i's words are the previous base chunk's overlap words followed by its own; without overlap, the chunks are the base chunks unchanged |
| RecursiveChunker.RecursiveChunksWords | app/adapters/document_processor/docling_document_processor.py:322-382 | with overlap not positive, the result holds exactly the words of the text in order, also when the text fits in one chunk |
| RecursiveChunker.RenderParagraphsOversized | app/adapters/document_processor/docling_document_processor.py:345-354 | before an oversized paragraph's sentence chunks, the pending chunk is flushed |
| RecursiveChunker.WordsBaseChunks | app/adapters/document_processor/docling_document_processor.py:328-376 | before overlap, the chunks hold every word of the text in order; blank paragraphs contribute nothing |
| RecursiveChunker.BaseChunksTrimmed | app/adapters/document_processor/docling_document_processor.py:337-376 | for non-blank text every chunk before overlap is non-empty and stripped |
| Overlap.GetOverlapText | app/adapters/document_processor/docling_document_processor.py:485-503 | the backwards loop with `insert(0, ...)` returns exactly the overlap specification |
| Overlap.OverlapIsSuffix | app/adapters/document_processor/docling_document_processor.py:489-501 | the overlap words are a suffix of `text.split()` |
| Overlap.OverlapBudget | app/adapters/document_processor/docling_document_processor.py:493-500 | a non-empty overlap has token count <= target; when it stops short, adding the next earlier word would exceed the target |
| Overlap.OverlapEmpty | app/adapters/document_processor/docling_document_processor.py:493-503 | the overlap is "" iff the text has no words or its last word alone exceeds the target |
| Overlap.OverlapTextWords | app/adapters/document_processor/docling_document_processor.py:503 | the returned string splits back into the overlap words |
| Overlap.ApplyOverlap | app/adapters/document_processor/docling_document_processor.py:460-483 | the loop returns exactly the overlap-application specification |
| Overlap.OverlappedWords | app/adapters/document_processor/docling_document_processor.py:467-481 | same length; the first chunk is unchanged; chunk i > 0 splits into the overlap of the original chunk i-1 followed by chunk i's words, and ends with chunk i |
| Fallback.FallbackCharacterSplit | app/adapters/document_processor/docling_document_processor.py:509-519 | the range-step loop returns exactly the windowed specification |
| Fallback.WindowsJoin | app/adapters/document_processor/docling_document_processor.py:514-515 | the character windows concatenate back to the text |
| Fallback.WindowsAt | app/adapters/document_processor/docling_document_processor.py:514-515 | window k starts at k*4*chunk_size and holds 4*chunk_size characters, except possibly the last |
| Fallback.FallbackChunksShape | app/adapters/document_processor/docling_document_processor.py:511-517 | every fallback chunk is non-empty, stripped and at most 4*chunk_size long |
| Assembly.CreateTokenChunks | app/adapters/document_processor/docling_document_processor.py:271-312 | the enumerate loop returns exactly the assembly specification over the recursive split |
| Assembly.AssembleIndices | app/adapters/document_processor/docling_document_processor.py:284-310 | every record carries the index of a kept piece and is built from that piece |
| Assembly.AssembleOrdered | app/adapters/document_processor/docling_document_processor.py:284-306 | the chunk indices strictly increase |
| Assembly.AssembleKept | app/adapters/document_processor/docling_document_processor.py:284-287 | a record with index j exists iff piece j's stripped length is at least min_chunk_size |
| Assembly.AssembleAllKept | app/adapters/document_processor/docling_document_processor.py:284-310 | when no piece is skipped, the indices are exactly 0, 1, 2, ... |
| Assembly.ChunkMetadataEntries | app/adapters/document_processor/docling_document_processor.py:293-300 | the metadata has the five computed keys plus the document's keys, and document keys override the computed ones |
| Assembly.ChunkContentTrimmed | app/adapters/document_processor/docling_document_processor.py:285-305 | each record's content is stripped and at least min_chunk_size long |
| Assembly.ChunkRecordFields | app/adapters/document_processor/docling_document_processor.py:290-307 | content is the stripped piece, while chunk_char_count and chunk_token_count come from the piece before stripping |
| Assembly.AssembleAllKeptWords | app/adapters/document_processor/docling_document_processor.py:284-310 | when every piece is kept, the stripped contents of the records hold exactly the pieces' words |
| Assembly.ChunkContentsWords | app/adapters/document_processor/docling_document_processor.py:282-310 | without overlap and with no piece skipped, the record contents hold every word of the text in order |
| Assembly.ProcessDocument | app/adapters/document_processor/docling_document_processor.py:197-232 | the method returns exactly the orchestration specification |
| Assembly.ProcessSucceeds | app/adapters/document_processor/docling_document_processor.py:200-226 | success iff the type is supported, extraction succeeds and the text is not blank; it then returns the token chunks and the text unchanged |
| Assembly.ProcessFailures | app/adapters/document_processor/docling_document_processor.py:200-232 | each error path gives "Failed to process document <filename>: " followed by the unsupported-type, extraction or no-text message |
| Assembly.ProcessedChunksOwned | app/adapters/document_processor/docling_document_processor.py:218-226 | every returned record belongs to the document and holds a stripped piece of the returned text |
| DocumentTypes.FilenameMapEntries | app/core/domain/value_objects/document_type.py:32-41 | the eight listed extensions; htm/html give HTML and ppt/pptx give PPTX; every other key is the type's own value |
| DocumentTypes.FromFilenameSuffix | app/core/domain/value_objects/document_type.py:16-19 | for `stem.ext`, the type is the map entry of lower-cased `ext`, and UNKNOWN if there is none |
| DocumentTypes.FromFilenameUnknown | app/core/domain/value_objects/document_type.py:19 | `from_filename` is total: UNKNOWN iff the extension is not in the map, including no extension |
| DocumentTypes.FromMimeTypeCase | app/core/domain/value_objects/document_type.py:22-24 | the lookup is case-insensitive, and UNKNOWN iff the lower-cased MIME type is unlisted |
| DocumentTypes.UnknownMimeType | app/core/domain/value_objects/document_type.py:26-29 | UNKNOWN's MIME type is application/octet-stream |
| DocumentTypes.MimeRoundTrip | app/core/domain/value_objects/document_type.py:43-60 | `from_mime_type(get_mime_type(t)) == t` for every t other than UNKNOWN |
| DocumentTypes.PowerPointReverse | app/core/domain/value_objects/document_type.py:49-59 | application/vnd.ms-powerpoint maps to PPTX, whose MIME type is the presentationml one, so the reverse round trip fails |
| DocumentsRoute.DetermineAccepts | app/api/routes/documents.py:29-50 | success iff the lower-cased final suffix is pdf, docx or doc, and the result is then that extension's entry of the mapping: PDF, DOCX or DOC |
| DocumentsRoute.DetermineRefuses | app/api/routes/documents.py:44-48 | every other extension, including none, fails with the unsupported-extension message |
| DocumentsRoute.UnsupportedMessageText | app/api/routes/documents.py:45-47 | the message lists the supported extensions as "doc, docx, pdf" |
| DocumentsRoute.SupportedExtensionsSorted | app/api/routes/documents.py:32-45 | the listed extensions are the mapping's keys, sorted |
| DocumentsRoute.SupportedText | app/api/routes/documents.py:45 | sorted keys joined with ", " give "doc, docx, pdf" |
| DocumentsRoute.DetermineAgreesWithFromFilename | app/api/routes/documents.py:29-50 | whenever the route accepts a name, its result equals `DocumentType.from_filename` of that name |
| DocumentsRoute.DetermineBySuffix | app/api/routes/documents.py:29 | only the final suffix matters: for `stem.ext` the result depends on lower-cased ext alone |
| Shutdown.ParseUnset | service_scripts/shutdown_with_venv.py:33-37 | a missing or empty value gives the default markers |
| Shutdown.ParseMarkersShape | service_scripts/shutdown_with_venv.py:33-37 | the result is the defaults, or the non-empty list of parsed tokens, each non-empty, stripped, lower-case and free of ',' and ';' |
| Shutdown.MarkerTokensShape | service_scripts/shutdown_with_venv.py:34 | every parsed token is non-empty, stripped, lower-case and contains no separator |
| Shutdown.MarkerFieldsJoin | service_scripts/shutdown_with_venv.py:34 | ';' is treated as ',': the fields join back to the text with ';' replaced, and no field holds either separator |
| Shutdown.MarkerTokensOrder | service_scripts/shutdown_with_venv.py:34 | the tokens are a subsequence of the lowered, stripped fields; there is exactly one non-empty token per non-blank field, duplicates included, so the list is exactly the comprehension's |
| Shutdown.ParseSeparatorsOnly | service_scripts/shutdown_with_venv.py:33-37 | a value made only of separators and whitespace falls back to the defaults |
| Shutdown.DefaultMarkersLower | service_scripts/shutdown_with_venv.py:25 | the default markers are lower-case |
| Shutdown.ShutdownMarkersLower | service_scripts/shutdown_with_venv.py:171 | `shutdown` lower-cases each supplied marker, keeping their number, and uses the defaults when none are supplied |
| Shutdown.ParsedMarkersStable | service_scripts/shutdown_with_venv.py:29-37 | passing parsed markers to `shutdown` leaves them unchanged |
| Shutdown.AnyMarkerExists | service_scripts/shutdown_with_venv.py:75 | `any(...)` holds iff some marker is a substring of the cmdline or of the name |
| Shutdown.ServiceProcessIff | service_scripts/shutdown_with_venv.py:60-83 | a readable process matches iff some marker occurs in the lower-cased cmdline or name, and either cwd_match holds or the lower-cased repo path occurs in the cmdline |
| Shutdown.EmptyMarkerMatches | service_scripts/shutdown_with_venv.py:75-83 | an empty marker matches any process whose cwd is in the repository |
| Shutdown.NoMarkersNoMatch | service_scripts/shutdown_with_venv.py:75 | with no markers no process matches |

## Left out

- Docling extraction and model handling (`DoclingModelManager`, `_initialize_converter`, `_extract_with_docling`): foreign-library calls, downloads and file reading. The extraction result, text and metadata or an error message, is an input to `Assembly.ProcessDocument`.
- The tokenizer implementation. `countTokens` is an arbitrary function, so tokenizer exceptions cannot occur in the model. The exception-to-fallback paths of `_recursive_token_split`, `_split_by_sentences` and `_get_overlap_text`, and the "Chunk creation failed" wrapper, are not modelled. `Fallback.FallbackCharacterSplit` is modelled on its own.
- Fallback.FallbackCharacterSplit: requires chunkSize > 0, which the constructor's validation guarantees. With chunk_size = 0 Python's `range` would raise instead.
- The `DocumentChunk` id and creation time (uuid, clock) and the entity classes' other fields: the entity files are not part of this model.
- Logging calls throughout, and the `async` keyword (there is no concurrency; the methods are sequential).
- The unused `current_tokens` assignment in `_get_overlap_text`: it has no effect on the result.
- Lower-casing is ASCII only. Python's full Unicode `str.lower` is not modelled. Whitespace follows `str.isspace`.
- Paths are POSIX only: `Path.name` and `Path.suffix` are modelled for '/'-separated names.
- `settings.SUPPORTED_DOCUMENT_TYPES` is the processor's `supportedTypes` parameter. The settings module is not part of this model.
- `upload_document` (HTTP, file saving, uuid) and the application wiring.
- The shutdown script's process handling: psutil calls, `Path.resolve`, pidfile handling, `_terminate_process` and `parse_timeout` (float parsing). The `cwd_match` result is an input to the matching rule, and a failure to read a process is the `None` input.
- `REPO_ROOT` is a parameter (its path string).
