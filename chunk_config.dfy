/**
 * The chunking parameters of `DoclingDocumentProcessor` and their validation
 * (`_validate_chunk_parameters`, run by the constructor before any field is set).
 *
 * The token counter is the injected `token_service.count_tokens`; it is kept
 * as an arbitrary total function, so nothing proved about the chunker assumes
 * it is monotone or additive.
 */
module ChunkConfig {

  import opened Wrappers

  const DefaultChunkSize := 1000
  const DefaultChunkOverlap := 200
  const DefaultMinChunkSize := 100

  /** The `ValueError`s of the validation, in the order they are checked. */
  datatype ParamError =
    | ChunkSizeNotPositive(chunkSize: int)
    | OverlapNegative(chunkOverlap: int)
    | OverlapNotBelowSize(chunkOverlap: int, chunkSize: int)
    | MinChunkSizeNotPositive(minChunkSize: int)

  /**
   * The configured processor: token counter, budget in tokens, overlap in
   * tokens, minimum chunk length in characters, and the document type values
   * the deployment supports.
   */
  datatype Processor = Processor(
    countTokens: string -> nat,
    chunkSize: int,
    chunkOverlap: int,
    minChunkSize: int,
    supportedTypes: seq<string>)

  /**
   * `_validate_chunk_parameters`: the first violated condition is reported;
   * on success the result says whether the "min_chunk_size may be larger than
   * chunk_size" warning is logged.
   */
  function ValidateChunkParameters(chunkSize: int, chunkOverlap: int, minChunkSize: int): (r: Result<bool, ParamError>)
    ensures r.Success? <==> chunkSize > 0 && 0 <= chunkOverlap < chunkSize && minChunkSize > 0
    ensures r.Success? ==> (r.value <==> minChunkSize > chunkSize * 4)
    ensures chunkSize <= 0 ==> r == Failure(ChunkSizeNotPositive(chunkSize))
    ensures chunkSize > 0 && chunkOverlap < 0 ==> r == Failure(OverlapNegative(chunkOverlap))
    ensures chunkSize > 0 && 0 <= chunkOverlap && chunkOverlap >= chunkSize ==>
              r == Failure(OverlapNotBelowSize(chunkOverlap, chunkSize))
    ensures chunkSize > 0 && 0 <= chunkOverlap < chunkSize && minChunkSize <= 0 ==>
              r == Failure(MinChunkSizeNotPositive(minChunkSize))
  {
    if chunkSize <= 0 then Failure(ChunkSizeNotPositive(chunkSize))
    else if chunkOverlap < 0 then Failure(OverlapNegative(chunkOverlap))
    else if chunkOverlap >= chunkSize then Failure(OverlapNotBelowSize(chunkOverlap, chunkSize))
    else if minChunkSize <= 0 then Failure(MinChunkSizeNotPositive(minChunkSize))
    else Success(minChunkSize > chunkSize * 4)
  }

  predicate Valid(p: Processor)
  {
    ValidateChunkParameters(p.chunkSize, p.chunkOverlap, p.minChunkSize).Success?
  }

  /** The constructor: a processor exists only for parameters that pass validation. */
  function NewProcessor(countTokens: string -> nat, chunkSize: int, chunkOverlap: int, minChunkSize: int,
                        supportedTypes: seq<string>): (r: Result<Processor, ParamError>)
    ensures r.Success? <==> chunkSize > 0 && 0 <= chunkOverlap < chunkSize && minChunkSize > 0
    ensures r.Success? ==>
              Valid(r.value) && r.value.chunkSize == chunkSize &&
              r.value.chunkOverlap == chunkOverlap && r.value.minChunkSize == minChunkSize &&
              r.value.countTokens == countTokens && r.value.supportedTypes == supportedTypes
    ensures r.Failure? ==> r.error == ValidateChunkParameters(chunkSize, chunkOverlap, minChunkSize).error
  {
    match ValidateChunkParameters(chunkSize, chunkOverlap, minChunkSize)
    case Failure(e) => Failure(e)
    case Success(_) => Success(Processor(countTokens, chunkSize, chunkOverlap, minChunkSize, supportedTypes))
  }

  /** The defaults (1000 tokens, 200 tokens overlap, 100 characters) are accepted without the warning. */
  lemma DefaultsAccepted()
    ensures ValidateChunkParameters(DefaultChunkSize, DefaultChunkOverlap, DefaultMinChunkSize) == Success(false)
  {
  }
}
