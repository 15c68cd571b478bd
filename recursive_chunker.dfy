/**
 * `_recursive_token_split`: a text within the token budget is its own only
 * chunk; a longer text with more than one `"\n\n"`-separated paragraph has its
 * stripped non-blank paragraphs packed greedily and joined by `"\n\n"`, an
 * oversized paragraph going to sentence splitting after the pending chunk is
 * emitted; a single paragraph is split by sentences. With more than one chunk
 * and a positive overlap, the overlap is applied last.
 */
module RecursiveChunker {

  import opened Seqs
  import opened Strings
  import opened ChunkConfig
  import opened Packing
  import opened SentenceChunker
  import opened Overlap

  const ParagraphBreak: string := "\n\n"

  /** `[p.strip() for p in text.split('\n\n') if p.strip()]`: the paragraphs the packing loop uses. */
  function Paragraphs(text: string): seq<string>
  {
    StrippedNonBlank(SplitOn(text, ParagraphBreak))
  }

  function ParagraphSegmentChunks(p: Processor, s: Segment): seq<string>
  {
    match s
    case Packed(g) => [Join(ParagraphBreak, g)]
    case Oversized(x) => SentenceChunks(p, x)
  }

  /** The chunks of a paragraph-level plan, in order. */
  function RenderParagraphs(p: Processor, plan: seq<Segment>): seq<string>
  {
    if |plan| == 0 then [] else ParagraphSegmentChunks(p, plan[0]) + RenderParagraphs(p, plan[1..])
  }

  /** The chunks before the overlap: paragraph packing, or sentence splitting for a single paragraph. */
  function BaseChunks(p: Processor, text: string): seq<string>
  {
    if |SplitOn(text, ParagraphBreak)| > 1 then RenderParagraphs(p, Plan(p, Paragraphs(text)))
    else SentenceChunks(p, text)
  }

  /** The chunks `_recursive_token_split(text)` returns. */
  function RecursiveChunks(p: Processor, text: string): seq<string>
  {
    if p.countTokens(text) <= p.chunkSize then [text]
    else
      var base := BaseChunks(p, text);
      if |base| > 1 && p.chunkOverlap > 0 then Overlapped(p, base) else base
  }

  // ---------------------------------------------------------------------------
  // Rendering
  // ---------------------------------------------------------------------------

  lemma {:induction false} RenderParagraphsAppend(p: Processor, a: seq<Segment>, b: seq<Segment>)
    ensures RenderParagraphs(p, a + b) == RenderParagraphs(p, a) + RenderParagraphs(p, b)
  {
    if |a| == 0 {
      EmptyLeft(a, b);
    } else {
      DropOneConcat(a, b);
      RenderParagraphsAppend(p, a[1..], b);
      AppendAssoc(ParagraphSegmentChunks(p, a[0]), RenderParagraphs(p, a[1..]), RenderParagraphs(p, b));
    }
  }

  lemma RenderParagraphsOne(p: Processor, s: Segment)
    ensures RenderParagraphs(p, [s]) == ParagraphSegmentChunks(p, s)
  {
    assert [s][1..] == [];
  }

  lemma RenderParagraphsFlush(p: Processor, g: seq<string>)
    ensures RenderParagraphs(p, Flush(g)) == FlushChunks(ParagraphBreak, g)
  {
    if |g| > 0 {
      RenderParagraphsOne(p, Packed(g));
    }
  }

  lemma RenderParagraphsOversized(p: Processor, g: seq<string>, x: string, tail: seq<Segment>)
    ensures RenderParagraphs(p, Flush(g) + [Oversized(x)] + tail) ==
      FlushChunks(ParagraphBreak, g) + SentenceChunks(p, x) + RenderParagraphs(p, tail)
  {
    RenderParagraphsAppend(p, Flush(g) + [Oversized(x)], tail);
    RenderParagraphsAppend(p, Flush(g), [Oversized(x)]);
    RenderParagraphsFlush(p, g);
    RenderParagraphsOne(p, Oversized(x));
  }

  // One iteration of the paragraph loop of `_recursive_token_split`, with `target` the final chunks

  lemma ParagraphLoopSkip(p: Processor, c: seq<string>, g: seq<string>, raw: string, rest: seq<string>,
                          target: seq<string>)
    requires Strip(raw) == ""
    requires c + RenderParagraphs(p, PlanFrom(p, g, StrippedNonBlank([raw] + rest))) == target
    ensures c + RenderParagraphs(p, PlanFrom(p, g, StrippedNonBlank(rest))) == target
  {
    StrippedNonBlankCons(raw, rest);
  }

  lemma ParagraphLoopTake(p: Processor, c: seq<string>, g: seq<string>, raw: string, rest: seq<string>,
                          target: seq<string>)
    requires Strip(raw) != ""
    requires c + RenderParagraphs(p, PlanFrom(p, g, StrippedNonBlank([raw] + rest))) == target
    ensures c + RenderParagraphs(p, PlanFrom(p, g, [Strip(raw)] + StrippedNonBlank(rest))) == target
  {
    StrippedNonBlankCons(raw, rest);
  }

  lemma ParagraphLoopOversized(p: Processor, c: seq<string>, g: seq<string>, x: string, rest: seq<string>,
                               target: seq<string>)
    requires p.countTokens(x) > p.chunkSize
    requires c + RenderParagraphs(p, PlanFrom(p, g, [x] + rest)) == target
    ensures c + FlushChunks(ParagraphBreak, g) + SentenceChunks(p, x) + RenderParagraphs(p, PlanFrom(p, [], rest)) == target
  {
    PlanCons(p, g, x, rest);
    var tail := PlanFrom(p, [], rest);
    RenderParagraphsOversized(p, g, x, tail);
    AppendAssocLeft(c, FlushChunks(ParagraphBreak, g), SentenceChunks(p, x), RenderParagraphs(p, tail));
  }

  lemma ParagraphLoopFull(p: Processor, c: seq<string>, g: seq<string>, x: string, rest: seq<string>,
                          target: seq<string>)
    requires p.countTokens(x) <= p.chunkSize
    requires TokenSum(p, g) + p.countTokens(x) > p.chunkSize && |g| > 0
    requires c + RenderParagraphs(p, PlanFrom(p, g, [x] + rest)) == target
    ensures (c + [Join(ParagraphBreak, g)]) + RenderParagraphs(p, PlanFrom(p, [x], rest)) == target
  {
    PlanCons(p, g, x, rest);
    var tail := PlanFrom(p, [x], rest);
    RenderParagraphsAppend(p, [Packed(g)], tail);
    RenderParagraphsOne(p, Packed(g));
    AppendAssoc(c, [Join(ParagraphBreak, g)], RenderParagraphs(p, tail));
  }

  lemma ParagraphLoopAdd(p: Processor, c: seq<string>, g: seq<string>, x: string, rest: seq<string>,
                         target: seq<string>)
    requires p.countTokens(x) <= p.chunkSize
    requires !(TokenSum(p, g) + p.countTokens(x) > p.chunkSize && |g| > 0)
    requires c + RenderParagraphs(p, PlanFrom(p, g, [x] + rest)) == target
    ensures c + RenderParagraphs(p, PlanFrom(p, g + [x], rest)) == target
  {
    PlanCons(p, g, x, rest);
  }

  lemma ParagraphLoopEnd(p: Processor, c: seq<string>, g: seq<string>, pieces: seq<string>, target: seq<string>)
    requires |pieces| == 0
    requires c + RenderParagraphs(p, PlanFrom(p, g, pieces)) == target
    ensures c + FlushChunks(ParagraphBreak, g) == target
  {
    RenderParagraphsFlush(p, g);
  }

  // ---------------------------------------------------------------------------
  // What `_recursive_token_split` promises
  // ---------------------------------------------------------------------------

  lemma ParagraphBreakIsSpace()
    ensures |ParagraphBreak| > 0 && AllSpace(ParagraphBreak)
  {
    AsciiSpace('\n');
  }

  lemma {:induction false} WordsRenderParagraphs(p: Processor, plan: seq<Segment>)
    ensures Words(RenderParagraphs(p, plan)) == Words(Flatten(plan))
  {
    if |plan| > 0 {
      var s := plan[0];
      WordsRenderParagraphs(p, plan[1..]);
      WordsAppend(ParagraphSegmentChunks(p, s), RenderParagraphs(p, plan[1..]));
      WordsAppend(SegmentPieces(s), Flatten(plan[1..]));
      match s
      case Packed(g) =>
        WordsCons(Join(ParagraphBreak, g), []);
        ParagraphBreakIsSpace();
        SplitJoin(ParagraphBreak, g);
      case Oversized(x) =>
        WordsSentenceChunks(p, x);
        WordsCons(x, []);
    }
  }

  lemma ParagraphsWords(text: string)
    ensures Words(Paragraphs(text)) == Split(text)
  {
    ParagraphBreakIsSpace();
    WordsStrippedNonBlank(SplitOn(text, ParagraphBreak));
    WordsSplitOn(text, ParagraphBreak);
  }

  /** Before the overlap, the chunks hold exactly the words of the text, in order; blank paragraphs add nothing. */
  lemma WordsBaseChunks(p: Processor, text: string)
    ensures Words(BaseChunks(p, text)) == Split(text)
  {
    if |SplitOn(text, ParagraphBreak)| > 1 {
      var ps := Paragraphs(text);
      ParagraphsWords(text);
      WordsRenderParagraphs(p, Plan(p, ps));
      PlanFlatten(p, [], ps);
      EmptyLeft([], ps);
    } else {
      WordsSentenceChunks(p, text);
    }
  }

  lemma {:induction false} TrimmedRenderParagraphs(p: Processor, plan: seq<Segment>)
    requires PlanOk(p, plan)
    ensures AllTrimmed(RenderParagraphs(p, plan))
  {
    if |plan| > 0 {
      var s := plan[0];
      assert SegmentOk(p, s);
      assert PlanOk(p, plan[1..]) by {
        forall k | 0 <= k < |plan| - 1 ensures SegmentOk(p, plan[1..][k]) {
          assert plan[1..][k] == plan[k + 1];
        }
      }
      TrimmedRenderParagraphs(p, plan[1..]);
      match s
      case Packed(g) =>
        TrimmedJoin(ParagraphBreak, g);
      case Oversized(x) =>
        assert !AllSpace(x) by {
          assert Trimmed(x);
          assert !IsSpace(x[0]);
        }
        SentenceChunksTrimmed(p, x);
      AllTrimmedAppend(ParagraphSegmentChunks(p, s), RenderParagraphs(p, plan[1..]));
    }
  }

  /** A text with a word gives stripped, non-blank chunks before the overlap. */
  lemma BaseChunksTrimmed(p: Processor, text: string)
    requires !AllSpace(text)
    ensures AllTrimmed(BaseChunks(p, text))
  {
    if |SplitOn(text, ParagraphBreak)| > 1 {
      PlanWithinBudget(p, [], Paragraphs(text));
      TrimmedRenderParagraphs(p, Plan(p, Paragraphs(text)));
    } else {
      SentenceChunksTrimmed(p, text);
    }
  }

  /**
   * A text within the budget is returned whole. Otherwise, without overlap (a
   * single chunk, or `chunk_overlap <= 0`), the chunks hold exactly the words
   * of the text; with overlap there are as many chunks as before it, the first
   * is unchanged, and every later one holds the overlap words of its
   * un-overlapped predecessor followed by its own words.
   */
  lemma RecursiveChunksContent(p: Processor, text: string)
    ensures p.countTokens(text) <= p.chunkSize ==> RecursiveChunks(p, text) == [text]
    ensures p.countTokens(text) > p.chunkSize && (|BaseChunks(p, text)| <= 1 || p.chunkOverlap <= 0) ==>
      RecursiveChunks(p, text) == BaseChunks(p, text) && Words(RecursiveChunks(p, text)) == Split(text)
    ensures p.countTokens(text) > p.chunkSize ==> |RecursiveChunks(p, text)| == |BaseChunks(p, text)|
    ensures p.countTokens(text) > p.chunkSize && |BaseChunks(p, text)| > 0 ==>
      RecursiveChunks(p, text)[0] == BaseChunks(p, text)[0]
    ensures p.countTokens(text) > p.chunkSize && |BaseChunks(p, text)| > 1 && p.chunkOverlap > 0 ==>
      forall i :: 0 < i < |BaseChunks(p, text)| ==>
        Split(RecursiveChunks(p, text)[i]) ==
          OverlapWords(p, BaseChunks(p, text)[i - 1], p.chunkOverlap) + Split(BaseChunks(p, text)[i])
  {
    if p.countTokens(text) > p.chunkSize {
      var b := BaseChunks(p, text);
      WordsBaseChunks(p, text);
      if |b| > 1 && p.chunkOverlap > 0 {
        OverlappedWords(p, b, 0);
        forall i | 0 < i < |b|
          ensures Split(Overlapped(p, b)[i]) == OverlapWords(p, b[i - 1], p.chunkOverlap) + Split(b[i])
        {
          OverlappedWords(p, b, i);
        }
      }
    }
  }

  /** Without overlap, the chunks hold exactly the words of the text, in order. */
  lemma RecursiveChunksWords(p: Processor, text: string)
    requires p.chunkOverlap <= 0
    ensures Words(RecursiveChunks(p, text)) == Split(text)
  {
    if p.countTokens(text) <= p.chunkSize {
      assert Words([text]) == Split(text) + Words([]);
    } else {
      WordsBaseChunks(p, text);
    }
  }

  /** `_recursive_token_split` */
  method RecursiveTokenSplit(p: Processor, text: string) returns (chunks: seq<string>)
    ensures chunks == RecursiveChunks(p, text)
  {
    var tokenCount := p.countTokens(text);
    if tokenCount <= p.chunkSize {
      return [text];
    }
    var paragraphs := SplitOn(text, ParagraphBreak);
    if |paragraphs| > 1 {
      chunks := PackParagraphs(p, paragraphs);
    } else {
      chunks := SplitBySentences(p, text);
    }
    if |chunks| > 1 && p.chunkOverlap > 0 {
      chunks := ApplyOverlap(p, chunks);
    }
  }

  /** The paragraph loop of `_recursive_token_split`. */
  method PackParagraphs(p: Processor, paragraphs: seq<string>) returns (chunks: seq<string>)
    ensures chunks == RenderParagraphs(p, Plan(p, StrippedNonBlank(paragraphs)))
  {
    ghost var target := RenderParagraphs(p, PlanFrom(p, [], StrippedNonBlank(paragraphs)));
    EmptyLeft([], target);
    chunks := [];
    var current := "";
    var currentTokens := 0;
    ghost var group: seq<string> := [];
    var todo := paragraphs;
    while |todo| > 0
      invariant AllTrimmed(group)
      invariant current == Join(ParagraphBreak, group)
      invariant currentTokens == TokenSum(p, group)
      invariant chunks + RenderParagraphs(p, PlanFrom(p, group, StrippedNonBlank(todo))) == target
    {
      var raw := todo[0];
      ghost var rest := todo[1..];
      ConsSplit(todo);
      todo := todo[1..];
      var paragraph := Strip(raw);
      if paragraph == "" {
        ParagraphLoopSkip(p, chunks, group, raw, rest, target);
        continue;
      }
      ParagraphLoopTake(p, chunks, group, raw, rest, target);
      ghost var pieces := StrippedNonBlank(rest);
      var paraTokens := p.countTokens(paragraph);
      if paraTokens > p.chunkSize {
        ParagraphLoopOversized(p, chunks, group, paragraph, pieces, target);
        PendingEmpty(ParagraphBreak, group);
        if current != "" {
          chunks := EmitPending(chunks, current, ParagraphBreak, group);
          current := "";
          currentTokens := 0;
        } else {
          EmptyRight(chunks, FlushChunks(ParagraphBreak, group));
        }
        group := [];
        var paraChunks := SplitBySentences(p, paragraph);
        chunks := chunks + paraChunks;
      } else if currentTokens + paraTokens > p.chunkSize && current != "" {
        ParagraphLoopFull(p, chunks, group, paragraph, pieces, target);
        chunks := EmitPending(chunks, current, ParagraphBreak, group);
        current := paragraph;
        currentTokens := paraTokens;
        group := [paragraph];
        TokenSumSnoc(p, [], paragraph);
        assert [] + [paragraph] == group;
      } else {
        PendingEmpty(ParagraphBreak, group);
        ParagraphLoopAdd(p, chunks, group, paragraph, pieces, target);
        current, currentTokens := AddToPending(p, current, currentTokens, paragraph, paraTokens, ParagraphBreak, group);
        group := group + [paragraph];
      }
    }
    ParagraphLoopEnd(p, chunks, group, StrippedNonBlank(todo), target);
    chunks := FlushPending(chunks, current, ParagraphBreak, group);
  }
}
