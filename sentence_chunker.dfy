/**
 * `_split_by_sentences`: the text is cut after `.`, `!` or `?` followed by
 * whitespace, the stripped non-blank sentences are packed greedily and joined
 * by single spaces, and a sentence over the budget is split by words after the
 * pending chunk is emitted. Without any non-blank sentence the text itself is
 * the only chunk.
 */
module SentenceChunker {

  import opened Seqs
  import opened Strings
  import opened ChunkConfig
  import opened WordChunker
  import opened Packing

  /** `[s.strip() for s in re.split(r'(?<=[.!?])\s+', text) if s.strip()]` */
  function Sentences(text: string): seq<string>
  {
    StrippedNonBlank(SentenceSplit(text))
  }

  function SentenceSegmentChunks(p: Processor, s: Segment): seq<string>
  {
    match s
    case Packed(g) => [Join(" ", g)]
    case Oversized(x) => WordChunks(p, x)
  }

  /** The chunks of a sentence-level plan, in order. */
  function RenderSentences(p: Processor, plan: seq<Segment>): seq<string>
  {
    if |plan| == 0 then [] else SentenceSegmentChunks(p, plan[0]) + RenderSentences(p, plan[1..])
  }

  /** The chunks `_split_by_sentences(text)` returns. */
  function SentenceChunks(p: Processor, text: string): seq<string>
  {
    var s := Sentences(text);
    if |s| == 0 then [text] else RenderSentences(p, Plan(p, s))
  }

  // ---------------------------------------------------------------------------
  // Rendering
  // ---------------------------------------------------------------------------

  lemma {:induction false} RenderSentencesAppend(p: Processor, a: seq<Segment>, b: seq<Segment>)
    ensures RenderSentences(p, a + b) == RenderSentences(p, a) + RenderSentences(p, b)
  {
    if |a| == 0 {
      EmptyLeft(a, b);
    } else {
      DropOneConcat(a, b);
      RenderSentencesAppend(p, a[1..], b);
      AppendAssoc(SentenceSegmentChunks(p, a[0]), RenderSentences(p, a[1..]), RenderSentences(p, b));
    }
  }

  lemma RenderSentencesOne(p: Processor, s: Segment)
    ensures RenderSentences(p, [s]) == SentenceSegmentChunks(p, s)
  {
    assert [s][1..] == [];
  }

  lemma RenderSentencesFlush(p: Processor, g: seq<string>)
    ensures RenderSentences(p, Flush(g)) == FlushChunks(" ", g)
  {
    if |g| > 0 {
      RenderSentencesOne(p, Packed(g));
    }
  }

  lemma RenderSentencesOversized(p: Processor, g: seq<string>, x: string, tail: seq<Segment>)
    ensures RenderSentences(p, Flush(g) + [Oversized(x)] + tail) ==
      FlushChunks(" ", g) + WordChunks(p, x) + RenderSentences(p, tail)
  {
    var a := Flush(g) + [Oversized(x)];
    RenderSentencesAppend(p, a, tail);
    RenderSentencesAppend(p, Flush(g), [Oversized(x)]);
    RenderSentencesFlush(p, g);
    RenderSentencesOne(p, Oversized(x));
  }

  /** The chunks a sentence over the budget contributes, after the pending chunk. */
  lemma SentenceStepOversized(p: Processor, c: seq<string>, g: seq<string>, x: string, tail: seq<Segment>)
    ensures c + RenderSentences(p, Flush(g) + [Oversized(x)] + tail) ==
      c + FlushChunks(" ", g) + WordChunks(p, x) + RenderSentences(p, tail)
  {
    RenderSentencesOversized(p, g, x, tail);
    AppendAssocLeft(c, FlushChunks(" ", g), WordChunks(p, x), RenderSentences(p, tail));
  }

  lemma SentenceStepFull(p: Processor, c: seq<string>, g: seq<string>, tail: seq<Segment>)
    ensures c + RenderSentences(p, [Packed(g)] + tail) == (c + [Join(" ", g)]) + RenderSentences(p, tail)
  {
    RenderSentencesAppend(p, [Packed(g)], tail);
    RenderSentencesOne(p, Packed(g));
    AppendAssoc(c, [Join(" ", g)], RenderSentences(p, tail));
  }

  // One iteration of the loop of `_split_by_sentences` on sentence `x`, with `target` the final chunks

  lemma SentenceLoopOversized(p: Processor, c: seq<string>, g: seq<string>, x: string, rest: seq<string>,
                              target: seq<string>)
    requires p.countTokens(x) > p.chunkSize
    requires c + RenderSentences(p, PlanFrom(p, g, [x] + rest)) == target
    ensures c + FlushChunks(" ", g) + WordChunks(p, x) + RenderSentences(p, PlanFrom(p, [], rest)) == target
  {
    PlanCons(p, g, x, rest);
    SentenceStepOversized(p, c, g, x, PlanFrom(p, [], rest));
  }

  lemma SentenceLoopFull(p: Processor, c: seq<string>, g: seq<string>, x: string, rest: seq<string>,
                         target: seq<string>)
    requires p.countTokens(x) <= p.chunkSize
    requires TokenSum(p, g) + p.countTokens(x) > p.chunkSize && |g| > 0
    requires c + RenderSentences(p, PlanFrom(p, g, [x] + rest)) == target
    ensures (c + [Join(" ", g)]) + RenderSentences(p, PlanFrom(p, [x], rest)) == target
  {
    PlanCons(p, g, x, rest);
    SentenceStepFull(p, c, g, PlanFrom(p, [x], rest));
  }

  lemma SentenceLoopAdd(p: Processor, c: seq<string>, g: seq<string>, x: string, rest: seq<string>,
                        target: seq<string>)
    requires p.countTokens(x) <= p.chunkSize
    requires !(TokenSum(p, g) + p.countTokens(x) > p.chunkSize && |g| > 0)
    requires c + RenderSentences(p, PlanFrom(p, g, [x] + rest)) == target
    ensures c + RenderSentences(p, PlanFrom(p, g + [x], rest)) == target
  {
    PlanCons(p, g, x, rest);
  }

  lemma SentenceLoopEnd(p: Processor, c: seq<string>, g: seq<string>, target: seq<string>)
    requires c + RenderSentences(p, PlanFrom(p, g, [])) == target
    ensures c + FlushChunks(" ", g) == target
  {
    RenderSentencesFlush(p, g);
  }

  // ---------------------------------------------------------------------------
  // What `_split_by_sentences` promises
  // ---------------------------------------------------------------------------

  lemma SpaceIsSpace()
    ensures |" "| > 0 && AllSpace(" ")
  {
    AsciiSpace(' ');
  }

  lemma {:induction false} WordsRenderSentences(p: Processor, plan: seq<Segment>)
    ensures Words(RenderSentences(p, plan)) == Words(Flatten(plan))
  {
    if |plan| > 0 {
      var s := plan[0];
      WordsRenderSentences(p, plan[1..]);
      WordsAppend(SentenceSegmentChunks(p, s), RenderSentences(p, plan[1..]));
      WordsAppend(SegmentPieces(s), Flatten(plan[1..]));
      match s
      case Packed(g) =>
        WordsCons(Join(" ", g), []);
        SpaceIsSpace();
        SplitJoin(" ", g);
      case Oversized(x) =>
        WordChunksWords(p, x);
        WordsCons(x, []);
    }
  }

  lemma SentencesWords(text: string)
    ensures Words(Sentences(text)) == Split(text)
  {
    WordsStrippedNonBlank(SentenceSplit(text));
    WordsSentenceSplit(text);
  }

  /** The sentence chunks hold exactly the words of the text, in order. */
  lemma WordsSentenceChunks(p: Processor, text: string)
    ensures Words(SentenceChunks(p, text)) == Split(text)
  {
    var s := Sentences(text);
    SentencesWords(text);
    if |s| == 0 {
      WordsCons(text, []);
      SplitAllSpace(text);
      assert Split(text) == [];
    } else {
      WordsRenderSentences(p, Plan(p, s));
      PlanFlatten(p, [], s);
      EmptyLeft([], s);
    }
  }

  /** Without a non-blank sentence, the text is returned as it is. */
  lemma SentenceChunksBlank(p: Processor, text: string)
    ensures Sentences(text) == [] <==> AllSpace(text)
    ensures AllSpace(text) ==> SentenceChunks(p, text) == [text]
  {
    SentencesWords(text);
    SplitAllSpace(text);
  }

  lemma AllTrimmedAppend(a: seq<string>, b: seq<string>)
    requires AllTrimmed(a) && AllTrimmed(b)
    ensures AllTrimmed(a + b)
  {
    forall k | 0 <= k < |a + b| ensures Trimmed((a + b)[k]) {
      if k < |a| { assert (a + b)[k] == a[k]; } else { assert (a + b)[k] == b[k - |a|]; }
    }
  }

  lemma {:induction false} TrimmedRenderSentences(p: Processor, plan: seq<Segment>)
    requires PlanOk(p, plan)
    ensures AllTrimmed(RenderSentences(p, plan))
  {
    if |plan| > 0 {
      var s := plan[0];
      assert SegmentOk(p, s);
      assert PlanOk(p, plan[1..]) by {
        forall k | 0 <= k < |plan| - 1 ensures SegmentOk(p, plan[1..][k]) {
          assert plan[1..][k] == plan[k + 1];
        }
      }
      TrimmedRenderSentences(p, plan[1..]);
      match s
      case Packed(g) =>
        TrimmedJoin(" ", g);
      case Oversized(x) =>
        WordChunksBound(p, x);
      AllTrimmedAppend(SentenceSegmentChunks(p, s), RenderSentences(p, plan[1..]));
    }
  }

  /** A text with a word gives stripped, non-blank chunks only. */
  lemma SentenceChunksTrimmed(p: Processor, text: string)
    requires !AllSpace(text)
    ensures AllTrimmed(SentenceChunks(p, text))
  {
    SentenceChunksBlank(p, text);
    PlanWithinBudget(p, [], Sentences(text));
    TrimmedRenderSentences(p, Plan(p, Sentences(text)));
  }

  /** The loop of `_split_by_sentences`. */
  method SplitBySentences(p: Processor, text: string) returns (chunks: seq<string>)
    ensures chunks == SentenceChunks(p, text)
  {
    var sentences := Sentences(text);
    if |sentences| == 0 {
      return [text];
    }
    ghost var target := RenderSentences(p, PlanFrom(p, [], sentences));
    EmptyLeft([], target);
    chunks := [];
    var current := "";
    var currentTokens := 0;
    ghost var group: seq<string> := [];
    var todo := sentences;
    while |todo| > 0
      invariant AllTrimmed(group) && AllTrimmed(todo)
      invariant current == Join(" ", group)
      invariant currentTokens == TokenSum(p, group)
      invariant chunks + RenderSentences(p, PlanFrom(p, group, todo)) == target
    {
      var sentence := todo[0];
      ghost var rest := todo[1..];
      ConsSplit(todo);
      todo := todo[1..];
      var sentTokens := p.countTokens(sentence);
      if sentTokens > p.chunkSize {
        SentenceLoopOversized(p, chunks, group, sentence, rest, target);
        PendingEmpty(" ", group);
        if current != "" {
          chunks := EmitPending(chunks, current, " ", group);
          current := "";
          currentTokens := 0;
        } else {
          EmptyRight(chunks, FlushChunks(" ", group));
        }
        group := [];
        var wordChunks := SplitByWords(p, sentence);
        chunks := chunks + wordChunks;
      } else if currentTokens + sentTokens > p.chunkSize && current != "" {
        SentenceLoopFull(p, chunks, group, sentence, rest, target);
        chunks := EmitPending(chunks, current, " ", group);
        current := sentence;
        currentTokens := sentTokens;
        group := [sentence];
        TokenSumSnoc(p, [], sentence);
        assert [] + [sentence] == group;
      } else {
        SentenceLoopAdd(p, chunks, group, sentence, rest, target);
        current, currentTokens := AddToPending(p, current, currentTokens, sentence, sentTokens, " ", group);
        group := group + [sentence];
      }
    }
    SentenceLoopEnd(p, chunks, group, target);
    chunks := FlushPending(chunks, current, " ", group);
  }
}
