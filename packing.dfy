/**
 * The greedy packing shared by the paragraph and the sentence level of the
 * chunker (`_recursive_token_split` and `_split_by_sentences`).
 *
 * Pieces (stripped, non-blank paragraphs or sentences) are visited in order
 * and grouped: a piece whose own count exceeds the budget is flushed out on
 * its own, to be split at the next level; otherwise it joins the pending
 * group unless the running sum of piece counts (`current_tokens`) would then
 * exceed the budget, in which case the pending group is emitted first. The
 * plan records this grouping; each level renders it with its own separator.
 */
module Packing {

  import opened Seqs
  import opened Strings
  import opened ChunkConfig

  datatype Segment =
    | Packed(group: seq<string>)   // pieces emitted together as one chunk
    | Oversized(piece: string)     // a piece over the budget, split further

  /** `current_tokens`: the sum of the counts of the pending pieces. */
  function TokenSum(p: Processor, g: seq<string>): nat
  {
    if |g| == 0 then 0 else TokenSum(p, g[..|g| - 1]) + p.countTokens(g[|g| - 1])
  }

  /** The pending group, emitted if there is one. */
  function Flush(g: seq<string>): seq<Segment>
  {
    if |g| == 0 then [] else [Packed(g)]
  }

  /** The segments emitted from pending group `group` and the pieces not yet visited. */
  function PlanFrom(p: Processor, group: seq<string>, pieces: seq<string>): seq<Segment>
    decreases |pieces|
  {
    if |pieces| == 0 then Flush(group)
    else
      var x := pieces[0];
      var c := p.countTokens(x);
      if c > p.chunkSize then Flush(group) + [Oversized(x)] + PlanFrom(p, [], pieces[1..])
      else if TokenSum(p, group) + c > p.chunkSize && |group| > 0 then
        [Packed(group)] + PlanFrom(p, [x], pieces[1..])
      else PlanFrom(p, group + [x], pieces[1..])
  }

  function Plan(p: Processor, pieces: seq<string>): seq<Segment>
  {
    PlanFrom(p, [], pieces)
  }

  function SegmentPieces(s: Segment): seq<string>
  {
    match s
    case Packed(g) => g
    case Oversized(x) => [x]
  }

  /** The pieces of a plan, in order. */
  function Flatten(plan: seq<Segment>): seq<string>
  {
    if |plan| == 0 then [] else SegmentPieces(plan[0]) + Flatten(plan[1..])
  }

  /** A packed group is non-empty, stripped and within the budget; an oversized piece is over it. */
  predicate SegmentOk(p: Processor, s: Segment)
  {
    match s
    case Packed(g) => |g| > 0 && AllTrimmed(g) && TokenSum(p, g) <= p.chunkSize
    case Oversized(x) => Trimmed(x) && p.countTokens(x) > p.chunkSize
  }

  predicate PlanOk(p: Processor, plan: seq<Segment>)
  {
    forall k :: 0 <= k < |plan| ==> SegmentOk(p, plan[k])
  }

  /** A group is closed only when the first piece of the next group would take it over the budget. */
  predicate Greedy(p: Processor, plan: seq<Segment>)
  {
    forall k :: 0 <= k < |plan| - 1 && plan[k].Packed? && plan[k + 1].Packed? && |plan[k + 1].group| > 0 ==>
      TokenSum(p, plan[k].group) + p.countTokens(plan[k + 1].group[0]) > p.chunkSize
  }

  // ---------------------------------------------------------------------------
  // Unfolding and concatenation
  // ---------------------------------------------------------------------------

  lemma TokenSumSnoc(p: Processor, g: seq<string>, x: string)
    ensures TokenSum(p, g + [x]) == TokenSum(p, g) + p.countTokens(x)
  {
    assert (g + [x])[..|g|] == g;
  }

  lemma PlanCons(p: Processor, group: seq<string>, x: string, rest: seq<string>)
    ensures PlanFrom(p, group, [x] + rest) ==
      (if p.countTokens(x) > p.chunkSize then Flush(group) + [Oversized(x)] + PlanFrom(p, [], rest)
       else if TokenSum(p, group) + p.countTokens(x) > p.chunkSize && |group| > 0 then
         [Packed(group)] + PlanFrom(p, [x], rest)
       else PlanFrom(p, group + [x], rest))
  {
    assert ([x] + rest)[0] == x && ([x] + rest)[1..] == rest;
  }

  lemma {:induction false} FlattenAppend(a: seq<Segment>, b: seq<Segment>)
    ensures Flatten(a + b) == Flatten(a) + Flatten(b)
  {
    if |a| == 0 {
      EmptyLeft(a, b);
    } else {
      DropOneConcat(a, b);
      FlattenAppend(a[1..], b);
      AppendAssoc(SegmentPieces(a[0]), Flatten(a[1..]), Flatten(b));
    }
  }

  lemma FlattenFlush(g: seq<string>)
    ensures Flatten(Flush(g)) == g
  {
    if |g| > 0 {
      assert Flush(g)[1..] == [];
    }
  }

  lemma FlattenOne(s: Segment)
    ensures Flatten([s]) == SegmentPieces(s)
  {
    assert [s][1..] == [];
  }

  lemma PlanOkAppend(p: Processor, a: seq<Segment>, b: seq<Segment>)
    requires PlanOk(p, a) && PlanOk(p, b)
    ensures PlanOk(p, a + b)
  {
    forall k | 0 <= k < |a + b| ensures SegmentOk(p, (a + b)[k]) {
      if k < |a| { assert (a + b)[k] == a[k]; } else { assert (a + b)[k] == b[k - |a|]; }
    }
  }

  // ---------------------------------------------------------------------------
  // What the packing promises
  // ---------------------------------------------------------------------------

  /** Nothing is dropped, duplicated or reordered: the plan holds the pending group and then every piece. */
  lemma {:induction false} PlanFlatten(p: Processor, group: seq<string>, pieces: seq<string>)
    ensures Flatten(PlanFrom(p, group, pieces)) == group + pieces
    decreases |pieces|
  {
    if |pieces| == 0 {
      FlattenFlush(group);
      EmptyRight(group, pieces);
    } else {
      var x, rest := pieces[0], pieces[1..];
      ConsSplit(pieces);
      PlanCons(p, group, x, rest);
      if p.countTokens(x) > p.chunkSize {
        var tail := PlanFrom(p, [], rest);
        PlanFlatten(p, [], rest);
        FlattenAppend(Flush(group) + [Oversized(x)], tail);
        FlattenAppend(Flush(group), [Oversized(x)]);
        FlattenFlush(group);
        FlattenOne(Oversized(x));
        EmptyLeft([], rest);
        AppendOne(group, x, rest);
      } else if TokenSum(p, group) + p.countTokens(x) > p.chunkSize && |group| > 0 {
        PlanFlatten(p, [x], rest);
        FlattenAppend([Packed(group)], PlanFrom(p, [x], rest));
        FlattenOne(Packed(group));
      } else {
        PlanFlatten(p, group + [x], rest);
        AppendOne(group, x, rest);
      }
    }
  }

  /** Every packed group keeps within the budget (as a sum of piece counts), every oversized piece exceeds it. */
  lemma {:induction false} PlanWithinBudget(p: Processor, group: seq<string>, pieces: seq<string>)
    requires AllTrimmed(group) && AllTrimmed(pieces)
    requires |group| == 0 || TokenSum(p, group) <= p.chunkSize
    ensures PlanOk(p, PlanFrom(p, group, pieces))
    decreases |pieces|
  {
    if |pieces| == 0 {
    } else {
      var x, rest := pieces[0], pieces[1..];
      ConsSplit(pieces);
      PlanCons(p, group, x, rest);
      assert Trimmed(x);
      assert AllTrimmed(rest);
      if p.countTokens(x) > p.chunkSize {
        PlanWithinBudget(p, [], rest);
        assert PlanOk(p, Flush(group) + [Oversized(x)]);
        PlanOkAppend(p, Flush(group) + [Oversized(x)], PlanFrom(p, [], rest));
      } else {
        TokenSumSnoc(p, [], x);
        assert [] + [x] == [x];
        if TokenSum(p, group) + p.countTokens(x) > p.chunkSize && |group| > 0 {
          PlanWithinBudget(p, [x], rest);
          PlanOkAppend(p, [Packed(group)], PlanFrom(p, [x], rest));
        } else {
          TokenSumSnoc(p, group, x);
          assert AllTrimmed(group + [x]) by {
            forall k | 0 <= k < |group| + 1 ensures Trimmed((group + [x])[k]) {
              if k < |group| { assert (group + [x])[k] == group[k]; }
            }
          }
          PlanWithinBudget(p, group + [x], rest);
        }
      }
    }
  }

  /** From a non-empty pending group, the plan starts with a group that begins with the same piece. */
  lemma {:induction false} PlanHead(p: Processor, group: seq<string>, pieces: seq<string>)
    requires |group| > 0
    ensures var plan := PlanFrom(p, group, pieces);
      |plan| > 0 && plan[0].Packed? && |plan[0].group| > 0 && plan[0].group[0] == group[0]
    decreases |pieces|
  {
    if |pieces| > 0 {
      var x, rest := pieces[0], pieces[1..];
      ConsSplit(pieces);
      PlanCons(p, group, x, rest);
      if p.countTokens(x) <= p.chunkSize && !(TokenSum(p, group) + p.countTokens(x) > p.chunkSize) {
        PlanHead(p, group + [x], rest);
      }
    }
  }

  lemma GreedyCons(p: Processor, s: Segment, plan: seq<Segment>)
    requires Greedy(p, plan)
    requires s.Packed? && |plan| > 0 && plan[0].Packed? && |plan[0].group| > 0 ==>
      TokenSum(p, s.group) + p.countTokens(plan[0].group[0]) > p.chunkSize
    ensures Greedy(p, [s] + plan)
  {
    var q := [s] + plan;
    forall k | 0 <= k < |q| - 1 && q[k].Packed? && q[k + 1].Packed? && |q[k + 1].group| > 0
      ensures TokenSum(p, q[k].group) + p.countTokens(q[k + 1].group[0]) > p.chunkSize
    {
      if k > 0 { assert q[k] == plan[k - 1] && q[k + 1] == plan[k]; }
      else { assert q[1] == plan[0]; }
    }
  }

  lemma GreedyOversized(p: Processor, group: seq<string>, x: string, tail: seq<Segment>)
    requires Greedy(p, tail)
    ensures Greedy(p, Flush(group) + [Oversized(x)] + tail)
  {
    GreedyCons(p, Oversized(x), tail);
    if |group| > 0 {
      GreedyCons(p, Packed(group), [Oversized(x)] + tail);
      assert Flush(group) + [Oversized(x)] + tail == [Packed(group)] + ([Oversized(x)] + tail);
    } else {
      assert Flush(group) + [Oversized(x)] + tail == [Oversized(x)] + tail;
    }
  }

  /** Greedy packing: a group is emitted before the following group only because that group's first piece did not fit. */
  lemma {:induction false} PlanGreedy(p: Processor, group: seq<string>, pieces: seq<string>)
    ensures Greedy(p, PlanFrom(p, group, pieces))
    decreases |pieces|
  {
    if |pieces| > 0 {
      var x, rest := pieces[0], pieces[1..];
      ConsSplit(pieces);
      PlanCons(p, group, x, rest);
      if p.countTokens(x) > p.chunkSize {
        PlanGreedy(p, [], rest);
        GreedyOversized(p, group, x, PlanFrom(p, [], rest));
      } else if TokenSum(p, group) + p.countTokens(x) > p.chunkSize && |group| > 0 {
        PlanGreedy(p, [x], rest);
        PlanHead(p, [x], rest);
        GreedyCons(p, Packed(group), PlanFrom(p, [x], rest));
      } else {
        PlanGreedy(p, group + [x], rest);
      }
    }
  }

  // ---------------------------------------------------------------------------
  // The pending chunk text of a level that joins its pieces with `sep`
  // ---------------------------------------------------------------------------

  /** What flushing the pending group appends to the chunks. */
  function FlushChunks(sep: string, g: seq<string>): seq<string>
  {
    if |g| == 0 then [] else [Join(sep, g)]
  }

  /** The pending text is empty exactly when no piece is pending. */
  lemma PendingEmpty(sep: string, g: seq<string>)
    requires AllTrimmed(g)
    ensures Join(sep, g) == "" <==> |g| == 0
  {
    if |g| > 0 {
      TrimmedJoin(sep, g);
    }
  }

  /** ... and stripping it changes nothing. */
  lemma PendingText(sep: string, g: seq<string>)
    requires AllTrimmed(g)
    ensures Join(sep, g) == "" <==> |g| == 0
    ensures Strip(Join(sep, g)) == Join(sep, g)
  {
    if |g| > 0 {
      TrimmedJoin(sep, g);
      StripTrimmed(Join(sep, g));
    }
  }

  /** `chunks.append(current_chunk.strip())` for a pending text built from trimmed pieces. */
  method EmitPending(chunks: seq<string>, current: string, ghost sep: string, ghost g: seq<string>)
    returns (out: seq<string>)
    requires AllTrimmed(g) && current == Join(sep, g)
    ensures out == chunks + [Join(sep, g)]
  {
    PendingText(sep, g);
    out := chunks + [Strip(current)];
  }

  /** Adding a piece to the pending text: joined with the separator after a non-empty text, taken as is otherwise. */
  method AddToPending(p: Processor, current: string, currentTokens: int, piece: string, pieceTokens: int,
                      sep: string, ghost g: seq<string>)
    returns (next: string, nextTokens: int)
    requires AllTrimmed(g) && Trimmed(piece)
    requires current == Join(sep, g) && currentTokens == TokenSum(p, g)
    requires pieceTokens == p.countTokens(piece)
    ensures AllTrimmed(g + [piece])
    ensures next == Join(sep, g + [piece]) && nextTokens == TokenSum(p, g + [piece])
  {
    PendingEmpty(sep, g);
    PendingExtend(sep, g, piece);
    TokenSumSnoc(p, g, piece);
    if current != "" {
      next := current + sep + piece;
      nextTokens := currentTokens + pieceTokens;
    } else {
      next := piece;
      nextTokens := pieceTokens;
    }
  }

  /** The final `if current_chunk.strip(): chunks.append(current_chunk.strip())`. */
  method FlushPending(chunks: seq<string>, current: string, ghost sep: string, ghost g: seq<string>)
    returns (out: seq<string>)
    requires AllTrimmed(g) && current == Join(sep, g)
    ensures out == chunks + FlushChunks(sep, g)
  {
    PendingText(sep, g);
    if Strip(current) != "" {
      out := chunks + [Strip(current)];
    } else {
      out := chunks;
      EmptyRight(chunks, FlushChunks(sep, g));
    }
  }

  /** Appending a piece to the pending text, as the loops do. */
  lemma PendingExtend(sep: string, g: seq<string>, x: string)
    requires AllTrimmed(g) && Trimmed(x)
    ensures AllTrimmed(g + [x])
    ensures (if |g| == 0 then x else Join(sep, g) + sep + x) == Join(sep, g + [x])
  {
    forall k | 0 <= k < |g| + 1 ensures Trimmed((g + [x])[k]) {
      if k < |g| { assert (g + [x])[k] == g[k]; }
    }
    if |g| == 0 {
      assert g + [x] == [x];
    } else {
      JoinAppend(sep, g, x);
    }
  }
}
