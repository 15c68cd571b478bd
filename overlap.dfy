/**
 * `_get_overlap_text` and `_apply_overlap`: every chunk after the first is
 * prefixed with the longest run of closing words of its (un-overlapped)
 * predecessor whose space-join stays within `chunk_overlap` tokens.
 */
module Overlap {

  import opened Seqs
  import opened Strings
  import opened ChunkConfig

  /**
   * The words of `ws`, taken from its end, put in front of `taken` one by one
   * while the space-join of the taken words stays within `target` tokens.
   */
  function OverlapFrom(p: Processor, target: int, ws: seq<string>, taken: seq<string>): seq<string>
    decreases |ws|
  {
    if |ws| == 0 then taken
    else
      var w := ws[|ws| - 1];
      if p.countTokens(Join(" ", [w] + taken)) > target then taken
      else OverlapFrom(p, target, ws[..|ws| - 1], [w] + taken)
  }

  /** The words `_get_overlap_text(text, target)` keeps. */
  function OverlapWords(p: Processor, text: string, target: int): seq<string>
  {
    OverlapFrom(p, target, Split(text), [])
  }

  /** `_get_overlap_text(text, target)` */
  function OverlapText(p: Processor, text: string, target: int): string
  {
    Join(" ", OverlapWords(p, text, target))
  }

  // ---------------------------------------------------------------------------
  // What the overlap is
  // ---------------------------------------------------------------------------

  lemma {:induction false} OverlapFromSuffix(p: Processor, t: int, ws: seq<string>, taken: seq<string>)
    ensures |taken| <= |OverlapFrom(p, t, ws, taken)| <= |ws| + |taken|
    ensures OverlapFrom(p, t, ws, taken) == ws[|ws| + |taken| - |OverlapFrom(p, t, ws, taken)|..] + taken
    decreases |ws|
  {
    if |ws| == 0 {
      EmptyLeft(ws[|ws|..], taken);
    } else {
      var w := ws[|ws| - 1];
      var front := ws[..|ws| - 1];
      if p.countTokens(Join(" ", [w] + taken)) > t {
        EmptyLeft(ws[|ws|..], taken);
      } else {
        OverlapFromSuffix(p, t, front, [w] + taken);
        var r := OverlapFrom(p, t, front, [w] + taken);
        var m := |ws| + |taken| - |r|;
        DropLastSlice(ws, m);
        AppendOne(front[m..], w, taken);
      }
    }
  }

  lemma {:induction false} OverlapFromBudget(p: Processor, t: int, ws: seq<string>, taken: seq<string>)
    requires |taken| > 0 ==> p.countTokens(Join(" ", taken)) <= t
    ensures |OverlapFrom(p, t, ws, taken)| > 0 ==> p.countTokens(Join(" ", OverlapFrom(p, t, ws, taken))) <= t
    decreases |ws|
  {
    if |ws| > 0 {
      var w := ws[|ws| - 1];
      if p.countTokens(Join(" ", [w] + taken)) <= t {
        OverlapFromBudget(p, t, ws[..|ws| - 1], [w] + taken);
      }
    }
  }

  lemma {:induction false} OverlapFromMaximal(p: Processor, t: int, ws: seq<string>, taken: seq<string>)
    ensures |taken| <= |OverlapFrom(p, t, ws, taken)| < |ws| + |taken| ==>
      p.countTokens(Join(" ", [ws[|ws| + |taken| - |OverlapFrom(p, t, ws, taken)| - 1]]
                                + OverlapFrom(p, t, ws, taken))) > t
    decreases |ws|
  {
    OverlapFromSuffix(p, t, ws, taken);
    if |ws| > 0 {
      var w := ws[|ws| - 1];
      var front := ws[..|ws| - 1];
      if p.countTokens(Join(" ", [w] + taken)) <= t {
        OverlapFromMaximal(p, t, front, [w] + taken);
        OverlapFromSuffix(p, t, front, [w] + taken);
        var r := OverlapFrom(p, t, front, [w] + taken);
        if |r| < |ws| + |taken| {
          assert front[|ws| + |taken| - |r| - 1] == ws[|ws| + |taken| - |r| - 1];
        }
      }
    }
  }

  /** The overlap words are the closing words of the text, in their order. */
  lemma OverlapIsSuffix(p: Processor, text: string, target: int)
    ensures |OverlapWords(p, text, target)| <= |Split(text)|
    ensures OverlapWords(p, text, target) ==
      Split(text)[|Split(text)| - |OverlapWords(p, text, target)|..]
  {
    var ws := Split(text);
    OverlapFromSuffix(p, target, ws, []);
    EmptyRight(ws[|ws| - |OverlapWords(p, text, target)|..], []);
  }

  /** A non-empty overlap stays within the target, and one more closing word would exceed it. */
  lemma OverlapBudget(p: Processor, text: string, target: int)
    ensures var ow := OverlapWords(p, text, target);
      |ow| > 0 ==> p.countTokens(OverlapText(p, text, target)) <= target
    ensures var ws, ow := Split(text), OverlapWords(p, text, target);
      |ow| < |ws| ==> p.countTokens(Join(" ", [ws[|ws| - |ow| - 1]] + ow)) > target
  {
    OverlapFromBudget(p, target, Split(text), []);
    OverlapFromMaximal(p, target, Split(text), []);
  }

  lemma WordsJoinEmpty(ws: seq<string>)
    requires AllWords(ws)
    ensures Join(" ", ws) == "" <==> |ws| == 0
  {
    if |ws| > 0 {
      WordJoinTrimmed(ws);
    }
  }

  lemma SuffixWords(ws: seq<string>, n: nat)
    requires AllWords(ws) && n <= |ws|
    ensures AllWords(ws[n..])
  {
    assert forall k :: 0 <= k < |ws| - n ==> ws[n..][k] == ws[n + k];
  }

  lemma OverlapAllWords(p: Processor, text: string, target: int)
    ensures AllWords(OverlapWords(p, text, target))
  {
    OverlapIsSuffix(p, text, target);
    SplitIsWords(text);
    SuffixWords(Split(text), |Split(text)| - |OverlapWords(p, text, target)|);
  }

  /** The overlap is empty exactly when the text has no word or its last word alone exceeds the target. */
  lemma OverlapEmpty(p: Processor, text: string, target: int)
    ensures var ws := Split(text);
      OverlapText(p, text, target) == "" <==>
      (|ws| == 0 || p.countTokens(ws[|ws| - 1]) > target)
  {
    var ws := Split(text);
    var ow := OverlapWords(p, text, target);
    OverlapAllWords(p, text, target);
    WordsJoinEmpty(ow);
    OverlapBudget(p, text, target);
    OverlapIsSuffix(p, text, target);
    if |ws| > 0 {
      var w := ws[|ws| - 1];
      assert Join(" ", [w] + []) == w by {
        assert [w] + [] == [w];
      }
      if p.countTokens(w) > target {
        assert OverlapFrom(p, target, ws, []) == [];
      }
    }
  }

  /** The overlap splits back into its words. */
  lemma OverlapTextWords(p: Processor, text: string, target: int)
    ensures Split(OverlapText(p, text, target)) == OverlapWords(p, text, target)
  {
    OverlapAllWords(p, text, target);
    SplitJoinWords(OverlapWords(p, text, target));
  }

  /** `_get_overlap_text` */
  method GetOverlapText(p: Processor, text: string, targetTokens: int) returns (overlap: string)
    ensures overlap == OverlapText(p, text, targetTokens)
  {
    var words := Split(text);
    var overlapWords: seq<string> := [];
    var i := |words|;
    assert words[..i] == words;
    while i > 0
      invariant 0 <= i <= |words|
      invariant OverlapFrom(p, targetTokens, words[..i], overlapWords) == OverlapWords(p, text, targetTokens)
    {
      var word := words[i - 1];
      assert words[..i][i - 1] == word && words[..i][..i - 1] == words[..i - 1];
      var testText := Join(" ", [word] + overlapWords);
      var testTokens := p.countTokens(testText);
      if testTokens > targetTokens {
        assert OverlapFrom(p, targetTokens, words[..i], overlapWords) == overlapWords;
        break;
      }
      overlapWords := [word] + overlapWords;
      i := i - 1;
    }
    overlap := Join(" ", overlapWords);
  }

  // ---------------------------------------------------------------------------
  // Applying the overlap to a chunk list
  // ---------------------------------------------------------------------------

  /** Chunk `i` after `_apply_overlap`: the overlap of the original predecessor, a space, the chunk. */
  function OverlapChunk(p: Processor, chunks: seq<string>, i: nat): string
    requires i < |chunks|
  {
    if i == 0 then chunks[0]
    else
      var o := OverlapText(p, chunks[i - 1], p.chunkOverlap);
      if o != "" then o + " " + chunks[i] else chunks[i]
  }

  /** `_apply_overlap(chunks)` */
  function Overlapped(p: Processor, chunks: seq<string>): seq<string>
  {
    if |chunks| <= 1 then chunks
    else seq(|chunks|, i requires 0 <= i < |chunks| => OverlapChunk(p, chunks, i))
  }

  lemma SplitPrefixed(o: string, c: string)
    ensures Split(o + " " + c) == Split(o) + Split(c)
  {
    AsciiSpace(' ');
    assert CleanCut(o, " ");
    SplitConcat(o, " ");
    assert AllSpace(" ");
    SplitAllSpace(" ");
    EmptyRight(Split(o), Split(" "));
    SplitConcat(o + " ", c);
  }

  /**
   * The overlap keeps the number of chunks and the first chunk; every later
   * chunk ends with the original and its words are the overlap words of the
   * original predecessor followed by its own.
   */
  lemma OverlappedWords(p: Processor, chunks: seq<string>, i: nat)
    requires i < |chunks|
    ensures |Overlapped(p, chunks)| == |chunks|
    ensures Overlapped(p, chunks)[i] == OverlapChunk(p, chunks, i)
    ensures i == 0 ==> Overlapped(p, chunks)[i] == chunks[0]
    ensures i > 0 ==>
      Split(Overlapped(p, chunks)[i]) == OverlapWords(p, chunks[i - 1], p.chunkOverlap) + Split(chunks[i])
    ensures var c := Overlapped(p, chunks)[i];
      |chunks[i]| <= |c| && c[|c| - |chunks[i]|..] == chunks[i]
  {
    var c := OverlapChunk(p, chunks, i);
    if i > 0 {
      var o := OverlapText(p, chunks[i - 1], p.chunkOverlap);
      OverlapTextWords(p, chunks[i - 1], p.chunkOverlap);
      if o != "" {
        SplitPrefixed(o, chunks[i]);
        assert c[|c| - |chunks[i]|..] == chunks[i];
      } else {
        EmptyLeft(Split(o), Split(chunks[i]));
      }
    }
  }

  /** `_apply_overlap` */
  method ApplyOverlap(p: Processor, chunks: seq<string>) returns (overlapped: seq<string>)
    ensures overlapped == Overlapped(p, chunks)
  {
    if |chunks| <= 1 {
      return chunks;
    }
    overlapped := [];
    var i := 0;
    while i < |chunks|
      invariant 0 <= i <= |chunks| && |overlapped| == i
      invariant forall j :: 0 <= j < i ==> overlapped[j] == OverlapChunk(p, chunks, j)
    {
      if i == 0 {
        overlapped := overlapped + [chunks[i]];
      } else {
        var prevChunk := chunks[i - 1];
        var overlapText := GetOverlapText(p, prevChunk, p.chunkOverlap);
        if overlapText != "" {
          overlapped := overlapped + [overlapText + " " + chunks[i]];
        } else {
          overlapped := overlapped + [chunks[i]];
        }
      }
      i := i + 1;
    }
  }
}
