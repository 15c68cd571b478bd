/**
 * `_split_by_words`: the last resort for a sentence over the token budget.
 * The words of `text.split()` are added one at a time to a pending chunk; the
 * pending chunk is emitted when adding the next word would take its token
 * count over the budget (and it is not empty).
 */
module WordChunker {

  import opened Seqs
  import opened Strings
  import opened ChunkConfig

  /** What the loop still emits from pending chunk `current` and the words not yet visited. */
  function WordPackFrom(p: Processor, current: string, words: seq<string>): seq<string>
    decreases |words|
  {
    if |words| == 0 then (if current == "" then [] else [current])
    else
      var test := Strip(current + " " + words[0]);
      if p.countTokens(test) > p.chunkSize && current != "" then
        [current] + WordPackFrom(p, words[0], words[1..])
      else
        WordPackFrom(p, test, words[1..])
  }

  /** The chunks `_split_by_words(text)` returns. */
  function WordChunks(p: Processor, text: string): seq<string>
  {
    WordPackFrom(p, "", Split(text))
  }

  /** A word chunk is stripped, and it is a single word or within the budget. */
  predicate WordChunkOk(p: Processor, c: string)
  {
    Trimmed(c) && (IsWord(c) || p.countTokens(c) <= p.chunkSize)
  }

  // ---------------------------------------------------------------------------
  // The pending chunk is always the words seen so far, joined by single spaces
  // ---------------------------------------------------------------------------

  lemma AllWordsSnoc(g: seq<string>, w: string)
    requires AllWords(g) && IsWord(w)
    ensures AllWords(g + [w])
  {
    forall k | 0 <= k < |g| + 1 ensures IsWord((g + [w])[k]) {
      if k < |g| { assert (g + [w])[k] == g[k]; }
    }
  }

  lemma JoinWordsEmpty(g: seq<string>)
    requires AllWords(g)
    ensures Join(" ", g) == "" <==> |g| == 0
  {
    if |g| > 0 {
      WordJoinTrimmed(g);
    }
  }

  lemma PendingFirst(w: string)
    requires IsWord(w)
    ensures Strip(Join(" ", []) + " " + w) == Join(" ", [w])
  {
    assert Join(" ", []) + " " + w == " " + w;
    StripSpaceBefore(w);
  }

  lemma PendingNext(g: seq<string>, w: string)
    requires |g| > 0 && AllWords(g) && IsWord(w)
    ensures Strip(Join(" ", g) + " " + w) == Join(" ", g + [w])
  {
    AllWordsSnoc(g, w);
    JoinAppend(" ", g, w);
    WordJoinTrimmed(g + [w]);
    StripTrimmed(Join(" ", g + [w]));
  }

  /** Adding a word to the pending chunk and stripping gives the words so far joined by single spaces. */
  lemma PendingJoin(g: seq<string>, w: string)
    requires AllWords(g) && IsWord(w)
    ensures Strip(Join(" ", g) + " " + w) == Join(" ", g + [w])
    ensures Join(" ", g) == "" <==> |g| == 0
  {
    JoinWordsEmpty(g);
    if |g| == 0 {
      PendingFirst(w);
      assert g + [w] == [w];
    } else {
      PendingNext(g, w);
    }
  }

  lemma GroupChunkOk(p: Processor, g: seq<string>)
    requires |g| > 0 && AllWords(g)
    requires |g| == 1 || p.countTokens(Join(" ", g)) <= p.chunkSize
    ensures WordChunkOk(p, Join(" ", g))
  {
    WordJoinTrimmed(g);
  }

  lemma {:induction false} WordPackNonEmpty(p: Processor, g: seq<string>, ws: seq<string>)
    requires |g| > 0 && AllWords(g) && AllWords(ws)
    ensures |WordPackFrom(p, Join(" ", g), ws)| > 0
    decreases |ws|
  {
    if |ws| > 0 {
      var w := ws[0];
      PendingJoin(g, w);
      var test := Strip(Join(" ", g) + " " + w);
      if !(p.countTokens(test) > p.chunkSize) {
        AllWordsSnoc(g, w);
        WordPackNonEmpty(p, g + [w], ws[1..]);
      }
    } else {
      JoinWordsEmpty(g);
    }
  }

  lemma {:induction false} WordPackWords(p: Processor, g: seq<string>, ws: seq<string>)
    requires AllWords(g) && AllWords(ws)
    ensures Words(WordPackFrom(p, Join(" ", g), ws)) == g + ws
    decreases |ws|
  {
    var cur := Join(" ", g);
    if |ws| == 0 {
      JoinWordsEmpty(g);
      if |g| > 0 {
        WordsCons(cur, []);
        SplitJoinWords(g);
      }
    } else {
      var w := ws[0];
      PendingJoin(g, w);
      var test := Strip(cur + " " + w);
      if p.countTokens(test) > p.chunkSize && cur != "" {
        assert Join(" ", [w]) == w;
        WordPackWords(p, [w], ws[1..]);
        WordsCons(cur, WordPackFrom(p, w, ws[1..]));
        SplitJoinWords(g);
        ConsSplit(ws);
      } else {
        AllWordsSnoc(g, w);
        WordPackWords(p, g + [w], ws[1..]);
        AppendOne(g, w, ws[1..]);
        ConsSplit(ws);
      }
    }
  }

  lemma {:induction false} WordPackJoin(p: Processor, g: seq<string>, ws: seq<string>)
    requires AllWords(g) && AllWords(ws)
    ensures Join(" ", WordPackFrom(p, Join(" ", g), ws)) == Join(" ", g + ws)
    decreases |ws|
  {
    var cur := Join(" ", g);
    if |ws| == 0 {
      JoinWordsEmpty(g);
      EmptyRight(g, ws);
    } else {
      var w := ws[0];
      PendingJoin(g, w);
      var test := Strip(cur + " " + w);
      if p.countTokens(test) > p.chunkSize && cur != "" {
        assert Join(" ", [w]) == w;
        var r' := WordPackFrom(p, w, ws[1..]);
        WordPackJoin(p, [w], ws[1..]);
        WordPackNonEmpty(p, [w], ws[1..]);
        ConsSplit(ws);
        assert ([cur] + r')[1..] == r';
        assert Join(" ", [cur] + r') == cur + " " + Join(" ", r');
        JoinConcat(" ", g, ws);
      } else {
        AllWordsSnoc(g, w);
        WordPackJoin(p, g + [w], ws[1..]);
        AppendOne(g, w, ws[1..]);
        ConsSplit(ws);
      }
    }
  }

  lemma {:induction false} WordPackBound(p: Processor, g: seq<string>, ws: seq<string>)
    requires AllWords(g) && AllWords(ws)
    requires |g| <= 1 || p.countTokens(Join(" ", g)) <= p.chunkSize
    ensures forall k :: 0 <= k < |WordPackFrom(p, Join(" ", g), ws)| ==>
              WordChunkOk(p, WordPackFrom(p, Join(" ", g), ws)[k])
    decreases |ws|
  {
    var cur := Join(" ", g);
    if |ws| == 0 {
      JoinWordsEmpty(g);
      if |g| > 0 { GroupChunkOk(p, g); }
    } else {
      var w := ws[0];
      PendingJoin(g, w);
      var test := Strip(cur + " " + w);
      if p.countTokens(test) > p.chunkSize && cur != "" {
        assert Join(" ", [w]) == w;
        WordPackBound(p, [w], ws[1..]);
        var r' := WordPackFrom(p, w, ws[1..]);
        assert forall k :: 0 <= k < |r'| ==> WordChunkOk(p, r'[k]);
        GroupChunkOk(p, g);
        assert WordChunkOk(p, cur);
        var r := [cur] + r';
        assert WordPackFrom(p, cur, ws) == r;
        forall k | 0 <= k < |r| ensures WordChunkOk(p, r[k]) {
          if k == 0 { assert r[k] == cur; } else { assert r[k] == r'[k - 1]; }
        }
      } else {
        AllWordsSnoc(g, w);
        WordPackBound(p, g + [w], ws[1..]);
        assert WordPackFrom(p, cur, ws) == WordPackFrom(p, Join(" ", g + [w]), ws[1..]);
      }
    }
  }

  // ---------------------------------------------------------------------------
  // What `_split_by_words` promises
  // ---------------------------------------------------------------------------

  /** The loop starts from an empty pending chunk: the join of no words. */
  lemma WordChunksStart(p: Processor, text: string)
    ensures AllWords(Split(text))
    ensures WordChunks(p, text) == WordPackFrom(p, Join(" ", []), Split(text))
  {
    SplitIsWords(text);
  }

  /** No word is lost, reordered or invented: the chunks hold exactly the words of the text. */
  lemma WordChunksWords(p: Processor, text: string)
    ensures Words(WordChunks(p, text)) == Split(text)
  {
    var ws := Split(text);
    WordChunksStart(p, text);
    WordPackWords(p, [], ws);
    EmptyLeft([], ws);
  }

  /** `" ".join(result) == " ".join(text.split())`: only the whitespace between words is normalised. */
  lemma WordChunksJoin(p: Processor, text: string)
    ensures Join(" ", WordChunks(p, text)) == Join(" ", Split(text))
  {
    var ws := Split(text);
    WordChunksStart(p, text);
    WordPackJoin(p, [], ws);
    EmptyLeft([], ws);
  }

  /** Every chunk is stripped and non-empty, and is a single word or within the budget. */
  lemma WordChunksBound(p: Processor, text: string)
    ensures forall k :: 0 <= k < |WordChunks(p, text)| ==> WordChunkOk(p, WordChunks(p, text)[k])
  {
    WordChunksStart(p, text);
    WordPackBound(p, [], Split(text));
  }

  /** There are no chunks exactly when the text holds no word. */
  lemma WordChunksEmpty(p: Processor, text: string)
    ensures WordChunks(p, text) == [] <==> AllSpace(text)
  {
    WordChunksWords(p, text);
    SplitAllSpace(text);
  }

  /** The loop of `_split_by_words`. */
  method SplitByWords(p: Processor, text: string) returns (chunks: seq<string>)
    ensures chunks == WordChunks(p, text)
  {
    var words := Split(text);
    chunks := [];
    var current := "";
    var i := 0;
    while i < |words|
      invariant 0 <= i <= |words|
      invariant chunks + WordPackFrom(p, current, words[i..]) == WordChunks(p, text)
    {
      var word := words[i];
      SliceCons(words, i);
      var test := Strip(current + " " + word);
      if p.countTokens(test) > p.chunkSize && current != "" {
        AppendOne(chunks, current, WordPackFrom(p, word, words[i + 1..]));
        chunks := chunks + [current];
        current := word;
      } else {
        current := test;
      }
      i := i + 1;
    }
    if current != "" {
      chunks := chunks + [current];
    } else {
      EmptyRight(chunks, []);
    }
  }
}
