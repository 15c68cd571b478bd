/**
 * `_fallback_character_split`: the text is cut into windows of
 * `4 * chunk_size` characters starting at every multiple of that width, and
 * the stripped windows that are not blank are the chunks.
 */
module Fallback {

  import opened Seqs
  import opened Strings
  import opened ChunkConfig

  /** `min(i + n, |text|)`: where Python's slice `text[i:i + n]` ends. */
  function WindowEnd(text: string, n: int, i: int): int
  {
    if i + n <= |text| then i + n else |text|
  }

  /** `[text[j:j + n] for j in range(i, len(text), n)]` */
  function WindowsFrom(text: string, n: int, i: nat): seq<string>
    requires n > 0
    decreases |text| - i
  {
    if i >= |text| then []
    else [text[i..WindowEnd(text, n, i)]] + WindowsFrom(text, n, i + n)
  }

  function Windows(text: string, n: int): seq<string>
    requires n > 0
  {
    WindowsFrom(text, n, 0)
  }

  /** The chunks `_fallback_character_split(text)` returns. */
  function FallbackChunks(p: Processor, text: string): seq<string>
    requires p.chunkSize > 0
  {
    StrippedNonBlank(Windows(text, p.chunkSize * 4))
  }

  // ---------------------------------------------------------------------------
  // The windows
  // ---------------------------------------------------------------------------

  /** The windows put back together give the text: nothing is lost, repeated or reordered. */
  lemma {:induction false} WindowsFromJoin(text: string, n: int, i: nat)
    requires n > 0 && i <= |text|
    ensures Join("", WindowsFrom(text, n, i)) == text[i..]
    decreases |text| - i
  {
    if i < |text| {
      var e := WindowEnd(text, n, i);
      var rest := WindowsFrom(text, n, i + n);
      if i + n < |text| {
        WindowsFromJoin(text, n, i + n);
        assert |rest| > 0;
        assert Join("", [text[i..e]] + rest) == text[i..e] + "" + Join("", rest) by {
          DropOneConcat([text[i..e]], rest);
        }
        assert text[i..] == text[i..e] + text[e..];
      } else {
        assert rest == [];
        assert Join("", [text[i..e]]) == text[i..e];
      }
    }
  }

  /** Window `k` starts at `k * n`; every window is non-empty, holds at most `n` characters, and all but the last exactly `n`. */
  lemma {:induction false} WindowsFromAt(text: string, n: int, i: nat, k: nat)
    requires n > 0 && k < |WindowsFrom(text, n, i)|
    ensures i + k * n < |text|
    ensures WindowsFrom(text, n, i)[k] == text[i + k * n..WindowEnd(text, n, i + k * n)]
    ensures 0 < |WindowsFrom(text, n, i)[k]| <= n
    ensures k < |WindowsFrom(text, n, i)| - 1 ==> |WindowsFrom(text, n, i)[k]| == n
    decreases |text| - i
  {
    var ws := WindowsFrom(text, n, i);
    if k > 0 {
      WindowsFromAt(text, n, i + n, k - 1);
      assert i + n + (k - 1) * n == i + k * n;
      assert ws[k] == WindowsFrom(text, n, i + n)[k - 1];
    } else if k < |ws| - 1 {
      assert i + n < |text|;
    }
  }

  lemma WindowsJoin(text: string, n: int)
    requires n > 0
    ensures Join("", Windows(text, n)) == text
  {
    WindowsFromJoin(text, n, 0);
  }

  lemma WindowsAt(text: string, n: int, k: nat)
    requires n > 0 && k < |Windows(text, n)|
    ensures k * n < |text|
    ensures Windows(text, n)[k] == text[k * n..WindowEnd(text, n, k * n)]
    ensures 0 < |Windows(text, n)[k]| <= n
    ensures k < |Windows(text, n)| - 1 ==> |Windows(text, n)[k]| == n
  {
    WindowsFromAt(text, n, 0, k);
  }

  lemma {:induction false} StrippedNonBlankShorter(parts: seq<string>, n: int)
    requires forall k :: 0 <= k < |parts| ==> |parts[k]| <= n
    ensures forall k :: 0 <= k < |StrippedNonBlank(parts)| ==> |StrippedNonBlank(parts)[k]| <= n
  {
    if |parts| > 0 {
      var rest := StrippedNonBlank(parts[1..]);
      assert forall k :: 0 <= k < |parts| - 1 ==> parts[1..][k] == parts[k + 1];
      StrippedNonBlankShorter(parts[1..], n);
      var x := Strip(parts[0]);
      if x != "" {
        assert forall k :: 0 < k < |rest| + 1 ==> ([x] + rest)[k] == rest[k - 1];
      }
    }
  }

  /** Fallback chunks are stripped, non-blank and at most `4 * chunk_size` characters long. */
  lemma FallbackChunksShape(p: Processor, text: string)
    requires p.chunkSize > 0
    ensures AllTrimmed(FallbackChunks(p, text))
    ensures forall k :: 0 <= k < |FallbackChunks(p, text)| ==> |FallbackChunks(p, text)[k]| <= p.chunkSize * 4
  {
    var ws := Windows(text, p.chunkSize * 4);
    forall k | 0 <= k < |ws| ensures |ws[k]| <= p.chunkSize * 4 {
      WindowsAt(text, p.chunkSize * 4, k);
    }
    StrippedNonBlankShorter(ws, p.chunkSize * 4);
  }

  lemma WindowsFromCons(text: string, n: int, i: nat, next: nat)
    requires n > 0 && i < |text| && next == i + n
    ensures WindowsFrom(text, n, i) == [text[i..WindowEnd(text, n, i)]] + WindowsFrom(text, n, next)
  {
  }

  lemma KeepStep(c: seq<string>, chunk: string, rest: seq<string>, target: seq<string>)
    requires c + StrippedNonBlank([chunk] + rest) == target
    ensures c + StrippedNonBlank([chunk]) + StrippedNonBlank(rest) == target
  {
    StrippedNonBlankCons(chunk, rest);
    StrippedNonBlankCons(chunk, []);
    AppendOne(c, Strip(chunk), StrippedNonBlank(rest));
  }

  lemma FallbackStep(c: seq<string>, text: string, n: int, i: nat, next: nat, target: seq<string>)
    requires n > 0 && i < |text| && next == i + n
    requires c + StrippedNonBlank(WindowsFrom(text, n, i)) == target
    ensures c + StrippedNonBlank([text[i..WindowEnd(text, n, i)]]) + StrippedNonBlank(WindowsFrom(text, n, next)) == target
  {
    WindowsFromCons(text, n, i, next);
    KeepStep(c, text[i..WindowEnd(text, n, i)], WindowsFrom(text, n, next), target);
  }

  /** `if chunk.strip(): chunks.append(chunk.strip())` */
  method KeepStripped(chunks: seq<string>, chunk: string) returns (out: seq<string>)
    ensures out == chunks + StrippedNonBlank([chunk])
  {
    StrippedNonBlankCons(chunk, []);
    if Strip(chunk) != "" {
      out := chunks + [Strip(chunk)];
    } else {
      out := chunks;
    }
  }

  /** `_fallback_character_split` */
  method FallbackCharacterSplit(p: Processor, text: string) returns (chunks: seq<string>)
    requires p.chunkSize > 0
    ensures chunks == FallbackChunks(p, text)
  {
    var chunkSizeChars := p.chunkSize * 4;
    ghost var target := FallbackChunks(p, text);
    EmptyLeft([], target);
    chunks := [];
    var i := 0;
    while i < |text|
      invariant 0 <= i
      invariant chunks + StrippedNonBlank(WindowsFrom(text, chunkSizeChars, i)) == target
      decreases |text| - i
    {
      var chunk := text[i..WindowEnd(text, chunkSizeChars, i)];
      var next := i + chunkSizeChars;
      FallbackStep(chunks, text, chunkSizeChars, i, next, target);
      chunks := KeepStripped(chunks, chunk);
      i := next;
    }
    EmptyRight(chunks, StrippedNonBlank(WindowsFrom(text, chunkSizeChars, i)));
  }
}
