/**
 * Definitions of the Python string primitives the service relies on:
 * `str.isspace`, `str.strip`, `str.split()` (whitespace runs), `str.split(sep)`
 * (an exact separator), `" ".join`, the sentence cut `re.split(r'(?<=[.!?])\s+', s)`,
 * ASCII `str.lower`, substring search, and the POSIX `pathlib` name and suffix.
 *
 * Besides the definitions, this module proves the facts the chunker's
 * reconstruction proofs rest on: splitting on whitespace distributes over a
 * concatenation that is cut at whitespace, and every separator split keeps the
 * words of its input.
 */
module Strings {

  import opened Seqs

  // ---------------------------------------------------------------------------
  // Characters
  // ---------------------------------------------------------------------------

  /** The code-point ranges (inclusive) of the characters Python's `str.isspace()` accepts. */
  const SpaceRanges: seq<(int, int)> :=
    [(9, 13), (28, 32), (0x85, 0x85), (0xA0, 0xA0), (0x1680, 0x1680), (0x2000, 0x200A),
     (0x2028, 0x2029), (0x202F, 0x202F), (0x205F, 0x205F), (0x3000, 0x3000)]

  predicate InRanges(n: int, rs: seq<(int, int)>)
  {
    |rs| > 0 && (rs[0].0 <= n <= rs[0].1 || InRanges(n, rs[1..]))
  }

  /** Python's `str.isspace()` for one character (also what `\s` matches in `re`). */
  predicate IsSpace(c: char)
  {
    InRanges(c as int, SpaceRanges)
  }

  lemma {:induction false} InRangesBelow(n: int, rs: seq<(int, int)>)
    requires forall k :: 0 <= k < |rs| ==> n < rs[k].0
    ensures !InRanges(n, rs)
  {
    if |rs| > 0 {
      InRangesBelow(n, rs[1..]);
    }
  }

  /** Among ASCII characters, exactly tab, newline, vertical tab, form feed, carriage return, the four separators 0x1C-0x1F and the blank are whitespace. */
  lemma AsciiSpace(c: char)
    requires c as int < 0x80
    ensures IsSpace(c) <==> 9 <= c as int <= 13 || 28 <= c as int <= 32
  {
    var rs := SpaceRanges;
    assert rs[0] == (9, 13) && rs[1..][0] == (28, 32);
    assert InRanges(c as int, rs) == (9 <= c as int <= 13 || InRanges(c as int, rs[1..]));
    assert InRanges(c as int, rs[1..]) == (28 <= c as int <= 32 || InRanges(c as int, rs[1..][1..]));
    InRangesBelow(c as int, rs[1..][1..]);
  }

  predicate AllSpace(s: string)
  {
    forall i :: 0 <= i < |s| ==> IsSpace(s[i])
  }

  /** A non-empty run of non-whitespace characters: one element of `str.split()`. */
  predicate IsWord(s: string)
  {
    |s| > 0 && forall i :: 0 <= i < |s| ==> !IsSpace(s[i])
  }

  /** Non-empty, and neither end is whitespace: what `str.strip()` leaves of a non-blank string. */
  predicate Trimmed(s: string)
  {
    |s| > 0 && !IsSpace(s[0]) && !IsSpace(s[|s| - 1])
  }

  predicate AllWords(ws: seq<string>)
  {
    forall k :: 0 <= k < |ws| ==> IsWord(ws[k])
  }

  predicate AllTrimmed(ps: seq<string>)
  {
    forall k :: 0 <= k < |ps| ==> Trimmed(ps[k])
  }

  // ---------------------------------------------------------------------------
  // strip
  // ---------------------------------------------------------------------------

  /** Number of leading whitespace characters. */
  function SpaceRun(s: string): (n: nat)
    ensures n <= |s|
    ensures n < |s| ==> !IsSpace(s[n])
  {
    if |s| == 0 || !IsSpace(s[0]) then 0 else 1 + SpaceRun(s[1..])
  }

  lemma {:induction false} SpaceRunSpaces(s: string)
    ensures forall i :: 0 <= i < SpaceRun(s) ==> IsSpace(s[i])
  {
    if |s| > 0 && IsSpace(s[0]) {
      SpaceRunSpaces(s[1..]);
      assert forall i :: 1 <= i < |s| ==> s[i] == s[1..][i - 1];
    }
  }

  /** Number of trailing whitespace characters. */
  function TrailingSpace(s: string): (n: nat)
    ensures n <= |s|
    ensures n < |s| ==> !IsSpace(s[|s| - n - 1])
  {
    if |s| == 0 || !IsSpace(s[|s| - 1]) then 0 else 1 + TrailingSpace(s[..|s| - 1])
  }

  lemma {:induction false} TrailingSpaces(s: string)
    ensures forall i :: |s| - TrailingSpace(s) <= i < |s| ==> IsSpace(s[i])
  {
    if |s| > 0 && IsSpace(s[|s| - 1]) {
      TrailingSpaces(s[..|s| - 1]);
      assert forall i :: 0 <= i < |s| - 1 ==> s[i] == s[..|s| - 1][i];
    }
  }

  /** `str.lstrip()` */
  function TrimLeft(s: string): string
  {
    s[SpaceRun(s)..]
  }

  /** `str.rstrip()` */
  function TrimRight(s: string): string
  {
    s[..|s| - TrailingSpace(s)]
  }

  /** Python's `str.strip()`: whitespace removed from both ends. */
  function Strip(s: string): (r: string)
    ensures |r| <= |s|
    ensures r != [] ==> Trimmed(r)
  {
    var l := TrimLeft(s);
    var r := TrimRight(l);
    assert r != [] ==> r[0] == l[0] && !IsSpace(l[0]);
    r
  }

  /** `str.strip()` leaves nothing exactly when the input is all whitespace. */
  lemma StripBlank(s: string)
    ensures Strip(s) == [] <==> AllSpace(s)
  {
    var k := SpaceRun(s);
    var l := TrimLeft(s);
    SpaceRunSpaces(s);
    TrailingSpaces(l);
    assert l != [] ==> l[0] == s[k] && !IsSpace(l[0]);
    assert l != [] ==> TrailingSpace(l) < |l|;
    if l == [] {
      assert k == |s|;
    }
  }

  /** A leading blank before a trimmed text is stripped away. */
  lemma StripSpaceBefore(w: string)
    requires Trimmed(w)
    ensures Strip(" " + w) == w
  {
    AsciiSpace(' ');
    var s := " " + w;
    assert s[1..] == w;
    assert SpaceRun(s) == 1 + SpaceRun(w);
    assert TrimLeft(s) == w;
  }

  lemma StripTrimmed(s: string)
    requires Trimmed(s)
    ensures Strip(s) == s
  {
  }

  // ---------------------------------------------------------------------------
  // split() on whitespace runs, and join
  // ---------------------------------------------------------------------------

  /** Length of the leading run of non-whitespace characters. */
  function RunLength(s: string): (n: nat)
    ensures n <= |s|
  {
    if |s| == 0 || IsSpace(s[0]) then 0 else 1 + RunLength(s[1..])
  }

  lemma {:induction false} RunLengthFacts(s: string)
    ensures forall i :: 0 <= i < RunLength(s) ==> !IsSpace(s[i])
    ensures RunLength(s) < |s| ==> IsSpace(s[RunLength(s)])
  {
    if |s| > 0 && !IsSpace(s[0]) {
      var t := s[1..];
      RunLengthFacts(t);
      assert RunLength(s) == 1 + RunLength(t);
      forall i | 0 <= i < RunLength(s) ensures !IsSpace(s[i]) {
        if i > 0 { assert s[i] == t[i - 1]; }
      }
    }
  }

  /** Python's `str.split()` with no argument: the maximal non-whitespace runs, in order. */
  function Split(s: string): seq<string>
    decreases |s|
  {
    if |s| == 0 then []
    else if IsSpace(s[0]) then Split(s[1..])
    else
      var n := RunLength(s);
      [s[..n]] + Split(s[n..])
  }

  /** Every element of `str.split()` is a word. */
  lemma {:induction false} SplitIsWords(s: string)
    ensures AllWords(Split(s))
    decreases |s|
  {
    if |s| > 0 {
      if IsSpace(s[0]) {
        SplitIsWords(s[1..]);
      } else {
        var n := RunLength(s);
        SplitIsWords(s[n..]);
        RunLengthFacts(s);
        assert IsWord(s[..n]);
      }
    }
  }

  /** Python's `sep.join(parts)`. */
  function Join(sep: string, parts: seq<string>): string
  {
    if |parts| == 0 then ""
    else if |parts| == 1 then parts[0]
    else parts[0] + sep + Join(sep, parts[1..])
  }

  /** The words of each part, concatenated in order. */
  function Words(parts: seq<string>): seq<string>
  {
    if |parts| == 0 then [] else Split(parts[0]) + Words(parts[1..])
  }

  /** `a + b` is cut at whitespace: no word runs across the boundary. */
  predicate CleanCut(a: string, b: string)
  {
    |a| == 0 || |b| == 0 || IsSpace(a[|a| - 1]) || IsSpace(b[0])
  }

  lemma {:induction false} RunLengthConcat(a: string, b: string)
    requires RunLength(a) < |a| || |b| == 0 || IsSpace(b[0])
    ensures RunLength(a + b) == RunLength(a)
    decreases |a|
  {
    if |a| == 0 {
      EmptyLeft(a, b);
    } else if !IsSpace(a[0]) {
      DropOneConcat(a, b);
      RunLengthConcat(a[1..], b);
    }
  }

  lemma {:induction false} SplitConcat(a: string, b: string)
    requires CleanCut(a, b)
    ensures Split(a + b) == Split(a) + Split(b)
    decreases |a|, 1
  {
    if |a| == 0 {
      EmptyLeft(a, b);
    } else if IsSpace(a[0]) {
      DropOneConcat(a, b);
      SplitConcat(a[1..], b);
    } else {
      SplitConcatAtWord(a, b);
    }
  }

  lemma {:induction false} SplitConcatAtWord(a: string, b: string)
    requires CleanCut(a, b) && |a| > 0 && !IsSpace(a[0])
    ensures Split(a + b) == Split(a) + Split(b)
    decreases |a|, 0
  {
    var n := RunLength(a);
    DropOneConcat(a, b);
    assert RunLength(a + b) == n by {
      RunLengthFacts(a);
      RunLengthConcat(a, b);
    }
    SliceConcat(a, b, n);
    SplitConcat(a[n..], b);
    assert Split(a + b) == [a[..n]] + (Split(a[n..]) + Split(b));
    assert Split(a) == [a[..n]] + Split(a[n..]);
    AppendAssoc([a[..n]], Split(a[n..]), Split(b));
  }

  lemma {:induction false} SplitAllSpace(s: string)
    ensures Split(s) == [] <==> AllSpace(s)
    decreases |s|
  {
    if |s| > 0 {
      if IsSpace(s[0]) {
        SplitAllSpace(s[1..]);
        assert AllSpace(s[1..]) ==> AllSpace(s) by {
          if AllSpace(s[1..]) {
            forall i | 0 <= i < |s| ensures IsSpace(s[i]) {
              if i > 0 { assert s[i] == s[1..][i - 1]; }
            }
          }
        }
      }
    }
  }

  lemma SplitWord(w: string)
    requires IsWord(w)
    ensures Split(w) == [w]
  {
    var n := RunLength(w);
    RunLengthFacts(w);
    assert n == |w|;
    assert !IsSpace(w[0]);
    assert w[..n] == w && w[n..] == [];
    assert Split(w) == [w[..n]] + Split(w[n..]);
  }

  lemma {:induction false} WordsOfWords(ws: seq<string>)
    requires AllWords(ws)
    ensures Words(ws) == ws
  {
    if |ws| > 0 {
      SplitWord(ws[0]);
      WordsOfWords(ws[1..]);
    }
  }

  lemma {:induction false} SplitTrimLeft(s: string)
    ensures Split(TrimLeft(s)) == Split(s)
    decreases |s|
  {
    if |s| > 0 && IsSpace(s[0]) {
      assert TrimLeft(s) == TrimLeft(s[1..]);
      SplitTrimLeft(s[1..]);
    }
  }

  lemma SplitTrimRight(s: string)
    ensures Split(TrimRight(s)) == Split(s)
  {
    var r := TrimRight(s);
    var tail := s[|r|..];
    TrailingSpaces(s);
    assert s == r + tail;
    assert AllSpace(tail) by {
      forall k | 0 <= k < |tail| ensures IsSpace(tail[k]) {
        assert tail[k] == s[|r| + k];
      }
    }
    assert CleanCut(r, tail);
    SplitConcat(r, tail);
    SplitAllSpace(tail);
  }

  /** Stripping first changes nothing about the words. */
  lemma SplitStrip(s: string)
    ensures Split(Strip(s)) == Split(s)
  {
    SplitTrimLeft(s);
    SplitTrimRight(TrimLeft(s));
  }

  lemma {:induction false} WordsAppend(a: seq<string>, b: seq<string>)
    ensures Words(a + b) == Words(a) + Words(b)
  {
    if |a| > 0 {
      assert (a + b)[1..] == a[1..] + b;
      WordsAppend(a[1..], b);
    } else {
      assert a + b == b;
    }
  }

  /** Joining with a non-empty whitespace separator keeps exactly the words of the parts. */
  lemma {:induction false} SplitJoin(sep: string, parts: seq<string>)
    requires |sep| > 0 && AllSpace(sep)
    ensures Split(Join(sep, parts)) == Words(parts)
  {
    if |parts| == 1 {
      assert Words(parts) == Split(parts[0]) + Words([]);
    } else if |parts| > 1 {
      var rest := Join(sep, parts[1..]);
      assert parts[0] + sep + rest == parts[0] + (sep + rest);
      SplitConcat(parts[0], sep + rest);
      SplitConcat(sep, rest);
      SplitAllSpace(sep);
      SplitJoin(sep, parts[1..]);
    }
  }

  /** Words re-joined with single spaces split back into the same words. */
  lemma SplitJoinWords(ws: seq<string>)
    requires AllWords(ws)
    ensures Split(Join(" ", ws)) == ws
  {
    SplitJoin(" ", ws);
    WordsOfWords(ws);
  }

  lemma {:induction false} JoinAppend(sep: string, parts: seq<string>, x: string)
    requires |parts| > 0
    ensures Join(sep, parts + [x]) == Join(sep, parts) + sep + x
  {
    if |parts| > 1 {
      assert (parts + [x])[1..] == parts[1..] + [x];
      JoinAppend(sep, parts[1..], x);
    }
  }

  /** Joining two non-empty lists joins their joins with one more separator. */
  lemma {:induction false} JoinConcat(sep: string, a: seq<string>, b: seq<string>)
    requires |a| > 0 && |b| > 0
    ensures Join(sep, a + b) == Join(sep, a) + sep + Join(sep, b)
  {
    DropOneConcat(a, b);
    if |a| == 1 {
      assert (a + b)[1..] == b;
    } else {
      JoinConcat(sep, a[1..], b);
      var x, j1, jb := a[0], Join(sep, a[1..]), Join(sep, b);
      assert Join(sep, a + b) == x + sep + (j1 + sep + jb);
      assert Join(sep, a) == x + sep + j1;
      assert x + sep + (j1 + sep + jb) == (x + sep + j1) + sep + jb;
    }
  }

  lemma {:induction false} TrimmedJoin(sep: string, parts: seq<string>)
    requires |parts| > 0 && AllTrimmed(parts)
    ensures Trimmed(Join(sep, parts))
  {
    if |parts| > 1 {
      TrimmedJoin(sep, parts[1..]);
    }
  }

  lemma {:induction false} WordJoinTrimmed(ws: seq<string>)
    requires |ws| > 0 && AllWords(ws)
    ensures Trimmed(Join(" ", ws))
  {
    assert AllTrimmed(ws) by {
      forall k | 0 <= k < |ws| ensures Trimmed(ws[k]) {
        assert IsWord(ws[k]);
      }
    }
    TrimmedJoin(" ", ws);
  }

  // ---------------------------------------------------------------------------
  // split(sep) on an exact separator
  // ---------------------------------------------------------------------------

  /** Python's `s.split(sep)` for a non-empty separator: leftmost, non-overlapping cuts. */
  function SplitOn(s: string, sep: string): (r: seq<string>)
    requires |sep| > 0
    ensures |r| >= 1
    decreases |s|
  {
    if |s| < |sep| then [s]
    else if s[..|sep|] == sep then [""] + SplitOn(s[|sep|..], sep)
    else
      var r := SplitOn(s[1..], sep);
      [[s[0]] + r[0]] + r[1..]
  }

  lemma JoinGrowHead(sep: string, x: string, r: seq<string>)
    requires |r| >= 1
    ensures Join(sep, [x + r[0]] + r[1..]) == x + Join(sep, r)
  {
    var q := [x + r[0]] + r[1..];
    if |r| > 1 {
      assert q[1..] == r[1..];
      assert Join(sep, q) == (x + r[0]) + sep + Join(sep, r[1..]);
    }
  }

  /** Round trip: joining the pieces with the separator gives back the input. */
  lemma {:induction false} JoinSplitOn(s: string, sep: string)
    requires |sep| > 0
    ensures Join(sep, SplitOn(s, sep)) == s
    decreases |s|
  {
    if |s| < |sep| {
    } else if s[..|sep|] == sep {
      var rest := SplitOn(s[|sep|..], sep);
      JoinSplitOn(s[|sep|..], sep);
      var q := [""] + rest;
      assert SplitOn(s, sep) == q;
      assert q[1..] == rest;
      assert Join(sep, q) == "" + sep + Join(sep, rest);
      assert s == sep + s[|sep|..];
    } else {
      var r := SplitOn(s[1..], sep);
      JoinSplitOn(s[1..], sep);
      assert SplitOn(s, sep) == [[s[0]] + r[0]] + r[1..];
      JoinGrowHead(sep, [s[0]], r);
      assert s == [s[0]] + s[1..];
    }
  }

  lemma WordsSplitOn(s: string, sep: string)
    requires |sep| > 0 && AllSpace(sep)
    ensures Words(SplitOn(s, sep)) == Split(s)
  {
    JoinSplitOn(s, sep);
    SplitJoin(sep, SplitOn(s, sep));
  }

  /** One step of `SplitOn` for a one-character separator. */
  lemma SplitOnCons(x: char, s: string, c: char)
    ensures SplitOn([x] + s, [c]) ==
      (if x == c then [""] + SplitOn(s, [c])
       else var r := SplitOn(s, [c]); [[x] + r[0]] + r[1..])
  {
    var xs := [x] + s;
    assert xs[..1] == [x] && xs[1..] == s;
  }

  lemma PrependAppend<T>(h: T, r: seq<T>, b: seq<T>)
    ensures [h] + (r + b) == ([h] + r) + b
  {
  }

  lemma GrowHeadAppend(x: string, ra: seq<string>, b: seq<string>)
    requires |ra| >= 1
    ensures var rs := ra + b; [x + rs[0]] + rs[1..] == ([x + ra[0]] + ra[1..]) + b
  {
    var rs := ra + b;
    assert rs[0] == ra[0] && rs[1..] == ra[1..] + b;
    PrependAppend(x + ra[0], ra[1..], b);
  }

  lemma SplitOnAroundStep(x: char, a: string, c: char, b: string, rest: string)
    requires SplitOn(rest, [c]) == SplitOn(a, [c]) + SplitOn(b, [c])
    ensures SplitOn([x] + rest, [c]) == SplitOn([x] + a, [c]) + SplitOn(b, [c])
  {
    SplitOnCons(x, rest, c);
    SplitOnCons(x, a, c);
    if x == c {
      PrependAppend("", SplitOn(a, [c]), SplitOn(b, [c]));
    } else {
      GrowHeadAppend([x], SplitOn(a, [c]), SplitOn(b, [c]));
    }
  }

  /** For a one-character separator the split of a concatenation around it is the concatenation of the splits. */
  lemma {:induction false} SplitOnAround(a: string, c: char, b: string)
    ensures SplitOn(a + [c] + b, [c]) == SplitOn(a, [c]) + SplitOn(b, [c])
    decreases |a|
  {
    if |a| == 0 {
      EmptyLeft(a, [c]);
      SplitOnCons(c, b, c);
      assert SplitOn(a, [c]) == [""];
    } else {
      var rest := a[1..] + [c] + b;
      SplitOnAround(a[1..], c, b);
      SplitOnAroundStep(a[0], a[1..], c, b, rest);
      ConsSplit(a);
      ConsConcat3(a[0], a[1..], [c], b);
    }
  }

  // ---------------------------------------------------------------------------
  // re.split(r'(?<=[.!?])\s+', s)
  // ---------------------------------------------------------------------------

  predicate IsSentenceEnd(c: char)
  {
    c == '.' || c == '!' || c == '?'
  }

  /** Position `i` starts a match: preceded by `.`, `!` or `?` and at whitespace. */
  predicate IsSentenceBoundary(s: string, i: int)
  {
    0 < i < |s| && IsSentenceEnd(s[i - 1]) && IsSpace(s[i])
  }

  /**
   * The pieces of `s` when scanning for the first boundary at or after `i`;
   * `SentenceSplit(s) == SentenceSplitFrom(s, 0)`.
   */
  function SentenceSplitFrom(s: string, i: nat): (r: seq<string>)
    requires i <= |s|
    ensures |r| >= 1
    decreases |s|, |s| - i
  {
    if i == |s| then [s]
    else if IsSentenceBoundary(s, i) then
      var j := i + SpaceRun(s[i..]);
      [s[..i]] + SentenceSplitFrom(s[j..], 0)
    else SentenceSplitFrom(s, i + 1)
  }

  function SentenceSplit(s: string): seq<string>
  {
    SentenceSplitFrom(s, 0)
  }

  lemma WordsCons(x: string, rest: seq<string>)
    ensures Words([x] + rest) == Split(x) + Words(rest)
  {
    assert ([x] + rest)[1..] == rest;
  }

  lemma {:induction false} SplitSkipSpace(gap: string, tail: string)
    requires AllSpace(gap)
    ensures Split(gap + tail) == Split(tail)
    decreases |gap|
  {
    if |gap| == 0 {
      assert gap + tail == tail;
    } else {
      var g := gap + tail;
      assert g[0] == gap[0] && IsSpace(g[0]);
      assert g[1..] == gap[1..] + tail;
      assert AllSpace(gap[1..]) by {
        forall k | 0 <= k < |gap| - 1 ensures IsSpace(gap[1..][k]) {
          assert gap[1..][k] == gap[k + 1];
        }
      }
      SplitSkipSpace(gap[1..], tail);
    }
  }

  /** Cutting out a non-empty whitespace run leaves the words on either side of it. */
  lemma SplitCutGap(head: string, gap: string, tail: string)
    requires |gap| > 0 && AllSpace(gap)
    ensures Split(head + gap + tail) == Split(head) + Split(tail)
  {
    var rest := gap + tail;
    assert head + gap + tail == head + rest;
    SplitSkipSpace(gap, tail);
    assert rest[0] == gap[0];
    SplitConcat(head, rest);
  }

  lemma SpaceRunGap(s: string, i: nat)
    requires i < |s| && IsSpace(s[i])
    ensures var j := i + SpaceRun(s[i..]); i < j <= |s| && AllSpace(s[i..j])
  {
    var u := s[i..];
    var n := SpaceRun(u);
    SpaceRunSpaces(u);
    assert u[0] == s[i];
    var gap := s[i..i + n];
    forall k | 0 <= k < |gap| ensures IsSpace(gap[k]) {
      assert gap[k] == u[k];
    }
  }

  lemma WordsBoundaryStep(head: string, gap: string, tail: string, rest: seq<string>)
    requires |gap| > 0 && AllSpace(gap) && Words(rest) == Split(tail)
    ensures Words([head] + rest) == Split(head + gap + tail)
  {
    WordsCons(head, rest);
    SplitCutGap(head, gap, tail);
  }

  lemma SentenceBoundaryWords(s: string, i: nat, j: nat, rest: seq<string>)
    requires i < j <= |s| && AllSpace(s[i..j]) && Words(rest) == Split(s[j..])
    ensures Words([s[..i]] + rest) == Split(s)
  {
    WordsBoundaryStep(s[..i], s[i..j], s[j..], rest);
    ThreeSlices(s, i, j);
  }

  lemma {:induction false} WordsSentenceSplitFrom(s: string, i: nat)
    requires i <= |s|
    ensures Words(SentenceSplitFrom(s, i)) == Split(s)
    decreases |s|, |s| - i
  {
    if i == |s| {
      WordsCons(s, []);
    } else if IsSentenceBoundary(s, i) {
      var j := i + SpaceRun(s[i..]);
      SpaceRunGap(s, i);
      var rest := SentenceSplitFrom(s[j..], 0);
      assert SentenceSplitFrom(s, i) == [s[..i]] + rest;
      WordsSentenceSplitFrom(s[j..], 0);
      SentenceBoundaryWords(s, i, j, rest);
    } else {
      WordsSentenceSplitFrom(s, i + 1);
    }
  }

  /** The sentence cut keeps the words of its input, in order. */
  lemma WordsSentenceSplit(s: string)
    ensures Words(SentenceSplit(s)) == Split(s)
  {
    WordsSentenceSplitFrom(s, 0);
  }

  // ---------------------------------------------------------------------------
  // [p.strip() for p in parts if p.strip()]
  // ---------------------------------------------------------------------------

  function StrippedNonBlank(parts: seq<string>): (r: seq<string>)
    ensures |r| <= |parts|
    ensures AllTrimmed(r)
  {
    if |parts| == 0 then []
    else
      var x := Strip(parts[0]);
      var rest := StrippedNonBlank(parts[1..]);
      if x == "" then rest else [x] + rest
  }

  lemma StrippedNonBlankCons(x: string, rest: seq<string>)
    ensures StrippedNonBlank([x] + rest) ==
      (if Strip(x) == "" then StrippedNonBlank(rest) else [Strip(x)] + StrippedNonBlank(rest))
  {
    assert ([x] + rest)[1..] == rest;
  }

  lemma {:induction false} WordsStrippedNonBlank(parts: seq<string>)
    ensures Words(StrippedNonBlank(parts)) == Words(parts)
  {
    if |parts| > 0 {
      var x := Strip(parts[0]);
      var rest := StrippedNonBlank(parts[1..]);
      WordsStrippedNonBlank(parts[1..]);
      SplitStrip(parts[0]);
      if x == "" {
        SplitAllSpace(parts[0]);
      } else {
        WordsCons(x, rest);
      }
    }
  }

  // ---------------------------------------------------------------------------
  // lower(), substring search, character replacement, lstrip(ch)
  // ---------------------------------------------------------------------------

  function LowerChar(c: char): (r: char)
    ensures 'A' <= c <= 'Z' ==> 'a' <= r <= 'z'
    ensures !('A' <= c <= 'Z') ==> r == c
  {
    if 'A' <= c <= 'Z' then (c as int + 32) as char else c
  }

  /** `str.lower()` restricted to ASCII letters. */
  function ToLower(s: string): (r: string)
    ensures |r| == |s|
    ensures forall i :: 0 <= i < |s| ==> r[i] == LowerChar(s[i])
  {
    seq(|s|, i requires 0 <= i < |s| => LowerChar(s[i]))
  }

  lemma ToLowerConcat(a: string, b: string)
    ensures ToLower(a + b) == ToLower(a) + ToLower(b)
  {
  }

  predicate IsLower(s: string)
  {
    ToLower(s) == s
  }

  lemma ToLowerIdempotent(s: string)
    ensures IsLower(ToLower(s))
  {
  }

  predicate OccursAt(hay: string, needle: string, i: int)
  {
    0 <= i && i + |needle| <= |hay| && hay[i..i + |needle|] == needle
  }

  /** Python's `needle in hay` for strings. */
  predicate Contains(hay: string, needle: string)
  {
    exists i :: 0 <= i <= |hay| - |needle| && OccursAt(hay, needle, i)
  }

  /** `s.replace(a, b)` for single characters. */
  function ReplaceChar(s: string, a: char, b: char): (r: string)
    ensures |r| == |s|
    ensures forall i :: 0 <= i < |s| ==> r[i] == (if s[i] == a then b else s[i])
  {
    if |s| == 0 then "" else [if s[0] == a then b else s[0]] + ReplaceChar(s[1..], a, b)
  }

  /** Number of leading copies of `ch`. */
  function CharRun(s: string, ch: char): (n: nat)
    ensures n <= |s|
    ensures forall i :: 0 <= i < n ==> s[i] == ch
    ensures n < |s| ==> s[n] != ch
  {
    if |s| == 0 || s[0] != ch then 0 else 1 + CharRun(s[1..], ch)
  }

  /** `s.lstrip(ch)` for one character. */
  function LStripChar(s: string, ch: char): string
  {
    s[CharRun(s, ch)..]
  }

  // ---------------------------------------------------------------------------
  // pathlib (POSIX): Path(s).name and Path(s).suffix
  // ---------------------------------------------------------------------------

  /** Length of the trailing run of characters other than `ch`: what follows the last `ch`. */
  function TailLength(s: string, ch: char): (n: nat)
    ensures n <= |s|
    ensures forall i :: |s| - n <= i < |s| ==> s[i] != ch
    ensures n < |s| ==> s[|s| - n - 1] == ch
  {
    if |s| == 0 || s[|s| - 1] == ch then 0 else 1 + TailLength(s[..|s| - 1], ch)
  }

  /** `Path(s).name`: the last component, skipping empty and "." components. */
  function PathName(s: string): (r: string)
    ensures forall i :: 0 <= i < |r| ==> r[i] != '/'
    decreases |s|
  {
    var n := TailLength(s, '/');
    var c := s[|s| - n..];
    assert forall i :: 0 <= i < |c| ==> c[i] == s[|s| - n + i];
    if n == |s| then (if c == "." then "" else c)
    else if c == "" || c == "." then PathName(s[..|s| - n - 1])
    else c
  }

  /** `PurePath.suffix` of a name: from its last '.', when that dot is neither first nor last. */
  function NameSuffix(name: string): (r: string)
    ensures r == "" || (r[0] == '.' && forall i :: 1 <= i < |r| ==> r[i] != '.')
  {
    var n := TailLength(name, '.');
    var i := |name| - n - 1;
    if n < |name| && 0 < i && n > 0 then
      var r := name[i..];
      assert forall k :: 1 <= k < |r| ==> r[k] == name[i + k];
      r
    else ""
  }

  /** `Path(filename).suffix.lower().lstrip(".")`: the lower-cased extension without its dot. */
  function Extension(filename: string): (r: string)
    ensures forall i :: 0 <= i < |r| ==> r[i] != '.' && r[i] != '/'
  {
    var name := PathName(filename);
    var suf := NameSuffix(name);
    SuffixNoSlash(name);
    LoweredSuffixChars(suf);
    LStripChar(ToLower(suf), '.')
  }

  lemma SuffixNoSlash(name: string)
    requires forall i :: 0 <= i < |name| ==> name[i] != '/'
    ensures forall i :: 0 <= i < |NameSuffix(name)| ==> NameSuffix(name)[i] != '/'
  {
    var suf := NameSuffix(name);
    var n := TailLength(name, '.');
    if suf != "" {
      var i := |name| - n - 1;
      assert suf == name[i..];
      forall k | 0 <= k < |suf| ensures suf[k] != '/' {
        assert suf[k] == name[i + k];
      }
    }
  }

  /** A suffix without '/' and with one leading dot loses that dot and keeps no '.' or '/'. */
  lemma LoweredSuffixChars(suf: string)
    requires suf == "" || (suf[0] == '.' && forall i :: 1 <= i < |suf| ==> suf[i] != '.')
    requires forall i :: 0 <= i < |suf| ==> suf[i] != '/'
    ensures var r := LStripChar(ToLower(suf), '.');
      forall i :: 0 <= i < |r| ==> r[i] != '.' && r[i] != '/'
  {
    LowerSuffixShape(suf);
    StripDotShape(ToLower(suf));
  }

  lemma LowerSuffixShape(suf: string)
    requires suf == "" || (suf[0] == '.' && forall i :: 1 <= i < |suf| ==> suf[i] != '.')
    requires forall i :: 0 <= i < |suf| ==> suf[i] != '/'
    ensures var low := ToLower(suf);
      (low == "" || low[0] == '.') && forall i :: 1 <= i < |low| ==> low[i] != '.' && low[i] != '/'
  {
  }

  lemma StripDotShape(low: string)
    requires low == "" || low[0] == '.'
    requires forall i :: 1 <= i < |low| ==> low[i] != '.' && low[i] != '/'
    ensures var r := LStripChar(low, '.');
      forall i :: 0 <= i < |r| ==> r[i] != '.' && r[i] != '/'
  {
    if |low| > 0 {
      var n := CharRun(low, '.');
      assert n >= 1;
      assert n == 1 by {
        assert |low| > 1 ==> low[1] != '.';
      }
      var r := low[1..];
      forall k | 0 <= k < |r| ensures r[k] != '.' && r[k] != '/' {
        assert r[k] == low[k + 1];
      }
    }
  }

  /** With no `ch` in `s`, everything is after the last `ch`. */
  lemma TailLengthNone(s: string, ch: char)
    requires forall i :: 0 <= i < |s| ==> s[i] != ch
    ensures TailLength(s, ch) == |s|
  {
  }

  /** After a `ch` followed by a text free of `ch`, that text is what follows the last `ch`. */
  lemma TailLengthAfter(a: string, b: string, ch: char)
    requires |a| > 0 && a[|a| - 1] == ch
    requires forall i :: 0 <= i < |b| ==> b[i] != ch
    ensures TailLength(a + b, ch) == |b|
  {
    var s := a + b;
    var n := TailLength(s, ch);
    assert s[|a| - 1] == ch;
    assert n <= |b|;
    assert forall k :: |a| <= k < |s| ==> s[k] != ch;
  }

  lemma PathNamePlain(name: string)
    requires name != "" && name != "."
    requires forall i :: 0 <= i < |name| ==> name[i] != '/'
    ensures PathName(name) == name
  {
    TailLengthNone(name, '/');
    assert name[0..] == name;
  }

  lemma NameSuffixOf(stem: string, ext: string)
    requires |stem| > 0 && |ext| > 0
    requires forall i :: 0 <= i < |ext| ==> ext[i] != '.'
    ensures NameSuffix(stem + "." + ext) == "." + ext
  {
    AppendAssoc(stem, ".", ext);
    TailLengthAfter(stem + ".", ext, '.');
    var name := stem + "." + ext;
    assert name[|stem|..] == "." + ext;
  }

  lemma LStripDotLower(ext: string)
    requires |ext| > 0 && ext[0] != '.'
    ensures LStripChar(ToLower("." + ext), '.') == ToLower(ext)
  {
    var low := ToLower("." + ext);
    var tail := ToLower(ext);
    ToLowerConcat(".", ext);
    assert ToLower(".") == ".";
    DropOneConcat(".", tail);
    assert low[0] == '.';
    assert low[1] == tail[0] == LowerChar(ext[0]) != '.';
    assert CharRun(low, '.') == 1;
  }

  lemma DottedNoSlash(stem: string, ext: string)
    requires forall i :: 0 <= i < |stem| ==> stem[i] != '/'
    requires forall i :: 0 <= i < |ext| ==> ext[i] != '/'
    ensures forall i :: 0 <= i < |stem + "." + ext| ==> (stem + "." + ext)[i] != '/'
  {
    var name := stem + "." + ext;
    forall i | 0 <= i < |name| ensures name[i] != '/' {
      if i < |stem| { assert name[i] == stem[i]; }
      else if i > |stem| { assert name[i] == ext[i - |stem| - 1]; }
    }
  }

  /** Only the final suffix of a plain file name counts. */
  lemma ExtensionOfName(stem: string, ext: string)
    requires |stem| > 0 && |ext| > 0
    requires forall i :: 0 <= i < |stem| ==> stem[i] != '/'
    requires forall i :: 0 <= i < |ext| ==> ext[i] != '.' && ext[i] != '/'
    ensures Extension(stem + "." + ext) == ToLower(ext)
  {
    var name := stem + "." + ext;
    DottedNoSlash(stem, ext);
    assert name != "." by { assert |name| >= 3; }
    PathNamePlain(name);
    NameSuffixOf(stem, ext);
    assert ext[0] != '.';
    LStripDotLower(ext);
  }
}
