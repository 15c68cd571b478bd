/**
 * The service shutdown script's decision logic: reading the `PROCESS_MATCH`
 * marker list, normalising the markers `shutdown` is given, and the rule that
 * decides whether a running process is this service. The repository root is a
 * parameter; whether the process's working directory lies under it is an input.
 */
module Shutdown {

  import opened Wrappers
  import opened Strings

  /** `DEFAULT_PROCESS_MARKERS`: the server, the app module and the lower-cased repository directory name. */
  function DefaultMarkers(repoRoot: string): seq<string>
  {
    ["uvicorn", "app.main:app", ToLower(PathName(repoRoot))]
  }

  /** `raw.replace(";", ",").split(",")` */
  function MarkerFields(raw: string): seq<string>
  {
    SplitOn(ReplaceChar(raw, ';', ','), ",")
  }

  /** `[token.strip().lower() for token in fields if token.strip()]` */
  function MarkerTokens(fields: seq<string>): (r: seq<string>)
    ensures |r| <= |fields|
  {
    if |fields| == 0 then []
    else
      var t := Strip(fields[0]);
      (if t == "" then [] else [ToLower(t)]) + MarkerTokens(fields[1..])
  }

  /** `parse_markers`: `None` or `""` stands for an unset variable. */
  function ParseMarkers(raw: Option<string>, repoRoot: string): seq<string>
  {
    match raw
    case None => DefaultMarkers(repoRoot)
    case Some(s) =>
      if s == "" then DefaultMarkers(repoRoot)
      else
        var tokens := MarkerTokens(MarkerFields(s));
        if |tokens| > 0 then tokens else DefaultMarkers(repoRoot)
  }

  /** `[m.lower() for m in markers]` */
  function LowerAll(ms: seq<string>): (r: seq<string>)
    ensures |r| == |ms|
    ensures forall k :: 0 <= k < |ms| ==> r[k] == ToLower(ms[k])
  {
    seq(|ms|, k requires 0 <= k < |ms| => ToLower(ms[k]))
  }

  /** The marker normalisation at the start of `shutdown`: no markers (or none given) means the defaults. */
  function ShutdownMarkers(processMarkers: Option<seq<string>>, repoRoot: string): seq<string>
  {
    if processMarkers.Some? && |processMarkers.value| > 0 then LowerAll(processMarkers.value)
    else DefaultMarkers(repoRoot)
  }

  /** What `_is_service_process` reads from a process; `cwdMatch` stands for the resolved-path comparison. */
  datatype ProcessInfo = ProcessInfo(name: string, cmdlineParts: seq<string>, cwdMatch: bool)

  /** `any(marker in cmdline or marker in lower_name for marker in markers)` */
  predicate AnyMarker(markers: seq<string>, cmdline: string, lowerName: string)
  {
    |markers| > 0 &&
    (Contains(cmdline, markers[0]) || Contains(lowerName, markers[0]) || AnyMarker(markers[1..], cmdline, lowerName))
  }

  /** `_is_service_process`; `None` is a process whose details cannot be read (gone, denied, zombie). */
  predicate IsServiceProcess(info: Option<ProcessInfo>, markers: seq<string>, repoRoot: string)
  {
    match info
    case None => false
    case Some(pi) =>
      var cmdline := ToLower(Join(" ", pi.cmdlineParts));
      AnyMarker(markers, cmdline, ToLower(pi.name)) && (pi.cwdMatch || Contains(cmdline, ToLower(repoRoot)))
  }

  // ---------------------------------------------------------------------------
  // Helpers about characters
  // ---------------------------------------------------------------------------

  predicate NoSeparator(s: string)
  {
    forall i :: 0 <= i < |s| ==> s[i] != ',' && s[i] != ';'
  }

  /** Splitting on one character leaves pieces made of the input's other characters. */
  lemma {:induction false} SplitOnChars(s: string, c: char)
    ensures var r := SplitOn(s, [c]);
      forall k, j :: 0 <= k < |r| && 0 <= j < |r[k]| ==> r[k][j] != c && r[k][j] in s
    decreases |s|
  {
    var r := SplitOn(s, [c]);
    if |s| > 0 {
      var x, t := s[0], s[1..];
      assert s == [x] + t;
      SplitOnCons(x, t, c);
      SplitOnChars(t, c);
      var q := SplitOn(t, [c]);
      assert forall y :: y in t ==> y in s;
      if x != c {
        assert r == [[x] + q[0]] + q[1..];
        forall k, j | 0 <= k < |r| && 0 <= j < |r[k]| ensures r[k][j] != c && r[k][j] in s {
          if k == 0 {
            if j > 0 { assert r[k][j] == q[0][j - 1]; }
          } else {
            assert r[k] == q[k];
          }
        }
      } else {
        assert r == [""] + q;
        forall k, j | 0 <= k < |r| && 0 <= j < |r[k]| ensures r[k][j] != c && r[k][j] in s {
          assert r[k] == q[k - 1];
        }
      }
    }
  }

  /** The fields of a marker list hold no separator. */
  lemma FieldsNoSeparator(raw: string)
    ensures forall k :: 0 <= k < |MarkerFields(raw)| ==> NoSeparator(MarkerFields(raw)[k])
  {
    var rep := ReplaceChar(raw, ';', ',');
    var fields := MarkerFields(raw);
    SplitOnChars(rep, ',');
    assert fields == SplitOn(rep, [',']);
    assert forall y :: y in rep ==> y != ';';
    forall k, j | 0 <= k < |fields| && 0 <= j < |fields[k]| ensures fields[k][j] != ',' && fields[k][j] != ';' {
      assert fields[k][j] in rep;
    }
  }

  /** `str.strip()` keeps a slice of its input. */
  lemma StripChars(x: string)
    ensures forall i :: 0 <= i < |Strip(x)| ==> Strip(x)[i] in x
  {
    var k := SpaceRun(x);
    var l := x[k..];
    assert Strip(x) == l[..|l| - TrailingSpace(l)];
    assert forall i :: 0 <= i < |Strip(x)| ==> Strip(x)[i] == x[k + i];
  }

  /** ASCII lower-casing neither creates nor removes whitespace or separators. */
  lemma LowerCharKeeps(c: char)
    ensures IsSpace(LowerChar(c)) <==> IsSpace(c)
    ensures LowerChar(c) == ',' <==> c == ','
    ensures LowerChar(c) == ';' <==> c == ';'
  {
    if 'A' <= c <= 'Z' {
      AsciiSpace(c);
      AsciiSpace(LowerChar(c));
    }
  }

  lemma LowerTrimmed(x: string)
    requires Trimmed(x) && NoSeparator(x)
    ensures Trimmed(ToLower(x)) && NoSeparator(ToLower(x)) && IsLower(ToLower(x))
  {
    var low := ToLower(x);
    LowerCharKeeps(x[0]);
    LowerCharKeeps(x[|x| - 1]);
    forall i | 0 <= i < |low| ensures low[i] != ',' && low[i] != ';' {
      LowerCharKeeps(x[i]);
    }
    ToLowerIdempotent(x);
  }

  // ---------------------------------------------------------------------------
  // parse_markers
  // ---------------------------------------------------------------------------

  predicate GoodToken(t: string)
  {
    Trimmed(t) && IsLower(t) && NoSeparator(t)
  }

  /** Every token is non-empty, stripped, lower case and separator-free. */
  lemma {:induction false} MarkerTokensShape(fields: seq<string>)
    requires forall k :: 0 <= k < |fields| ==> NoSeparator(fields[k])
    ensures forall k :: 0 <= k < |MarkerTokens(fields)| ==> GoodToken(MarkerTokens(fields)[k])
  {
    if |fields| > 0 {
      var t := Strip(fields[0]);
      var rest := MarkerTokens(fields[1..]);
      MarkerTokensShape(fields[1..]);
      if t != "" {
        StripChars(fields[0]);
        assert NoSeparator(t) by {
          forall i | 0 <= i < |t| ensures t[i] != ',' && t[i] != ';' {
            var j :| 0 <= j < |fields[0]| && fields[0][j] == t[i];
          }
        }
        LowerTrimmed(t);
        var r := MarkerTokens(fields);
        assert r == [ToLower(t)] + rest;
        assert forall k :: 1 <= k < |r| ==> r[k] == rest[k - 1];
      }
    }
  }

  /** Whitespace-only fields give no token. */
  lemma {:induction false} MarkerTokensBlank(fields: seq<string>)
    requires forall k :: 0 <= k < |fields| ==> AllSpace(fields[k])
    ensures MarkerTokens(fields) == []
  {
    if |fields| > 0 {
      StripBlank(fields[0]);
      MarkerTokensBlank(fields[1..]);
    }
  }

  /** Python's ordering-preserving selection: `xs` is `ys` with some elements dropped. */
  predicate IsSubsequence(xs: seq<string>, ys: seq<string>)
    decreases |ys|
  {
    if |xs| == 0 then true
    else if |ys| == 0 then false
    else (xs[0] == ys[0] && IsSubsequence(xs[1..], ys[1..])) || IsSubsequence(xs, ys[1..])
  }

  /** Every field, stripped and lower-cased, whether blank or not. */
  function LoweredFields(fields: seq<string>): (r: seq<string>)
    ensures |r| == |fields|
    ensures forall j :: 0 <= j < |fields| ==> r[j] == ToLower(Strip(fields[j]))
  {
    seq(|fields|, j requires 0 <= j < |fields| => ToLower(Strip(fields[j])))
  }

  /** The number of fields that are not blank. */
  function NonBlank(fields: seq<string>): nat
  {
    if |fields| == 0 then 0 else (if Strip(fields[0]) == "" then 0 else 1) + NonBlank(fields[1..])
  }

  /**
   * Tokens keep the order of their fields, and every non-blank field yields
   * exactly one token (duplicates included): with the subsequence, the count
   * pins the list.
   */
  lemma {:induction false} MarkerTokensOrder(fields: seq<string>)
    ensures IsSubsequence(MarkerTokens(fields), LoweredFields(fields))
    ensures |MarkerTokens(fields)| == NonBlank(fields)
    ensures forall k :: 0 <= k < |MarkerTokens(fields)| ==> MarkerTokens(fields)[k] != ""
    ensures forall j :: 0 <= j < |fields| && Strip(fields[j]) != "" ==>
      ToLower(Strip(fields[j])) in MarkerTokens(fields)
  {
    if |fields| > 0 {
      var t := Strip(fields[0]);
      var rest := MarkerTokens(fields[1..]);
      var whole := LoweredFields(fields);
      MarkerTokensOrder(fields[1..]);
      assert whole[1..] == LoweredFields(fields[1..]);
      assert forall j :: 1 <= j < |fields| ==> fields[j] == fields[1..][j - 1];
      var r := MarkerTokens(fields);
      if t == "" {
        assert r == rest;
      } else {
        assert r == [ToLower(t)] + rest;
        assert r[1..] == rest;
      }
    }
  }

  /** A missing or empty variable gives the defaults. */
  lemma ParseUnset(repoRoot: string)
    ensures ParseMarkers(None, repoRoot) == DefaultMarkers(repoRoot)
    ensures ParseMarkers(Some(""), repoRoot) == DefaultMarkers(repoRoot)
  {
  }

  /** Either the defaults or the tokens of the comma/semicolon-separated fields, each well formed. */
  lemma ParseMarkersShape(raw: string, repoRoot: string)
    ensures var ms := ParseMarkers(Some(raw), repoRoot);
      ms == DefaultMarkers(repoRoot) ||
      (ms == MarkerTokens(MarkerFields(raw)) && |ms| > 0 && forall k :: 0 <= k < |ms| ==> GoodToken(ms[k]))
  {
    FieldsNoSeparator(raw);
    MarkerTokensShape(MarkerFields(raw));
  }

  /** The fields are the separated parts of `raw`, with `;` read as `,`. */
  lemma MarkerFieldsJoin(raw: string)
    ensures Join(",", MarkerFields(raw)) == ReplaceChar(raw, ';', ',')
    ensures forall k :: 0 <= k < |MarkerFields(raw)| ==> NoSeparator(MarkerFields(raw)[k])
  {
    JoinSplitOn(ReplaceChar(raw, ';', ','), ",");
    FieldsNoSeparator(raw);
  }

  /** Separators and whitespace alone fall back to the defaults. */
  lemma ParseSeparatorsOnly(raw: string, repoRoot: string)
    requires forall i :: 0 <= i < |raw| ==> raw[i] == ',' || raw[i] == ';' || IsSpace(raw[i])
    ensures ParseMarkers(Some(raw), repoRoot) == DefaultMarkers(repoRoot)
  {
    var rep := ReplaceChar(raw, ';', ',');
    var fields := MarkerFields(raw);
    SplitOnChars(rep, ',');
    assert fields == SplitOn(rep, [',']);
    assert forall y :: y in rep ==> y == ',' || IsSpace(y);
    forall k, j | 0 <= k < |fields| && 0 <= j < |fields[k]| ensures IsSpace(fields[k][j]) {
      assert fields[k][j] in rep;
    }
    MarkerTokensBlank(fields);
  }

  // ---------------------------------------------------------------------------
  // shutdown's normalisation
  // ---------------------------------------------------------------------------

  lemma DefaultMarkersLower(repoRoot: string)
    ensures forall k :: 0 <= k < |DefaultMarkers(repoRoot)| ==> IsLower(DefaultMarkers(repoRoot)[k])
  {
    ToLowerIdempotent(PathName(repoRoot));
  }

  /** `shutdown` hands on lower-cased markers, one per given marker, or the defaults. */
  lemma ShutdownMarkersLower(processMarkers: Option<seq<string>>, repoRoot: string)
    ensures var ms := ShutdownMarkers(processMarkers, repoRoot);
      forall k :: 0 <= k < |ms| ==> IsLower(ms[k])
    ensures processMarkers.Some? && |processMarkers.value| > 0 ==>
      |ShutdownMarkers(processMarkers, repoRoot)| == |processMarkers.value|
    ensures processMarkers.None? || processMarkers == Some([]) ==>
      ShutdownMarkers(processMarkers, repoRoot) == DefaultMarkers(repoRoot)
  {
    DefaultMarkersLower(repoRoot);
    if processMarkers.Some? && |processMarkers.value| > 0 {
      var ms := processMarkers.value;
      forall k | 0 <= k < |ms| ensures IsLower(ToLower(ms[k])) {
        ToLowerIdempotent(ms[k]);
      }
    }
  }

  /** What `main` does: markers read from the environment pass through `shutdown` unchanged. */
  lemma ParsedMarkersStable(raw: Option<string>, repoRoot: string)
    ensures ShutdownMarkers(Some(ParseMarkers(raw, repoRoot)), repoRoot) == ParseMarkers(raw, repoRoot)
  {
    var ms := ParseMarkers(raw, repoRoot);
    DefaultMarkersLower(repoRoot);
    if raw.Some? {
      ParseMarkersShape(raw.value, repoRoot);
    }
    assert forall k :: 0 <= k < |ms| ==> IsLower(ms[k]);
    assert LowerAll(ms) == ms;
  }

  // ---------------------------------------------------------------------------
  // _is_service_process
  // ---------------------------------------------------------------------------

  /** `any(...)` holds exactly when some marker occurs in the command line or the name. */
  lemma {:induction false} AnyMarkerExists(markers: seq<string>, cmdline: string, lowerName: string)
    ensures AnyMarker(markers, cmdline, lowerName) <==>
      exists k :: 0 <= k < |markers| && (Contains(cmdline, markers[k]) || Contains(lowerName, markers[k]))
    decreases |markers|
  {
    if |markers| > 0 {
      AnyMarkerExists(markers[1..], cmdline, lowerName);
      assert forall k :: 1 <= k < |markers| ==> markers[k] == markers[1..][k - 1];
      if exists k :: 1 <= k < |markers| && (Contains(cmdline, markers[k]) || Contains(lowerName, markers[k])) {
        var k :| 1 <= k < |markers| && (Contains(cmdline, markers[k]) || Contains(lowerName, markers[k]));
        assert markers[1..][k - 1] == markers[k];
      }
    }
  }

  /** The process is the service exactly when a marker matches and it runs from, or names, the repository. */
  lemma ServiceProcessIff(pi: ProcessInfo, markers: seq<string>, repoRoot: string)
    ensures var cmdline := ToLower(Join(" ", pi.cmdlineParts));
      IsServiceProcess(Some(pi), markers, repoRoot) <==>
        (exists k :: 0 <= k < |markers| &&
           (Contains(cmdline, markers[k]) || Contains(ToLower(pi.name), markers[k]))) &&
        (pi.cwdMatch || Contains(cmdline, ToLower(repoRoot)))
  {
    AnyMarkerExists(markers, ToLower(Join(" ", pi.cmdlineParts)), ToLower(pi.name));
  }

  /** An empty marker occurs in every string, so it matches any process (for a repository named "" by `/`). */
  lemma EmptyMarkerMatches(pi: ProcessInfo, markers: seq<string>, repoRoot: string)
    requires "" in markers && pi.cwdMatch
    ensures IsServiceProcess(Some(pi), markers, repoRoot)
  {
    var cmdline := ToLower(Join(" ", pi.cmdlineParts));
    var k :| 0 <= k < |markers| && markers[k] == "";
    assert OccursAt(cmdline, "", 0);
    AnyMarkerExists(markers, cmdline, ToLower(pi.name));
  }

  /** With no markers nothing is ever killed. */
  lemma NoMarkersNoMatch(info: Option<ProcessInfo>, repoRoot: string)
    ensures !IsServiceProcess(info, [], repoRoot)
  {
  }
}
