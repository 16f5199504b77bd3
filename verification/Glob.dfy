/** Slash-separated globs: "**" takes any run of whole segments, other segments match one each. */
module Glob {
  import opened Wrappers
  import Text

  /** filepath.Match on one segment. */
  datatype SegmentMatch = Yes | No | Malformed
  type Matcher = (string, string) -> SegmentMatch

  /** None is the bad-pattern error. */
  type Answer = Option<bool>

  // ---- the matcher ----

  /** matchSegments: recursion over the pattern, with a loop over the run a "**" takes. */
  function MatchSegments(m: Matcher, pat: seq<string>, path: seq<string>): Answer
    decreases |pat|, 1, |path|
  {
    if pat == [] then Some(path == [])
    else if pat[0] == "**" then
      if |pat| == 1 then Some(true) else TryRuns(m, pat, path, 0)
    else if path == [] then Some(false)
    else
      match m(pat[0], path[0])
      case Malformed => None
      case No => Some(false)
      case Yes => MatchSegments(m, pat[1..], path[1..])
  }

  /** The loop: runs of length i and longer, shortest first, stopping at an error or a match. */
  function TryRuns(m: Matcher, pat: seq<string>, path: seq<string>, i: nat): Answer
    requires pat != [] && i <= |path|
    decreases |pat|, 0, |path| - i
  {
    var r := MatchSegments(m, pat[1..], path[i..]);
    if r != Some(false) then r
    else if i == |path| then Some(false)
    else TryRuns(m, pat, path, i + 1)
  }

  /** A pattern is relative to the root, with or without a leading slash. */
  function SegmentsOf(pattern: string): seq<string> {
    Text.Split(if "/" <= pattern then pattern[1..] else pattern, '/')
  }

  function MatchGlob(m: Matcher, pattern: string, path: string): Answer {
    MatchSegments(m, SegmentsOf(pattern), Text.Split(path, '/'))
  }

  // ---- the language of a pattern ----

  /** runs gives the number of path segments each pattern segment takes. */
  ghost predicate Takes(m: Matcher, pat: seq<string>, path: seq<string>, runs: seq<nat>)
    decreases |pat|
  {
    && |runs| == |pat|
    && if pat == [] then path == []
       else
         && runs[0] <= |path|
         && (pat[0] != "**" ==> runs[0] == 1 && m(pat[0], path[0]) == Yes)
         && Takes(m, pat[1..], path[runs[0]..], runs[1..])
  }

  ghost predicate InLanguage(m: Matcher, pat: seq<string>, path: seq<string>) {
    exists runs :: Takes(m, pat, path, runs)
  }

  /** A language member after a first segment, or after a run. */
  lemma InLanguageCons(m: Matcher, pat: seq<string>, path: seq<string>, n: nat)
    requires pat != [] && n <= |path| && InLanguage(m, pat[1..], path[n..])
    requires pat[0] != "**" ==> n == 1 && m(pat[0], path[0]) == Yes
    ensures InLanguage(m, pat, path)
  {
    var runs :| Takes(m, pat[1..], path[n..], runs);
    var runs': seq<nat> := [n] + runs;
    assert runs'[1..] == runs;
    assert Takes(m, pat, path, runs');
  }

  /** Sound and complete: a definite answer says whether the path is in the language. */
  lemma {:induction false} MatchesExactlyTheLanguage(m: Matcher, pat: seq<string>, path: seq<string>)
    ensures MatchSegments(m, pat, path).Some? ==> (MatchSegments(m, pat, path).value <==> InLanguage(m, pat, path))
    decreases |pat|, 1, |path|
  {
    if pat == [] {
      if path == [] { assert Takes(m, pat, path, []); }
    } else if pat[0] == "**" {
      if |pat| == 1 {
        assert path[|path|..] == [];
        assert Takes(m, pat[1..], path[|path|..], []);
        InLanguageCons(m, pat, path, |path|);
      } else {
        RunsExactly(m, pat, path, 0);
        if runs :| Takes(m, pat, path, runs) {
          assert Takes(m, pat[1..], path[runs[0]..], runs[1..]);
        }
      }
    } else if path != [] && m(pat[0], path[0]) == Yes {
      MatchesExactlyTheLanguage(m, pat[1..], path[1..]);
      if InLanguage(m, pat[1..], path[1..]) {
        InLanguageCons(m, pat, path, 1);
      }
      if runs :| Takes(m, pat, path, runs) {
        assert Takes(m, pat[1..], path[1..], runs[1..]);
      }
    }
  }

  lemma {:induction false} RunsExactly(m: Matcher, pat: seq<string>, path: seq<string>, i: nat)
    requires pat != [] && pat[0] == "**" && i <= |path|
    ensures TryRuns(m, pat, path, i) == Some(true) ==> InLanguage(m, pat, path)
    ensures TryRuns(m, pat, path, i) == Some(false) ==>
      forall n :: i <= n <= |path| ==> !InLanguage(m, pat[1..], path[n..])
    decreases |pat|, 0, |path| - i
  {
    MatchesExactlyTheLanguage(m, pat[1..], path[i..]);
    if MatchSegments(m, pat[1..], path[i..]) == Some(true) {
      InLanguageCons(m, pat, path, i);
    } else if MatchSegments(m, pat[1..], path[i..]) == Some(false) && i < |path| {
      RunsExactly(m, pat, path, i + 1);
    }
  }

  ghost predicate WellFormedSegment(m: Matcher, segment: string) {
    segment == "**" || forall s :: m(segment, s) != Malformed
  }

  ghost predicate WellFormed(m: Matcher, pat: seq<string>) {
    forall i :: 0 <= i < |pat| ==> WellFormedSegment(m, pat[i])
  }

  /** No error when every segment -- not just the last, which is all Validate looks at -- is well formed. */
  lemma {:induction false} WellFormedNeverErrs(m: Matcher, pat: seq<string>, path: seq<string>)
    requires WellFormed(m, pat)
    ensures MatchSegments(m, pat, path).Some?
    decreases |pat|, 1, |path|
  {
    if pat != [] {
      assert WellFormedSegment(m, pat[0]);
      assert WellFormed(m, pat[1..]);
      if pat[0] == "**" && |pat| > 1 {
        WellFormedRunsNeverErr(m, pat, path, 0);
      } else if path != [] && pat[0] != "**" {
        WellFormedNeverErrs(m, pat[1..], path[1..]);
      }
    }
  }

  lemma {:induction false} WellFormedRunsNeverErr(m: Matcher, pat: seq<string>, path: seq<string>, i: nat)
    requires pat != [] && WellFormed(m, pat[1..]) && i <= |path|
    ensures TryRuns(m, pat, path, i).Some?
    decreases |pat|, 0, |path| - i
  {
    WellFormedNeverErrs(m, pat[1..], path[i..]);
    if i < |path| {
      WellFormedRunsNeverErr(m, pat, path, i + 1);
    }
  }

  /** A segment that some text makes malformed, after segments that can all be passed. */
  ghost predicate CanErr(m: Matcher, pat: seq<string>) {
    exists k :: 0 <= k < |pat| && Breaks(m, pat[k]) && forall j :: 0 <= j < k ==> Passable(m, pat[j])
  }

  /** What can stand between two slashes of a path. */
  predicate PathSegment(s: string) {
    s != "" && '/' !in s
  }

  ghost predicate Breaks(m: Matcher, segment: string) {
    segment != "**" && exists s :: PathSegment(s) && m(segment, s) == Malformed
  }

  ghost predicate Passable(m: Matcher, segment: string) {
    segment == "**" || exists s :: PathSegment(s) && m(segment, s) == Yes
  }

  predicate PathSegments(path: seq<string>) {
    forall i :: 0 <= i < |path| ==> PathSegment(path[i])
  }

  /** No empty segment, as in every path git knows. */
  predicate IsPath(path: string) {
    PathSegments(Text.Split(path, '/'))
  }

  lemma CanErrCons(m: Matcher, pat: seq<string>)
    requires pat != []
    ensures CanErr(m, pat) <==> Breaks(m, pat[0]) || (Passable(m, pat[0]) && CanErr(m, pat[1..]))
  {
    if CanErr(m, pat) && !Breaks(m, pat[0]) {
      var k :| 0 <= k < |pat| && Breaks(m, pat[k]) && forall j :: 0 <= j < k ==> Passable(m, pat[j]);
      assert pat[1..][k - 1] == pat[k];
      assert forall j :: 0 <= j < k - 1 ==> pat[1..][j] == pat[j + 1];
    }
    if Passable(m, pat[0]) && CanErr(m, pat[1..]) {
      var k :| 0 <= k < |pat[1..]| && Breaks(m, pat[1..][k]) && forall j :: 0 <= j < k ==> Passable(m, pat[1..][j]);
      assert pat[k + 1] == pat[1..][k];
      assert forall j :: 1 <= j < k + 1 ==> pat[j] == pat[1..][j - 1];
    }
  }

  /** Exactly when a pattern errs on some path: a segment breaks on some text and all before it can be passed. */
  lemma ErrsOnSomePathIff(m: Matcher, pattern: string)
    ensures (exists path :: IsPath(path) && MatchGlob(m, pattern, path).None?) <==> CanErr(m, SegmentsOf(pattern))
  {
    if CanErr(m, SegmentsOf(pattern)) {
      var parts := ErringPath(m, SegmentsOf(pattern));
      Text.SplitOfJoin(parts, '/');
      assert IsPath(Text.Join(parts, '/'));
    }
    if path :| IsPath(path) && MatchGlob(m, pattern, path).None? {
      ErrorHasCause(m, SegmentsOf(pattern), Text.Split(path, '/'));
    }
  }

  /** A path on which the pattern errs: one segment for each pattern segment but "**", up to the one that breaks. */
  lemma {:induction false} ErringPath(m: Matcher, pat: seq<string>) returns (path: seq<string>)
    requires CanErr(m, pat)
    ensures MatchSegments(m, pat, path).None? && PathSegments(path) && path != []
    decreases |pat|
  {
    CanErrCons(m, pat);
    if Breaks(m, pat[0]) {
      var s :| PathSegment(s) && m(pat[0], s) == Malformed;
      path := [s];
    } else {
      var rest := ErringPath(m, pat[1..]);
      if pat[0] == "**" {
        path := rest;
        assert path[0..] == path;
        assert |pat| > 1;
      } else {
        var s :| PathSegment(s) && m(pat[0], s) == Yes;
        path := [s] + rest;
        assert path[1..] == rest;
      }
    }
  }

  lemma {:induction false} ErrorHasCause(m: Matcher, pat: seq<string>, path: seq<string>)
    requires MatchSegments(m, pat, path).None? && PathSegments(path)
    ensures CanErr(m, pat)
    decreases |pat|, 1, |path|
  {
    CanErrCons(m, pat);
    if pat[0] == "**" {
      RunErrorHasCause(m, pat, path, 0);
    } else if m(pat[0], path[0]) == Yes {
      ErrorHasCause(m, pat[1..], path[1..]);
    }
  }

  lemma {:induction false} RunErrorHasCause(m: Matcher, pat: seq<string>, path: seq<string>, i: nat)
    requires pat != [] && i <= |path| && TryRuns(m, pat, path, i).None? && PathSegments(path)
    ensures CanErr(m, pat[1..])
    decreases |pat|, 0, |path| - i
  {
    if MatchSegments(m, pat[1..], path[i..]).None? {
      ErrorHasCause(m, pat[1..], path[i..]);
    } else {
      RunErrorHasCause(m, pat, path, i + 1);
    }
  }

  // ---- consecutive "**" ----

  /** Two consecutive "**" mean one, wherever in the pattern they stand. */
  lemma {:induction false} DoubleStarCollapses(m: Matcher, pre: seq<string>, rest: seq<string>, path: seq<string>)
    ensures MatchSegments(m, pre + ["**", "**"] + rest, path) == MatchSegments(m, pre + ["**"] + rest, path)
    decreases |pre|, 1, |path|
  {
    var twice, once := pre + ["**", "**"] + rest, pre + ["**"] + rest;
    if pre == [] {
      assert twice == ["**", "**"] + rest && once == ["**"] + rest;
      LeadingDoubleStar(m, rest, path);
    } else {
      assert twice[1..] == pre[1..] + ["**", "**"] + rest && once[1..] == pre[1..] + ["**"] + rest;
      if pre[0] == "**" {
        RunsCollapse(m, pre, rest, path, 0);
      } else if path != [] {
        DoubleStarCollapses(m, pre[1..], rest, path[1..]);
      }
    }
  }

  lemma {:induction false} RunsCollapse(m: Matcher, pre: seq<string>, rest: seq<string>, path: seq<string>, i: nat)
    requires pre != [] && i <= |path|
    ensures TryRuns(m, pre + ["**", "**"] + rest, path, i) == TryRuns(m, pre + ["**"] + rest, path, i)
    decreases |pre|, 0, |path| - i
  {
    var twice, once := pre + ["**", "**"] + rest, pre + ["**"] + rest;
    assert twice[1..] == pre[1..] + ["**", "**"] + rest && once[1..] == pre[1..] + ["**"] + rest;
    DoubleStarCollapses(m, pre[1..], rest, path[i..]);
    if i < |path| {
      RunsCollapse(m, pre, rest, path, i + 1);
    }
  }

  lemma {:induction false} LeadingDoubleStar(m: Matcher, rest: seq<string>, path: seq<string>)
    ensures MatchSegments(m, ["**", "**"] + rest, path) == MatchSegments(m, ["**"] + rest, path)
  {
    var twice, once := ["**", "**"] + rest, ["**"] + rest;
    assert twice[1..] == once && once[1..] == rest;
    if rest == [] {
      assert MatchSegments(m, once, path[0..]) == Some(true);
      assert TryRuns(m, twice, path, 0) == Some(true);
    } else {
      assert path[0..] == path;
      assert MatchSegments(m, once, path) == TryRuns(m, once, path, 0);
      if MatchSegments(m, once, path) == Some(false) {
        NoRunFromAnywhere(m, twice, path, 0);
      }
    }
  }

  lemma {:induction false} NoRunFromAnywhere(m: Matcher, twice: seq<string>, path: seq<string>, i: nat)
    requires |twice| > 2 && twice[1] == "**" && i <= |path|
    requires TryRuns(m, twice[1..], path, i) == Some(false)
    ensures TryRuns(m, twice, path, i) == Some(false)
    decreases |path| - i
  {
    TryRunsShift(m, twice[1..], path, i, 0);
    assert path[i..][0..] == path[i..];
    if i < |path| {
      NoRunFromAnywhere(m, twice, path, i + 1);
    }
  }

  lemma {:induction false} TryRunsShift(m: Matcher, pat: seq<string>, path: seq<string>, i: nat, k: nat)
    requires pat != [] && i + k <= |path|
    ensures TryRuns(m, pat, path[i..], k) == TryRuns(m, pat, path, i + k)
    decreases |path| - i - k
  {
    assert path[i..][k..] == path[i + k..];
    if i + k < |path| {
      TryRunsShift(m, pat, path, i, k + 1);
    }
  }

  // ---- a leading slash ----

  /** Patterns are root-relative either way: one leading slash changes nothing. */
  lemma LeadingSlashIsIgnored(m: Matcher, pattern: string, path: string)
    requires !("/" <= pattern)
    ensures MatchGlob(m, "/" + pattern, path) == MatchGlob(m, pattern, path)
  {
    assert ("/" + pattern)[1..] == pattern;
  }

  // ---- the table ----

  /** Row i of the table: for each j, whether pat[i..] matches path[j..]. */
  ghost predicate RowFor(m: Matcher, pat: seq<string>, path: seq<string>, i: nat, row: seq<bool>)
    requires i <= |pat|
  {
    |row| == |path| + 1 && forall j :: 0 <= j <= |path| ==> (row[j] <==> InLanguage(m, pat[i..], path[j..]))
  }

  /** Row by row from the end, without backtracking: the language, hence the matcher's answer wherever it has one. */
  method MatchByTable(m: Matcher, pat: seq<string>, path: seq<string>) returns (matched: bool)
    ensures matched <==> InLanguage(m, pat, path)
    ensures MatchSegments(m, pat, path).Some? ==> MatchSegments(m, pat, path) == Some(matched)
  {
    var row := seq(|path| + 1, j => j == |path|);
    forall j | 0 <= j <= |path| ensures row[j] <==> InLanguage(m, pat[|pat|..], path[j..]) {
      MatchesExactlyTheLanguage(m, pat[|pat|..], path[j..]);
    }
    var i := |pat|;
    while i > 0
      invariant 0 <= i <= |pat| && RowFor(m, pat, path, i, row)
    {
      i := i - 1;
      var next := row;
      row := row[|path| := pat[i] == "**" && next[|path|]];
      LastColumn(m, pat, path, i);
      var j := |path|;
      while j > 0
        invariant 0 <= j <= |path| && |row| == |path| + 1
        invariant forall k :: 0 <= k < j ==> row[k] == next[k]
        invariant forall k :: j <= k <= |path| ==> (row[k] <==> InLanguage(m, pat[i..], path[k..]))
      {
        j := j - 1;
        TableStep(m, pat, path, i, j);
        row := row[j := if pat[i] == "**" then next[j] || row[j + 1] else m(pat[i], path[j]) == Yes && next[j + 1]];
      }
    }
    matched := row[0];
    assert pat[0..] == pat && path[0..] == path;
    MatchesExactlyTheLanguage(m, pat, path);
  }

  lemma LastColumn(m: Matcher, pat: seq<string>, path: seq<string>, i: nat)
    requires i < |pat|
    ensures InLanguage(m, pat[i..], path[|path|..]) <==> pat[i] == "**" && InLanguage(m, pat[i + 1..], path[|path|..])
  {
    var p, s := pat[i..], path[|path|..];
    assert p[1..] == pat[i + 1..] && s[0..] == s;
    if pat[i] == "**" && InLanguage(m, pat[i + 1..], s) {
      InLanguageCons(m, p, s, 0);
    }
    if runs :| Takes(m, p, s, runs) {
      assert Takes(m, p[1..], s[0..], runs[1..]);
    }
  }

  lemma TableStep(m: Matcher, pat: seq<string>, path: seq<string>, i: nat, j: nat)
    requires i < |pat| && j < |path|
    ensures InLanguage(m, pat[i..], path[j..]) <==>
      if pat[i] == "**" then InLanguage(m, pat[i + 1..], path[j..]) || InLanguage(m, pat[i..], path[j + 1..])
      else m(pat[i], path[j]) == Yes && InLanguage(m, pat[i + 1..], path[j + 1..])
  {
    var p, s := pat[i..], path[j..];
    assert p[1..] == pat[i + 1..] && s[0..] == s && s[1..] == path[j + 1..];
    if pat[i] == "**" {
      if InLanguage(m, p[1..], s) { InLanguageCons(m, p, s, 0); }
      if runs :| Takes(m, p, s[1..], runs) { LongerRun(m, p, s, runs); }
      if runs :| Takes(m, p, s, runs) {
        if runs[0] == 0 {
          assert Takes(m, p[1..], s, runs[1..]);
        } else {
          ShorterRun(m, p, s, runs);
        }
      }
    } else {
      if InLanguage(m, p[1..], s[1..]) && m(pat[i], path[j]) == Yes { InLanguageCons(m, p, s, 1); }
      if runs :| Takes(m, p, s, runs) { assert Takes(m, p[1..], s[1..], runs[1..]); }
    }
  }

  lemma LongerRun(m: Matcher, p: seq<string>, s: seq<string>, runs: seq<nat>)
    requires p != [] && p[0] == "**" && s != [] && Takes(m, p, s[1..], runs)
    ensures InLanguage(m, p, s)
  {
    assert s[1..][runs[0]..] == s[runs[0] + 1..];
    assert Takes(m, p[1..], s[runs[0] + 1..], runs[1..]);
    InLanguageCons(m, p, s, runs[0] + 1);
  }

  lemma ShorterRun(m: Matcher, p: seq<string>, s: seq<string>, runs: seq<nat>)
    requires p != [] && p[0] == "**" && Takes(m, p, s, runs) && runs[0] > 0
    ensures s != [] && InLanguage(m, p, s[1..])
  {
    assert s[1..][runs[0] - 1..] == s[runs[0]..];
    assert Takes(m, p[1..], s[1..][runs[0] - 1..], runs[1..]);
    InLanguageCons(m, p, s[1..], runs[0] - 1);
  }
}
