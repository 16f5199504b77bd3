/** The repository config, its merge with the machine's global one, and which paths it selects. */
module Config {
  import opened Wrappers
  import opened Fingerprints
  import Glob
  import Lists
  import Text

  datatype Config = Config(version: int, patterns: seq<string>, exclude: seq<string>, keyBackend: string,
                           keySource: string, repoId: string, gpgRecipients: seq<string>,
                           k8sSecretPaths: seq<string>, k8sPlaintextKeys: map<string, seq<string>>)

  const CURRENT_VERSION := 1

  // ---- path selection ----

  /** The first pattern of a list that matches or errs decides. */
  function FirstMatch(m: Glob.Matcher, patterns: seq<string>, path: string): Glob.Answer {
    if patterns == [] then Some(false)
    else
      var r := Glob.MatchGlob(m, patterns[0], path);
      if r == Some(false) then FirstMatch(m, patterns[1..], path) else r
  }

  function Selects(m: Glob.Matcher, c: Config, path: string): Glob.Answer {
    var r := FirstMatch(m, c.patterns, path);
    if r != Some(true) then r
    else
      var e := FirstMatch(m, c.exclude, path);
      if e.None? then None else Some(!e.value)
  }

  method Matches(m: Glob.Matcher, c: Config, path: string) returns (r: Glob.Answer)
    ensures r == Selects(m, c, path)
  {
    var matched := false;
    var n := 0;
    while n < |c.patterns| && !matched
      invariant 0 <= n <= |c.patterns|
      invariant FirstMatch(m, c.patterns, path) == if matched then Some(true) else FirstMatch(m, c.patterns[n..], path)
      decreases |c.patterns| - n, !matched
    {
      var ok := Glob.MatchGlob(m, c.patterns[n], path);
      assert c.patterns[n..][1..] == c.patterns[n + 1..];
      if ok.None? { return None; }
      if ok.value { matched := true; }
      n := n + 1;
    }
    if !matched { return Some(false); }
    for k := 0 to |c.exclude|
      invariant FirstMatch(m, c.exclude, path) == FirstMatch(m, c.exclude[k..], path)
    {
      var ok := Glob.MatchGlob(m, c.exclude[k], path);
      assert c.exclude[k..][1..] == c.exclude[k + 1..];
      if ok.None? { return None; }
      if ok.value { return Some(false); }
    }
    r := Some(true);
  }

  ghost predicate PatternsWellFormed(m: Glob.Matcher, patterns: seq<string>) {
    forall p :: p in patterns ==> Glob.WellFormed(m, Glob.SegmentsOf(p))
  }

  ghost predicate SomePatternTakes(m: Glob.Matcher, patterns: seq<string>, path: string) {
    exists p :: p in patterns && Glob.InLanguage(m, Glob.SegmentsOf(p), Text.Split(path, '/'))
  }

  lemma {:induction false} FirstMatchMeans(m: Glob.Matcher, patterns: seq<string>, path: string)
    ensures FirstMatch(m, patterns, path) == Some(true) ==> SomePatternTakes(m, patterns, path)
    ensures PatternsWellFormed(m, patterns) ==>
      FirstMatch(m, patterns, path) == Some(SomePatternTakes(m, patterns, path))
  {
    if patterns != [] {
      var segments, parts := Glob.SegmentsOf(patterns[0]), Text.Split(path, '/');
      Glob.MatchesExactlyTheLanguage(m, segments, parts);
      if PatternsWellFormed(m, patterns) {
        assert patterns[0] in patterns;
        Glob.WellFormedNeverErrs(m, segments, parts);
      }
      FirstMatchMeans(m, patterns[1..], path);
      assert patterns == [patterns[0]] + patterns[1..];
    }
  }

  /** With well-formed patterns: selected iff some pattern takes the path and no exclude does. */
  lemma SelectsMeans(m: Glob.Matcher, c: Config, path: string)
    requires PatternsWellFormed(m, c.patterns) && PatternsWellFormed(m, c.exclude)
    ensures Selects(m, c, path) ==
      Some(SomePatternTakes(m, c.patterns, path) && !SomePatternTakes(m, c.exclude, path))
  {
    FirstMatchMeans(m, c.patterns, path);
    FirstMatchMeans(m, c.exclude, path);
  }

  // ---- merging ----

  function Defaults(legacy: bool): Config {
    Config(CURRENT_VERSION, [], [], "file", if legacy then ".repo-enc/key" else ".keyfold/key", "", [], [], map[])
  }

  /** unionDedup: a seen-set and an output list over both inputs. */
  method UnionDedup(a: seq<string>, b: seq<string>) returns (out: seq<string>)
    ensures out == Lists.Dedup(a + b)
  {
    var all := a + b;
    var seen: set<string> := {};
    out := [];
    for n := 0 to |all|
      invariant out == Lists.Dedup(all[..n])
      invariant forall x :: x in seen <==> x in out
    {
      assert all[..n + 1][..n] == all[..n];
      if all[n] == "" || all[n] in seen { continue; }
      seen := seen + {all[n]};
      out := out + [all[n]];
    }
    assert all[..|all|] == all;
  }

  /** One overlay: scalars that are set win, the three lists are united; excludes and allowlists are not touched. */
  function MergeInto(base: Config, overlay: Config): Config {
    base.(
      version := if overlay.version != 0 then overlay.version else base.version,
      keyBackend := if overlay.keyBackend != "" then overlay.keyBackend else base.keyBackend,
      keySource := if overlay.keySource != "" then overlay.keySource else base.keySource,
      repoId := if overlay.repoId != "" then overlay.repoId else base.repoId,
      patterns := Lists.Dedup(base.patterns + overlay.patterns),
      gpgRecipients := Lists.Dedup(base.gpgRecipients + overlay.gpgRecipients),
      k8sSecretPaths := Lists.Dedup(base.k8sSecretPaths + overlay.k8sSecretPaths))
  }

  /** The config being assembled, updated in place overlay by overlay. */
  class Assembly {
    var config: Config

    constructor (config: Config)
      ensures this.config == config
    {
      this.config := config;
    }

    method Overlay(overlay: Config)
      modifies this
      ensures config == MergeInto(old(config), overlay)
    {
      if overlay.version != 0 { config := config.(version := overlay.version); }
      if overlay.keyBackend != "" { config := config.(keyBackend := overlay.keyBackend); }
      if overlay.keySource != "" { config := config.(keySource := overlay.keySource); }
      if overlay.repoId != "" { config := config.(repoId := overlay.repoId); }
      var patterns := UnionDedup(config.patterns, overlay.patterns);
      var recipients := UnionDedup(config.gpgRecipients, overlay.gpgRecipients);
      var k8s := UnionDedup(config.k8sSecretPaths, overlay.k8sSecretPaths);
      config := config.(patterns := patterns, gpgRecipients := recipients, k8sSecretPaths := k8s);
    }
  }

  /** The merge before validation; global None means there is no global file. */
  function Layered(global: Option<Config>, repo: Config, legacy: bool): Config {
    var base := Defaults(legacy);
    var withGlobal := if global.Some? then MergeInto(base, global.value) else base;
    MergeInto(withGlobal, repo).(exclude := repo.exclude, k8sPlaintextKeys := repo.k8sPlaintextKeys)
  }

  predicate ValidRepoId(id: string) {
    8 <= |id| <= 64 && forall i :: 0 <= i < |id| ==>
      '0' <= id[i] <= '9' || 'A' <= id[i] <= 'Z' || 'a' <= id[i] <= 'z' || id[i] in "_.-"
  }

  function LastSegment(pattern: string): string {
    var segments := Text.Split(pattern, '/');
    segments[|segments| - 1]
  }

  predicate Validates(m: Glob.Matcher, c: Config) {
    && c.version == CURRENT_VERSION
    && (c.patterns != [] || c.k8sSecretPaths != [])
    && c.keyBackend in {"file", "env", "gpg"}
    && c.keySource != ""
    && (c.repoId != "" ==> ValidRepoId(c.repoId))
    && (c.keyBackend == "gpg" ==> c.gpgRecipients != [])
    && (forall r :: r in c.gpgRecipients ==> ValidFingerprint(r))
    && (forall p :: p in c.patterns + c.exclude ==> m(LastSegment(p), "x") != Glob.Malformed)
  }

  method MergeGlobalFor(m: Glob.Matcher, global: Option<Config>, repo: Config, legacy: bool) returns (r: Option<Config>)
    ensures r == if Validates(m, Layered(global, repo, legacy)) then Some(Layered(global, repo, legacy)) else None
    // another version is refused, and an id is safe to bind files to
    ensures repo.version !in {0, 1} || (repo.version == 0 && global.Some? && global.value.version !in {0, 1}) ==>
      r.None?
    ensures r.Some? ==> '\U{1f}' !in r.value.repoId && (repo.repoId != "" ==> 8 <= |r.value.repoId| <= 64)
    ensures r.Some? && r.value.keyBackend == "gpg" ==> r.value.gpgRecipients != []
  {
    var cfg := new Assembly(Defaults(legacy));
    if global.Some? { cfg.Overlay(global.value); }
    cfg.Overlay(repo);
    cfg.config := cfg.config.(exclude := repo.exclude, k8sPlaintextKeys := repo.k8sPlaintextKeys);
    r := if Validates(m, cfg.config) then Some(cfg.config) else None;
  }

  // ---- a global config only widens protection ----

  lemma LayeredLists(global: Option<Config>, repo: Config, legacy: bool)
    ensures var c := Layered(global, repo, legacy);
            && Lists.Proper(c.patterns) && Lists.Proper(c.gpgRecipients) && Lists.Proper(c.k8sSecretPaths)
            && (forall x :: x in c.patterns <==>
                  x != "" && (x in repo.patterns || (global.Some? && x in global.value.patterns)))
            && (forall x :: x in c.gpgRecipients <==>
                  x != "" && (x in repo.gpgRecipients || (global.Some? && x in global.value.gpgRecipients)))
            && (forall x :: x in c.k8sSecretPaths <==>
                  x != "" && (x in repo.k8sSecretPaths || (global.Some? && x in global.value.k8sSecretPaths)))
            && c.exclude == repo.exclude && c.k8sPlaintextKeys == repo.k8sPlaintextKeys
  {}

  /**
   When two files load, told of the files themselves.  A key source is never missing, an empty list
   entry is never looked at, except among the excludes, and the global file's excludes do not count.
   */
  lemma LoadsIff(m: Glob.Matcher, global: Option<Config>, repo: Config, legacy: bool)
    ensures var g := if global.Some? then global.value else repo;
            var backend := FirstSet(repo.keyBackend, g.keyBackend, "file");
            var id := FirstSet(repo.repoId, g.repoId, "");
            Validates(m, Layered(global, repo, legacy)) <==>
              && (repo.version == 1 || (repo.version == 0 && g.version in {0, 1}))
              && (exists p :: p in repo.patterns + g.patterns + repo.k8sSecretPaths + g.k8sSecretPaths && p != "")
              && (backend == "file" || backend == "env" ||
                  (backend == "gpg" && exists r :: r in repo.gpgRecipients + g.gpgRecipients && r != ""))
              && (forall r :: r in repo.gpgRecipients + g.gpgRecipients && r != "" ==> ValidFingerprint(r))
              && (id == "" || (8 <= |id| <= 64 && forall x :: x in id ==>
                    '0' <= x <= '9' || 'A' <= x <= 'Z' || 'a' <= x <= 'z' || x == '_' || x == '.' || x == '-'))
              && (forall p :: (p in repo.patterns + g.patterns && p != "") || p in repo.exclude ==>
                    !m(LastSegment(p), "x").Malformed?)
  {
    var c := Layered(global, repo, legacy);
    LayeredLists(global, repo, legacy);
    LayeredScalars(global, repo, legacy);
    hide Layered, Lists.Dedup, Lists.NoDuplicates, LastSegment, ValidFingerprint;
    assert c.patterns != [] <==> exists p :: p in c.patterns by { HasHead(c.patterns); }
    assert c.k8sSecretPaths != [] <==> exists p :: p in c.k8sSecretPaths by { HasHead(c.k8sSecretPaths); }
    assert c.gpgRecipients != [] <==> exists p :: p in c.gpgRecipients by { HasHead(c.gpgRecipients); }
  }

  lemma HasHead(s: seq<string>)
    ensures s != [] <==> exists x :: x in s
  {
    assert s != [] ==> s[0] in s;
  }

  lemma LayeredScalars(global: Option<Config>, repo: Config, legacy: bool)
    ensures var g := if global.Some? then global.value else repo;
            var c := Layered(global, repo, legacy);
            && c.keyBackend == FirstSet(repo.keyBackend, g.keyBackend, "file")
            && c.repoId == FirstSet(repo.repoId, g.repoId, "")
            && c.keySource != ""
            && (c.version == 1 <==> repo.version == 1 || (repo.version == 0 && g.version in {0, 1}))
  {
    hide Lists.Dedup;
  }

  lemma {:induction false} FirstMatchSnoc(m: Glob.Matcher, patterns: seq<string>, x: string, path: string)
    ensures var r := FirstMatch(m, patterns, path);
            FirstMatch(m, patterns + [x], path) == if r != Some(false) then r else Glob.MatchGlob(m, x, path)
  {
    if patterns == [] {
      assert FirstMatch(m, [x][1..], path) == Some(false);
    } else {
      FirstMatchSnoc(m, patterns[1..], x, path);
      assert (patterns + [x])[1..] == patterns[1..] + [x];
    }
  }

  lemma {:induction false} NoneMatches(m: Glob.Matcher, patterns: seq<string>, x: string, path: string)
    requires FirstMatch(m, patterns, path) == Some(false) && x in patterns
    ensures Glob.MatchGlob(m, x, path) == Some(false)
  {
    if patterns[0] != x {
      NoneMatches(m, patterns[1..], x, path);
    }
  }

  /** In a union the first list is asked first, and the second only if the first has no answer. */
  lemma {:induction false} FirstMatchOfUnion(m: Glob.Matcher, g: seq<string>, r: seq<string>, path: string)
    requires Lists.Proper(g)
    ensures var first := FirstMatch(m, g, path);
            FirstMatch(m, Lists.Dedup(g + r), path) ==
              if first != Some(false) then first else FirstMatch(m, Lists.Dedup(r), path)
  {
    if r == [] {
      assert g + r == g;
      Lists.DedupOfProper(g);
    } else {
      var front, x := r[..|r| - 1], r[|r| - 1];
      assert g + r == (g + front) + [x] && r == front + [x];
      FirstMatchOfUnion(m, g, front, path);
      Lists.DedupSnoc(g + front, x);
      Lists.DedupSnoc(front, x);
      FirstMatchSnoc(m, Lists.Dedup(g + front), x, path);
      FirstMatchSnoc(m, Lists.Dedup(front), x, path);
      hide Lists.Dedup, Glob.MatchGlob;
      if FirstMatch(m, g, path) == Some(false) && x in g { NoneMatches(m, g, x, path); }
    }
  }

  /**
   What the repository config selects on its own, it still selects with a global config merged in
   exactly if the global patterns, tried in order, answer at all on that path; recipients and
   manifests only grow.
   */
  lemma GlobalOnlyWidens(m: Glob.Matcher, global: Config, repo: Config, legacy: bool, path: string)
    ensures var alone, merged := Layered(None, repo, legacy), Layered(Some(global), repo, legacy);
            && (Selects(m, alone, path) == Some(true) ==>
                  (Selects(m, merged, path) == Some(true) <==>
                   FirstMatch(m, Lists.Dedup(global.patterns), path).Some?))
            && (forall x :: x in alone.gpgRecipients ==> x in merged.gpgRecipients)
            && (forall x :: x in alone.k8sSecretPaths ==> x in merged.k8sSecretPaths)
  {
    LayeredLists(None, repo, legacy);
    LayeredLists(Some(global), repo, legacy);
    LayeredPatterns(global, repo, legacy);
    FirstMatchOfUnion(m, Lists.Dedup(global.patterns), repo.patterns, path);
    hide Layered, Lists.Dedup, FirstMatch, Selects;
    SelectsByParts(m, Layered(None, repo, legacy), Layered(Some(global), repo, legacy),
                   Lists.Dedup(global.patterns), path);
  }

  lemma SelectsByParts(m: Glob.Matcher, alone: Config, merged: Config, g: seq<string>, path: string)
    requires alone.exclude == merged.exclude
    requires var first := FirstMatch(m, g, path);
      FirstMatch(m, merged.patterns, path) == if first != Some(false) then first else FirstMatch(m,
                                                                                                 alone.patterns, path)
    ensures Selects(m, alone, path) == Some(true) ==>
      (Selects(m, merged, path) == Some(true) <==> FirstMatch(m, g, path).Some?)
  {
    var first := FirstMatch(m, g, path);
    assert first.Some? ==> first.value == true || first.value == false;
    assert Selects(m, alone, path) == Some(true) ==> FirstMatch(m, alone.patterns, path) == Some(true);
  }

  lemma LayeredPatterns(global: Config, repo: Config, legacy: bool)
    ensures Layered(None, repo, legacy).patterns == Lists.Dedup(repo.patterns)
    ensures Layered(Some(global), repo, legacy).patterns == Lists.Dedup(Lists.Dedup(global.patterns) + repo.patterns)
  {
    hide Lists.Dedup;
    assert [] + global.patterns == global.patterns && [] + repo.patterns == repo.patterns;
  }

  /** With well-formed global patterns the merge therefore never takes a path out of the selection. */
  lemma WellFormedGlobalWidens(m: Glob.Matcher, global: Config, repo: Config, legacy: bool, path: string)
    requires PatternsWellFormed(m, global.patterns)
    requires Selects(m, Layered(None, repo, legacy), path) == Some(true)
    ensures Selects(m, Layered(Some(global), repo, legacy), path) == Some(true)
  {
    GlobalOnlyWidens(m, global, repo, legacy, path);
    FirstMatchMeans(m, Lists.Dedup(global.patterns), path);
  }

  // A repository that selects "a", and a global file whose one pattern is malformed before its last segment.

  function Strict(p: string, s: string): Glob.SegmentMatch {
    if p == "[" then Glob.Malformed else if p == s then Glob.Yes else Glob.No
  }

  const SELECTS_A: Config := Defaults(false).(patterns := ["a"])
  const MALFORMED: Config := Defaults(false).(patterns := ["[/x"])
  const NARROWED: Config := SELECTS_A.(patterns := ["[/x", "a"])

  lemma ExamplePatterns()
    ensures Layered(None, SELECTS_A, false) == SELECTS_A
    ensures Layered(Some(MALFORMED), SELECTS_A, false) == NARROWED
  {
    hide Lists.Dedup, Lists.NoDuplicates;
    var none: seq<string> := [];
    assert none + ["a"] == ["a"] && none + ["[/x"] == ["[/x"] && ["[/x"] + ["a"] == ["[/x", "a"] && none + none == none;
    ExampleUnions();
  }

  lemma ExampleUnions()
    ensures Lists.Dedup([]) == []
    ensures Lists.Dedup(["a"]) == ["a"] && Lists.Dedup(["[/x"]) == ["[/x"] && Lists.Dedup(["[/x", "a"]) == ["[/x", "a"]
  {
    hide Lists.Dedup;
    Lists.DedupOfProper([]);
    Lists.DedupOfProper(["a"]);
    Lists.DedupOfProper(["[/x"]);
    Lists.DedupOfProper(["[/x", "a"]);
  }

  lemma ExampleSegments()
    ensures Text.Split("a", '/') == ["a"] && Text.Split("[/x", '/') == ["[", "x"]
  {
    hide Text.Split;
    Text.SplitOfJoin(["a"], '/');
    Text.SplitOfJoin(["[", "x"], '/');
    assert ["[", "x"][1..] == ["x"];
    assert Text.Join(["[", "x"], '/') == "[" + ['/'] + "x" == "[/x";
  }

  lemma ExampleAnswers()
    ensures Glob.MatchGlob(Strict, "a", "a") == Some(true)
    ensures Glob.MatchGlob(Strict, "[/x", "a") == None
  {
    hide Text.Split;
    ExampleSegments();
    assert ["a"][1..] == [];
    assert Glob.MatchSegments(Strict, ["a"], ["a"]) == Glob.MatchSegments(Strict, [], []);
  }

  lemma ExamplesValidate()
    ensures Validates(Strict, SELECTS_A) && Validates(Strict, NARROWED)
  {
    hide Text.Split;
    ExampleSegments();
    assert LastSegment("[/x") == "x" && LastSegment("a") == "a";
  }

  /**
   A global pattern that errs takes a path out of the selection of a config that loads: both configs
   validate, and the path the repository selects on its own is an error after the merge.
   */
  lemma MalformedGlobalCanNarrow()
    ensures Validates(Strict, Layered(None, SELECTS_A, false))
    ensures Validates(Strict, Layered(Some(MALFORMED), SELECTS_A, false))
    ensures Selects(Strict, Layered(None, SELECTS_A, false), "a") == Some(true)
    ensures Selects(Strict, Layered(Some(MALFORMED), SELECTS_A, false), "a") == None
  {
    ExamplePatterns();
    ExampleAnswers();
    ExamplesValidate();
    hide Glob.MatchGlob, Layered, Validates;
    assert ["a"][1..] == [] && FirstMatch(Strict, ["a"], "a") == Some(true);
    assert FirstMatch(Strict, ["[/x", "a"], "a") == None;
  }

  /** Validate looks at the last segment of a pattern only, so a config it accepts can still err on a path. */
  lemma LastSegmentCheckIsNotEnough()
    ensures exists m: Glob.Matcher, c: Config, path: string :: Validates(m, c) && Selects(m, c, path) == None
  {
    MalformedGlobalCanNarrow();
    hide Validates, Selects, Layered;
  }

  lemma UnionIsIdempotent(g: seq<string>, r: seq<string>)
    ensures var m := Lists.Dedup(Lists.Dedup([] + g) + r); Lists.Dedup(Lists.Dedup([] + g) + m) == m
  {
    var a := Lists.Dedup([] + g);
    var m := Lists.Dedup(a + r);
    Lists.DedupStartsWith(a, r);
    assert m == a + m[|a|..];
    Lists.DedupAbsorbs(a, m[|a|..]);
  }

  lemma UnionWithNothing(g: seq<string>)
    ensures Lists.Dedup([] + Lists.Dedup(g)) == Lists.Dedup(g)
  {
    assert [] + Lists.Dedup(g) == Lists.Dedup(g);
    Lists.DedupOfProper(Lists.Dedup(g));
  }

  /**
   The merge is idempotent: saving a valid merged config and loading it again, with the same global
   file or on a machine that has none, gives the same effective config.
   */
  lemma SavedMergeReloads(m: Glob.Matcher, global: Option<Config>, repo: Config, legacy: bool, legacy': bool)
    requires Validates(m, Layered(global, repo, legacy))
    ensures var merged := Layered(global, repo, legacy);
            Layered(global, merged, legacy') == merged && Layered(None, merged, legacy') == merged
  {
    var merged := Layered(global, repo, legacy);
    var none: seq<string> := [];
    var gp := if global.Some? then global.value.patterns else none;
    var gr := if global.Some? then global.value.gpgRecipients else none;
    var gk := if global.Some? then global.value.k8sSecretPaths else none;
    assert Lists.Dedup(none + none) == none;
    UnionIsIdempotent(gp, repo.patterns);
    UnionIsIdempotent(gr, repo.gpgRecipients);
    UnionIsIdempotent(gk, repo.k8sSecretPaths);
    UnionWithNothing(Lists.Dedup([] + gp) + repo.patterns);
    UnionWithNothing(Lists.Dedup([] + gr) + repo.gpgRecipients);
    UnionWithNothing(Lists.Dedup([] + gk) + repo.k8sSecretPaths);
  }

  /** The first of a repository's, a global and a default setting that is not empty. */
  function FirstSet(repo: string, global: string, default_: string): string {
    if repo != "" then repo else if global != "" then global else default_
  }

  /** Scalars are the repository's if set there, else the global file's, else the default. */
  lemma ScalarPrecedence(global: Config, repo: Config, legacy: bool)
    ensures var merged := Layered(Some(global), repo, legacy);
            && merged.keyBackend == FirstSet(repo.keyBackend, global.keyBackend, "file")
            && merged.keySource ==
                 FirstSet(repo.keySource, global.keySource, if legacy then ".repo-enc/key" else ".keyfold/key")
            && (merged.version == CURRENT_VERSION <==>
                  repo.version == CURRENT_VERSION || (repo.version == 0 && global.version in {0, CURRENT_VERSION}))
  {
    hide Lists.Dedup;
  }

  /** Contrary to the comment beside it, the merge does take a repository id from the global file. */
  lemma GlobalSuppliesRepoId(global: Config, repo: Config, legacy: bool)
    ensures Layered(Some(global), repo, legacy).repoId == if repo.repoId != "" then repo.repoId else global.repoId
  {}
}
