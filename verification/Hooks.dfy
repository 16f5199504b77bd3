/** The pre-commit hook, and verification of one revision. */
module Hooks {
  import opened Wrappers
  import opened Content
  import opened Lifecycle
  import opened Commands
  import K8s = K8sValue

  /**
   What a config enforces: which paths its patterns select (None when a pattern is malformed), the
   per-value manifests with their plaintext allowlists, and where a raw key would be.
   */
  datatype Policy = Policy(matches: Path -> Option<bool>, k8s: seq<Path>, plaintextKeys: map<Path, seq<string>>,
                           backend: Backend, keySource: Path)
  {
    function Allowed(p: Path): seq<string> {
      if p in plaintextKeys then plaintextKeys[p] else []
    }
  }

  type Tree = map<Path, Content>

  // ---- pre-commit ----

  /** An index entry after the hook: sealed in place if it was selected plaintext, else as it was. */
  predicate StagedAs(repoId: string, key: Key, policy: Policy, staged: seq<Path>, p: Path, was: Content, now: Content) {
    || now == was
    || (p in staged && policy.matches(p) == Some(true) && !IsEnvelope(was) && now == SealFile(repoId, p, key, was))
  }

  ghost predicate Rewritten(repoId: string, key: Key, policy: Policy, staged: seq<Path>, was: Tree, now: Tree) {
    now.Keys == was.Keys && forall p :: p in was ==> StagedAs(repoId, key, policy, staged, p, was[p], now[p])
  }

  /** What a successful pre-commit leaves staged. */
  ghost predicate PreCommitted(repoId: string, key: Key, policy: Policy, staged: seq<Path>, was: Tree, now: Tree) {
    && Rewritten(repoId, key, policy, staged, was, now)
    && (forall p :: p in staged ==> Selected(policy, p, now))
    && (forall kp :: kp in policy.k8s && kp in staged ==>
          kp in now && K8s.LintsClean(now[kp], kp, Some(key), policy.Allowed(kp)))
  }

  predicate Selected(policy: Policy, p: Path, now: Tree) {
    p in now && policy.matches(p).Some? && (policy.matches(p).value ==> IsEnvelope(now[p]))
  }

  /** The hook seals p. */
  predicate Seals(policy: Policy, p: Path, was: Tree) {
    p in was && policy.matches(p) == Some(true) && !IsEnvelope(was[p])
  }

  /** The index once the hook has gone through the given staged paths. */
  function IndexAfter(repoId: string, key: Key, policy: Policy, staged: seq<Path>, was: Tree): Tree {
    map p | p in was :: if p in staged && Seals(policy, p, was) then SealFile(repoId, p, key, was[p]) else was[p]
  }

  /** Updating an index entry clears its skip-worktree bit; the hook sets it again on what it sealed. */
  ghost predicate SkipAfter(policy: Policy, staged: seq<Path>, was: Disk, now: Disk) {
    forall p :: p in now.skip <==> p in was.skip || (p in staged && Seals(policy, p, was.index))
  }

  lemma NoneYet(repoId: string, key: Key, policy: Policy, d: Disk)
    ensures SkipAfter(policy, [], d, d) && IndexAfter(repoId, key, policy, [], d.index) == d.index
  {}

  /** One more path: sealed unless an earlier round did it. */
  lemma IndexMore(repoId: string, key: Key, policy: Policy, staged: seq<Path>, p: Path, was: Tree, before: Tree)
    requires before == IndexAfter(repoId, key, policy, staged, was) && p in was
    ensures IndexAfter(repoId, key, policy, staged + [p], was) ==
      if Seals(policy, p, before) then before[p := SealFile(repoId, p, key, before[p])] else before
  {}

  lemma SkipMore(repoId: string, key: Key, policy: Policy, staged: seq<Path>, p: Path, was: Disk, before: Disk,
                 now: Disk)
    requires before.index == IndexAfter(repoId, key, policy, staged, was.index)
    requires SkipAfter(policy, staged, was, before) && OnlyBitOf(p, before.skip, now.skip)
    requires p in now.skip <==> p in before.skip || Seals(policy, p, before.index)
    ensures SkipAfter(policy, staged + [p], was, now)
  {
    forall q ensures q in now.skip <==> q in was.skip || (q in staged + [p] && Seals(policy, q, was.index)) {
      if q != p { assert q in now.skip - {p} <==> q in before.skip - {p}; }
    }
  }

  /** A part of the staged paths gone through is a rewriting, and leaves those paths selected. */
  lemma IndexAfterIsRewritten(repoId: string, key: Key, policy: Policy, staged: seq<Path>, n: nat, was: Tree)
    requires n <= |staged|
    ensures Rewritten(repoId, key, policy, staged, was, IndexAfter(repoId, key, policy, staged[..n], was))
    ensures (forall p :: p in staged ==> p in was && policy.matches(p).Some?) ==>
      forall p :: p in staged ==> Selected(policy, p, IndexAfter(repoId, key, policy, staged, was))
  {}

  /** One round of the hook's loop. */
  method SealStaged(ctx: Context, policy: Policy, p: Path, key: Key) returns (ok: bool)
    requires ctx.Valid() && p in ctx.fs.disk.index && ctx.Key() == Some(key)
    modifies ctx.fs
    ensures ctx.Valid() && ctx.fs.disk == old(ctx.fs.disk).(index := ctx.fs.disk.index, skip := ctx.fs.disk.skip)
    ensures ok ==> policy.matches(p).Some?
    ensures ctx.fs.disk.index ==
      if ok && Seals(policy, p, old(ctx.fs.disk.index))
      then old(ctx.fs.disk.index)[p := SealFile(ctx.fs.setup.repoId, p, key, old(ctx.fs.disk.index)[p])]
      else old(ctx.fs.disk.index)
    ensures !ok ==> ctx.fs.faults > old(ctx.fs.faults) || policy.matches(p).None?
    ensures ctx.fs.faults >= old(ctx.fs.faults) && ctx.fs.refusals >= old(ctx.fs.refusals)
    ensures OnlyBitOf(p, old(ctx.fs.disk.skip), ctx.fs.disk.skip)
    ensures ok && ctx.fs.refusals == old(ctx.fs.refusals) ==>
      (p in ctx.fs.disk.skip <==> p in old(ctx.fs.disk.skip) || Seals(policy, p, old(ctx.fs.disk.index)))
  {
    hide Legal, After, Safe;
    var fs := ctx.fs;
    ok := false;
    var matched := policy.matches(p);
    if matched.None? { return; }
    if !matched.value { return true; }
    var read := fs.Attempt();
    if !read { return; }
    var data := fs.disk.index[p];
    if IsEnvelope(data) { return true; }
    var stored := fs.Attempt();
    if !stored { return; }
    fs.KnownIsMinted(key);
    ok := fs.Do(PutIndex(p, SealFile(fs.setup.repoId, p, key, data)));
    if !ok { return; }
    fs.TrySetSkip(p, true);
  }

  method HookPreCommit(ctx: Context, policy: Policy, staged: seq<Path>) returns (ok: bool)
    requires ctx.Valid()
    requires forall p :: p in staged ==> p in ctx.fs.disk.index
    modifies ctx.fs
    ensures ctx.fs.Valid()
    ensures ctx.fs.disk == old(ctx.fs.disk).(index := ctx.fs.disk.index, skip := ctx.fs.disk.skip)
    ensures !ok ==>
      || ctx.fs.faults > old(ctx.fs.faults) || ctx.Key().None?
      || Objects(policy, staged, ctx.Key().value, ctx.fs.disk.index)
    // with the key at hand a refusal is for a pattern that errs or for a staged manifest that does not lint clean
    ensures !ok && ctx.fs.faults == old(ctx.fs.faults) && ctx.Key().Some? ==>
      || (exists p :: p in staged && policy.matches(p).None?)
      || (exists kp :: kp in policy.k8s && kp in staged && kp in ctx.fs.disk.index &&
            !K8s.LintsClean(ctx.fs.disk.index[kp], kp, ctx.Key(), policy.Allowed(kp)))
    ensures ctx.fs.setup.backend.GpgKey? && Readers(old(ctx.fs.disk).keySource) * ctx.me == {} ==>
      !ok && ctx.fs.disk == old(ctx.fs.disk)
    ensures ctx.Key().None? ==> !ok && ctx.fs.disk == old(ctx.fs.disk)
    ensures ctx.Key().Some? ==> Rewritten(ctx.fs.setup.repoId, ctx.Key().value, policy, staged,
                                          old(ctx.fs.disk.index), ctx.fs.disk.index)
    ensures ok ==> PreCommitted(ctx.fs.setup.repoId, ctx.Key().value, policy, staged,
                                old(ctx.fs.disk.index), ctx.fs.disk.index)
    ensures ok ==>
      ctx.fs.disk.index == IndexAfter(ctx.fs.setup.repoId, ctx.Key().value, policy, staged, old(ctx.fs.disk.index))
    ensures ok && ctx.fs.refusals == old(ctx.fs.refusals) ==> SkipAfter(policy, staged, old(ctx.fs.disk), ctx.fs.disk)
  {
    hide Legal, After, Safe, SkipAfter, IndexAfter, Rewritten, Seals;
    ok := false;
    var fs := ctx.fs;
    var key := ctx.Key();
    if key.None? { return; }
    ghost var repoId, was := fs.setup.repoId, fs.disk;
    NoneYet(repoId, key.value, policy, was);
    for n := 0 to |staged|
      invariant fs.Valid() && ctx.Valid() && fs.disk == was.(index := fs.disk.index, skip := fs.disk.skip)
      invariant fs.faults >= old(fs.faults) && fs.refusals >= old(fs.refusals)
      invariant fs.disk.index == IndexAfter(repoId, key.value, policy, staged[..n], was.index)
      invariant fs.disk.index.Keys == was.index.Keys
      invariant forall j :: 0 <= j < n ==> policy.matches(staged[j]).Some?
      invariant fs.refusals == old(fs.refusals) ==> SkipAfter(policy, staged[..n], was, fs.disk)
    {
      var p := staged[n];
      assert p in staged && staged[..n + 1] == staged[..n] + [p];
      ghost var before := fs.disk;
      IndexAfterIsRewritten(repoId, key.value, policy, staged, n, was.index);
      var done := SealStaged(ctx, policy, p, key.value);
      if !done { return; }
      IndexMore(repoId, key.value, policy, staged[..n], p, was.index, before.index);
      if fs.refusals == old(fs.refusals) {
        SkipMore(repoId, key.value, policy, staged[..n], p, was, before, fs.disk);
      }
    }
    assert staged[..|staged|] == staged;
    IndexAfterIsRewritten(repoId, key.value, policy, staged, |staged|, was.index);
    ok := LintStaged(fs, policy, key.value, staged);
  }

  /** What pre-commit refuses a commit for: a malformed pattern, or a staged value neither sealed nor allowlisted. */
  predicate Objects(policy: Policy, staged: seq<Path>, key: Key, index: Tree) {
    || (exists p :: p in staged && policy.matches(p).None?)
    || (exists kp :: kp in policy.k8s && kp in staged && kp in index &&
          !K8s.LintsClean(index[kp], kp, Some(key), policy.Allowed(kp)))
  }

  /** The second half of pre-commit: refuse a staged manifest with a value that is neither sealed nor allowlisted. */
  method LintStaged(fs: FileSystem, policy: Policy, key: Key, staged: seq<Path>) returns (ok: bool)
    requires forall p :: p in staged ==> p in fs.disk.index
    modifies fs`faults
    ensures ok ==> forall kp :: kp in policy.k8s && kp in staged ==>
      K8s.LintsClean(fs.disk.index[kp], kp, Some(key), policy.Allowed(kp))
    ensures fs.faults >= old(fs.faults)
    ensures !ok ==> fs.faults > old(fs.faults) || Objects(policy, staged, key, fs.disk.index)
  {
    var index := fs.disk.index;
    var leaked := false;
    for n := 0 to |policy.k8s|
      invariant fs.faults >= old(fs.faults) && (leaked ==> Objects(policy, staged, key, index))
      invariant !leaked ==> forall kp :: kp in policy.k8s[..n] && kp in staged ==>
        K8s.LintsClean(index[kp], kp, Some(key), policy.Allowed(kp))
    {
      var kp := policy.k8s[n];
      assert policy.k8s[..n + 1] == policy.k8s[..n] + [kp];
      assert kp in policy.k8s;
      if kp !in staged { continue; }
      var read := fs.Attempt();
      if !read { return false; }
      var lint := K8s.LintManifest(index[kp], kp, Some(key), policy.Allowed(kp));
      if lint.Err? { return false; }
      K8s.CleanIffNoProblems(lint.value, index[kp], kp, Some(key), policy.Allowed(kp));
      if lint.value != [] { leaked := true; }
    }
    assert policy.k8s[..|policy.k8s|] == policy.k8s;
    ok := !leaked;
  }

  // ---- verify ----

  /** Why verify reports a path of a tree. */
  predicate Flagged(repoId: string, key: Key, policy: Policy, tree: Tree, p: Path) {
    && p in tree
    && (|| (policy.matches(p) == Some(true) && OpenFile(repoId, p, key, tree[p]).None?)
        || (policy.backend.FileKey? && p == policy.keySource)
        || (p in policy.k8s && !K8s.LintsClean(tree[p], p, Some(key), policy.Allowed(p))))
  }

  /** Verify can judge the tree: no malformed pattern, and every manifest can be linted. */
  predicate Judgeable(policy: Policy, tree: Tree) {
    && (forall p :: p in tree ==> policy.matches(p).Some?)
    && (forall p :: p in policy.k8s && p in tree ==> K8s.Parses(tree[p]) && HasIdentity(tree[p].manifest))
  }

  /** Verify finds nothing wrong with the tree. */
  predicate Verifies(repoId: string, key: Key, policy: Policy, tree: Tree) {
    Judgeable(policy, tree) && forall p :: p in tree ==> !Flagged(repoId, key, policy, tree, p)
  }

  /**
   Verify finds nothing iff every selected file opens for its path in this repository, every manifest
   passes the authenticated lint, and the raw key is not in the tree.
   */
  lemma VerifiesMeans(repoId: string, key: Key, policy: Policy, tree: Tree)
    ensures Verifies(repoId, key, policy, tree) <==>
      && Judgeable(policy, tree)
      && (forall p :: p in tree && policy.matches(p) == Some(true) ==> OpenFile(repoId, p, key, tree[p]).Some?)
      && (forall p :: p in tree && p in policy.k8s ==> K8s.LintsClean(tree[p], p, Some(key), policy.Allowed(p)))
      && (policy.backend.FileKey? ==> policy.keySource !in tree)
  {
    if Verifies(repoId, key, policy, tree) {
      forall p | p in tree
        ensures policy.matches(p) == Some(true) ==> OpenFile(repoId, p, key, tree[p]).Some?
        ensures p in policy.k8s ==> K8s.LintsClean(tree[p], p, Some(key), policy.Allowed(p))
        ensures policy.backend.FileKey? ==> policy.keySource != p
      {
        assert !Flagged(repoId, key, policy, tree, p);
      }
    }
  }

  /** An allowlist is its own manifest's: plain values pass iff the config allows each of them for that very path. */
  lemma AllowlistIsPerManifest(policy: Policy, p: Path, m: Manifest, key: Option<Key>)
    requires m.stringData.Some? && HasIdentity(m) && forall e :: e in Entries(m) ==> e.value.Plain?
    ensures K8s.LintsClean(Doc(m), p, key, policy.Allowed(p)) <==>
            forall e :: e in Entries(m) ==> p in policy.plaintextKeys && e.name in policy.plaintextKeys[p]
  {
    K8s.PlainManifestIsCleanIff(p, m, key, policy.Allowed(p));
  }

  /** VerifyAtRevision: the reported paths, or an error for a malformed pattern or an unlintable manifest. */
  method VerifyTree(repoId: string, key: Key, policy: Policy, tree: Tree, listing: seq<Path>)
    returns (r: Option<seq<Path>>)
    requires forall p :: p in listing <==> p in tree
    ensures r.Some? <==> Judgeable(policy, tree)
    ensures r.None? <==>
      || (exists p :: p in tree && policy.matches(p).None?)
      || (exists p :: p in policy.k8s && p in tree && !(K8s.Parses(tree[p]) && HasIdentity(tree[p].manifest)))
    ensures r.Some? ==> forall p :: p in r.value <==> Flagged(repoId, key, policy, tree, p)
    ensures r == Some([]) <==> Verifies(repoId, key, policy, tree)
    ensures r == Some([]) ==>
      forall p :: p in tree && policy.matches(p) == Some(true) ==> OpenFile(repoId, p, key, tree[p]).Some?
  {
    var problems: seq<Path> := [];
    for n := 0 to |listing|
      invariant forall p :: p in listing[..n] ==> policy.matches(p).Some?
      invariant forall p :: p in problems <==>
        p in listing[..n] && policy.matches(p) == Some(true) && OpenFile(repoId, p, key, tree[p]).None?
    {
      var p := listing[n];
      assert p in listing && listing[..n + 1] == listing[..n] + [p];
      var matched := policy.matches(p);
      if matched.None? { return None; }
      if matched.value && OpenFile(repoId, p, key, tree[p]).None? {
        problems := problems + [p];
      }
    }
    assert listing[..|listing|] == listing;
    if policy.backend.FileKey? && policy.keySource in tree {
      problems := problems + [policy.keySource];
    }
    ghost var before := problems;
    for n := 0 to |policy.k8s|
      invariant forall p :: p in policy.k8s[..n] && p in tree ==> K8s.Parses(tree[p]) && HasIdentity(tree[p].manifest)
      invariant forall p :: p in problems <==>
        p in before ||
        (p in policy.k8s[..n] && p in tree && !K8s.LintsClean(tree[p], p, Some(key), policy.Allowed(p)))
    {
      var kp := policy.k8s[n];
      assert kp in policy.k8s && policy.k8s[..n + 1] == policy.k8s[..n] + [kp];
      if kp !in tree { continue; }
      var lint := K8s.LintManifest(tree[kp], kp, Some(key), policy.Allowed(kp));
      if lint.Err? { return None; }
      K8s.CleanIffNoProblems(lint.value, tree[kp], kp, Some(key), policy.Allowed(kp));
      if lint.value != [] { problems := problems + [kp]; }
    }
    assert policy.k8s[..|policy.k8s|] == policy.k8s;
    VerifiesMeans(repoId, key, policy, tree);
    if problems != [] { assert problems[0] in problems; }
    r := Some(problems);
  }

  /**
   A commit that pre-commit let through verifies: if the staged blobs that already carried the magic
   authenticate, no staged path of the resulting tree is flagged under the same config and key
   (except the raw key itself, which pre-commit does not look for).
   */
  lemma PreCommittedVerifies(repoId: string, key: Key, policy: Policy, staged: seq<Path>, was: Tree, now: Tree, p: Path)
    requires PreCommitted(repoId, key, policy, staged, was, now) && p in staged
    requires policy.matches(p) == Some(true) && IsEnvelope(was[p]) ==> OpenFile(repoId, p, key, was[p]).Some?
    ensures Flagged(repoId, key, policy, now, p) <==> policy.backend.FileKey? && p == policy.keySource
  {
    assert Selected(policy, p, now);
    assert StagedAs(repoId, key, policy, staged, p, was[p], now[p]);
  }

  /** Each entry the hook rewrote opens, for its own path, to exactly what had been staged. */
  lemma RewrittenOpensToStaged(repoId: string, key: Key, policy: Policy, staged: seq<Path>, was: Tree,
                               now: Tree, p: Path)
    requires Rewritten(repoId, key, policy, staged, was, now) && p in was
    ensures p in now && (now[p] != was[p] ==> OpenFile(repoId, p, key, now[p]) == Some(was[p]))
    ensures p !in staged || policy.matches(p) != Some(true) ==> now[p] == was[p]
  {
    assert StagedAs(repoId, key, policy, staged, p, was[p], now[p]);
  }
}
