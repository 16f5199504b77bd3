/** The pre-push hook's walk over the commits being pushed. */
module History {
  import opened Wrappers
  import opened Content
  import opened Lifecycle
  import opened Hooks
  import K8s = K8sValue

  type Oid = nat
  datatype Commit = Commit(parents: seq<Oid>, tree: Tree)
  type Store = map<Oid, Commit>

  /** Parents are present and older: commits form a DAG. */
  ghost predicate WellFormed(store: Store) {
    forall o :: o in store ==> forall i :: 0 <= i < |store[o].parents| ==>
      store[o].parents[i] in store && store[o].parents[i] < o
  }

  /** The config committed in a tree, merged with the machine's global one. */
  datatype ConfigAt = NoConfig | BadConfig | Governed(policy: Policy)
  type Configs = Tree -> ConfigAt

  // ---- git's answers ----

  predicate Reaches(store: Store, o: Oid, x: Oid)
    requires WellFormed(store) && o in store
    decreases o
  {
    x == o || exists i :: 0 <= i < |store[o].parents| && Reaches(store, store[o].parents[i], x)
  }

  lemma {:induction false} ReachesOlder(store: Store, o: Oid, x: Oid)
    requires WellFormed(store) && o in store && Reaches(store, o, x)
    ensures x in store && x <= o
    decreases o
  {
    if x != o {
      var i :| 0 <= i < |store[o].parents| && Reaches(store, store[o].parents[i], x);
      ReachesOlder(store, store[o].parents[i], x);
    }
  }

  lemma {:induction false} ReachesParent(store: Store, o: Oid, x: Oid, i: nat)
    requires WellFormed(store) && o in store && Reaches(store, o, x)
    requires x in store && i < |store[x].parents|
    ensures Reaches(store, o, store[x].parents[i])
    decreases o
  {
    if x == o {
      assert Reaches(store, store[o].parents[i], store[o].parents[i]);
    } else {
      var j :| 0 <= j < |store[o].parents| && Reaches(store, store[o].parents[j], x);
      ReachesParent(store, store[o].parents[j], x, i);
    }
  }

  /** A path was added or modified against at least one parent; everything is, in a root commit. */
  predicate Changed(store: Store, o: Oid, p: Path)
    requires WellFormed(store) && o in store && p in store[o].tree
  {
    || store[o].parents == []
    || exists i :: 0 <= i < |store[o].parents| && !SameAt(store[store[o].parents[i]].tree, store[o].tree, p)
  }

  predicate SameAt(parent: Tree, tree: Tree, p: Path)
    requires p in tree
  {
    p in parent && parent[p] == tree[p]
  }

  function ChangedPaths(store: Store, o: Oid): set<Path>
    requires WellFormed(store) && o in store
  {
    set p | p in store[o].tree && Changed(store, o, p)
  }

  /** Unchanged is what every parent has just so, and there is a parent; a removed path is not changed. */
  lemma ChangedPathsMean(store: Store, o: Oid, p: Path)
    requires WellFormed(store) && o in store
    ensures p !in ChangedPaths(store, o) <==>
            p !in store[o].tree ||
            (store[o].parents != [] &&
             forall q :: q in store[o].parents ==> p in store[q].tree && store[q].tree[p] == store[o].tree[p])
  {
    var parents := store[o].parents;
    if p in store[o].tree && !Changed(store, o, p) {
      forall q | q in parents ensures p in store[q].tree && store[q].tree[p] == store[o].tree[p] {
        var i :| 0 <= i < |parents| && parents[i] == q;
        assert SameAt(store[parents[i]].tree, store[o].tree, p);
      }
    }
  }

  /** One ref update; None stands for the all-zero object id. */
  datatype Update = Update(local: Option<Oid>, remote: Option<Oid>)

  /** rev-list remote..local, or everything reachable from local for a new ref. */
  predicate InRange(store: Store, u: Update, x: Oid)
    requires WellFormed(store) && Known(store, u)
  {
    u.local.Some? && Reaches(store, u.local.value, x) &&
    !(u.remote.Some? && Reaches(store, u.remote.value, x))
  }

  predicate Known(store: Store, u: Update) {
    (u.local.Some? ==> u.local.value in store) && (u.remote.Some? ==> u.remote.value in store)
  }

  lemma InRangeOlder(store: Store, u: Update, x: Oid)
    requires WellFormed(store) && Known(store, u) && InRange(store, u, x)
    ensures x in store && x <= u.local.value
  {
    ReachesOlder(store, u.local.value, x);
  }

  function RevList(store: Store, u: Update, upto: nat): (revs: seq<Oid>)
    requires WellFormed(store) && Known(store, u) && u.local.Some?
    ensures forall x: Oid :: x in revs <==> x < upto && InRange(store, u, x)
  {
    if upto == 0 then []
    else (if InRange(store, u, upto - 1) then [upto - 1] else []) + RevList(store, u, upto - 1)
  }

  // ---- what is checked ----

  /** The structural verdict on one path under one config. */
  predicate Sealed(policy: Policy, p: Path, content: Content) {
    if p in policy.k8s then K8s.LintsClean(content, p, None, policy.Allowed(p))
    else policy.matches(p) == Some(true) ==> ParsesAsEnvelope(content)
  }

  predicate RawKeyPath(policy: Policy, p: Path) {
    policy.backend.FileKey? && p == policy.keySource
  }

  predicate PathOk(policy: Policy, p: Path, content: Content) {
    Sealed(policy, p, content) && !RawKeyPath(policy, p)
  }

  /** The same rule, one disjunct for each way a changed path gets through. */
  predicate ChangedPathPasses(policy: Policy, p: Path, data: Content) {
    && (|| (p in policy.k8s && K8s.LintsClean(data, p, None, policy.Allowed(p)))
        || (p !in policy.k8s && policy.matches(p) == Some(false))
        || (p !in policy.k8s && policy.matches(p) == Some(true) && ParsesAsEnvelope(data)))
    && !(policy.backend == FileKey && policy.keySource == p)
  }

  lemma PassesIff(policy: Policy, p: Path, data: Content)
    ensures ChangedPathPasses(policy, p, data) <==>
            (p in policy.k8s || policy.matches(p).Some?) && PathOk(policy, p, data)
  {
    match policy.matches(p)
    case None =>
    case Some(selected) =>
  }

  /** verifyCommitStructurally accepts: no problem and no error among the changed paths. */
  predicate CommitOk(store: Store, configs: Configs, o: Oid)
    requires WellFormed(store) && o in store
  {
    ChangedPaths(store, o) == {} ||
    match configs(store[o].tree)
    case NoConfig => true
    case BadConfig => false
    case Governed(policy) =>
      forall p :: p in ChangedPaths(store, o) ==>
        (p in policy.k8s || policy.matches(p).Some?) && PathOk(policy, p, store[o].tree[p])
  }

  method VerifyCommitStructurally(store: Store, configs: Configs, o: Oid) returns (ok: bool)
    requires WellFormed(store) && o in store
    ensures ok <==> CommitOk(store, configs, o)
    // case by case: nothing changed, no config, a config that does not load, and each changed path by its rule
    ensures ChangedPaths(store, o) == {} || configs(store[o].tree).NoConfig? ==> ok
    ensures ChangedPaths(store, o) != {} && configs(store[o].tree).BadConfig? ==> !ok
    ensures configs(store[o].tree).Governed? ==>
      var policy := configs(store[o].tree).policy;
      ok <==> forall p :: p in ChangedPaths(store, o) ==> ChangedPathPasses(policy, p, store[o].tree[p])
  {
    hide ChangedPathPasses;
    forall policy, p, data { PassesIff(policy, p, data); }
    var todo := ChangedPaths(store, o);
    if todo == {} { return true; }
    match configs(store[o].tree) {
      case NoConfig => return true;
      case BadConfig => return false;
      case Governed(policy) =>
        ok := true;
        while todo != {}
          invariant todo <= ChangedPaths(store, o)
          invariant ok <==> forall p :: p in ChangedPaths(store, o) - todo ==>
            (p in policy.k8s || policy.matches(p).Some?) && PathOk(policy, p, store[o].tree[p])
          decreases |todo|
        {
          var p :| p in todo;
          todo := todo - {p};
          var data := store[o].tree[p];
          if p in policy.k8s {
            var lint := K8s.LintManifest(data, p, None, policy.Allowed(p));
            if lint.Ok? {
              K8s.CleanIffNoProblems(lint.value, data, p, None, policy.Allowed(p));
            }
            if lint.Err? || lint.value != [] { ok := false; }
          } else {
            var matched := policy.matches(p);
            if matched.None? || (matched.value && !ParsesAsEnvelope(data)) { ok := false; }
          }
          if policy.backend.FileKey? && p == policy.keySource { ok := false; }
        }
    }
  }

  // ---- the hook ----

  /** Every commit the remote lacks passes. */
  predicate UpdateOk(store: Store, configs: Configs, u: Update)
    requires WellFormed(store) && u.local.Some?
  {
    Known(store, u) && forall x :: x in store && InRange(store, u, x) ==> CommitOk(store, configs, x)
  }

  /** The commit HEAD names (None before the first one), and the repository id and key of the checkout. */
  datatype Checkout = Checkout(head: Option<Oid>, repoId: string, key: Option<Key>)

  predicate HeadKnown(store: Store, co: Checkout) {
    co.head.Some? ==> co.head.value in store
  }

  /** Verify at HEAD: nothing to enforce, or the key is at hand and the whole tree authenticates. */
  predicate HeadVerifies(store: Store, configs: Configs, co: Checkout)
    requires HeadKnown(store, co)
  {
    co.head.None? ||
    match configs(store[co.head.value].tree)
    case NoConfig => true
    case BadConfig => false
    case Governed(policy) => co.key.Some? && Verifies(co.repoId, co.key.value, policy, store[co.head.value].tree)
  }

  method VerifyHead(store: Store, configs: Configs, co: Checkout) returns (ok: bool)
    requires HeadKnown(store, co)
    ensures ok <==> HeadVerifies(store, configs, co)
    ensures co.head.None? ==> ok
    ensures co.head.Some? ==>
      var tree := store[co.head.value].tree;
      match configs(tree)
      case NoConfig => ok
      case BadConfig => !ok
      case Governed(policy) => ok <==> co.key.Some? && Verifies(co.repoId, co.key.value, policy, tree)
  {
    if co.head.None? { return true; }
    var tree := store[co.head.value].tree;
    match configs(tree) {
      case NoConfig => return true;
      case BadConfig => return false;
      case Governed(policy) =>
        if co.key.None? { return false; }
        var listing := ListTree(tree);
        var problems := VerifyTree(co.repoId, co.key.value, policy, tree, listing);
        ok := problems.Some? && problems.value == [];
        if problems.Some? && !ok {
          assert problems.value[0] in problems.value;
        }
    }
  }

  method ListTree(tree: Tree) returns (listing: seq<Path>)
    ensures forall p :: p in listing <==> p in tree
  {
    listing := [];
    var todo := tree.Keys;
    while todo != {}
      invariant todo <= tree.Keys
      invariant forall p :: p in listing <==> p in tree && p !in todo
      decreases |todo|
    {
      var p :| p in todo;
      todo := todo - {p};
      listing := listing + [p];
    }
  }

  predicate Accepts(store: Store, configs: Configs, co: Checkout, updates: seq<Update>)
    requires WellFormed(store) && HeadKnown(store, co)
  {
    HeadVerifies(store, configs, co) && forall u :: u in updates && u.local.Some? ==> UpdateOk(store, configs, u)
  }

  /** HookPrePush: HEAD verified with authentication, and every commit of every pushed range checked once. */
  method HookPrePush(store: Store, configs: Configs, co: Checkout, updates: seq<Update>) returns (accepted: bool)
    requires WellFormed(store) && HeadKnown(store, co)
    ensures accepted <==> Accepts(store, configs, co, updates)
  {
    var head := VerifyHead(store, configs, co);
    var seen: set<Oid> := {};
    accepted := head;
    for n := 0 to |updates|
      invariant accepted <==> head && forall u :: u in updates[..n] && u.local.Some? ==> UpdateOk(store, configs, u)
      invariant accepted ==> forall x :: x in seen ==> x in store && CommitOk(store, configs, x)
      invariant forall u :: u in updates[..n] && u.local.Some? ==> Known(store, u)
    {
      var u := updates[n];
      assert updates[..n + 1] == updates[..n] + [u];
      if u.local.None? { continue; }
      if !Known(store, u) {
        assert u in updates;
        return false;
      }
      var ok;
      ok, seen := CheckRange(store, configs, u, seen, accepted);
      accepted := ok;
    }
    assert updates[..|updates|] == updates;
  }

  /** One update's range, skipping commits another update already covered. */
  method CheckRange(store: Store, configs: Configs, u: Update, seen0: set<Oid>, sofar: bool)
    returns (ok: bool, seen: set<Oid>)
    requires WellFormed(store) && u.local.Some? && Known(store, u)
    requires sofar ==> forall x :: x in seen0 ==> x in store && CommitOk(store, configs, x)
    ensures ok <==> sofar && UpdateOk(store, configs, u)
    ensures ok ==> forall x :: x in seen ==> x in store && CommitOk(store, configs, x)
  {
    hide CommitOk, InRange, Reaches, RevList;
    ok, seen := sofar, seen0;
    var revs := RevList(store, u, u.local.value + 1);
    for n := 0 to |revs|
      invariant forall x :: x in revs[..n] ==> x in store
      invariant ok <==> sofar && forall x :: x in revs[..n] ==> CommitOk(store, configs, x)
      invariant ok ==> forall x :: x in seen ==> x in store && CommitOk(store, configs, x)
    {
      var rev := revs[n];
      assert revs[..n + 1] == revs[..n] + [rev] && rev in revs;
      InRangeOlder(store, u, rev);
      if rev in seen { continue; }
      seen := seen + {rev};
      var good := VerifyCommitStructurally(store, configs, rev);
      ok := ok && good;
    }
    assert revs[..|revs|] == revs;
    forall x | x in store && InRange(store, u, x) ensures x in revs {
      InRangeOlder(store, u, x);
    }
  }

  // ---- what acceptance means for single commits ----

  /**
   If a push is accepted and HEAD is governed, the key is at hand and opens every selected file of
   HEAD for its path, every manifest of HEAD passes the authenticated lint, and the raw key is not
   in it.
   */
  lemma AcceptedHeadAuthenticates(store: Store, configs: Configs, co: Checkout, updates: seq<Update>)
    requires WellFormed(store) && HeadKnown(store, co) && Accepts(store, configs, co, updates) && co.head.Some?
    ensures var tree := store[co.head.value].tree;
            !configs(tree).BadConfig? &&
            (configs(tree).Governed? ==>
              var policy := configs(tree).policy;
              && co.key.Some?
              && (forall p :: p in tree ==> policy.matches(p).Some?)
              && (forall p :: p in tree && policy.matches(p) == Some(true) ==>
                    OpenFile(co.repoId, p, co.key.value, tree[p]).Some?)
              && (forall p :: p in tree && p in policy.k8s ==>
                    K8s.LintsClean(tree[p], p, co.key, policy.Allowed(p)))
              && (policy.backend == FileKey ==> policy.keySource !in tree))
  {
    var tree := store[co.head.value].tree;
    if configs(tree).Governed? { VerifiesMeans(co.repoId, co.key.value, configs(tree).policy, tree); }
  }

  /** And a commit the remotes lack that changes anything has no config, or one that loads and passes its changes. */
  lemma AcceptedCommitsPass(store: Store, configs: Configs, co: Checkout, updates: seq<Update>, u: Update, x: Oid)
    requires WellFormed(store) && HeadKnown(store, co) && Accepts(store, configs, co, updates)
    requires u in updates && u.local.Some? && x in store && Known(store, u) && InRange(store, u, x)
    requires ChangedPaths(store, x) != {}
    ensures !configs(store[x].tree).BadConfig?
    ensures configs(store[x].tree).Governed? ==>
      forall p :: p in ChangedPaths(store, x) ==>
        ChangedPathPasses(configs(store[x].tree).policy, p, store[x].tree[p])
  {
    assert CommitOk(store, configs, x);
    if configs(store[x].tree).Governed? {
      var policy := configs(store[x].tree).policy;
      forall p | p in ChangedPaths(store, x) ensures ChangedPathPasses(policy, p, store[x].tree[p]) {
        PassesIff(policy, p, store[x].tree[p]);
      }
    }
  }

  /**
   A clean tree has every selected file an envelope that parses, every manifest clean by the lint
   without a key, and no raw key.
   */
  lemma CleanTreeMeans(configs: Configs, tree: Tree)
    requires configs(tree).Governed?
    ensures var policy := configs(tree).policy;
            TreeClean(configs, tree) <==>
              && (forall p :: p in tree && p in policy.k8s ==> K8s.LintsClean(tree[p], p, None, policy.Allowed(p)))
              && (forall p :: p in tree && p !in policy.k8s && policy.matches(p) == Some(true) ==>
                    ParsesAsEnvelope(tree[p]))
              && (policy.backend == FileKey ==> policy.keySource !in tree)
  {
    var policy := configs(tree).policy;
    if TreeClean(configs, tree) {
      forall p | p in tree ensures PathOk(policy, p, tree[p]) {}
    }
  }

  // ---- what acceptance means for whole trees ----

  /** Everything a tree's own config protects is sealed in that tree, and the raw key is not in it. */
  predicate TreeClean(configs: Configs, tree: Tree) {
    configs(tree).Governed? ==> forall p :: p in tree ==> PathOk(configs(tree).policy, p, tree[p])
  }

  /** A parent's config already held p to a rule at least as strict as the child's. */
  predicate Vouches(parent: Policy, child: Policy, p: Path) {
    && (p in child.k8s ==> p in parent.k8s && forall k :: k in parent.Allowed(p) ==> k in child.Allowed(p))
    && (p !in child.k8s && child.matches(p) == Some(true) ==> p !in parent.k8s && parent.matches(p) == Some(true))
    && (RawKeyPath(child, p) ==> RawKeyPath(parent, p))
  }

  /** p came unchanged from every parent, and this commit's config protects it as no parent's did. */
  predicate NewlyProtected(store: Store, configs: Configs, o: Oid, p: Path)
    requires WellFormed(store) && o in store
  {
    && p in store[o].tree && !Changed(store, o, p)
    && configs(store[o].tree).Governed?
    && !exists i :: 0 <= i < |store[o].parents| &&
         configs(store[store[o].parents[i]].tree).Governed? &&
         Vouches(configs(store[store[o].parents[i]].tree).policy, configs(store[o].tree).policy, p)
  }

  /** What a commit newly protects is already sealed. */
  predicate WideningOk(store: Store, configs: Configs, o: Oid)
    requires WellFormed(store) && o in store
  {
    forall p :: p in store[o].tree && NewlyProtected(store, configs, o, p) ==>
      PathOk(configs(store[o].tree).policy, p, store[o].tree[p])
  }

  lemma VouchedIsOk(parent: Policy, child: Policy, p: Path, content: Content)
    requires Vouches(parent, child, p) && PathOk(parent, p, content)
    ensures PathOk(child, p, content)
  {
    if p in child.k8s {
      forall i | 0 <= i < |Entries(content.manifest)|
        ensures K8s.Verdict(p, content.manifest.id, None, child.Allowed(p), Entries(content.manifest)[i]).None?
      {
        assert K8s.Verdict(p, content.manifest.id, None, parent.Allowed(p), Entries(content.manifest)[i]).None?;
      }
    }
  }

  /** One commit: its changed paths are checked, the others inherit a parent's verdict or are newly protected. */
  lemma CommitIsClean(store: Store, configs: Configs, o: Oid)
    requires WellFormed(store) && o in store && CommitOk(store, configs, o)
    requires forall i :: 0 <= i < |store[o].parents| ==> TreeClean(configs, store[store[o].parents[i]].tree)
    ensures TreeClean(configs, store[o].tree) <==> WideningOk(store, configs, o)
  {
    var tree := store[o].tree;
    if configs(tree).Governed? && WideningOk(store, configs, o) {
      var policy := configs(tree).policy;
      forall p | p in tree ensures PathOk(policy, p, tree[p]) {
        if Changed(store, o, p) {
          assert p in ChangedPaths(store, o);
        } else if !NewlyProtected(store, configs, o, p) {
          var i :| 0 <= i < |store[o].parents| &&
            configs(store[store[o].parents[i]].tree).Governed? &&
            Vouches(configs(store[store[o].parents[i]].tree).policy, policy, p);
          assert SameAt(store[store[o].parents[i]].tree, tree, p);
          VouchedIsOk(configs(store[store[o].parents[i]].tree).policy, policy, p, tree[p]);
        }
      }
    }
  }

  ghost predicate BaseClean(store: Store, configs: Configs, updates: seq<Update>)
    requires WellFormed(store)
  {
    forall u, x :: u in updates && Known(store, u) && u.remote.Some? && x in store ==>
      Reaches(store, u.remote.value, x) ==> TreeClean(configs, store[x].tree)
  }

  /** The authenticated check is the stronger one: a tree verify finds nothing wrong with is clean. */
  lemma VerifiedTreeIsClean(configs: Configs, repoId: string, key: Key, tree: Tree)
    requires configs(tree).Governed? && Verifies(repoId, key, configs(tree).policy, tree)
    ensures TreeClean(configs, tree)
  {
    var policy := configs(tree).policy;
    forall p | p in tree ensures PathOk(policy, p, tree[p]) {
      assert !Flagged(repoId, key, policy, tree, p);
      if p in policy.k8s {
        var m := tree[p].manifest;
        forall i | 0 <= i < |Entries(m)| ensures K8s.Verdict(p, m.id, None, policy.Allowed(p), Entries(m)[i]).None? {
          K8s.StructuralLintIsWeaker(p, m, key, policy.Allowed(p), Entries(m)[i]);
          assert K8s.Verdict(p, m.id, Some(key), policy.Allowed(p), Entries(m)[i]).None?;
        }
      }
    }
  }

  /**
   The guarantee of pre-push, by induction over the commit graph: only changed paths are looked at,
   yet if the push is accepted and everything the remote already has is clean, then every whole tree
   reachable from a pushed ref is clean -- as long as no commit in between, HEAD excepted, starts to
   protect an unchanged path that is not sealed.
   */
  lemma {:induction false} AcceptedPushIsClean(store: Store, configs: Configs, co: Checkout, updates: seq<Update>,
                                               u: Update, x: Oid)
    requires WellFormed(store) && HeadKnown(store, co)
    requires Accepts(store, configs, co, updates) && BaseClean(store, configs, updates)
    requires u in updates && u.local.Some? && x in store && Reaches(store, u.local.value, x)
    requires forall y :: y in store && y <= x && InRange(store, u, y) && co.head != Some(y) ==>
      WideningOk(store, configs, y)
    ensures TreeClean(configs, store[x].tree)
    decreases x
  {
    if co.head == Some(x) {
      if configs(store[x].tree).Governed? {
        VerifiedTreeIsClean(configs, co.repoId, co.key.value, store[x].tree);
      }
    } else if InRange(store, u, x) {
      ReachesOlder(store, u.local.value, x);
      forall i | 0 <= i < |store[x].parents| ensures TreeClean(configs, store[store[x].parents[i]].tree) {
        ReachesParent(store, u.local.value, x, i);
        AcceptedPushIsClean(store, configs, co, updates, u, store[x].parents[i]);
      }
      CommitIsClean(store, configs, x);
    }
  }

  /** The condition is exact: every pushed tree is clean iff no commit of the range but HEAD widens over plaintext. */
  lemma AcceptedPushIsCleanIff(store: Store, configs: Configs, co: Checkout, updates: seq<Update>, u: Update)
    requires WellFormed(store) && HeadKnown(store, co)
    requires Accepts(store, configs, co, updates) && BaseClean(store, configs, updates)
    requires u in updates && u.local.Some?
    ensures (forall x :: x in store && Reaches(store, u.local.value, x) ==> TreeClean(configs, store[x].tree)) <==>
            (forall y :: y in store && InRange(store, u, y) && co.head != Some(y) ==> WideningOk(store, configs, y))
  {
    if forall y :: y in store && InRange(store, u, y) && co.head != Some(y) ==> WideningOk(store, configs, y) {
      forall x | x in store && Reaches(store, u.local.value, x) ensures TreeClean(configs, store[x].tree) {
        AcceptedPushIsClean(store, configs, co, updates, u, x);
      }
    }
    if forall x :: x in store && Reaches(store, u.local.value, x) ==> TreeClean(configs, store[x].tree) {
      forall y | y in store && InRange(store, u, y) ensures WideningOk(store, configs, y) {
        assert TreeClean(configs, store[y].tree);
      }
    }
  }

  // A two-commit history whose second commit only adds a pattern.

  const PLAINTEXT: Tree := map["secret" := Raw([]), "config" := Raw([])]
  const PLAINTEXT_NOW_MATCHED: Tree := map["secret" := Raw([]), "config" := Raw([1])]
  const WIDENING: Store := map[0 := Commit([], PLAINTEXT), 1 := Commit([0], PLAINTEXT_NOW_MATCHED)]

  function WideningConfigs(t: Tree): ConfigAt {
    var protects := "config" in t && t["config"] == Raw([1]);
    Governed(Policy(p => Some(protects && p == "secret"), [], map[], GpgKey, "key"))
  }

  lemma ExampleCommitPasses()
    ensures WellFormed(WIDENING) && CommitOk(WIDENING, WideningConfigs, 1)
    ensures !TreeClean(WideningConfigs, WIDENING[1].tree) && TreeClean(WideningConfigs, WIDENING[0].tree)
  {
    assert SameAt(PLAINTEXT, PLAINTEXT_NOW_MATCHED, "secret");
    assert !Changed(WIDENING, 1, "secret");
    assert forall p :: p in ChangedPaths(WIDENING, 1) ==> p == "config";
    assert !PathOk(WideningConfigs(PLAINTEXT_NOW_MATCHED).policy, "secret", Raw([]));
  }

  lemma ExampleRange(x: Oid)
    requires x in WIDENING
    ensures WellFormed(WIDENING)
    ensures InRange(WIDENING, Update(Some(1), Some(0)), x) ==> x == 1
    ensures Reaches(WIDENING, 0, x) ==> x == 0
  {
    assert Reaches(WIDENING, 0, 0);
  }

  /**
   And it is needed: a branch other than HEAD whose last commit only adds a pattern is accepted, key
   at hand and HEAD verified, over old plaintext it now protects.
   */
  lemma WideningOverPlaintextIsAccepted()
    ensures WellFormed(WIDENING)
    ensures var u, co := Update(Some(1), Some(0)), Checkout(Some(0), "repo", Some(0));
            && HeadKnown(WIDENING, co) && Accepts(WIDENING, WideningConfigs, co, [u])
            && BaseClean(WIDENING, WideningConfigs, [u]) && !TreeClean(WideningConfigs, WIDENING[1].tree)
  {
    ExampleCommitPasses();
    ExampleHeadVerifies();
    hide CommitOk, TreeClean, InRange, Reaches, HeadVerifies;
    forall x: Oid | x in WIDENING { ExampleRange(x); }
  }

  lemma ExampleHeadVerifies()
    ensures HeadVerifies(WIDENING, WideningConfigs, Checkout(Some(0), "repo", Some(0)))
  {
    assert !("config" in PLAINTEXT && PLAINTEXT["config"] == Raw([1]));
  }

  /** Were HEAD the tip of that branch, the same push would be refused, whatever the key. */
  lemma WideningAtHeadIsRefused(key: Option<Key>, updates: seq<Update>)
    ensures var co := Checkout(Some(1), "repo", key);
            WellFormed(WIDENING) && HeadKnown(WIDENING, co) && !Accepts(WIDENING, WideningConfigs, co, updates)
  {
    var policy := WideningConfigs(PLAINTEXT_NOW_MATCHED).policy;
    if key.Some? {
      assert Flagged("repo", key.value, policy, PLAINTEXT_NOW_MATCHED, "secret");
    }
  }
}
