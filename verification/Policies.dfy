/** What a loaded config means to the commands and hooks. */
module Policies {
  import opened Wrappers
  import opened Content
  import opened Lifecycle
  import Commands
  import Config
  import Glob
  import Hooks
  import K8s = K8sValue
  import Lists

  function BackendOf(name: string): Backend {
    if name == "gpg" then GpgKey else if name == "env" then EnvKey else FileKey
  }

  /** The policy the hooks and verify enforce for a config. */
  function PolicyOf(m: Glob.Matcher, c: Config.Config): Hooks.Policy {
    Hooks.Policy(p => Config.Selects(m, c, p), c.k8sSecretPaths, c.k8sPlaintextKeys, BackendOf(c.keyBackend),
                 c.keySource)
  }

  /** The recipients commands load are those of the merged config, with a global file or without one. */
  lemma MergedIsLayered(global: Config.Config, repo: Config.Config, legacy: bool, d: Disk)
    requires d.recipients == Some(repo.gpgRecipients)
    ensures Commands.Merged(global.gpgRecipients, d) == Config.Layered(Some(global), repo, legacy).gpgRecipients
    ensures Commands.Merged([], d) == Config.Layered(None, repo, legacy).gpgRecipients
  {
    hide Lists.Dedup;
    var none: seq<string> := [];
    assert none + global.gpgRecipients == global.gpgRecipients && none + repo.gpgRecipients == repo.gpgRecipients;
    Lists.DedupTwice(global.gpgRecipients, repo.gpgRecipients);
  }

  /** A config that validates has recipients a command can be run with, and the backend it names. */
  lemma ValidatedCanRun(m: Glob.Matcher, c: Config.Config, s: Setup)
    requires Config.Validates(m, c) && s.backend == BackendOf(c.keyBackend)
    ensures Commands.ValidRecipients(s, c.gpgRecipients)
    ensures c.keyBackend == match s.backend case FileKey => "file" case EnvKey => "env" case GpgKey => "gpg"
  {}

  /** With the file backend verify flags the raw key wherever the config says it is. */
  lemma RawKeyIsFlagged(m: Glob.Matcher, c: Config.Config, repoId: string, key: Key, tree: Hooks.Tree)
    requires Config.Validates(m, c) && c.keySource in tree
    requires forall p :: p in tree ==> Config.Selects(m, c, p) == Some(false) && p !in c.k8sSecretPaths
    ensures Hooks.Verifies(repoId, key, PolicyOf(m, c), tree) <==> c.keyBackend != "file"
  {
    Hooks.VerifiesMeans(repoId, key, PolicyOf(m, c), tree);
  }

  /** With well-formed patterns no path is an error, and exactly the paths of the pattern language are selected. */
  lemma PolicySelects(m: Glob.Matcher, c: Config.Config, p: Path)
    requires Config.PatternsWellFormed(m, c.patterns) && Config.PatternsWellFormed(m, c.exclude)
    ensures PolicyOf(m, c).matches(p) ==
      Some(Config.SomePatternTakes(m, c.patterns, p) && !Config.SomePatternTakes(m, c.exclude, p))
  {
    Config.SelectsMeans(m, c, p);
  }

  /**
   A machine's global config cannot weaken what verify enforces of a repository: with well-formed
   global patterns, a path it flags without the global file is flagged with it, the raw key apart,
   whose place a global file may name if the repository does not.
   */
  lemma GlobalCannotHide(m: Glob.Matcher, global: Config.Config, repo: Config.Config, legacy: bool, repoId: string,
                         key: Key, tree: Hooks.Tree, p: Path)
    requires Config.PatternsWellFormed(m, global.patterns)
    requires Hooks.Flagged(repoId, key, PolicyOf(m, Config.Layered(None, repo, legacy)), tree, p)
    ensures
      || Hooks.Flagged(repoId, key, PolicyOf(m, Config.Layered(Some(global), repo, legacy)), tree, p)
      || (p == Config.Layered(None, repo, legacy).keySource && (repo.keySource == "" || repo.keyBackend == ""))
  {
    var alone, merged := Config.Layered(None, repo, legacy), Config.Layered(Some(global), repo, legacy);
    Config.LayeredLists(None, repo, legacy);
    Config.LayeredLists(Some(global), repo, legacy);
    if Config.Selects(m, alone, p) == Some(true) {
      Config.WellFormedGlobalWidens(m, global, repo, legacy, p);
    }
    Config.ScalarPrecedence(global, repo, legacy);
    hide Config.Selects, K8s.LintsClean, Lists.Dedup;
  }
}
