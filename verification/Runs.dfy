/** Whole runs: any sequence of commands by anybody, with failures anywhere, between the user's own edits. */
module Runs {
  import opened Wrappers
  import opened Content
  import opened Lifecycle
  import opened Commands
  import opened Hooks

  datatype Action =
    | Lock
    | Unlock                       // also what post-checkout and post-merge do
    | RotateKeys
    | AddUser(recipient: Identity)
    | RemoveUser(recipient: Identity)
    | Init(requested: seq<Identity>)
    | PreCommit(policy: Policy, staged: seq<Path>)
    | EditFile(path: Path, content: Content)
    | GitAdd(path: Path)
    | ExportKey(key: Key)

  /** One command by somebody, on their machine. */
  datatype Turn = Turn(who: Caller, action: Action)

  /** A command line invocation: load the config afresh, then run the command; a failure just ends it. */
  method Invoke(fs: FileSystem, who: Caller, action: Action)
    requires fs.Valid() && Covered(fs.setup, who)
    modifies fs
    ensures fs.Valid() && fs.disk.dropped == old(fs.disk.dropped)
  {
    hide Legal, After, Safe, Moved, Readable, HoldsCiphertext;
    var ctx := Load(fs, who);
    if ctx == null { return; }
    match action {
      case Lock => var _, _ := ctx.Lock();
      case Unlock => var _, _ := ctx.Unlock();
      case RotateKeys => var _, _, _ := ctx.RotateCommand();
      case AddUser(recipient) => var _ := ctx.AddUser(recipient);
      case RemoveUser(recipient) => var _, _, _, _ := ctx.RemoveUser(recipient);
      case PreCommit(policy, staged) =>
        if forall p :: p in staged ==> p in fs.disk.index {
          var _ := HookPreCommit(ctx, policy, staged);
        }
      case _ =>
    }
  }

  /**
   One turn.  An edit is taken if the new content is plaintext or still opens with a known key, a
   file is staged if nothing in it is sealed under a key that does not exist yet.
   */
  method Perform(fs: FileSystem, turn: Turn)
    requires fs.Valid() && Covered(fs.setup, turn.who)
    modifies fs
    ensures fs.Valid() && (!turn.action.Init? ==> fs.disk.dropped == old(fs.disk.dropped))
  {
    hide Legal, After, Safe;
    match turn.action {
      case Init(requested) => var _, _ := InitKey(fs, turn.who, requested);
      case EditFile(p, content) =>
        if Managed(fs.setup, p) && PathReadable(fs.setup, fs.disk, p, content) {
          var _ := fs.Do(Edit(p, content));
        }
      case GitAdd(p) =>
        if p in fs.disk.work && SealedBefore(fs.disk.work[p], fs.disk.minted) {
          var _ := fs.Do(PutIndex(p, fs.disk.work[p]));
        }
      case ExportKey(key) =>
        if fs.setup.backend.EnvKey? && key in fs.disk.exported {
          var _ := fs.Do(SetVariable(key));
        }
      case _ => Invoke(fs, turn.who, turn.action);
    }
  }

  ghost predicate SafeThroughout(s: Setup, start: Disk, log: seq<Write>) {
    forall n: nat :: n <= |log| ==> Safe(s, After(start, log[..n]))
  }

  /** At every intermediate state the keys on disk opened every managed file. */
  ghost predicate OnDiskThroughout(s: Setup, start: Disk, log: seq<Write>) {
    forall n: nat :: n <= |log| ==> Readable(s, After(start, log[..n]), LiveKeys(After(start, log[..n])))
  }

  ghost predicate MeansWhatItMeant(s: Setup, start: Disk, log: seq<Write>, now: Disk, p: Path) {
    LastPlaintext(s, start, log, p) == if p in now.work then Some(Meaning(s, p, now.work[p])) else None
  }

  /** No key has been handed out, and none replaced by init. */
  predicate NothingAside(d: Disk) {
    d.exported == {} && d.dropped == {}
  }

  /**
   After any run from a safe state -- any commands, init included, by anybody on any machine, with any
   step failing -- every state the disk passed through was safe: each managed ciphertext opened with a
   known key, and only listed identities could unwrap those on disk.  Every managed file means what
   its user last made it mean.  With the file backend, and with gpg unless init is run again, the key
   at key_source and the one at key_source.new opened every managed file all along.
   */
  method RunAll(fs: FileSystem, turns: seq<Turn>)
    requires fs.Valid() && forall t :: t in turns ==> Covered(fs.setup, t.who)
    modifies fs
    ensures fs.Valid()
    ensures SafeThroughout(fs.setup, fs.start, fs.log)
    ensures forall p :: MeansWhatItMeant(fs.setup, fs.start, fs.log, fs.disk, p)
    ensures old(NothingAside(fs.disk)) && fs.setup.backend.FileKey? ==> OnDiskThroughout(fs.setup, fs.start, fs.log)
    ensures old(NothingAside(fs.disk)) && fs.setup.backend.GpgKey? && (forall t :: t in turns ==> !t.action.Init?) ==>
      OnDiskThroughout(fs.setup, fs.start, fs.log)
    ensures NothingAside(fs.disk) ==> OnDiskThroughout(fs.setup, fs.start, fs.log)
  {
    hide Legal, After, Safe, Readable, LastPlaintext, Meaning;
    HistoriesStay(fs.setup, fs.start, fs.log);
    for i := 0 to |turns|
      invariant fs.Valid()
      invariant (forall t :: t in turns ==> !t.action.Init?) ==> fs.disk.dropped == old(fs.disk.dropped)
    {
      assert turns[i] in turns;
      Perform(fs, turns[i]);
    }
    HistoriesStay(fs.setup, fs.start, fs.log);
    forall n: nat | n <= |fs.log| ensures Safe(fs.setup, After(fs.start, fs.log[..n])) {
      fs.EveryStateSafe(n);
    }
    if NothingAside(fs.disk) {
      forall n: nat | n <= |fs.log|
        ensures Readable(fs.setup, After(fs.start, fs.log[..n]), LiveKeys(After(fs.start, fs.log[..n])))
      {
        DiskKeysSuffice(fs.setup, fs.start, fs.log, n);
      }
    }
    forall p ensures MeansWhatItMeant(fs.setup, fs.start, fs.log, fs.disk, p) {
      LegalRunsKeepMeaning(fs.setup, fs.start, fs.log, p);
    }
  }
}
