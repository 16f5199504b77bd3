/**
 The repository key's life as a machine of single durable writes.

 A command is a sequence of writes, any of which may fail or be the last one before a crash, so a
 state a command can leave behind is the state after some prefix of its writes.  Allowed says when
 each write may happen; the commands are proved to respect it (module Commands), and the lemmas
 here prove what every run of allowed writes keeps.
 */
module Lifecycle {
  import opened Wrappers
  import opened Content

  datatype Backend = FileKey | GpgKey | EnvKey

  /**
   What commands do not change: the repository id, the managed paths, and the recipients the global
   configs name.  A global config belongs to a machine; global is everything any of them lists.
   */
  datatype Setup = Setup(repoId: string, whole: seq<Path>, manifests: seq<Path>, backend: Backend,
                         global: seq<Identity>)

  /** Key material at rest and, for gpg, the identities it is wrapped to. */
  datatype KeyFile = KeyFile(key: Key, readers: set<Identity>)

  /**
   Durable state: worktree, index and its skip-worktree bits, key_source, key_source.new, the temp
   files of a staged rewrap, the committed gpg_recipients (None before there is a config), and the
   number of keys ever generated, which is also the next fresh key.  For the env backend key_source
   is the variable.  Two histories are kept beside it: the keys handed to the caller instead of being
   written, and the keys init replaced.
   */
  datatype Disk = Disk(work: map<Path, Content>, index: map<Path, Content>, skip: set<Path>,
                       keySource: Option<KeyFile>, staging: Option<KeyFile>, temps: set<KeyFile>,
                       recipients: Option<seq<Identity>>, minted: nat, exported: set<Key>, dropped: set<Key>)

  datatype Write =
    | PutFile(path: Path, content: Content)
    | PutIndex(path: Path, content: Content)
    | SetSkip(path: Path, skip: bool)
    | Stage(file: KeyFile)
    | Unstage
    | Promote
    | StageTemp(file: KeyFile)
    | DropTemp(file: KeyFile)
    | PromoteTemp(file: KeyFile)
    | SaveConfig(recipients: seq<Identity>)
    | FirstKey(file: KeyFile)
    | Mint                         // key material handed to the caller, never written (env backend)
    | Edit(path: Path, content: Content)  // the user's own change to a managed file
    | SetVariable(key: Key)               // the user exports a key the env backend handed out

  /** The recipients a list names; the merge drops empty strings. */
  function SetOf(ids: seq<Identity>): set<Identity> {
    set x | x in ids && x != ""
  }

  function Apply(d: Disk, w: Write): Disk {
    match w
    case PutFile(p, c) => d.(work := d.work[p := c])
    case PutIndex(p, c) => d.(index := d.index[p := c], skip := d.skip - {p})
    case SetSkip(p, b) => d.(skip := if b then d.skip + {p} else d.skip - {p})
    case Stage(f) => d.(staging := Some(f), minted := d.minted + 1)
    case Unstage => d.(staging := None)
    case Promote => d.(keySource := d.staging, staging := None)
    case StageTemp(f) => d.(temps := d.temps + {f})
    case DropTemp(f) => d.(temps := d.temps - {f})
    case PromoteTemp(f) => d.(keySource := Some(f), temps := d.temps - {f})
    case SaveConfig(rs) => d.(recipients := Some(rs))
    case FirstKey(f) => d.(keySource := Some(f), minted := d.minted + 1, dropped := d.dropped + KeyOf(d.keySource))
    case Mint => d.(minted := d.minted + 1, exported := d.exported + {d.minted})
    case Edit(p, c) => d.(work := d.work[p := c])
    case SetVariable(k) => d.(keySource := Some(KeyFile(k, {})), exported := d.exported + KeyOf(d.keySource))
  }

  // ---- state predicates ----

  function KeyOf(f: Option<KeyFile>): set<Key> {
    if f.Some? then {f.value.key} else {}
  }

  function LiveKeys(d: Disk): set<Key> {
    KeyOf(d.keySource) + KeyOf(d.staging)
  }

  /** The keys on disk, those handed out and those init replaced. */
  function KnownKeys(d: Disk): set<Key> {
    LiveKeys(d) + d.exported + d.dropped
  }

  /** Every managed file is readable with the given keys. */
  predicate Readable(s: Setup, d: Disk, keys: set<Key>) {
    && (forall p :: p in s.whole && p in d.work ==> FileReadable(s.repoId, p, d.work[p], keys))
    && (forall p :: p in s.manifests && p in d.work ==> ManifestReadable(p, d.work[p], keys))
  }

  predicate PathReadable(s: Setup, d: Disk, p: Path, c: Content) {
    && (p in s.whole ==> FileReadable(s.repoId, p, c, KnownKeys(d)))
    && (p in s.manifests ==> ManifestReadable(p, c, KnownKeys(d)))
  }

  predicate Managed(s: Setup, p: Path) {
    p in s.whole || p in s.manifests
  }

  /** A path is managed as a whole file or value by value, never both. */
  predicate Disjoint(s: Setup) {
    forall p :: p in s.whole ==> p !in s.manifests
  }

  function Readers(f: Option<KeyFile>): set<Identity> {
    if f.Some? then f.value.readers else {}
  }

  function Committed(d: Disk): set<Identity> {
    if d.recipients.Some? then SetOf(d.recipients.value) else {}
  }

  /** The effective gpg_recipients, on any machine: the global lists together with the committed one. */
  function Effective(s: Setup, d: Disk): set<Identity> {
    SetOf(s.global) + Committed(d)
  }

  predicate AccessListed(s: Setup, d: Disk) {
    s.backend.GpgKey? ==> Readers(d.keySource) + Readers(d.staging) <= Effective(s, d)
  }

  /** c is sealed, or holds a value that is sealed, under a key generated before the given one. */
  predicate SealedBefore(c: Content, key: Key) {
    && (c.Envelope? ==> c.key < key)
    && (c.Doc? ==> forall e :: e in Entries(c.manifest) ==> ValueSealedBefore(e.value, key))
  }

  predicate ValueSealedBefore(v: Scalar, key: Key) {
    v.Cipher? && v.blob.Envelope? ==> v.blob.key < key
  }

  /** No key is known, and nothing in the index sealed under one, that has not been generated. */
  predicate Bounded(d: Disk) {
    && (forall k :: k in KnownKeys(d) ==> k < d.minted)
    && forall p :: p in d.index ==> SealedBefore(d.index[p], d.minted)
  }

  predicate Safe(s: Setup, d: Disk) {
    Readable(s, d, KnownKeys(d)) && AccessListed(s, d) && Bounded(d)
  }

  /** What a managed path holds, keys aside: a whole file without its envelope, a manifest with bare values. */
  function Meaning(s: Setup, p: Path, c: Content): Content {
    if p in s.manifests then
      if c.Doc? then Doc(ClearManifest(c.manifest)) else c
    else Clear(c)
  }

  // ---- the guard of each write ----

  predicate MayWrap(s: Setup, d: Disk, f: KeyFile) {
    s.backend.GpgKey? ==> f.readers <= Effective(s, d)
  }

  predicate Allowed(s: Setup, d: Disk, w: Write) {
    match w
    case PutFile(p, c) =>
      Managed(s, p) && p in d.work && Meaning(s, p, c) == Meaning(s, p, d.work[p]) && PathReadable(s, d, p, c)
    case PutIndex(_, c) => SealedBefore(c, d.minted)
    case SetSkip(_, _) => true
    case Stage(f) =>
      // key_source.new may be overwritten only while nothing depends on it
      Readable(s, d, KeyOf(d.keySource)) && f.key == d.minted && MayWrap(s, d, f)
    case Unstage => Readable(s, d, KeyOf(d.keySource))
    case Promote => d.staging.Some? && Readable(s, d, KeyOf(d.staging))
    case StageTemp(_) => true
    case DropTemp(_) => true
    case PromoteTemp(f) =>
      f in d.temps && d.keySource.Some? && f.key == d.keySource.value.key && MayWrap(s, d, f)
    case SaveConfig(rs) => AccessListed(s, d.(recipients := Some(rs)))
    case FirstKey(f) =>
      // a key file is looked up by its path; only gpg can find one and not have a key
      f.key == d.minted && MayWrap(s, d, f) && !s.backend.EnvKey? && (s.backend.FileKey? ==> d.keySource.None?)
    case Mint => s.backend.EnvKey?
    case Edit(p, c) => Managed(s, p) && PathReadable(s, d, p, c)
    case SetVariable(k) => s.backend.EnvKey? && k in d.exported
  }

  /** Where a rotation moves a managed file: the same meaning, sealed under the new key. */
  function MovedContent(s: Setup, key: Key, p: Path, c: Content): Content {
    if p in s.manifests then
      if c.Doc? then Doc(Reseal(p, c.manifest, key)) else c
    else SealFile(s.repoId, p, key, Clear(c))
  }

  /** What a rotation writes is sealed under the new key and no other. */
  lemma MovedContentIsSealedUnder(s: Setup, key: Key, p: Path, c: Content, minted: Key)
    requires Disjoint(s) && Managed(s, p) && (p in s.manifests ==> c.Doc?) && key < minted
    ensures SealedBefore(MovedContent(s, key, p, c), minted)
  {
    if p in s.manifests {
      var m, n := c.manifest, Reseal(p, c.manifest, key);
      forall e | e in Entries(n) ensures ValueSealedBefore(e.value, minted) {
        var i :| 0 <= i < |Entries(n)| && Entries(n)[i] == e;
        assert e == ResealEntry(p, m.id, key, Entries(m)[i]);
      }
    }
  }

  lemma SealedBeforeLater(c: Content, key: Key, later: Key)
    requires SealedBefore(c, key) && key <= later
    ensures SealedBefore(c, later)
  {
    if c.Doc? {
      forall e | e in Entries(c.manifest) ensures ValueSealedBefore(e.value, later) {
        assert ValueSealedBefore(e.value, key);
      }
    }
  }

  /** A moved file means what it meant and needs only the new key. */
  lemma MovedContentKeepsMeaning(s: Setup, key: Key, p: Path, c: Content)
    requires Disjoint(s) && Managed(s, p)
    ensures Meaning(s, p, MovedContent(s, key, p, c)) == Meaning(s, p, c)
    ensures p in s.manifests ==> ManifestReadable(p, MovedContent(s, key, p, c), {key})
    ensures p in s.whole ==> OpenFile(s.repoId, p, key, MovedContent(s, key, p, c)) == Some(Meaning(s, p, c))
    ensures p in s.whole && !IsEnvelope(Clear(c)) ==> FileReadable(s.repoId, p, MovedContent(s, key, p, c), {key})
  {
    if p in s.manifests && c.Doc? {
      ResealKeepsMeaning(p, c.manifest, key);
    }
  }

  lemma MovingIsAllowed(s: Setup, d: Disk, p: Path, key: Key, c: Content)
    requires Disjoint(s) && Managed(s, p) && p in d.work && key in KnownKeys(d)
    requires Meaning(s, p, c) == Meaning(s, p, d.work[p])
    requires p in s.whole ==> !IsEnvelope(Clear(c))
    ensures Allowed(s, d, PutFile(p, MovedContent(s, key, p, c)))
  {
    MovedContentKeepsMeaning(s, key, p, c);
    var c' := MovedContent(s, key, p, c);
    if p in s.manifests && c'.Doc? {
      forall i | 0 <= i < |Entries(c'.manifest)|
        ensures ValueReadable(p, c'.manifest.id, Entries(c'.manifest)[i], KnownKeys(d))
      {
        assert ValueReadable(p, c'.manifest.id, Entries(c'.manifest)[i], {key});
      }
    }
  }

  /** Sealing the plaintext of a managed file for its path, under a live key, is an allowed write. */
  lemma SealingIsAllowed(s: Setup, d: Disk, p: Path, key: Key, plaintext: Content)
    requires Disjoint(s) && p in s.whole && p in d.work && key in KnownKeys(d)
    requires !IsEnvelope(plaintext) && plaintext == Meaning(s, p, d.work[p])
    ensures Allowed(s, d, PutFile(p, SealFile(s.repoId, p, key, plaintext)))
  {}

  /** So is replacing a managed envelope by its payload. */
  lemma OpeningIsAllowed(s: Setup, d: Disk, p: Path, key: Key)
    requires Safe(s, d) && Disjoint(s) && p in s.whole && p in d.work
    requires OpenFile(s.repoId, p, key, d.work[p]).Some?
    ensures !IsEnvelope(d.work[p].payload) && Allowed(s, d, PutFile(p, d.work[p].payload))
  {
    assert FileReadable(s.repoId, p, d.work[p], KnownKeys(d));
  }

  /** While nothing depends on key_source.new, a fresh key wrapped to listed identities may be staged there. */
  lemma GeneratingIsAllowed(s: Setup, d: Disk, f: KeyFile)
    requires Readable(s, d, KeyOf(d.keySource)) && f.key == d.minted
    requires s.backend.GpgKey? ==> f.readers <= Effective(s, d)
    ensures Allowed(s, d, if s.backend.EnvKey? then Mint else Stage(f))
  {}

  /** More keys never make a file unreadable. */
  lemma ReadableMore(s: Setup, d: Disk, keys: set<Key>, more: set<Key>)
    requires Readable(s, d, keys) && keys <= more
    ensures Readable(s, d, more)
  {
    forall p | p in s.whole && p in d.work ensures FileReadable(s.repoId, p, d.work[p], more) {
      assert FileReadable(s.repoId, p, d.work[p], keys);
    }
    forall p | p in s.manifests && p in d.work ensures ManifestReadable(p, d.work[p], more) {
      assert ManifestReadable(p, d.work[p], keys);
      if d.work[p].Doc? {
        var m := d.work[p].manifest;
        forall i | 0 <= i < |Entries(m)| ensures ValueReadable(p, m.id, Entries(m)[i], more) {
          assert ValueReadable(p, m.id, Entries(m)[i], keys);
        }
      }
    }
  }

  // ---- runs ----

  function After(d: Disk, log: seq<Write>): Disk {
    if log == [] then d else Apply(After(d, log[..|log| - 1]), log[|log| - 1])
  }

  predicate Legal(s: Setup, d: Disk, log: seq<Write>) {
    log != [] ==>
      && Legal(s, d, log[..|log| - 1])
      && Allowed(s, After(d, log[..|log| - 1]), log[|log| - 1])
  }

  lemma LegalAppend(s: Setup, d: Disk, log: seq<Write>, w: Write)
    ensures After(d, log + [w]) == Apply(After(d, log), w)
    ensures Legal(s, d, log + [w]) <==> Legal(s, d, log) && Allowed(s, After(d, log), w)
  {
    assert (log + [w])[..|log|] == log;
  }

  lemma AllowedKeepsBounded(s: Setup, d: Disk, w: Write)
    requires Safe(s, d) && Allowed(s, d, w)
    ensures Bounded(Apply(d, w))
  {
    hide Readable, PathReadable, AccessListed, SealedBefore;
    var e := Apply(d, w);
    forall p | p in e.index ensures SealedBefore(e.index[p], e.minted) {
      if p in d.index { SealedBeforeLater(d.index[p], d.minted, e.minted); }
    }
  }

  lemma AllowedKeepsSafe(s: Setup, d: Disk, w: Write)
    requires Safe(s, d) && Allowed(s, d, w)
    ensures Safe(s, Apply(d, w))
  {
    AllowedKeepsBounded(s, d, w);
    hide Bounded;
    var e := Apply(d, w);
    if w.PutFile? || w.Edit? {
      assert forall p :: p in e.work && p != w.path ==> e.work[p] == d.work[p];
    } else if w.Stage? || w.Unstage? {
      ReadableMore(s, e, KeyOf(d.keySource), KnownKeys(e));
    } else if w.Promote? {
      ReadableMore(s, e, KeyOf(d.staging), KnownKeys(e));
    } else {
      assert e.work == d.work && KnownKeys(d) <= KnownKeys(e);
      ReadableMore(s, e, KnownKeys(d), KnownKeys(e));
    }
  }

  /**
   Safety at every intermediate state of every run: whatever prefix of a legal run was completed,
   each managed envelope opens for its path under the key at key_source, the one at key_source.new,
   one that was handed out or one init replaced, and only listed identities can unwrap those on disk.
   */
  lemma {:induction false} LegalRunsAreSafe(s: Setup, d: Disk, log: seq<Write>, done: nat)
    requires Safe(s, d) && Legal(s, d, log) && done <= |log|
    ensures Safe(s, After(d, log[..done]))
    decreases |log|
  {
    if done < |log| {
      assert log[..|log| - 1][..done] == log[..done];
      LegalRunsAreSafe(s, d, log[..|log| - 1], done);
    } else if log != [] {
      assert log[..done] == log;
      assert log[..|log| - 1][..|log| - 1] == log[..|log| - 1];
      LegalRunsAreSafe(s, d, log[..|log| - 1], |log| - 1);
      AllowedKeepsSafe(s, After(d, log[..|log| - 1]), log[|log| - 1]);
    }
  }

  lemma HistoryGrowsBy(d: Disk, w: Write)
    ensures d.exported <= Apply(d, w).exported && d.dropped <= Apply(d, w).dropped
  {}

  lemma {:induction false} HistoriesGrow(d: Disk, log: seq<Write>, done: nat)
    requires done <= |log|
    ensures After(d, log[..done]).exported <= After(d, log).exported
    ensures After(d, log[..done]).dropped <= After(d, log).dropped
    decreases |log|
  {
    if done < |log| {
      assert log[..|log| - 1][..done] == log[..done];
      HistoriesGrow(d, log[..|log| - 1], done);
      HistoryGrowsBy(After(d, log[..|log| - 1]), log[|log| - 1]);
      hide Apply;
    } else {
      assert log[..done] == log;
    }
  }

  /**
   As long as no key was handed out and init replaced none, the keys on disk suffice: at every
   intermediate state each managed envelope opens under key_source or key_source.new.
   */
  lemma DiskKeysSuffice(s: Setup, d: Disk, log: seq<Write>, done: nat)
    requires Safe(s, d) && Legal(s, d, log) && done <= |log|
    requires After(d, log).exported == {} && After(d, log).dropped == {}
    ensures Readable(s, After(d, log[..done]), LiveKeys(After(d, log[..done])))
  {
    LegalRunsAreSafe(s, d, log, done);
    HistoriesGrow(d, log, done);
    assert KnownKeys(After(d, log[..done])) == LiveKeys(After(d, log[..done]));
  }

  predicate MakesFirstKey(log: seq<Write>) {
    exists w :: w in log && w.FirstKey?
  }

  /** Only the env backend hands keys out; only init replaces one, and with the file backend not even init. */
  lemma {:induction false} HistoriesStay(s: Setup, d: Disk, log: seq<Write>)
    requires Legal(s, d, log)
    ensures !s.backend.EnvKey? ==> After(d, log).exported == d.exported
    ensures s.backend.FileKey? || !MakesFirstKey(log) ==> After(d, log).dropped == d.dropped
  {
    if log != [] {
      var front, w := log[..|log| - 1], log[|log| - 1];
      assert w in log && forall x :: x in front ==> x in log;
      HistoriesStay(s, d, front);
      HistoryChange(s, After(d, front), w);
      hide Apply, Allowed;
    }
  }

  lemma HistoryChange(s: Setup, d: Disk, w: Write)
    requires Allowed(s, d, w)
    ensures !s.backend.EnvKey? ==> Apply(d, w).exported == d.exported
    ensures s.backend.FileKey? || !w.FirstKey? ==> Apply(d, w).dropped == d.dropped
  {}

  /**
   So with the file backend always, and with gpg as long as init makes no key, each managed envelope
   opens at every intermediate state under key_source or key_source.new.
   */
  lemma DiskKeysSufficeWithoutInit(s: Setup, d: Disk, log: seq<Write>, done: nat)
    requires Safe(s, d) && Legal(s, d, log) && done <= |log|
    requires d.exported == {} && d.dropped == {}
    requires s.backend.FileKey? || (s.backend.GpgKey? && !MakesFirstKey(log))
    ensures Readable(s, After(d, log[..done]), LiveKeys(After(d, log[..done])))
  {
    HistoriesStay(s, d, log);
    DiskKeysSuffice(s, d, log, done);
  }

  /** The plaintext of p as the user last left it: the last Edit of p, or the initial file. */
  function LastPlaintext(s: Setup, d: Disk, log: seq<Write>, p: Path): Option<Content> {
    if log == [] then
      if p in d.work then Some(Meaning(s, p, d.work[p])) else None
    else
      var w := log[|log| - 1];
      if w.Edit? && w.path == p then Some(Meaning(s, p, w.content))
      else LastPlaintext(s, d, log[..|log| - 1], p)
  }

  /** A tool's write keeps what a file means; only the user's own edit of it changes that. */
  lemma WriteKeepsMeaning(s: Setup, d: Disk, w: Write, p: Path)
    requires Allowed(s, d, w)
    ensures var e := Apply(d, w);
            if w.Edit? && w.path == p then p in e.work && e.work[p] == w.content
            else (p in e.work <==> p in d.work) && (p in d.work ==>
              Meaning(s, p, e.work[p]) == Meaning(s, p, d.work[p]))
  {
    hide Readable, PathReadable, AccessListed, Meaning;
  }

  /** No run of allowed writes loses or alters what a managed file means. */
  lemma {:induction false} LegalRunsKeepMeaning(s: Setup, d: Disk, log: seq<Write>, p: Path)
    requires Legal(s, d, log)
    ensures LastPlaintext(s, d, log, p) ==
            if p in After(d, log).work then Some(Meaning(s, p, After(d, log).work[p])) else None
  {
    if log != [] {
      LegalRunsKeepMeaning(s, d, log[..|log| - 1], p);
      WriteKeepsMeaning(s, After(d, log[..|log| - 1]), log[|log| - 1], p);
      hide Apply, Allowed, Meaning;
    }
  }

  /** What the machine promises of one managed whole file: it opens, with a known key, to its last plaintext. */
  lemma ManagedFileOpens(s: Setup, d: Disk, log: seq<Write>, p: Path)
    requires Safe(s, d) && Legal(s, d, log) && Disjoint(s) && p in s.whole
    requires p in After(d, log).work && After(d, log).work[p].Envelope?
    ensures var now := After(d, log);
            exists k :: k in KnownKeys(now) &&
              OpenFile(s.repoId, p, k, now.work[p]) == LastPlaintext(s, d, log, p) &&
              LastPlaintext(s, d, log, p).Some?
  {
    assert log[..|log|] == log;
    LegalRunsAreSafe(s, d, log, |log|);
    LegalRunsKeepMeaning(s, d, log, p);
    var now := After(d, log);
    assert FileReadable(s.repoId, p, now.work[p], KnownKeys(now));
    assert now.work[p].key in KnownKeys(now);
  }

  /** Entry i of the plaintext document holds plain, encrypted. */
  predicate HeldAt(last: Option<Content>, i: nat, plain: Content) {
    && last.Some? && last.value.Doc? && i < |Entries(last.value.manifest)|
    && Entries(last.value.manifest)[i].value == Cipher(plain)
  }

  /** The same of one encrypted value of a managed manifest. */
  lemma ManagedValueOpens(s: Setup, d: Disk, log: seq<Write>, p: Path, i: nat)
    requires Safe(s, d) && Legal(s, d, log) && p in s.manifests
    requires p in After(d, log).work && After(d, log).work[p].Doc?
    requires i < |Entries(After(d, log).work[p].manifest)|
    requires Entries(After(d, log).work[p].manifest)[i].value.Cipher?
    ensures var now := After(d, log);
            var m := now.work[p].manifest;
            var e := Entries(m)[i];
            exists k, plain :: k in KnownKeys(now) && Open(e.value.blob, k, ValueAad(p, e.name, m.id)) == Some(plain) &&
              HeldAt(LastPlaintext(s, d, log, p), i, plain)
  {
    assert log[..|log|] == log;
    LegalRunsAreSafe(s, d, log, |log|);
    LegalRunsKeepMeaning(s, d, log, p);
    var now := After(d, log);
    var m := now.work[p].manifest;
    var e := Entries(m)[i];
    assert ManifestReadable(p, now.work[p], KnownKeys(now));
    assert ValueReadable(p, m.id, e, KnownKeys(now));
    assert Entries(ClearManifest(m))[i] == ClearEntry(e);
    assert HeldAt(LastPlaintext(s, d, log, p), i, e.value.blob.payload);
    assert Open(e.value.blob, e.value.blob.key, ValueAad(p, e.name, m.id)) == Some(e.value.blob.payload);
  }

  /**
   Overwriting a key file keeps every managed file readable with the keys on disk iff nothing depends
   on the key it held, nor on one that is no longer there.
   */
  lemma OverwriteIsSafeIffUnused(s: Setup, d: Disk, f: KeyFile)
    requires Safe(s, d) && f.key == d.minted
    ensures var e := Apply(d, Stage(f)); Readable(s, e, LiveKeys(e)) <==> Readable(s, d, KeyOf(d.keySource))
    ensures var e := Apply(d, FirstKey(f)); Readable(s, e, LiveKeys(e)) <==> Readable(s, d, KeyOf(d.staging))
  {
    ReadableIgnoresFreshKey(s, d, KeyOf(d.keySource), f.key);
    ReadableIgnoresFreshKey(s, d, KeyOf(d.staging), f.key);
    var e := Apply(d, Stage(f));
    assert LiveKeys(e) == KeyOf(d.keySource) + {f.key};
    assert Readable(s, e, LiveKeys(e)) <==> Readable(s, d, LiveKeys(e));
    var g := Apply(d, FirstKey(f));
    assert LiveKeys(g) == KeyOf(d.staging) + {f.key};
    assert Readable(s, g, LiveKeys(g)) <==> Readable(s, d, LiveKeys(g));
  }

  lemma ReadableIgnoresFreshKey(s: Setup, d: Disk, keys: set<Key>, k: Key)
    requires Safe(s, d) && k == d.minted
    ensures Readable(s, d, keys + {k}) <==> Readable(s, d, keys)
  {
    if Readable(s, d, keys + {k}) {
      forall p | p in s.whole && p in d.work ensures FileReadable(s.repoId, p, d.work[p], keys) {
        assert FileReadable(s.repoId, p, d.work[p], keys + {k});
        assert FileReadable(s.repoId, p, d.work[p], KnownKeys(d));
      }
      forall p | p in s.manifests && p in d.work ensures ManifestReadable(p, d.work[p], keys) {
        assert ManifestReadable(p, d.work[p], keys + {k});
        assert ManifestReadable(p, d.work[p], KnownKeys(d));
        if d.work[p].Doc? {
          var m := d.work[p].manifest;
          forall i | 0 <= i < |Entries(m)| ensures ValueReadable(p, m.id, Entries(m)[i], keys) {
            assert ValueReadable(p, m.id, Entries(m)[i], keys + {k});
            assert ValueReadable(p, m.id, Entries(m)[i], KnownKeys(d));
          }
        }
      }
    }
  }
}
