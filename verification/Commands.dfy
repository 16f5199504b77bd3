/** The repository commands, as programs over the durable state of module Lifecycle. */
module Commands {
  import opened Wrappers
  import opened Content
  import opened Lifecycle
  import Fingerprints
  import Lists

  /** At most the bit of p differs. */
  predicate OnlyBitOf(p: Path, was: set<Path>, now: set<Path>) {
    was - {p} == now - {p}
  }

  /** One more touched path. */
  lemma SkipBitsMore(was: Disk, before: Disk, now: Disk, touched: seq<Path>, skip: bool, p: Path)
    requires SkipBits(was, before, touched, skip) && OnlyBitOf(p, before.skip, now.skip) && (p in now.skip <==> skip)
    ensures SkipBits(was, now, touched + [p], skip)
  {
    forall q ensures q in now.skip <==> if q in touched + [p] then skip else q in was.skip {
      if q != p {
        assert q in now.skip - {p} <==> q in before.skip - {p};
      }
    }
  }

  lemma SkipBitsTwice(was: Disk, mid: Disk, now: Disk, first: seq<Path>, second: seq<Path>, skip: bool)
    requires SkipBits(was, mid, first, skip) && SkipBits(mid, now, second, skip)
    ensures SkipBits(was, now, first + second, skip)
  {}

  lemma IndexWritesAreAllowed(s: Setup, d: Disk, w: Write)
    requires w.SetSkip? || (w.PutIndex? && SealedBefore(w.content, d.minted))
    ensures Allowed(s, d, w)
  {}

  /**
   The file system and index.  Every operation may fail, without effect; a crash is a run whose
   remaining writes all fail, so a method's final state under all failures covers every state the
   disk passes through.  The log records the writes that happened, faults counts the failures that
   stop a command, refusals those of git updates a command carries on without.
   */
  class FileSystem {
    const setup: Setup
    ghost const start: Disk
    var disk: Disk
    ghost var log: seq<Write>
    ghost var faults: nat
    ghost var refusals: nat

    constructor (setup: Setup, disk: Disk)
      requires Safe(setup, disk) && Disjoint(setup)
      ensures this.setup == setup && this.disk == disk && start == disk && Valid()
    {
      this.setup, this.disk, this.start, this.log := setup, disk, disk, [];
      faults, refusals := 0, 0;
    }

    /** The disk is where its writes took it, and every one of them was allowed. */
    ghost predicate Valid()
      reads this
    {
      disk == After(start, log) && Safe(setup, start) && Disjoint(setup) && Legal(setup, start, log)
    }

    /** An operation that may fail. */
    method Attempt() returns (ok: bool)
      modifies this`faults
      ensures faults == if ok then old(faults) else old(faults) + 1
    {
      ok := *;
      if !ok { faults := faults + 1; }
    }

    method Do(w: Write) returns (ok: bool)
      requires Valid() && Allowed(setup, disk, w)
      modifies this`disk, this`log, this`faults
      ensures Valid()
      ensures ok ==> disk == Apply(old(disk), w) && log == old(log) + [w] && faults == old(faults)
      ensures !ok ==> disk == old(disk) && log == old(log) && faults > old(faults)
    {
      hide Legal, After, Allowed, Apply, Safe;
      ok := Attempt();
      if ok {
        LegalAppend(setup, start, log, w);
        disk, log := Apply(disk, w), log + [w];
      }
    }

    method Read(p: Path) returns (r: Option<Content>)
      modifies this`faults
      ensures r.Some? ==> p in disk.work && r.value == disk.work[p]
      ensures r.None? ==> p !in disk.work || faults > old(faults)
      ensures faults >= old(faults)
    {
      var ok := Attempt();
      r := if ok && p in disk.work then Some(disk.work[p]) else None;
    }

    /** Set or clear a skip-worktree bit; the callers ignore a refusal. */
    method TrySetSkip(p: Path, skip: bool)
      requires Valid()
      modifies this`disk, this`log, this`refusals
      ensures Valid()
      ensures disk == old(disk).(skip := disk.skip) && OnlyBitOf(p, old(disk).skip, disk.skip)
      ensures refusals >= old(refusals) && (refusals == old(refusals) ==> (p in disk.skip <==> skip))
    {
      hide Legal, After;
      var done := TryDo(SetSkip(p, skip));
    }

    /** hash-object, then update-index; the callers ignore a refusal. */
    method TryIndex(p: Path, content: Content) returns (indexed: bool)
      requires Valid() && SealedBefore(content, disk.minted)
      modifies this`disk, this`log, this`refusals
      ensures Valid()
      ensures disk == old(disk).(index := disk.index, skip := disk.skip) && OnlyBitOf(p, old(disk).skip, disk.skip)
      ensures disk.index == if indexed then old(disk).index[p := content] else old(disk).index
      ensures refusals >= old(refusals) && (refusals == old(refusals) ==> indexed)
    {
      hide Legal, After;
      indexed := TryDo(PutIndex(p, content));
    }

    method TryDo(w: Write) returns (ok: bool)
      requires Valid() && (w.SetSkip? || (w.PutIndex? && SealedBefore(w.content, disk.minted)))
      modifies this`disk, this`log, this`refusals
      ensures Valid()
      ensures disk == if ok then Apply(old(disk), w) else old(disk)
      ensures refusals == if ok then old(refusals) else old(refusals) + 1
    {
      IndexWritesAreAllowed(setup, disk, w);
      hide Legal, After, Safe, Allowed, Apply;
      ok := *;
      if ok {
        LegalAppend(setup, start, log, w);
        disk, log := Apply(disk, w), log + [w];
      } else {
        refusals := refusals + 1;
      }
    }

    /** Every state the disk has been in was safe: the one after each prefix of its writes. */
    lemma EveryStateSafe(n: nat)
      requires Valid() && n <= |log|
      ensures Safe(setup, After(start, log[..n]))
    {
      LegalRunsAreSafe(setup, start, log, n);
    }

    lemma KnownIsMinted(key: Key)
      requires Valid() && key in KnownKeys(disk)
      ensures key < disk.minted
    {
      SafeNow();
    }

    lemma SafeNow()
      requires Valid()
      ensures Safe(setup, disk)
    {
      assert log[..|log|] == log;
      LegalRunsAreSafe(setup, start, log, |log|);
    }
  }

  /** Only work, index and skip bits differ: keys, temp files and config are as they were. */
  ghost predicate OnlyFilesDiffer(d: Disk, e: Disk) {
    e == d.(work := e.work, index := e.index, skip := e.skip)
  }

  /** The skip-worktree bit of each touched path is as given, every other one as it was. */
  ghost predicate SkipBits(was: Disk, now: Disk, touched: seq<Path>, skip: bool) {
    forall p :: p in now.skip <==> if p in touched then skip else p in was.skip
  }

  /** Exactly the touched files were plaintext and are now sealed for their path under key. */
  ghost predicate Encrypted(repoId: string, key: Key, was: map<Path, Content>, now: map<Path, Content>,
                            touched: seq<Path>) {
    && now.Keys == was.Keys
    && forall p :: p in was ==>
         if p in touched then !IsEnvelope(was[p]) && now[p] == SealFile(repoId, p, key, was[p])
         else now[p] == was[p]
  }

  /** Exactly the touched files were envelopes that open for their path, and now hold the payload. */
  ghost predicate Decrypted(repoId: string, key: Key, was: map<Path, Content>, now: map<Path, Content>,
                            touched: seq<Path>) {
    && now.Keys == was.Keys
    && forall p :: p in was ==>
         if p in touched then OpenFile(repoId, p, key, was[p]) == Some(now[p]) && !IsEnvelope(now[p])
         else now[p] == was[p]
  }

  /** Decrypting undoes encrypting: a plaintext file that was sealed and opened again is as it was. */
  lemma DecryptUndoesEncrypt(repoId: string, key: Key, was: map<Path, Content>, sealed: map<Path, Content>,
                             now: map<Path, Content>, locked: seq<Path>, unlocked: seq<Path>, p: Path)
    requires Encrypted(repoId, key, was, sealed, locked) && Decrypted(repoId, key, sealed, now, unlocked)
    requires p in was && p in unlocked && !IsEnvelope(was[p])
    ensures p in locked && p in now && now[p] == was[p]
  {
    assert p in sealed;
  }

  /** Every moved path was taken into the index. */
  ghost predicate Indexed(moved: seq<Path>, indexed: set<Path>) {
    forall p :: p in moved ==> p in indexed
  }

  /** Exactly the moved files are sealed anew under key; index entries follow where git took the update. */
  ghost predicate Moved(s: Setup, key: Key, was: Disk, now: Disk, moved: seq<Path>, indexed: set<Path>) {
    && now.work.Keys == was.work.Keys
    && (forall p :: p in was.work ==>
          now.work[p] == if p in moved then MovedContent(s, key, p, was.work[p]) else was.work[p])
    && (forall p :: p in indexed ==> p in moved && p in now.work && p in now.index && now.index[p] == now.work[p])
    && (forall p :: p !in indexed ==>
          (p in now.index <==> p in was.index) && (p in now.index ==> now.index[p] == was.index[p]))
  }

  /** The read phase found every managed file present, open under key or plaintext. */
  predicate OpensUnder(s: Setup, d: Disk, key: Key) {
    && (forall p :: p in s.whole ==> FileOpens(s, d, key, p))
    && (forall p :: p in s.manifests ==> ManifestOpens(d, key, p))
  }

  predicate FileOpens(s: Setup, d: Disk, key: Key, p: Path) {
    p in d.work && (IsEnvelope(d.work[p]) ==> OpenFile(s.repoId, p, key, d.work[p]).Some?)
  }

  /** If every managed file opens under key, none of them needs any other key. */
  lemma OpensUnderIsReadable(s: Setup, d: Disk, key: Key)
    requires Safe(s, d) && OpensUnder(s, d, key)
    ensures Readable(s, d, {key})
    ensures forall p :: p in s.whole ==> !IsEnvelope(Clear(d.work[p]))
  {
    forall p | p in s.whole && p in d.work
      ensures FileReadable(s.repoId, p, d.work[p], {key}) && !IsEnvelope(Clear(d.work[p]))
    {
      assert FileOpens(s, d, key, p);
      assert FileReadable(s.repoId, p, d.work[p], KnownKeys(d));
    }
    forall p | p in s.manifests && p in d.work ensures ManifestReadable(p, d.work[p], {key}) {
      assert ManifestOpens(d, key, p);
      var m := d.work[p].manifest;
      forall i | 0 <= i < |Entries(m)| ensures ValueReadable(p, m.id, Entries(m)[i], {key}) {
        assert ValueOpens(p, m, key, Entries(m)[i]);
      }
    }
  }

  /**
   A managed file that depends on key_source.new makes the read phase fail, so no rotation gets as
   far as overwriting key_source.new while something needs it.
   */
  lemma StrandedFileStopsRotation(s: Setup, d: Disk, key: Key)
    requires Safe(s, d) && d.keySource.Some? && key == d.keySource.value.key
    requires !Readable(s, d, KeyOf(d.keySource))
    ensures !OpensUnder(s, d, key)
  {
    if OpensUnder(s, d, key) {
      OpensUnderIsReadable(s, d, key);
    }
  }

  /** After a partial rotation every managed file is readable with the old keys and the new one. */
  lemma MovedIsReadable(s: Setup, key: Key, was: Disk, now: Disk, moved: seq<Path>, indexed: set<Path>,
                        keys: set<Key>)
    requires Disjoint(s) && Readable(s, was, keys) && Moved(s, key, was, now, moved, indexed)
    requires forall p :: p in s.whole && p in was.work ==> !IsEnvelope(Clear(was.work[p]))
    ensures Readable(s, now, keys + {key})
    ensures (forall p :: p in s.whole ==> p in moved) &&
            (forall p :: p in s.manifests && p in was.work && p !in moved ==> ManifestReadable(p, was.work[p], {})) ==>
            Readable(s, now, {key})
  {
    forall p | Managed(s, p) && p in now.work
      ensures p in s.whole ==> FileReadable(s.repoId, p, now.work[p], keys + {key})
      ensures p in s.manifests ==> ManifestReadable(p, now.work[p], keys + {key})
      ensures p in moved && p in s.whole ==> FileReadable(s.repoId, p, now.work[p], {key})
      ensures p in moved && p in s.manifests ==> ManifestReadable(p, now.work[p], {key})
    {
      MovedContentKeepsMeaning(s, key, p, was.work[p]);
      if p in s.manifests && now.work[p].Doc? {
        var m := now.work[p].manifest;
        forall i | 0 <= i < |Entries(m)| ensures ValueReadable(p, m.id, Entries(m)[i], keys + {key}) {
          if p in moved {
            assert ValueReadable(p, m.id, Entries(m)[i], {key});
          } else {
            assert ManifestReadable(p, was.work[p], keys);
            assert ValueReadable(p, m.id, Entries(m)[i], keys);
          }
        }
      }
    }
    if (forall p :: p in s.whole ==> p in moved) &&
       (forall p :: p in s.manifests && p in was.work && p !in moved ==> ManifestReadable(p, was.work[p], {}))
    {
      forall p | p in s.manifests && p in now.work ensures ManifestReadable(p, now.work[p], {key}) {
        if p !in moved && now.work[p].Doc? {
          assert ManifestReadable(p, was.work[p], {});
          var m := now.work[p].manifest;
          forall i | 0 <= i < |Entries(m)| ensures ValueReadable(p, m.id, Entries(m)[i], {key}) {
            assert ValueReadable(p, m.id, Entries(m)[i], {});
          }
        }
      }
    }
  }

  lemma MovedNone(s: Setup, key: Key, was: Disk, now: Disk)
    requires now.work == was.work && now.index == was.index
    ensures Moved(s, key, was, now, [], {})
  {}

  /** One more moved path extends Moved. */
  lemma MovedMore(s: Setup, key: Key, was: Disk, before: Disk, now: Disk, p: Path, moved: seq<Path>,
                  indexed: set<Path>, inIndex: bool)
    requires Moved(s, key, was, before, moved, indexed) && p in was.work
    requires now.work == before.work[p := MovedContent(s, key, p, was.work[p])]
    requires now.index == if inIndex then before.index[p := now.work[p]] else before.index
    ensures Moved(s, key, was, now, moved + [p], if inIndex then indexed + {p} else indexed)
  {
    hide MovedContent;
    if p in moved {
      assert before.work[p] == now.work[p];
    }
    forall q | q in indexed ensures q in now.index && now.index[q] == now.work[q] {
      assert before.index[q] == before.work[q];
    }
  }

  /** Only key files and the key counter differ. */
  ghost predicate OnlyKeysDiffer(d: Disk, e: Disk) {
    e == d.(keySource := e.keySource, staging := e.staging, minted := e.minted, exported := e.exported)
  }

  datatype FilePlan = FilePlan(path: Path, plaintext: Content)
  datatype ManifestPlan = ManifestPlan(path: Path, doc: Manifest)
  datatype ValuePlan = ValuePlan(file: nat, slot: nat, plaintext: Content)

  datatype RotateResult = RotateResult(rotated: seq<Path>, exported: Option<Key>)

  /** The plaintext of a whole file as the read phase of a rotation obtains it. */
  predicate PlannedFrom(s: Setup, d: Disk, key: Key, plan: FilePlan) {
    && plan.path in d.work
    && if IsEnvelope(d.work[plan.path])
       then OpenFile(s.repoId, plan.path, key, d.work[plan.path]) == Some(plan.plaintext)
       else plan.plaintext == d.work[plan.path]
  }

  predicate PlanIsClear(d: Disk, plan: FilePlan) {
    plan.path in d.work && plan.plaintext == Clear(d.work[plan.path])
  }

  predicate ValueOpens(p: Path, m: Manifest, key: Key, e: Entry) {
    match e.value
    case Plain(_) => true
    case Malformed(_) => false
    case Cipher(blob) => Open(blob, key, ValueAad(p, e.name, m.id)).Some?
  }

  predicate ManifestOpens(d: Disk, key: Key, p: Path) {
    && p in d.work && d.work[p].Doc? && d.work[p].manifest.stringData.Some?
    && HasIdentity(d.work[p].manifest)
    && forall i :: 0 <= i < |Entries(d.work[p].manifest)| ==>
         ValueOpens(p, d.work[p].manifest, key, Entries(d.work[p].manifest)[i])
  }

  predicate HasCipher(m: Manifest) {
    exists i :: 0 <= i < |Entries(m)| && Entries(m)[i].value.Cipher?
  }

  /** Every manifest that holds ciphertext is scheduled for writing. */
  predicate CipherCovered(d: Disk, p: Path, files: seq<ManifestPlan>) {
    p in d.work && d.work[p].Doc? && HasCipher(d.work[p].manifest) ==> p in ManifestPathsOf(files)
  }

  predicate ManifestPlanned(s: Setup, d: Disk, f: ManifestPlan) {
    f.path in s.manifests && f.path in d.work && d.work[f.path] == Doc(f.doc) && HasCipher(f.doc)
  }

  /** v carries the plaintext of one encrypted entry of m. */
  predicate FoundIn(p: Path, m: Manifest, key: Key, v: ValuePlan) {
    && v.slot < |Entries(m)|
    && var e := Entries(m)[v.slot];
       e.value.Cipher? && Open(e.value.blob, key, ValueAad(p, e.name, m.id)) == Some(v.plaintext)
  }

  predicate ValuePlanned(files: seq<ManifestPlan>, key: Key, v: ValuePlan) {
    v.file < |files| && FoundIn(files[v.file].path, files[v.file].doc, key, v)
  }

  predicate SealedAs(repoId: string, key: Key, plan: FilePlan, sealed: map<Path, Content>) {
    plan.path in sealed && sealed[plan.path] == SealFile(repoId, plan.path, key, plan.plaintext)
  }

  function Slots(values: seq<ValuePlan>): set<(nat, nat)> {
    set v | v in values :: (v.file, v.slot)
  }

  predicate SlotsComplete(files: seq<ManifestPlan>, values: seq<ValuePlan>, upto: nat) {
    forall f, i ::
      0 <= f < upto && f < |files| && 0 <= i < |Entries(files[f].doc)| && Entries(files[f].doc)[i].value.Cipher?
      ==> (f, i) in Slots(values)
  }

  /** Manifest plans hold what is on disk, value plans the plaintext of exactly its encrypted entries. */
  predicate PlansSound(s: Setup, d: Disk, key: Key, files: seq<ManifestPlan>, values: seq<ValuePlan>) {
    && (forall f :: 0 <= f < |files| ==> ManifestPlanned(s, d, files[f]))
    && (forall v :: v in values ==> ValuePlanned(files, key, v))
    && SlotsComplete(files, values, |files|)
  }

  lemma PlannedMore(s: Setup, d: Disk, key: Key, files: seq<ManifestPlan>, values: seq<ValuePlan>, p: Path, m: Manifest,
                    found: seq<ValuePlan>)
    requires PlansSound(s, d, key, files, values)
    requires p in s.manifests && p in d.work && d.work[p] == Doc(m) && found != []
    requires forall v :: v in found ==> v.file == |files| && FoundIn(p, m, key, v)
    requires forall i :: 0 <= i < |Entries(m)| && Entries(m)[i].value.Cipher? ==> (|files|, i) in Slots(found)
    ensures PlansSound(s, d, key, files + [ManifestPlan(p, m)], values + found)
    ensures forall q :: CipherCovered(d, q, files) ==> CipherCovered(d, q, files + [ManifestPlan(p, m)])
  {
    var files', values' := files + [ManifestPlan(p, m)], values + found;
    assert ManifestPathsOf(files') == ManifestPathsOf(files) + [p];
    assert FoundIn(p, m, key, found[0]);
    forall v | v in values' ensures ValuePlanned(files', key, v) {
      if v in values { assert ValuePlanned(files, key, v); }
    }
    forall f, i | 0 <= f < |files'| && 0 <= i < |Entries(files'[f].doc)| && Entries(files'[f].doc)[i].value.Cipher?
      ensures (f, i) in Slots(values')
    {
      if f < |files| {
        assert (f, i) in Slots(values);
      } else {
        assert (f, i) in Slots(found);
      }
    }
  }

  lemma CoveredMore(d: Disk, p: Path, m: Manifest, files: seq<ManifestPlan>, found: seq<ValuePlan>)
    requires p in d.work && d.work[p] == Doc(m)
    requires found != [] ==> files != [] && files[|files| - 1].path == p
    requires found == [] ==> !HasCipher(m)
    ensures CipherCovered(d, p, files)
  {
    if found != [] {
      assert ManifestPathsOf(files)[|files| - 1] == p;
    }
  }

  /** The value node at slot overwritten, the rest of the document as it was. */
  function WithValue(f: ManifestPlan, slot: nat, value: Scalar): ManifestPlan
    requires slot < |Entries(f.doc)|
  {
    var es := Entries(f.doc);
    f.(doc := f.doc.(stringData := Some(es[slot := es[slot].(value := value)])))
  }

  /** docs are files with exactly the slots in done resealed. */
  ghost predicate SealedSlots(files: seq<ManifestPlan>, docs: seq<ManifestPlan>, key: Key, done: set<(nat, nat)>) {
    && |docs| == |files|
    && forall f :: 0 <= f < |files| ==> SealedSlotsOf(files[f], docs[f], key, f, done)
  }

  ghost predicate SealedSlotsOf(was: ManifestPlan, now: ManifestPlan, key: Key, f: nat, done: set<(nat, nat)>) {
    && now == ManifestPlan(was.path, was.doc.(stringData := now.doc.stringData))
    && now.doc.stringData.Some? == was.doc.stringData.Some?
    && |Entries(now.doc)| == |Entries(was.doc)|
    && forall i: nat :: i < |Entries(was.doc)| ==>
         Entries(now.doc)[i] ==
           if (f, i) in done then ResealEntry(was.path, was.doc.id, key, Entries(was.doc)[i]) else Entries(was.doc)[i]
  }

  lemma SealedNone(files: seq<ManifestPlan>, key: Key)
    ensures SealedSlots(files, files, key, {})
  {}

  lemma SealedMore(files: seq<ManifestPlan>, docs: seq<ManifestPlan>, oldKey: Key, key: Key, done: set<(nat, nat)>,
                   v: ValuePlan)
    requires SealedSlots(files, docs, key, done) && ValuePlanned(files, oldKey, v)
    ensures v.slot < |Entries(docs[v.file].doc)|
    ensures var f := docs[v.file];
            var sealed := SealValue(f.path, Entries(f.doc)[v.slot].name, f.doc.id, key, v.plaintext);
            SealedSlots(files, docs[v.file := WithValue(f, v.slot, sealed)], key, done + {(v.file, v.slot)})
  {
    assert SealedSlotsOf(files[v.file], docs[v.file], key, v.file, done);
    var f := docs[v.file];
    var e := Entries(f.doc)[v.slot];
    var docs' := docs[v.file := WithValue(f, v.slot, SealValue(f.path, e.name, f.doc.id, key, v.plaintext))];
    var done' := done + {(v.file, v.slot)};
    forall g | 0 <= g < |files| ensures SealedSlotsOf(files[g], docs'[g], key, g, done') {
      assert SealedSlotsOf(files[g], docs[g], key, g, done);
    }
  }

  lemma AllSlotsSealed(files: seq<ManifestPlan>, docs: seq<ManifestPlan>, key: Key, done: set<(nat, nat)>,
                       values: seq<ValuePlan>)
    requires SealedSlots(files, docs, key, done) && SlotsComplete(files, values, |files|)
    requires forall v :: v in values ==> (v.file, v.slot) in done
    ensures forall f :: 0 <= f < |files| ==>
              docs[f] == ManifestPlan(files[f].path, Reseal(files[f].path, files[f].doc, key))
  {
    forall f | 0 <= f < |files|
      ensures docs[f] == ManifestPlan(files[f].path, Reseal(files[f].path, files[f].doc, key))
    {
      assert SealedSlotsOf(files[f], docs[f], key, f, done);
      var es := Entries(files[f].doc);
      var r := Reseal(files[f].path, files[f].doc, key);
      forall i | 0 <= i < |es| ensures Entries(docs[f].doc)[i] == Entries(r)[i] {
        if es[i].value.Cipher? {
          assert (f, i) in Slots(values);
        }
      }
      assert Entries(docs[f].doc) == Entries(r);
    }
  }

  function PathsOf(plans: seq<FilePlan>): seq<Path> {
    seq(|plans|, i requires 0 <= i < |plans| => plans[i].path)
  }

  function ManifestPathsOf(plans: seq<ManifestPlan>): seq<Path> {
    seq(|plans|, i requires 0 <= i < |plans| => plans[i].path)
  }

  /** Complete plans witness that every whole file opens, and carry what it means. */
  lemma PlansOpen(s: Setup, d: Disk, key: Key, plans: seq<FilePlan>)
    requires PathsOf(plans) == s.whole
    requires forall j :: 0 <= j < |plans| ==> PlannedFrom(s, d, key, plans[j])
    ensures forall p :: p in s.whole ==> FileOpens(s, d, key, p)
    ensures forall j :: 0 <= j < |plans| ==> PlanIsClear(d, plans[j])
  {
    forall p | p in s.whole ensures FileOpens(s, d, key, p) {
      var j :| 0 <= j < |s.whole| && s.whole[j] == p;
      assert PathsOf(plans)[j] == plans[j].path;
      assert PlannedFrom(s, d, key, plans[j]);
    }
    forall j | 0 <= j < |plans| ensures PlanIsClear(d, plans[j]) {
      assert PathsOf(plans)[j] == plans[j].path;
      assert PlannedFrom(s, d, key, plans[j]);
    }
  }

  /** p is sealed once it has been rotated: a whole file, or a manifest with an encrypted value. */
  predicate HoldsCiphertext(s: Setup, d: Disk, p: Path) {
    p in d.work && (p in s.whole || (p in s.manifests && d.work[p].Doc? && HasCipher(d.work[p].manifest)))
  }

  /**
   What every rotation leaves, completed or not: exactly the rotated paths moved to the fresh key,
   before that nothing but key files changed, and every managed file is readable with the keys on
   disk (and the exported one).
   */
  ghost predicate RotationOutcome(s: Setup, was: Disk, now: Disk, r: RotateResult, indexed: set<Path>) {
    && Moved(s, was.minted, was, now, r.rotated, indexed)
    && (forall p :: p in r.rotated ==> HoldsCiphertext(s, was, p))
    && (r.rotated == [] ==> OnlyKeysDiffer(was, now))
    && Readable(s, now, KnownKeys(now))
    && (Readable(s, was, LiveKeys(was)) ==> Readable(s, now, OnHand(now, r)))
    && OtherwiseSame(was, now, r)
  }

  /** The keys on disk, and the one in the result if there is one. */
  function OnHand(d: Disk, r: RotateResult): set<Key> {
    if r.exported.None? then LiveKeys(d) else LiveKeys(d) + {r.exported.value}
  }

  /** Config, temp files and the replaced keys are as before; a key handed out is in the result. */
  predicate OtherwiseSame(was: Disk, now: Disk, r: RotateResult) {
    && now.recipients == was.recipients && now.temps == was.temps && was.minted <= now.minted
    && now.dropped == was.dropped && now.exported == was.exported + Exported(r)
  }

  lemma ReadableBySameWork(s: Setup, d: Disk, e: Disk, keys: set<Key>)
    requires d.work == e.work
    ensures Readable(s, d, keys) <==> Readable(s, e, keys)
  {}

  lemma SameOutcome(s: Setup, was: Disk, now: Disk, r: RotateResult, indexed: set<Path>)
    requires RotationOutcome(s, was, now, r, indexed)
    ensures now.recipients == was.recipients
  {}

  lemma NothingMoved(s: Setup, was: Disk, now: Disk, r: RotateResult)
    requires r.rotated == [] && OnlyKeysDiffer(was, now) && now.keySource == was.keySource && OtherwiseSame(was, now, r)
    requires Readable(s, was, KnownKeys(was))
    requires now.staging == was.staging || Readable(s, was, KeyOf(was.keySource))
    ensures RotationOutcome(s, was, now, r, {})
  {
    if now.staging == was.staging {
      ReadableMore(s, now, KnownKeys(was), KnownKeys(now));
      if Readable(s, was, LiveKeys(was)) { ReadableMore(s, now, LiveKeys(was), OnHand(now, r)); }
    } else {
      ReadableMore(s, now, KeyOf(was.keySource), KnownKeys(now));
      ReadableMore(s, now, KeyOf(was.keySource), OnHand(now, r));
    }
  }

  lemma WrittenOutcome(s: Setup, was: Disk, now: Disk, oldKey: Key, key: Key, r: RotateResult, indexed: set<Path>)
    requires key == was.minted && Moved(s, key, was, now, r.rotated, indexed)
    requires forall p :: p in r.rotated ==> HoldsCiphertext(s, was, p)
    requires r.rotated == [] ==> OnlyKeysDiffer(was, now)
    requires Readable(s, now, {oldKey} + {key}) && {oldKey} + {key} <= OnHand(now, r)
    requires OtherwiseSame(was, now, r)
    ensures RotationOutcome(s, was, now, r, indexed)
  {
    ReadableMore(s, now, {oldKey} + {key}, OnHand(now, r));
    ReadableMore(s, now, {oldKey} + {key}, KnownKeys(now));
  }

  lemma PromotedOutcome(s: Setup, was: Disk, before: Disk, now: Disk, key: Key, r: RotateResult, indexed: set<Path>)
    requires RotationOutcome(s, was, before, r, indexed) && now == Apply(before, Promote)
    requires Readable(s, before, {key}) && key in LiveKeys(now)
    ensures RotationOutcome(s, was, now, r, indexed) && Readable(s, now, {key})
  {
    ReadableMore(s, now, {key}, OnHand(now, r));
    ReadableMore(s, now, {key}, KnownKeys(now));
  }

  /** What the read phase establishes of its plans, and of every managed file, before anything changes. */
  predicate ReadUnder(s: Setup, d: Disk, key: Key, plans: seq<FilePlan>, files: seq<ManifestPlan>) {
    && OpensUnder(s, d, key) && Readable(s, d, {key})
    && (forall p :: p in s.whole ==> p in d.work && !IsEnvelope(Clear(d.work[p])))
    && PathsOf(plans) == s.whole
    && (forall j :: 0 <= j < |plans| ==> PlanIsClear(d, plans[j]))
    && (forall p :: p in s.manifests ==> CipherCovered(d, p, files))
    && (forall f :: 0 <= f < |files| ==> ManifestPlanned(s, d, files[f]))
  }

  /**
   A rotation preserves meaning, completed or not: every managed file means what it meant, and each
   rotated one opens under the new key, with the associated data of its own path, to just that.
   */
  lemma RotationKeepsMeaning(s: Setup, was: Disk, now: Disk, r: RotateResult, indexed: set<Path>, p: Path)
    requires Disjoint(s) && RotationOutcome(s, was, now, r, indexed) && Managed(s, p) && p in was.work
    ensures p in now.work && Meaning(s, p, now.work[p]) == Meaning(s, p, was.work[p])
    ensures p in r.rotated && p in s.whole ==>
      OpenFile(s.repoId, p, was.minted, now.work[p]) == Some(Meaning(s, p, was.work[p]))
    ensures p in r.rotated && p in s.manifests && was.work[p].Doc? ==>
      var m, n := was.work[p].manifest, now.work[p].manifest;
      n.id == m.id && n.rest == m.rest && |Entries(n)| == |Entries(m)| &&
      forall i :: 0 <= i < |Entries(m)| ==> SameValueUnder(p, m.id, was.minted, Entries(m)[i], Entries(n)[i])
  {
    MovedContentKeepsMeaning(s, was.minted, p, was.work[p]);
    if p in s.manifests && was.work[p].Doc? {
      ResealKeepsMeaning(p, was.work[p].manifest, was.minted);
    }
  }

  /** A plain value is untouched; an encrypted one opens under key to the payload it had. */
  predicate SameValueUnder(p: Path, id: ObjectId, key: Key, was: Entry, now: Entry) {
    now.name == was.name &&
    if was.value.Cipher? then
      now.value.Cipher? && Open(now.value.blob, key, ValueAad(p, now.name, id)) == Some(Clear(was.value.blob))
    else now == was
  }

  /** Index and worktree agree on a rotated path iff git took the update. */
  lemma IndexAgreesIffTaken(s: Setup, was: Disk, now: Disk, r: RotateResult, indexed: set<Path>, p: Path)
    requires Safe(s, was) && Disjoint(s) && RotationOutcome(s, was, now, r, indexed) && p in r.rotated
    ensures p in now.work
    ensures (p in now.index && now.index[p] == now.work[p]) <==> p in indexed
  {
    assert HoldsCiphertext(s, was, p);
    if p in s.manifests {
      var m, n := was.work[p].manifest, Reseal(p, was.work[p].manifest, was.minted);
      var i :| 0 <= i < |Entries(m)| && Entries(m)[i].value.Cipher?;
      assert now.work[p] == Doc(n) && Entries(n)[i] == ResealEntry(p, m.id, was.minted, Entries(m)[i]);
      assert Entries(n)[i] in Entries(n) && !ValueSealedBefore(Entries(n)[i].value, was.minted);
    }
    assert !SealedBefore(now.work[p], was.minted);
  }

  /** A rotated path no longer opens under the old key. */
  lemma RotatedLeavesOldKey(s: Setup, was: Disk, now: Disk, oldKey: Key, r: RotateResult, indexed: set<Path>, p: Path)
    requires Disjoint(s) && RotationOutcome(s, was, now, r, indexed) && p in r.rotated && oldKey < was.minted
    ensures !OpensUnder(s, now, oldKey)
  {
    assert HoldsCiphertext(s, was, p);
    if p in s.whole {
      assert !FileOpens(s, now, oldKey, p);
    } else {
      var m, n := was.work[p].manifest, Reseal(p, was.work[p].manifest, was.minted);
      var i :| 0 <= i < |Entries(m)| && Entries(m)[i].value.Cipher?;
      assert now.work[p] == Doc(n);
      assert Entries(n)[i] == ResealEntry(p, m.id, was.minted, Entries(m)[i]);
      assert !ValueOpens(p, n, oldKey, Entries(n)[i]);
      assert !ManifestOpens(now, oldKey, p);
    }
  }

  /**
   The promise that a rotation interrupted while writing is "safe to re-run" holds in the sense that
   nothing is lost (RotationOutcome), and in no stronger sense: with the old key still at key_source,
   a re-run gets past its read phase iff not a single file had been rotated.
   */
  lemma RerunProceedsIffNothingMoved(s: Setup, was: Disk, now: Disk, oldKey: Key, r: RotateResult, indexed: set<Path>)
    requires Disjoint(s) && OpensUnder(s, was, oldKey) && oldKey < was.minted
    requires RotationOutcome(s, was, now, r, indexed)
    ensures OpensUnder(s, now, oldKey) <==> r.rotated == []
  {
    if r.rotated != [] {
      RotatedLeavesOldKey(s, was, now, oldKey, r, indexed, r.rotated[0]);
    }
    if r.rotated == [] {
      assert now.work == was.work;
      forall p | p in s.whole ensures FileOpens(s, now, oldKey, p) {
        assert FileOpens(s, was, oldKey, p);
      }
      forall p | p in s.manifests ensures ManifestOpens(now, oldKey, p) {
        assert ManifestOpens(was, oldKey, p);
      }
    }
  }

  /** p's content needs no key at all. */
  predicate NeedsNoKey(s: Setup, p: Path, c: Content) {
    (p in s.whole ==> FileReadable(s.repoId, p, c, {})) && (p in s.manifests ==> ManifestReadable(p, c, {}))
  }

  /** A setup that manages fewer paths, as on a machine whose global config lists fewer patterns. */
  predicate Narrower(narrow: Setup, s: Setup) {
    && narrow == s.(whole := narrow.whole, manifests := narrow.manifests)
    && (forall p :: p in narrow.whole ==> p in s.whole) && (forall p :: p in narrow.manifests ==> p in s.manifests)
  }

  /**
   Rotating where fewer paths are selected: the new key alone opens everything iff no path that was
   not selected holds ciphertext.
   */
  lemma NarrowRotationStrandsIff(s: Setup, narrow: Setup, was: Disk, now: Disk, r: RotateResult, indexed: set<Path>)
    requires Disjoint(s) && Safe(s, was) && Narrower(narrow, s)
    requires RotationOutcome(narrow, was, now, r, indexed) && Readable(narrow, now, {was.minted})
    ensures Readable(s, now, {was.minted}) <==>
      forall p :: Managed(s, p) && !Managed(narrow, p) && p in was.work ==> NeedsNoKey(s, p, was.work[p])
  {
    var key := was.minted;
    forall p | p in r.rotated ensures Managed(narrow, p) {
      assert HoldsCiphertext(narrow, was, p);
    }
    forall p | Managed(s, p) && !Managed(narrow, p) && p in was.work
      ensures p in now.work && now.work[p] == was.work[p]
      ensures p in s.whole ==> (FileReadable(s.repoId, p, was.work[p], {key}) <==> NeedsNoKey(s, p, was.work[p]))
      ensures p in s.manifests ==> (ManifestReadable(p, was.work[p], {key}) <==> NeedsNoKey(s, p, was.work[p]))
    {
      UnusedKeyIsNoHelp(s, was, p, key);
    }
    if forall p :: Managed(s, p) && !Managed(narrow, p) && p in was.work ==> NeedsNoKey(s, p, was.work[p]) {
      forall p | p in s.whole && p in now.work ensures FileReadable(s.repoId, p, now.work[p], {key}) {
        assert Managed(s, p);
      }
      forall p | p in s.manifests && p in now.work ensures ManifestReadable(p, now.work[p], {key}) {
        assert Managed(s, p);
      }
    }
  }

  lemma UnusedKeyIsNoHelp(s: Setup, d: Disk, p: Path, key: Key)
    requires Safe(s, d) && p in d.work && d.minted <= key
    ensures p in s.whole ==>
      (FileReadable(s.repoId, p, d.work[p], {key}) <==> FileReadable(s.repoId, p, d.work[p], {}))
    ensures p in s.manifests ==> (ManifestReadable(p, d.work[p], {key}) <==> ManifestReadable(p, d.work[p], {}))
  {
    if p in s.whole { assert FileReadable(s.repoId, p, d.work[p], KnownKeys(d)); }
    if p in s.manifests && d.work[p].Doc? {
      assert ManifestReadable(p, d.work[p], KnownKeys(d));
      var m := d.work[p].manifest;
      forall i | 0 <= i < |Entries(m)|
        ensures ValueReadable(p, m.id, Entries(m)[i], {key}) <==> ValueReadable(p, m.id, Entries(m)[i], {})
      {
        assert ValueReadable(p, m.id, Entries(m)[i], KnownKeys(d));
      }
    }
  }

  function Exported(r: RotateResult): set<Key> {
    if r.exported.Some? then {r.exported.value} else {}
  }

  /** Every whole file, and every manifest with ciphertext, is among the moved paths. */
  predicate AllMoved(s: Setup, was: Disk, moved: seq<Path>) {
    && (forall p :: p in s.whole ==> p in moved)
    && (forall p :: p in s.manifests && p in was.work && was.work[p].Doc? && HasCipher(was.work[p].manifest) ==>
      p in moved)
  }

  /** A resealed document is where the rotation moves its manifest. */
  predicate DocMoved(s: Setup, was: Disk, key: Key, doc: ManifestPlan) {
    && doc.path in s.manifests && doc.path !in s.whole && HoldsCiphertext(s, was, doc.path)
    && Doc(doc.doc) == MovedContent(s, key, doc.path, was.work[doc.path])
  }

  lemma DocsAreMoved(s: Setup, was: Disk, key: Key, files: seq<ManifestPlan>, docs: seq<ManifestPlan>)
    requires Disjoint(s) && |docs| == |files|
    requires forall f :: 0 <= f < |files| ==> ManifestPlanned(s, was, files[f])
    requires forall f :: 0 <= f < |files| ==>
      docs[f] == ManifestPlan(files[f].path, Reseal(files[f].path, files[f].doc, key))
    ensures forall f :: 0 <= f < |docs| ==> DocMoved(s, was, key, docs[f])
  {
    forall f | 0 <= f < |docs| ensures DocMoved(s, was, key, docs[f]) {
      assert ManifestPlanned(s, was, files[f]);
    }
  }

  lemma PrefixHoldsCiphertext(s: Setup, was: Disk, key: Key, docs: seq<ManifestPlan>, paths: seq<Path>)
    requires paths <= ManifestPathsOf(docs)
    requires forall f :: 0 <= f < |docs| ==> DocMoved(s, was, key, docs[f])
    ensures forall p :: p in paths ==> HoldsCiphertext(s, was, p)
  {
    forall i | 0 <= i < |paths| ensures HoldsCiphertext(s, was, paths[i]) {
      assert paths[i] == ManifestPathsOf(docs)[i];
      assert DocMoved(s, was, key, docs[i]);
    }
  }

  lemma AllWritten(s: Setup, was: Disk, key: Key, files: seq<ManifestPlan>, moved: seq<Path>)
    requires OpensUnder(s, was, key) && forall p :: p in s.manifests ==> CipherCovered(was, p, files)
    requires (forall p :: p in s.whole ==> p in moved) && forall p :: p in ManifestPathsOf(files) ==> p in moved
    ensures AllMoved(s, was, moved)
    ensures forall p :: p in s.manifests && p in was.work && p !in moved ==> ManifestReadable(p, was.work[p], {})
  {
    forall p | p in s.manifests && p in was.work && was.work[p].Doc? && HasCipher(was.work[p].manifest)
      ensures p in moved
    {
      assert CipherCovered(was, p, files);
    }
    forall p | p in s.manifests && p in was.work && p !in moved ensures ManifestReadable(p, was.work[p], {}) {
      assert ManifestOpens(was, key, p);
    }
  }

  /** A command's view: loaded config, backend recipients and the secret keys in the local keyring. */
  class Context {
    const fs: FileSystem
    const me: set<Identity>
    var recipients: seq<Identity>  // c.Config.GPGRecipients, global and committed merged
    var wrapTo: seq<Identity>      // the recipients c.Backend wraps to

    constructor (fs: FileSystem, me: set<Identity>, recipients: seq<Identity>, wrapTo: seq<Identity>)
      ensures this.fs == fs && this.me == me && this.recipients == recipients && this.wrapTo == wrapTo
    {
      this.fs, this.me, this.recipients, this.wrapTo := fs, me, recipients, wrapTo;
    }

    ghost predicate Valid()
      reads this, fs
    {
      && fs.Valid()
      && SetOf(recipients) <= Effective(fs.setup, fs.disk)
      && SetOf(wrapTo) <= Effective(fs.setup, fs.disk)
    }

    /** The current key, for a caller whose backend's Get finds it. */
    function Key(): Option<Key>
      reads this, fs
    {
      if CanGet(fs.setup, fs.disk, me) then Some(fs.disk.keySource.value.key) else None
    }

    // ---- lock and unlock ----

    method EncryptPaths(paths: seq<Path>) returns (ok: bool, touched: seq<Path>)
      requires Valid()
      requires forall p :: p in paths ==> p in fs.setup.whole
      modifies fs
      ensures Valid() && OnlyFilesDiffer(old(fs.disk), fs.disk) && fs.disk.index == old(fs.disk.index)
      ensures Key().None? ==> touched == [] && !ok && fs.disk == old(fs.disk)
      ensures Key().Some? ==> Encrypted(fs.setup.repoId, Key().value, old(fs.disk.work), fs.disk.work, touched)
      ensures ok ==> forall p :: p in paths ==> p in fs.disk.work && IsEnvelope(fs.disk.work[p])
      ensures !ok && Key().Some? && fs.faults == old(fs.faults) ==> exists p :: p in paths && p !in fs.disk.work
      ensures fs.refusals == old(fs.refusals) ==> SkipBits(old(fs.disk), fs.disk, touched, false)
    {
      hide Legal, After, Readable, Bounded;
      ok, touched := false, [];
      var k := Key();
      if k.None? { return; }
      for n := 0 to |paths|
        invariant fs.refusals >= old(fs.refusals) && fs.faults >= old(fs.faults)
        invariant fs.refusals == old(fs.refusals) ==> SkipBits(old(fs.disk), fs.disk, touched, false)
        invariant Valid() && OnlyFilesDiffer(old(fs.disk), fs.disk) && fs.disk.index == old(fs.disk.index)
        invariant Encrypted(fs.setup.repoId, k.value, old(fs.disk.work), fs.disk.work, touched)
        invariant forall j :: 0 <= j < n ==> paths[j] in fs.disk.work && IsEnvelope(fs.disk.work[paths[j]])
      {
        ghost var before := fs.disk;
        var done, wrote := EncryptPath(paths[n], k.value);
        if wrote && fs.refusals == old(fs.refusals) {
          SkipBitsMore(old(fs.disk), before, fs.disk, touched, false, paths[n]);
        }
        if wrote { touched := touched + [paths[n]]; }
        if !done { return; }
      }
      ok := true;
    }

    /** One round of the encrypt loop: leaves an envelope alone, seals anything else in place. */
    method EncryptPath(p: Path, key: Key) returns (ok: bool, wrote: bool)
      requires Valid() && p in fs.setup.whole && Key() == Some(key)
      modifies fs
      ensures Valid() && OnlyFilesDiffer(old(fs.disk), fs.disk) && fs.disk.index == old(fs.disk.index)
      ensures wrote ==> p in old(fs.disk.work) && !IsEnvelope(old(fs.disk.work)[p]) &&
                        fs.disk.work == old(fs.disk.work)[p := SealFile(fs.setup.repoId, p, key, old(fs.disk.work)[p])]
      ensures !wrote ==> fs.disk.work == old(fs.disk.work)
      ensures ok ==> p in fs.disk.work && IsEnvelope(fs.disk.work[p])
      ensures !ok ==> p !in fs.disk.work || fs.faults > old(fs.faults)
      ensures fs.faults >= old(fs.faults) && fs.refusals >= old(fs.refusals)
      ensures OnlyBitOf(p, old(fs.disk.skip), fs.disk.skip) && (!wrote ==> fs.disk.skip == old(fs.disk.skip))
      ensures wrote && fs.refusals == old(fs.refusals) ==> (p in fs.disk.skip <==> false)
    {
      hide Legal, After, Allowed, Readable, Bounded;
      ok, wrote := false, false;
      var data := fs.Read(p);
      if data.None? { return; }
      if IsEnvelope(data.value) { return true, false; }
      var sealing := fs.Attempt();
      if !sealing { return; }
      SealingIsAllowed(fs.setup, fs.disk, p, key, data.value);
      wrote := fs.Do(PutFile(p, SealFile(fs.setup.repoId, p, key, data.value)));
      if !wrote { return; }
      fs.TrySetSkip(p, false);
      ok := true;
    }

    method DecryptPaths(paths: seq<Path>) returns (ok: bool, touched: seq<Path>)
      requires Valid()
      requires forall p :: p in paths ==> p in fs.setup.whole
      modifies fs
      ensures Valid() && OnlyFilesDiffer(old(fs.disk), fs.disk) && fs.disk.index == old(fs.disk.index)
      ensures Key().None? ==> touched == [] && !ok && fs.disk == old(fs.disk)
      ensures Key().Some? ==> Decrypted(fs.setup.repoId, Key().value, old(fs.disk.work), fs.disk.work, touched)
      ensures ok ==> forall p :: p in paths ==> p in fs.disk.work && !IsEnvelope(fs.disk.work[p])
      ensures !ok && Key().Some? && fs.faults == old(fs.faults) ==>
        exists p :: p in paths && !FileOpens(fs.setup, fs.disk, Key().value, p)
      ensures fs.refusals == old(fs.refusals) ==> SkipBits(old(fs.disk), fs.disk, touched, true)
    {
      hide Legal, After, Readable, Bounded;
      ok, touched := false, [];
      var k := Key();
      if k.None? { return; }
      for n := 0 to |paths|
        invariant fs.refusals >= old(fs.refusals) && fs.faults >= old(fs.faults)
        invariant fs.refusals == old(fs.refusals) ==> SkipBits(old(fs.disk), fs.disk, touched, true)
        invariant Valid() && OnlyFilesDiffer(old(fs.disk), fs.disk) && fs.disk.index == old(fs.disk.index)
        invariant Decrypted(fs.setup.repoId, k.value, old(fs.disk.work), fs.disk.work, touched)
        invariant forall j :: 0 <= j < n ==> paths[j] in fs.disk.work && !IsEnvelope(fs.disk.work[paths[j]])
      {
        ghost var before := fs.disk;
        var done, wrote := DecryptPath(paths[n], k.value);
        if wrote && fs.refusals == old(fs.refusals) {
          SkipBitsMore(old(fs.disk), before, fs.disk, touched, true, paths[n]);
        }
        if wrote { touched := touched + [paths[n]]; }
        if !done { return; }
      }
      ok := true;
    }

    /** One round of the decrypt loop: leaves plaintext alone, opens an envelope in place. */
    method DecryptPath(p: Path, key: Key) returns (ok: bool, wrote: bool)
      requires Valid() && p in fs.setup.whole && Key() == Some(key)
      modifies fs
      ensures Valid() && OnlyFilesDiffer(old(fs.disk), fs.disk) && fs.disk.index == old(fs.disk.index)
      ensures wrote ==> p in old(fs.disk.work) && IsEnvelope(old(fs.disk.work)[p]) &&
                        OpenFile(fs.setup.repoId, p, key, old(fs.disk.work)[p]).Some? &&
                        fs.disk.work == old(fs.disk.work)[p := old(fs.disk.work)[p].payload] &&
                        !IsEnvelope(fs.disk.work[p])
      ensures !wrote ==> fs.disk.work == old(fs.disk.work)
      ensures ok ==> p in fs.disk.work && !IsEnvelope(fs.disk.work[p])
      ensures !ok ==> fs.faults > old(fs.faults) || !FileOpens(fs.setup, fs.disk, key, p)
      ensures fs.faults >= old(fs.faults) && fs.refusals >= old(fs.refusals)
      ensures OnlyBitOf(p, old(fs.disk.skip), fs.disk.skip) && (!wrote ==> fs.disk.skip == old(fs.disk.skip))
      ensures wrote && fs.refusals == old(fs.refusals) ==> (p in fs.disk.skip <==> true)
    {
      hide Legal, After, Allowed, Readable, Bounded;
      ok, wrote := false, false;
      var data := fs.Read(p);
      if data.None? { return; }
      if !IsEnvelope(data.value) { return true, false; }
      var plain := OpenFile(fs.setup.repoId, p, key, data.value);
      if plain.None? { return; }
      fs.SafeNow();
      OpeningIsAllowed(fs.setup, fs.disk, p, key);
      wrote := fs.Do(PutFile(p, plain.value));
      if !wrote { return; }
      fs.TrySetSkip(p, true);
      ok := true;
    }

    method Lock() returns (ok: bool, touched: seq<Path>)
      requires Valid()
      modifies fs
      ensures Valid() && OnlyFilesDiffer(old(fs.disk), fs.disk) && fs.disk.index == old(fs.disk.index)
      // whoever gpg does not open the key for can do nothing
      ensures old(fs.setup.backend.GpgKey? && Readers(fs.disk.keySource) * me == {}) ==> !ok && fs.disk == old(fs.disk)
      ensures Key().None? ==> touched == [] && !ok && fs.disk == old(fs.disk)
      ensures Key().Some? ==> Encrypted(fs.setup.repoId, Key().value, old(fs.disk.work), fs.disk.work, touched)
      ensures ok ==> forall p :: p in fs.setup.whole ==> p in fs.disk.work && IsEnvelope(fs.disk.work[p])
      ensures !ok && Key().Some? && fs.faults == old(fs.faults) ==>
        exists p :: p in fs.setup.whole && p !in fs.disk.work
      ensures !ok && fs.faults == old(fs.faults) &&
              old(fs.disk.keySource.Some? && (fs.setup.backend.GpgKey? ==> Readers(fs.disk.keySource) * me != {})) ==>
        exists p :: p in fs.setup.whole && p !in fs.disk.work
      ensures fs.refusals == old(fs.refusals) ==> SkipBits(old(fs.disk), fs.disk, touched, false)
    {
      hide Legal, After, Readable, Bounded, Encrypted, SkipBits;
      ok, touched := EncryptPaths(fs.setup.whole);
    }

    method Unlock() returns (ok: bool, touched: seq<Path>)
      requires Valid()
      modifies fs
      ensures Valid() && OnlyFilesDiffer(old(fs.disk), fs.disk) && fs.disk.index == old(fs.disk.index)
      // whoever gpg does not open the key for can do nothing
      ensures old(fs.setup.backend.GpgKey? && Readers(fs.disk.keySource) * me == {}) ==> !ok && fs.disk == old(fs.disk)
      ensures Key().None? ==> touched == [] && !ok && fs.disk == old(fs.disk)
      ensures Key().Some? ==> Decrypted(fs.setup.repoId, Key().value, old(fs.disk.work), fs.disk.work, touched)
      ensures ok ==> forall p :: p in fs.setup.whole ==> p in fs.disk.work && !IsEnvelope(fs.disk.work[p])
      ensures !ok && Key().Some? && fs.faults == old(fs.faults) ==>
        exists p :: p in fs.setup.whole && !FileOpens(fs.setup, fs.disk, Key().value, p)
      ensures !ok && fs.faults == old(fs.faults) &&
              old(fs.disk.keySource.Some? && (fs.setup.backend.GpgKey? ==> Readers(fs.disk.keySource) * me != {})) ==>
        exists p :: p in fs.setup.whole && !FileOpens(fs.setup, fs.disk, fs.disk.keySource.value.key, p)
      ensures fs.refusals == old(fs.refusals) ==> SkipBits(old(fs.disk), fs.disk, touched, true)
    {
      hide Legal, After, Readable, Bounded, Decrypted, SkipBits;
      ok, touched := DecryptPaths(fs.setup.whole);
    }

    // ---- rotation: read phase ----

    method PlanFiles(key: Key) returns (ok: bool, plans: seq<FilePlan>)
      modifies fs`faults
      ensures fs.faults >= old(fs.faults)
      ensures !ok ==>
        fs.faults > old(fs.faults) || exists p :: p in fs.setup.whole && !FileOpens(fs.setup, fs.disk, key, p)
      ensures ok ==> PathsOf(plans) == fs.setup.whole
      ensures ok ==> forall j :: 0 <= j < |plans| ==> PlannedFrom(fs.setup, fs.disk, key, plans[j])
    {
      ok, plans := false, [];
      for n := 0 to |fs.setup.whole|
        invariant fs.faults >= old(fs.faults)
        invariant PathsOf(plans) == fs.setup.whole[..n]
        invariant forall j :: 0 <= j < |plans| ==> PlannedFrom(fs.setup, fs.disk, key, plans[j])
      {
        var p := fs.setup.whole[n];
        assert p in fs.setup.whole;
        var data := fs.Read(p);
        if data.None? { return; }
        var plaintext := data.value;
        if IsEnvelope(data.value) {
          var plain := OpenFile(fs.setup.repoId, p, key, data.value);
          if plain.None? { return; }
          plaintext := plain.value;
        }
        plans := plans + [FilePlan(p, plaintext)];
      }
      ok := true;
    }

    method PlanManifests(key: Key) returns (ok: bool, files: seq<ManifestPlan>, values: seq<ValuePlan>)
      modifies fs`faults
      ensures fs.faults >= old(fs.faults)
      ensures !ok ==>
        fs.faults > old(fs.faults) || exists p :: p in fs.setup.manifests && !ManifestOpens(fs.disk, key, p)
      ensures ok ==> forall p :: p in fs.setup.manifests ==>
        ManifestOpens(fs.disk, key, p)
      ensures ok ==> forall p :: p in fs.setup.manifests ==> CipherCovered(fs.disk, p, files)
      ensures ok ==> PlansSound(fs.setup, fs.disk, key, files, values)
    {
      ok, files, values := false, [], [];
      for n := 0 to |fs.setup.manifests|
        invariant fs.faults >= old(fs.faults)
        invariant forall j :: 0 <= j < n ==> ManifestOpens(fs.disk, key, fs.setup.manifests[j])
        invariant forall j :: 0 <= j < n ==> CipherCovered(fs.disk, fs.setup.manifests[j], files)
        invariant PlansSound(fs.setup, fs.disk, key, files, values)
      {
        var p := fs.setup.manifests[n];
        assert p in fs.setup.manifests;
        var data := fs.Read(p);
        if data.None? || !data.value.Doc? || data.value.manifest.stringData.None? { return; }
        var m := data.value.manifest;
        if !HasIdentity(m) { return; }
        var good, found := PlanValues(key, p, m, |files|);
        if !good { return; }
        if |found| > 0 {
          PlannedMore(fs.setup, fs.disk, key, files, values, p, m, found);
          files, values := files + [ManifestPlan(p, m)], values + found;
        }
        CoveredMore(fs.disk, p, m, files, found);
      }
      ok := true;
    }

    method PlanValues(key: Key, p: Path, m: Manifest, file: nat) returns (ok: bool, found: seq<ValuePlan>)
      ensures ok <==> forall i :: 0 <= i < |Entries(m)| ==> ValueOpens(p, m, key, Entries(m)[i])
      ensures ok ==> forall v :: v in found ==> v.file == file && FoundIn(p, m, key, v)
      ensures ok ==> forall i :: 0 <= i < |Entries(m)| && Entries(m)[i].value.Cipher? ==> (file, i) in Slots(found)
    {
      ok, found := false, [];
      var es := Entries(m);
      for i := 0 to |es|
        invariant forall j :: 0 <= j < i ==> ValueOpens(p, m, key, es[j])
        invariant forall v :: v in found ==> v.file == file && FoundIn(p, m, key, v)
        invariant forall j :: 0 <= j < i && es[j].value.Cipher? ==> (file, j) in Slots(found)
      {
        match es[i].value
        case Plain(_) =>
        case Malformed(_) => return;
        case Cipher(blob) =>
          var plain := Open(blob, key, ValueAad(p, es[i].name, m.id));
          if plain.None? { return; }
          ghost var found0 := found;
          found := found + [ValuePlan(file, i, plain.value)];
          assert forall s :: s in Slots(found0) ==> s in Slots(found);
          assert found[|found0|] in found;
          assert (file, i) in Slots(found);
      }
      ok := true;
    }

    // ---- rotation: seal phase, in memory ----

    method SealFiles(key: Key, plans: seq<FilePlan>) returns (ok: bool, sealed: map<Path, Content>)
      requires forall i, j :: 0 <= i < |plans| && 0 <= j < |plans| && plans[i].path == plans[j].path ==>
        plans[i] == plans[j]
      modifies fs`faults
      ensures fs.faults >= old(fs.faults) && (!ok ==> fs.faults > old(fs.faults))
      ensures ok ==> forall j :: 0 <= j < |plans| ==> SealedAs(fs.setup.repoId, key, plans[j], sealed)
    {
      ok, sealed := false, map[];
      for n := 0 to |plans|
        invariant fs.faults >= old(fs.faults)
        invariant forall j :: 0 <= j < n ==> SealedAs(fs.setup.repoId, key, plans[j], sealed)
      {
        var sealing := fs.Attempt();
        if !sealing { return; }
        sealed := sealed[plans[n].path := SealFile(fs.setup.repoId, plans[n].path, key, plans[n].plaintext)];
      }
      ok := true;
    }

    method SealValues(oldKey: Key, key: Key, files: seq<ManifestPlan>, values: seq<ValuePlan>)
      returns (ok: bool, docs: seq<ManifestPlan>)
      requires forall v :: v in values ==> ValuePlanned(files, oldKey, v)
      requires SlotsComplete(files, values, |files|)
      modifies fs`faults
      ensures fs.faults >= old(fs.faults) && (!ok ==> fs.faults > old(fs.faults))
      ensures ok ==> |docs| == |files|
      ensures ok ==> forall f :: 0 <= f < |files| ==>
        docs[f] == ManifestPlan(files[f].path, Reseal(files[f].path, files[f].doc, key))
    {
      hide SealedSlotsOf, SlotsComplete;
      ok, docs := false, files;
      ghost var done: set<(nat, nat)> := {};
      SealedNone(files, key);
      for n := 0 to |values|
        invariant fs.faults >= old(fs.faults)
        invariant forall v :: v in values[..n] ==> (v.file, v.slot) in done
        invariant SealedSlots(files, docs, key, done)
      {
        var sealing := fs.Attempt();
        if !sealing { return; }
        var v := values[n];
        assert ValuePlanned(files, oldKey, v);
        SealedMore(files, docs, oldKey, key, done, v);
        var f := docs[v.file];
        var e := Entries(f.doc)[v.slot];
        docs := docs[v.file := WithValue(f, v.slot, SealValue(f.path, e.name, f.doc.id, key, v.plaintext))];
        done := done + {(v.file, v.slot)};
      }
      ok := true;
      forall v | v in values ensures (v.file, v.slot) in done { assert v in values[..|values|]; }
      AllSlotsSealed(files, docs, key, done, values);
    }

    // ---- rotation: write phase ----

    /** What the write loops rely on: the new key is staged wherever this backend persists keys. */
    ghost predicate Rotating(key: Key)
      reads this, fs
    {
      && fs.Valid() && key in KnownKeys(fs.disk)
      && (!fs.setup.backend.EnvKey? ==> fs.disk.staging.Some? && fs.disk.staging.value.key == key)
    }

    /** Write one rotated file, then point the index at it; only the file write may stop the command. */
    method WriteMoved(key: Key, p: Path, content: Content) returns (wrote: bool, indexed: bool)
      requires Rotating(key)
      requires Allowed(fs.setup, fs.disk, PutFile(p, content)) && SealedBefore(content, fs.disk.minted)
      modifies fs
      ensures Rotating(key) && OnlyFilesDiffer(old(fs.disk), fs.disk)
      ensures wrote ==> fs.disk.work == old(fs.disk.work)[p := content]
      ensures !wrote ==> !indexed && fs.disk == old(fs.disk) && fs.faults > old(fs.faults)
      ensures indexed ==> fs.disk.index == old(fs.disk.index)[p := content]
      ensures !indexed ==> fs.disk.index == old(fs.disk.index)
      ensures OnlyBitOf(p, old(fs.disk.skip), fs.disk.skip)
      ensures fs.faults >= old(fs.faults) && fs.refusals >= old(fs.refusals)
      ensures wrote && fs.refusals == old(fs.refusals) ==> indexed && p !in fs.disk.skip
    {
      hide Legal, After, Allowed, Readable, Bounded;
      indexed := false;
      wrote := fs.Do(PutFile(p, content));
      if !wrote { return; }
      indexed := fs.TryIndex(p, content);
      fs.TrySetSkip(p, false);
    }

    method WriteFiles(key: Key, plans: seq<FilePlan>, sealed: map<Path, Content>, ghost was: Disk)
      returns (ok: bool, rotated: seq<Path>, ghost indexed: set<Path>)
      requires Rotating(key) && fs.disk.work == was.work && fs.disk.index == was.index
      requires forall p :: p in fs.setup.whole ==> p in was.work && !IsEnvelope(Clear(was.work[p]))
      requires PathsOf(plans) == fs.setup.whole
      requires forall j :: 0 <= j < |plans| ==> SealedAs(fs.setup.repoId, key, plans[j], sealed)
      requires forall j :: 0 <= j < |plans| ==> PlanIsClear(was, plans[j])
      modifies fs
      ensures Rotating(key) && OnlyFilesDiffer(old(fs.disk), fs.disk)
      ensures Moved(fs.setup, key, was, fs.disk, rotated, indexed)
      ensures rotated <= fs.setup.whole && (ok ==> rotated == fs.setup.whole)
      ensures rotated == [] ==> fs.disk == old(fs.disk)
      ensures fs.faults >= old(fs.faults) && fs.refusals >= old(fs.refusals)
      ensures !ok ==> fs.faults > old(fs.faults)
      ensures fs.refusals == old(fs.refusals) ==>
        Indexed(rotated, indexed) && SkipBits(old(fs.disk), fs.disk, rotated, false)
    {
      hide Legal, After, Readable, Bounded, Moved;
      ok, rotated, indexed := false, [], {};
      MovedNone(fs.setup, key, was, fs.disk);
      for n := 0 to |plans|
        invariant Rotating(key) && OnlyFilesDiffer(old(fs.disk), fs.disk)
        invariant Moved(fs.setup, key, was, fs.disk, rotated, indexed)
        invariant rotated == fs.setup.whole[..n]
        invariant n == 0 ==> fs.disk == old(fs.disk)
        invariant fs.faults >= old(fs.faults) && fs.refusals >= old(fs.refusals)
        invariant fs.refusals == old(fs.refusals) ==>
          Indexed(rotated, indexed) && SkipBits(old(fs.disk), fs.disk, rotated, false)
      {
        var p := plans[n].path;
        assert PathsOf(plans)[n] == p;
        var content := sealed[p];
        assert SealedAs(fs.setup.repoId, key, plans[n], sealed) && PlanIsClear(was, plans[n]);
        assert content == MovedContent(fs.setup, key, p, was.work[p]);
        ghost var before := fs.disk;
        var wrote, inIndex := MoveOne(key, p, content, was, rotated, indexed);
        if !wrote { return; }
        if fs.refusals == old(fs.refusals) { SkipBitsMore(old(fs.disk), before, fs.disk, rotated, false, p); }
        rotated := rotated + [p];
        if inIndex { indexed := indexed + {p}; }
      }
      ok := true;
    }

    /** One round of either write loop. */
    method MoveOne(key: Key, p: Path, content: Content, ghost was: Disk, ghost moved: seq<Path>,
                   ghost indexed: set<Path>)
      returns (wrote: bool, inIndex: bool)
      requires Rotating(key) && Moved(fs.setup, key, was, fs.disk, moved, indexed)
      requires Managed(fs.setup, p) && p in was.work && content == MovedContent(fs.setup, key, p, was.work[p])
      requires p in fs.setup.whole ==> !IsEnvelope(Clear(was.work[p]))
      requires p in fs.setup.manifests ==> was.work[p].Doc?
      modifies fs
      ensures Rotating(key) && OnlyFilesDiffer(old(fs.disk), fs.disk)
      ensures !wrote ==> fs.disk == old(fs.disk) && fs.faults > old(fs.faults)
      ensures fs.faults >= old(fs.faults) && fs.refusals >= old(fs.refusals)
      ensures OnlyBitOf(p, old(fs.disk.skip), fs.disk.skip)
      ensures wrote && fs.refusals == old(fs.refusals) ==> inIndex && p !in fs.disk.skip
      ensures wrote ==> Moved(fs.setup, key, was, fs.disk, moved + [p], if inIndex then indexed + {p} else indexed)
    {
      hide Legal, After, Allowed, Readable, Bounded;
      MovedContentKeepsMeaning(fs.setup, key, p, was.work[p]);
      MovingIsAllowed(fs.setup, fs.disk, p, key, was.work[p]);
      fs.KnownIsMinted(key);
      MovedContentIsSealedUnder(fs.setup, key, p, was.work[p], fs.disk.minted);
      ghost var before := fs.disk;
      wrote, inIndex := WriteMoved(key, p, content);
      if wrote {
        MovedMore(fs.setup, key, was, before, fs.disk, p, moved, indexed, inIndex);
      }
    }

    method WriteManifests(key: Key, docs: seq<ManifestPlan>, ghost was: Disk, whole: seq<Path>,
                          ghost indexed0: set<Path>)
      returns (ok: bool, rotated: seq<Path>, ghost indexed: set<Path>)
      requires Rotating(key) && Moved(fs.setup, key, was, fs.disk, whole, indexed0)
      requires forall f :: 0 <= f < |docs| ==> DocMoved(fs.setup, was, key, docs[f])
      modifies fs
      ensures Rotating(key) && OnlyFilesDiffer(old(fs.disk), fs.disk)
      ensures Moved(fs.setup, key, was, fs.disk, whole + rotated, indexed)
      ensures rotated <= ManifestPathsOf(docs) && (ok ==> rotated == ManifestPathsOf(docs))
      ensures rotated == [] ==> fs.disk == old(fs.disk)
      ensures fs.faults >= old(fs.faults) && fs.refusals >= old(fs.refusals)
      ensures !ok ==> fs.faults > old(fs.faults)
      ensures fs.refusals == old(fs.refusals) && Indexed(whole, indexed0) ==>
        Indexed(whole + rotated, indexed) && SkipBits(old(fs.disk), fs.disk, rotated, false)
    {
      hide Legal, After, Readable, Bounded, Moved;
      ok, rotated, indexed := false, [], indexed0;
      assert whole + [] == whole;
      for n := 0 to |docs|
        invariant Rotating(key) && OnlyFilesDiffer(old(fs.disk), fs.disk)
        invariant Moved(fs.setup, key, was, fs.disk, whole + rotated, indexed)
        invariant rotated == ManifestPathsOf(docs)[..n]
        invariant n == 0 ==> fs.disk == old(fs.disk)
        invariant fs.faults >= old(fs.faults) && fs.refusals >= old(fs.refusals)
        invariant fs.refusals == old(fs.refusals) && Indexed(whole, indexed0) ==>
          Indexed(whole + rotated, indexed) && SkipBits(old(fs.disk), fs.disk, rotated, false)
      {
        var p := docs[n].path;
        assert DocMoved(fs.setup, was, key, docs[n]);
        ghost var before := fs.disk;
        var wrote, inIndex := MoveOne(key, p, Doc(docs[n].doc), was, whole + rotated, indexed);
        if !wrote { return; }
        if fs.refusals == old(fs.refusals) && Indexed(whole, indexed0) {
          SkipBitsMore(old(fs.disk), before, fs.disk, rotated, false, p);
        }
        assert (whole + rotated) + [p] == whole + (rotated + [p]);
        rotated := rotated + [p];
        if inIndex { indexed := indexed + {p}; }
      }
      ok := true;
    }

    // ---- rotate-keys ----

    /** The key file Generate writes for this backend. */
    function Wrapped(key: Key): KeyFile
      reads this, fs
    {
      KeyFile(key, if fs.setup.backend.GpgKey? then SetOf(wrapTo) else {})
    }

    /** Generate at key_source.new, or for the env backend in memory only. */
    method GenerateStaged() returns (key: Option<Key>)
      requires Valid() && Readable(fs.setup, fs.disk, KeyOf(fs.disk.keySource))
      modifies fs
      ensures Valid() && fs.faults >= old(fs.faults) && fs.refusals == old(fs.refusals)
      ensures key.None? ==> fs.disk == old(fs.disk)
      ensures key.None? ==> (fs.setup.backend.GpgKey? && wrapTo == []) || fs.faults > old(fs.faults)
      ensures key.Some? && fs.setup.backend.GpgKey? ==> wrapTo != []
      ensures key.Some? ==> key.value == old(fs.disk.minted) && Rotating(key.value)
      ensures key.Some? && fs.setup.backend.EnvKey? ==> fs.disk == Apply(old(fs.disk), Mint)
      ensures key.Some? && !fs.setup.backend.EnvKey? ==> fs.disk == Apply(old(fs.disk), Stage(Wrapped(key.value)))
    {
      hide Legal, After, Readable, Bounded, Allowed;
      var minted := fs.disk.minted;
      if fs.setup.backend.GpgKey? && wrapTo == [] { return None; }
      var write := if fs.setup.backend.EnvKey? then Mint else Stage(Wrapped(minted));
      GeneratingIsAllowed(fs.setup, fs.disk, Wrapped(minted));
      var ok := fs.Do(write);
      key := if ok then Some(minted) else None;
    }

    method CleanupStagingKey()
      requires Valid() && Readable(fs.setup, fs.disk, KeyOf(fs.disk.keySource))
      modifies fs
      ensures Valid() && fs.disk == old(fs.disk).(staging := fs.disk.staging)
      ensures fs.faults >= old(fs.faults) && fs.refusals == old(fs.refusals)
      ensures fs.disk.staging.None? || fs.disk.staging == old(fs.disk.staging)
    {
      hide Legal, After, Readable, Bounded;
      if !fs.setup.backend.EnvKey? {
        var _ := fs.Do(Unstage);
      }
    }

    /** Everything RotateKeys reads and opens under the current key, before it changes anything. */
    method ReadPhase(key: Key)
      returns (ok: bool, plans: seq<FilePlan>, files: seq<ManifestPlan>, values: seq<ValuePlan>)
      requires Valid()
      modifies fs`faults
      ensures fs.faults >= old(fs.faults)
      ensures !ok ==> fs.faults > old(fs.faults) || !OpensUnder(fs.setup, fs.disk, key)
      ensures ok ==> ReadUnder(fs.setup, fs.disk, key, plans, files)
      ensures ok ==> forall v :: v in values ==> ValuePlanned(files, key, v)
      ensures ok ==> SlotsComplete(files, values, |files|)
    {
      hide Legal, After, Readable;
      files, values := [], [];
      ok, plans := PlanFiles(key);
      if !ok { return; }
      ok, files, values := PlanManifests(key);
      if !ok { return; }
      PlansOpen(fs.setup, fs.disk, key, plans);
      fs.SafeNow();
      OpensUnderIsReadable(fs.setup, fs.disk, key);
      assert forall p :: p in fs.setup.whole ==> FileOpens(fs.setup, fs.disk, key, p);
    }

    /** Everything RotateKeys writes, file by file; afterwards each file needs the old or the new key. */
    method WritePhase(oldKey: Key, key: Key, plans: seq<FilePlan>, sealed: map<Path, Content>,
                      files: seq<ManifestPlan>, docs: seq<ManifestPlan>, ghost was: Disk)
      returns (ok: bool, rotated: seq<Path>, ghost indexed: set<Path>)
      requires Rotating(key) && fs.disk.work == was.work && fs.disk.index == was.index
      requires ReadUnder(fs.setup, was, oldKey, plans, files)
      requires forall j :: 0 <= j < |plans| ==> SealedAs(fs.setup.repoId, key, plans[j], sealed)
      requires |docs| == |files| && forall f :: 0 <= f < |files| ==>
        docs[f] == ManifestPlan(files[f].path, Reseal(files[f].path, files[f].doc, key))
      modifies fs
      ensures Rotating(key) && OnlyFilesDiffer(old(fs.disk), fs.disk)
      ensures Moved(fs.setup, key, was, fs.disk, rotated, indexed)
      ensures rotated == [] ==> fs.disk == old(fs.disk)
      ensures Readable(fs.setup, fs.disk, {oldKey} + {key})
      ensures forall p :: p in rotated ==> HoldsCiphertext(fs.setup, was, p)
      ensures fs.faults >= old(fs.faults) && fs.refusals >= old(fs.refusals)
      ensures !ok ==> fs.faults > old(fs.faults)
      ensures fs.refusals == old(fs.refusals) ==>
        Indexed(rotated, indexed) && SkipBits(old(fs.disk), fs.disk, rotated, false)
      ensures ok ==> Readable(fs.setup, fs.disk, {key}) && AllMoved(fs.setup, was, rotated)
    {
      hide Legal, After, Safe, Readable, Bounded, Moved, SkipBits, Indexed, DocMoved, OpensUnder, AllMoved, PlanIsClear;
      ok, rotated, indexed := WriteFiles(key, plans, sealed, was);
      ghost var mid, whole := fs.disk, rotated;
      MovedIsReadable(fs.setup, key, was, fs.disk, rotated, indexed, {oldKey});
      if !ok { return; }
      var movedManifests;
      DocsAreMoved(fs.setup, was, key, files, docs);
      ok, movedManifests, indexed := WriteManifests(key, docs, was, rotated, indexed);
      PrefixHoldsCiphertext(fs.setup, was, key, docs, movedManifests);
      rotated := rotated + movedManifests;
      MovedIsReadable(fs.setup, key, was, fs.disk, rotated, indexed, {oldKey});
      if fs.refusals == old(fs.refusals) {
        SkipBitsTwice(old(fs.disk), mid, fs.disk, whole, movedManifests, false);
      }
      if ok {
        assert ManifestPathsOf(docs) == ManifestPathsOf(files);
        AllWritten(fs.setup, was, oldKey, files, rotated);
      }
    }

    /** Seal every plan under the new key, in memory; on failure drop the staged key again. */
    method SealPhase(oldKey: Key, key: Key, plans: seq<FilePlan>, files: seq<ManifestPlan>, values: seq<ValuePlan>)
      returns (ok: bool, sealed: map<Path, Content>, docs: seq<ManifestPlan>)
      requires Valid() && Readable(fs.setup, fs.disk, KeyOf(fs.disk.keySource))
      requires forall j :: 0 <= j < |plans| ==> PlanIsClear(fs.disk, plans[j])
      requires forall v :: v in values ==> ValuePlanned(files, oldKey, v)
      requires SlotsComplete(files, values, |files|)
      modifies fs
      ensures Valid() && fs.faults >= old(fs.faults) && (!ok ==> fs.faults > old(fs.faults))
      ensures fs.refusals == old(fs.refusals)
      ensures ok ==> fs.disk == old(fs.disk)
      ensures !ok ==> fs.disk == old(fs.disk).(staging := fs.disk.staging)
      ensures !ok ==> fs.disk.staging.None? || fs.disk.staging == old(fs.disk.staging)
      ensures ok ==> forall j :: 0 <= j < |plans| ==> SealedAs(fs.setup.repoId, key, plans[j], sealed)
      ensures ok ==> |docs| == |files| && forall f :: 0 <= f < |files| ==>
        docs[f] == ManifestPlan(files[f].path, Reseal(files[f].path, files[f].doc, key))
    {
      hide Legal, After, Readable;
      docs := [];
      ok, sealed := SealFiles(key, plans);
      if ok {
        ok, docs := SealValues(oldKey, key, files, values);
      }
      if !ok { CleanupStagingKey(); }
    }

    /** Write everything, then put the new key in place. */
    method WriteAndPromote(oldKey: Key, key: Key, plans: seq<FilePlan>, sealed: map<Path, Content>,
                           files: seq<ManifestPlan>, docs: seq<ManifestPlan>, exported: Option<Key>, ghost was: Disk)
      returns (ok: bool, r: RotateResult, ghost indexed: set<Path>)
      requires Rotating(key) && Key() == Some(oldKey)
      requires OnlyKeysDiffer(was, fs.disk) && key == was.minted
      requires OtherwiseSame(was, fs.disk, RotateResult([], exported))
      requires exported == if fs.setup.backend.EnvKey? then Some(key) else None
      requires ReadUnder(fs.setup, was, oldKey, plans, files)
      requires forall j :: 0 <= j < |plans| ==> SealedAs(fs.setup.repoId, key, plans[j], sealed)
      requires |docs| == |files| && forall f :: 0 <= f < |files| ==>
        docs[f] == ManifestPlan(files[f].path, Reseal(files[f].path, files[f].doc, key))
      modifies fs
      ensures Rotated(ok, key, r.rotated, was)
      ensures fs.faults >= old(fs.faults) && (!ok ==> fs.faults > old(fs.faults))
      ensures fs.refusals == old(fs.refusals) ==>
        Indexed(r.rotated, indexed) && SkipBits(old(fs.disk), fs.disk, r.rotated, false)
      ensures RotationOutcome(fs.setup, was, fs.disk, r, indexed) && r.exported == exported
      ensures !ok || fs.setup.backend.EnvKey? ==> fs.disk.keySource == old(fs.disk.keySource)
      ensures ok && !fs.setup.backend.EnvKey? ==>
        fs.disk.keySource == old(fs.disk.staging) && fs.disk.staging == None
    {
      hide Legal, After, Readable, Moved, Bounded;
      var moved;
      ok, moved, indexed := WritePhase(oldKey, key, plans, sealed, files, docs, was);
      r := RotateResult(moved, exported);
      WrittenOutcome(fs.setup, was, fs.disk, oldKey, key, r, indexed);
      if ok && !fs.setup.backend.EnvKey? {
        ghost var before := fs.disk;
        ok := fs.Do(Promote);
        if ok { PromotedOutcome(fs.setup, was, before, fs.disk, key, r, indexed); }
      }
    }

    /** The current key can be had, every managed file opens under it, and there is someone to wrap a new one to. */
    ghost predicate CanRotate()
      reads this, fs
    {
      && Key().Some? && OpensUnder(fs.setup, fs.disk, Key().value)
      && (fs.setup.backend.GpgKey? ==> wrapTo != [])
    }

    ghost predicate Rotated(ok: bool, key: Key, moved: seq<Path>, was: Disk)
      reads this, fs
    {
      && fs.Valid() && fs.disk.recipients == was.recipients
      && (ok ==> Readable(fs.setup, fs.disk, {key}) && AllMoved(fs.setup, was, moved))
    }

    method RotateKeys() returns (ok: bool, r: RotateResult, ghost indexed: set<Path>)
      requires Valid()
      modifies fs
      ensures Rotated(ok, old(fs.disk.minted), r.rotated, old(fs.disk))
      ensures RotationOutcome(fs.setup, old(fs.disk), fs.disk, r, indexed)
      // failure leaves the key where it was; success puts the fresh key there, wrapped to the backend's list
      ensures !ok || fs.setup.backend.EnvKey? ==> fs.disk.keySource == old(fs.disk.keySource)
      ensures ok && !fs.setup.backend.EnvKey? ==>
        fs.disk.keySource == Some(old(Wrapped(fs.disk.minted))) && fs.disk.staging == None
      ensures fs.faults >= old(fs.faults)
      // it fails only for a fault, or because there is no usable key or a managed file that does not open under it
      ensures ok ==> old(CanRotate())
      ensures !ok ==> fs.faults > old(fs.faults) || !old(CanRotate())
      // whoever gpg does not open the key for can do nothing; whoever has it, all that opens under it
      ensures old(fs.setup.backend.GpgKey? && Readers(fs.disk.keySource) * me == {}) ==> !ok && fs.disk == old(fs.disk)
      ensures !ok && fs.faults == old(fs.faults) &&
              old(fs.disk.keySource.Some? && (fs.setup.backend.GpgKey? ==> Readers(fs.disk.keySource) * me != {})) ==>
        (fs.setup.backend.GpgKey? && wrapTo == []) ||
        !OpensUnder(fs.setup, old(fs.disk), old(fs.disk).keySource.value.key)
      // unless git refused an update, index and worktree agree on the rotated paths and neither is hidden
      ensures fs.refusals == old(fs.refusals) ==>
        Indexed(r.rotated, indexed) && SkipBits(old(fs.disk), fs.disk, r.rotated, false)
      // the env backend's key is in every result that follows a file write
      ensures fs.setup.backend.EnvKey? && (ok || r.rotated != []) ==> r.exported == Some(old(fs.disk.minted))
      // no other backend hands a key out, so if the keys on disk sufficed, they still do
      ensures !fs.setup.backend.EnvKey? ==> r.exported.None?
      ensures !fs.setup.backend.EnvKey? && Readable(fs.setup, old(fs.disk), LiveKeys(old(fs.disk))) ==>
        Readable(fs.setup, fs.disk, LiveKeys(fs.disk))
    {
      hide Legal, After, Moved, AllMoved, OpensUnder, Bounded, Readable;
      ok, r, indexed := false, RotateResult([], None), {};
      fs.SafeNow();
      ghost var was := fs.disk;
      NothingMoved(fs.setup, was, was, r);
      var oldKey := Key();
      if oldKey.None? { return; }
      var read, plans, files, values := ReadPhase(oldKey.value);
      if !read { return; }
      var generated := GenerateStaged();
      if generated.None? { return; }
      var newKey := generated.value;
      r := r.(exported := if fs.setup.backend.EnvKey? then Some(newKey) else None);
      ReadableBySameWork(fs.setup, was, fs.disk, {oldKey.value});
      var sealedAll, sealed, docs := SealPhase(oldKey.value, newKey, plans, files, values);
      if !sealedAll {
        NothingMoved(fs.setup, was, fs.disk, r);
        return;
      }
      ok, r, indexed := WriteAndPromote(oldKey.value, newKey, plans, sealed, files, docs, r.exported, was);
    }

    /** The context matches the config it was loaded from, with the machine's global recipients merged in. */
    ghost predicate Loaded()
      reads this, fs
    {
      && Valid() && wrapTo == recipients && Lists.NoDuplicates(recipients) && "" !in recipients
      && Committed(fs.disk) <= SetOf(recipients)
    }

    /** PersistGPGRecipients: record the list the key was just wrapped to. */
    method PersistGPGRecipients() returns (ok: bool)
      requires Valid()
      requires fs.setup.backend.GpgKey? ==>
        Readers(fs.disk.keySource) + Readers(fs.disk.staging) <= SetOf(fs.setup.global) + SetOf(recipients)
      modifies fs
      ensures fs.Valid()
      ensures fs.faults >= old(fs.faults) && (!ok ==> fs.faults > old(fs.faults))
      ensures fs.disk == if ok && fs.setup.backend.GpgKey? then old(fs.disk).(recipients := Some(recipients))
                         else old(fs.disk)
    {
      hide Legal, After, Readable, Bounded;
      ok := true;
      if fs.setup.backend.GpgKey? {
        ok := fs.Do(SaveConfig(recipients));
      }
    }

    /** The rotate-keys command: rotate, then persist the recipients. */
    method RotateCommand() returns (ok: bool, r: RotateResult, ghost indexed: set<Path>)
      requires Loaded()
      modifies fs
      ensures fs.Valid()
      ensures RotationOutcome(fs.setup, old(fs.disk), fs.disk.(recipients := old(fs.disk.recipients)), r, indexed)
      ensures ok ==> Readable(fs.setup, fs.disk, {old(fs.disk.minted)}) && AllMoved(fs.setup, old(fs.disk), r.rotated)
      ensures fs.setup.backend.EnvKey? && (ok || r.rotated != []) ==> r.exported == Some(old(fs.disk.minted))
      ensures ok && !fs.setup.backend.EnvKey? ==>
        fs.disk.keySource.Some? && fs.disk.keySource.value.key == old(fs.disk.minted)
      ensures !fs.setup.backend.GpgKey? ==> fs.disk.recipients == old(fs.disk.recipients)
      ensures ok && fs.setup.backend.GpgKey? ==>
        Readers(fs.disk.keySource) == Committed(fs.disk) == SetOf(recipients) && fs.disk.staging == None
      ensures !ok ==> fs.faults > old(fs.faults) || !old(CanRotate())
    {
      hide Legal, After, Readable, Moved, AllMoved, HoldsCiphertext;
      ok, r, indexed := RotateKeys();
      ghost var d := fs.disk;
      if ok && !fs.setup.backend.EnvKey? {
        ok := PersistGPGRecipients();
        ReadableBySameWork(fs.setup, d, fs.disk, {old(fs.disk.minted)});
      }
      assert fs.disk.(recipients := old(fs.disk.recipients)) == d;
    }

    // ---- adduser ----

    method AddUser(recipient: Identity) returns (outcome: AddOutcome)
      requires Loaded()
      modifies fs, this
      ensures Valid() && (outcome.Added? ==> SetOf(recipients) == Committed(fs.disk))
      ensures fs.disk.work == old(fs.disk.work) && fs.disk.index == old(fs.disk.index)
      ensures fs.disk.staging == old(fs.disk.staging)
      // no outcome but success changes who can unwrap the key
      ensures !outcome.Added? ==> fs.disk.keySource == old(fs.disk.keySource) && recipients == old(recipients)
      // whoever gpg does not open the key for cannot add anybody
      ensures old(Readers(fs.disk.keySource)) * me == {} ==> !outcome.Added? && fs.disk == old(fs.disk)
      ensures outcome.Failed? ==>
        || fs.faults > old(fs.faults) || !fs.setup.backend.GpgKey? || !Fingerprints.ValidFingerprint(recipient)
        || (recipient !in recipients && Key().None?)
      ensures outcome.Failed? ==>
        || fs.disk == old(fs.disk).(temps := fs.disk.temps)
        || (old(Key()).Some? && fs.disk == Unpromoted(old(fs.disk), old(Key()).value, old(recipients) + [recipient]))
      ensures outcome.AlreadyPresent? <==>
        fs.setup.backend.GpgKey? && Fingerprints.ValidFingerprint(recipient) && recipient in old(recipients)
      ensures outcome.AlreadyPresent? ==> fs.disk == old(fs.disk)
      ensures outcome.Added? ==>
        && old(Key()).Some? && Fingerprints.ValidFingerprint(recipient) && recipient !in old(recipients)
        && fs.disk.keySource == Some(KeyFile(old(Key()).value, Committed(fs.disk)))
        && Committed(fs.disk) == SetOf(old(recipients)) + {recipient}
        && fs.disk == old(fs.disk).(keySource := fs.disk.keySource, recipients := Some(old(recipients) + [recipient]),
                                    temps := old(fs.disk.temps) - {fs.disk.keySource.value})
    {
      hide Legal, After, Readable, Bounded;
      if !fs.setup.backend.GpgKey? || !Fingerprints.ValidFingerprint(recipient) { return Failed; }
      if recipient in recipients { return AlreadyPresent; }
      var dek := Key();
      if dek.None? { return Failed; }
      var updated := recipients + [recipient];
      var wrapping := fs.Attempt();
      if !wrapping { return Failed; }
      var wrapped := KeyFile(dek.value, SetOf(updated));
      assert SetOf(updated) == SetOf(recipients) + {recipient};

      var promoted := StageSavePromote(wrapped, updated);
      if !promoted { return Failed; }
      recipients := updated;
      outcome := Added;
    }

    /** Stage the rewrapped key, save the config that lists its readers, and only then put the key in place. */
    method StageSavePromote(wrapped: KeyFile, updated: seq<Identity>) returns (ok: bool)
      requires fs.Valid() && fs.setup.backend.GpgKey?
      requires fs.disk.keySource.Some? && wrapped.key == fs.disk.keySource.value.key
      requires wrapped.readers == SetOf(updated) && Committed(fs.disk) <= SetOf(updated)
      modifies fs
      ensures fs.Valid() && (!ok ==> fs.faults > old(fs.faults))
      ensures ok ==> fs.disk == old(fs.disk).(keySource := Some(wrapped), recipients := Some(updated),
                                              temps := old(fs.disk).temps - {wrapped})
      ensures !ok ==>
        fs.disk == old(fs.disk).(temps := fs.disk.temps) || fs.disk == Unpromoted(old(fs.disk), wrapped.key, updated)
    {
      hide Legal, After, Readable, Bounded;
      ok := fs.Do(StageTemp(wrapped));
      if !ok { return; }
      fs.SafeNow();
      ok := fs.Do(SaveConfig(updated));
      if !ok {
        var _ := fs.Do(DropTemp(wrapped));
        return;
      }
      ok := fs.Do(PromoteTemp(wrapped));
    }

    // ---- removeuser ----

    /** The index of a configured recipient, or the length of the list. */
    method Find(recipient: Identity) returns (n: nat)
      ensures n <= |recipients| && (n == |recipients| <==> recipient !in recipients)
      ensures n < |recipients| ==> recipients[n] == recipient
    {
      for i := 0 to |recipients|
        invariant forall j :: 0 <= j < i ==> recipients[j] != recipient
      {
        if recipients[i] == recipient { return i; }
      }
      n := |recipients|;
    }

    /** Rotate in a throwaway context that wraps to the given list. */
    method RotateUnder(updated: seq<Identity>) returns (ok: bool, r: RotateResult, ghost indexed: set<Path>)
      requires Valid() && fs.setup.backend.GpgKey? && SetOf(updated) <= Effective(fs.setup, fs.disk) && updated != []
      modifies fs
      ensures fs.Valid() && RotationOutcome(fs.setup, old(fs.disk), fs.disk, r, indexed)
      ensures fs.faults >= old(fs.faults)
      ensures old(Readers(fs.disk.keySource)) * me == {} ==> !ok && fs.disk == old(fs.disk)
      ensures !ok ==> fs.disk.keySource == old(fs.disk.keySource)
      ensures !ok ==>
        fs.faults > old(fs.faults) || old(Key()).None? || !OpensUnder(fs.setup, old(fs.disk), old(Key()).value)
      ensures ok ==>
        && old(Key()).Some? && OpensUnder(fs.setup, old(fs.disk), old(Key()).value)
        && fs.disk.keySource == Some(KeyFile(old(fs.disk.minted), SetOf(updated))) && fs.disk.staging == None
        && Readable(fs.setup, fs.disk, {old(fs.disk.minted)})
    {
      hide Legal, After, AllMoved, OpensUnder, Readable, RotationOutcome, SkipBits, Indexed, Safe;
      var reduced := new Context(fs, me, updated, updated);
      ok, r, indexed := reduced.RotateKeys();
    }

    /** rotation is what the rotation left, before the config was saved. */
    method RemoveUser(recipient: Identity)
      returns (outcome: RemoveOutcome, r: RotateResult, ghost rotation: Disk, ghost indexed: set<Path>)
      requires Loaded()
      modifies fs, this
      ensures fs.Valid()
      ensures outcome.Refused? ==>
        fs.disk.recipients == old(fs.disk.recipients) && fs.disk.keySource == old(fs.disk.keySource)
      // whoever gpg does not open the key for cannot remove anybody
      ensures old(Readers(fs.disk.keySource)) * me == {} ==> outcome.Refused? && fs.disk == old(fs.disk)
      ensures outcome.Refused? ==>
        || fs.faults > old(fs.faults) || !fs.setup.backend.GpgKey? || recipient !in old(recipients)
        || old(recipients) == [recipient] || !old(CanRotate())
      ensures outcome.Unsaved? ==> fs.disk.recipients == old(fs.disk.recipients) && fs.faults > old(fs.faults)
      ensures !outcome.Refused? ==>
        fs.setup.backend.GpgKey? && recipient in old(recipients) && old(recipients) != [recipient] && old(CanRotate())
      // once the rotation went through the recipient is out, and every managed file needs a key they never had
      ensures outcome.Removed? || outcome.Unsaved? ==>
        && fs.disk.keySource == Some(KeyFile(old(fs.disk.minted), SetOf(old(recipients)) - {recipient}))
        && fs.disk.staging == None && fs.disk.keySource.value.readers != {}
        && Readable(fs.setup, fs.disk, {old(fs.disk.minted)})
      ensures outcome.Removed? ==>
        Committed(fs.disk) == fs.disk.keySource.value.readers && SetOf(recipients) == Committed(fs.disk)
      // refused or not, no file lost its meaning
      ensures RotationOutcome(fs.setup, old(fs.disk), rotation, r, indexed)
      ensures fs.disk == rotation.(recipients := fs.disk.recipients)
      // a recipient comes back with the next load on exactly the machines whose global config names them
      ensures outcome.Removed? ==> forall global :: recipient in Merged(global, fs.disk) <==> recipient in global
      ensures outcome.Removed? ==> (recipient in Effective(fs.setup, fs.disk) <==> recipient in SetOf(fs.setup.global))
    {
      hide Legal, After, Moved, AllMoved, OpensUnder, Readable, HoldsCiphertext, SkipBits, Indexed;
      outcome, r, rotation, indexed := Refused, RotateResult([], None), fs.disk, {};
      fs.SafeNow();
      NothingMoved(fs.setup, rotation, rotation, r);
      SameOutcome(fs.setup, rotation, rotation, r, indexed);
      hide RotationOutcome, Bounded;
      if !fs.setup.backend.GpgKey? { return; }
      var n := Find(recipient);
      if n == |recipients| { return; }
      var updated := recipients[..n] + recipients[n + 1..];
      RemovedOnce(recipients, n);
      if updated == [] { return; }
      assert updated[0] in SetOf(updated);

      var rotated;
      rotated, r, indexed := RotateUnder(updated);
      rotation := fs.disk;
      SameOutcome(fs.setup, old(fs.disk), rotation, r, indexed);
      if !rotated { return; }
      var saved := fs.Do(SaveConfig(updated));
      ReadableBySameWork(fs.setup, rotation, fs.disk, {old(fs.disk.minted)});
      if !saved {
        outcome := Unsaved;
        return;
      }
      recipients, wrapTo := updated, updated;
      outcome := Removed;
    }
  }

  /** All of adduser but its last rename: the config lists the recipient, the key is not wrapped to them. */
  function Unpromoted(d: Disk, key: Key, updated: seq<Identity>): Disk {
    d.(recipients := Some(updated), temps := d.temps + {KeyFile(key, SetOf(updated))})
  }

  /**
   Such a recipient is stuck: every later load, on whatever machine, lists them, so that a repeated
   adduser answers that they are already present, while the key at key_source still shuts them out.
   */
  lemma UnpromotedIsStuck(s: Setup, was: Disk, key: Key, recipients: seq<Identity>, recipient: Identity)
    requires s.backend.GpgKey? && AccessListed(s, was) && Fingerprints.ValidFingerprint(recipient)
    ensures var now := Unpromoted(was, key, recipients + [recipient]);
            && (forall global :: recipient in Merged(global, now))
            && (recipient !in Effective(s, was) ==>
                  recipient !in Readers(now.keySource) && !CanGet(s, now, {recipient}))
  {
    assert recipient != "";
    assert recipient in Unpromoted(was, key, recipients + [recipient]).recipients.value;
  }

  datatype AddOutcome = Added | AlreadyPresent | Failed
  datatype RemoveOutcome = Removed | Refused | Unsaved

  lemma RemovedOnce(ids: seq<Identity>, n: nat)
    requires Lists.NoDuplicates(ids) && n < |ids|
    ensures SetOf(ids[..n] + ids[n + 1..]) == SetOf(ids) - {ids[n]}
  {
    var u := ids[..n] + ids[n + 1..];
    forall x | x in SetOf(ids) - {ids[n]} ensures x in u {
      var i :| 0 <= i < |ids| && ids[i] == x;
      assert x == u[if i < n then i else i - 1];
    }
  }

  // ---- init ----

  datatype InitResult = InitResult(generated: bool, exported: Option<Key>)

  /** The recipients a load merges, on a machine whose global config lists the given ones. */
  function Merged(global: seq<Identity>, d: Disk): seq<Identity> {
    Lists.Dedup(global + if d.recipients.Some? then d.recipients.value else [])
  }

  /** Validate's conditions on the merged recipients. */
  predicate ValidRecipients(s: Setup, merged: seq<Identity>) {
    (s.backend.GpgKey? ==> merged != []) && forall id :: id in merged ==> Fingerprints.ValidFingerprint(id)
  }

  /** Told of the two lists: every entry that is not empty is a full fingerprint and, for gpg, there is one. */
  lemma ValidRecipientsMeans(s: Setup, global: seq<Identity>, d: Disk)
    requires d.recipients.Some?
    ensures var listed := set id | id in global + d.recipients.value && id != "";
            ValidRecipients(s, Merged(global, d)) <==>
              (forall id :: id in listed ==> Fingerprints.ValidFingerprint(id)) && (s.backend.GpgKey? ==> listed != {})
  {
    hide Lists.Dedup, Lists.NoDuplicates, Fingerprints.ValidFingerprint;
    var listed := set id | id in global + d.recipients.value && id != "";
    var merged := Merged(global, d);
    assert forall id :: id in merged <==> id in listed;
    if merged != [] { assert merged[0] in listed; }
  }

  /** Whether the backend's Get finds a key: gpg reports an unopenable key as not found, too. */
  predicate CanGet(s: Setup, d: Disk, me: set<Identity>) {
    d.keySource.Some? && (s.backend.GpgKey? ==> d.keySource.value.readers * me != {})
  }

  /** Whoever runs a command: the secret keys at hand and the recipients their machine's global config lists. */
  datatype Caller = Caller(me: set<Identity>, global: seq<Identity>)

  /** The global lists of the setup cover this machine's. */
  predicate Covered(s: Setup, who: Caller) {
    SetOf(who.global) <= SetOf(s.global)
  }

  // the disks init passes through: with a starter config, with the merged recipients committed, with a key

  function Configured(d: Disk, requested: seq<Identity>): Disk {
    if d.recipients.None? then Apply(d, SaveConfig(requested)) else d
  }

  predicate Usable(s: Setup, d: Disk, who: Caller, requested: seq<Identity>) {
    ValidRecipients(s, Merged(who.global, Configured(d, requested)))
  }

  predicate Generates(s: Setup, d: Disk, who: Caller, requested: seq<Identity>) {
    Usable(s, d, who, requested) && !CanGet(s, d, who.me)
  }

  function Relisted(s: Setup, d: Disk, who: Caller, requested: seq<Identity>): Disk {
    var c := Configured(d, requested);
    if s.backend.GpgKey? then Apply(c, SaveConfig(Merged(who.global, c))) else c
  }

  function FirstWrite(s: Setup, d: Disk): Write {
    if s.backend.EnvKey? then Mint
    else FirstKey(KeyFile(d.minted, if s.backend.GpgKey? then Committed(d) else {}))
  }

  function Initialised(s: Setup, d: Disk, who: Caller, requested: seq<Identity>): Disk {
    if Generates(s, d, who, requested) then
      var listed := Relisted(s, d, who, requested);
      Apply(listed, FirstWrite(s, listed))
    else Configured(d, requested)
  }

  /** What every command but init starts with: read, merge and validate the config, and set up the backend. */
  method Load(fs: FileSystem, who: Caller) returns (ctx: Context?)
    requires fs.Valid() && Covered(fs.setup, who)
    modifies fs`faults
    ensures fs.Valid() && fs.faults >= old(fs.faults)
    ensures ctx != null ==>
      && fresh(ctx) && ctx.fs == fs && ctx.me == who.me && ctx.Loaded() && ctx.recipients == Merged(who.global, fs.disk)
    ensures ctx == null <==>
      || fs.faults > old(fs.faults) || fs.disk.recipients.None?
      || !ValidRecipients(fs.setup, Merged(who.global, fs.disk))
    ensures ctx != null ==>
      && (forall id :: id in ctx.recipients ==> Fingerprints.ValidFingerprint(id))
      && (fs.setup.backend.GpgKey? ==> ctx.recipients != [])
  {
    hide Legal, After, Safe;
    var read := fs.Attempt();
    if !read || fs.disk.recipients.None? { return null; }
    var merged := Lists.Dedup(who.global + fs.disk.recipients.value);
    if !ValidRecipients(fs.setup, merged) { return null; }
    assert SetOf(merged) == SetOf(who.global) + Committed(fs.disk);
    ctx := new Context(fs, who.me, merged, merged);
  }

  /**
   Init's key step: write a starter config if there is none, load it, and create a key if Get finds
   none.  The merged recipients are committed before the key wrapped to them is written.
   */
  method InitKey(fs: FileSystem, who: Caller, requested: seq<Identity>) returns (ok: bool, r: InitResult)
    requires fs.Valid() && Covered(fs.setup, who)
    modifies fs
    ensures fs.Valid() && fs.faults >= old(fs.faults)
    ensures fs.faults == old(fs.faults) ==> fs.disk == Initialised(fs.setup, old(fs.disk), who, requested)
    ensures fs.faults > old(fs.faults) ==>
      fs.disk == old(fs.disk) || fs.disk == Configured(old(fs.disk), requested) ||
      (Generates(fs.setup, old(fs.disk), who, requested) && fs.disk == Relisted(fs.setup, old(fs.disk), who, requested))
    ensures ok <==> fs.faults == old(fs.faults) && Usable(fs.setup, old(fs.disk), who, requested)
    ensures r.generated <==> ok && Generates(fs.setup, old(fs.disk), who, requested)
    ensures r.exported == if r.generated && fs.setup.backend.EnvKey? then Some(old(fs.disk.minted)) else None
    // a key that can be had is kept, and so is a list that is there, unless a key is wrapped to it and the global one
    ensures old(fs.disk.keySource.Some? && (fs.setup.backend.GpgKey? ==> Readers(fs.disk.keySource) * who.me != {})) ==>
      !r.generated && fs.disk.keySource == old(fs.disk.keySource) &&
      (old(fs.disk.recipients).Some? ==> fs.disk == old(fs.disk))
    ensures fs.disk.work == old(fs.disk.work) && fs.disk.index == old(fs.disk.index)
    ensures old(fs.disk.recipients).Some? && !fs.setup.backend.GpgKey? ==>
      fs.disk.recipients == old(fs.disk.recipients)
    ensures r.generated && fs.setup.backend.GpgKey? ==>
      Readers(fs.disk.keySource) == Committed(fs.disk) == SetOf(Merged(who.global, fs.disk))
  {
    hide Legal, After, Bounded, Readable, Safe, Lists.NoDuplicates, Fingerprints.ValidFingerprint;
    ok, r := false, InitResult(false, None);
    if fs.disk.recipients.None? {
      var written := WriteStarter(fs, requested);
      if !written { return; }
    }
    var merged := Lists.Dedup(who.global + fs.disk.recipients.value);
    assert SetOf(merged) == SetOf(who.global) + Committed(fs.disk);
    if !ValidRecipients(fs.setup, merged) { return; }
    if CanGet(fs.setup, fs.disk, who.me) { return true, r; }
    ok, r := GenerateFirst(fs, merged);
    assert ok && fs.setup.backend.GpgKey? ==> SetOf(Merged(who.global, fs.disk)) == SetOf(who.global) + SetOf(merged);
  }

  /** Init's starter config, where there is none yet. */
  method WriteStarter(fs: FileSystem, requested: seq<Identity>) returns (ok: bool)
    requires fs.Valid() && fs.disk.recipients.None?
    modifies fs
    ensures fs.Valid()
    ensures ok ==> fs.disk == Configured(old(fs.disk), requested) && fs.faults == old(fs.faults)
    ensures !ok ==> fs.disk == old(fs.disk) && fs.faults > old(fs.faults)
  {
    hide Legal, After, Bounded, Readable;
    fs.SafeNow();
    ok := fs.Do(SaveConfig(requested));
  }

  /** The recipients first, then the key. */
  method GenerateFirst(fs: FileSystem, merged: seq<Identity>) returns (ok: bool, r: InitResult)
    requires fs.Valid() && Committed(fs.disk) <= SetOf(merged) <= Effective(fs.setup, fs.disk)
    requires fs.setup.backend.FileKey? ==> fs.disk.keySource.None?
    modifies fs
    ensures fs.Valid() && fs.faults >= old(fs.faults)
    ensures r == InitResult(ok, if ok && fs.setup.backend.EnvKey? then Some(old(fs.disk.minted)) else None)
    ensures ok <==> fs.faults == old(fs.faults)
    ensures var listed := if fs.setup.backend.GpgKey? then Apply(old(fs.disk), SaveConfig(merged)) else old(fs.disk);
            if ok then fs.disk == Apply(listed, FirstWrite(fs.setup, listed))
            else fs.disk == old(fs.disk) || fs.disk == listed
    ensures ok && fs.setup.backend.GpgKey? ==>
      fs.log == old(fs.log) + [SaveConfig(merged)] + [FirstKey(KeyFile(old(fs.disk.minted), SetOf(merged)))]
    ensures ok && fs.setup.backend.GpgKey? ==>
      Readers(fs.disk.keySource) == Committed(fs.disk) == SetOf(merged)
  {
    hide Legal, After, Bounded, Readable;
    ok, r := false, InitResult(false, None);
    fs.SafeNow();
    if fs.setup.backend.GpgKey? {
      var saved := fs.Do(SaveConfig(merged));
      if !saved { return; }
    }
    var key := fs.disk.minted;
    if fs.setup.backend.EnvKey? {
      ok := fs.Do(Mint);
      r := if ok then InitResult(true, Some(key)) else r;
    } else {
      ok := fs.Do(FirstKey(KeyFile(key, if fs.setup.backend.GpgKey? then SetOf(merged) else {})));
      r := InitResult(ok, None);
    }
  }

  /**
   What init does to the files: with the keys then on disk all of them are readable iff none needed
   the key that was replaced, if one was.
   */
  lemma InitLosesFilesIff(s: Setup, d: Disk, who: Caller, requested: seq<Identity>)
    requires Safe(s, d)
    ensures var now := Initialised(s, d, who, requested);
            var overwrites := Generates(s, d, who, requested) && !s.backend.EnvKey?;
            && (Readable(s, now, LiveKeys(now)) <==>
                Readable(s, d, if overwrites then KeyOf(d.staging) else LiveKeys(d)))
            && now.dropped == d.dropped + if overwrites then KeyOf(d.keySource) else {}
  {
    hide Readable, Safe, ValidRecipients, Merged, CanGet;
    var now := Initialised(s, d, who, requested);
    if Generates(s, d, who, requested) && !s.backend.EnvKey? {
      var f := FirstWrite(s, Relisted(s, d, who, requested)).file;
      OverwriteIsSafeIffUnused(s, d, f);
      ReadableBySameWork(s, now, Apply(d, FirstKey(f)), LiveKeys(now));
    } else {
      ReadableBySameWork(s, d, now, LiveKeys(d));
    }
  }

  // A gpg repository with one sealed file, its key wrapped to Alice.

  const ALICE: Identity := seq(40, _ => 'A')
  const SEALED: Content := SealFile("repo", "a", 0, Raw([]))
  const ALICES: Setup := Setup("repo", ["a"], [], GpgKey, [])
  const STRANGER: Caller := Caller({}, [])
  const ALICES_DISK: Disk :=
    Disk(map["a" := SEALED], map[], {}, Some(KeyFile(0, {ALICE})), None, {}, Some([ALICE]), 1, {}, {})

  lemma ExampleIsSafe()
    ensures Safe(ALICES, ALICES_DISK) && Disjoint(ALICES)
    ensures Readable(ALICES, ALICES_DISK, LiveKeys(ALICES_DISK)) && !Readable(ALICES, ALICES_DISK, {})
  {
    assert KnownKeys(ALICES_DISK) == LiveKeys(ALICES_DISK) == {0};
    assert FileReadable("repo", "a", SEALED, {0});
    assert Readable(ALICES, ALICES_DISK, {0});
    assert ALICE in SetOf([ALICE]);
    assert "a" in ALICES.whole && !FileReadable("repo", "a", ALICES_DISK.work["a"], {});
  }

  lemma ExampleGenerates()
    ensures Generates(ALICES, ALICES_DISK, STRANGER, [])
  {
    assert [] + [ALICE] == [ALICE];
    assert Merged([], ALICES_DISK) == [ALICE] by { Lists.DedupOfProper([ALICE]); }
  }

  /**
   Init can lose files.  A gpg key that exists but that no local secret key opens reads as "no key",
   so init replaces it: here Alice's repository, initialised again by a stranger, no longer opens for anyone.
   */
  lemma InitCanLoseFiles()
    ensures exists s: Setup, d: Disk, who: Caller ::
      && Safe(s, d) && Disjoint(s) && Readable(s, d, LiveKeys(d)) && s.backend.GpgKey?
      && Generates(s, d, who, []) && !Readable(s, Initialised(s, d, who, []), LiveKeys(Initialised(s, d, who, [])))
  {
    ExampleIsSafe();
    ExampleGenerates();
    InitLosesFilesIff(ALICES, ALICES_DISK, STRANGER, []);
    hide Safe, Readable, Generates, Initialised;
  }

  /** Rotating in Alice's repository where nothing is selected drops the key her file needs. */
  lemma NarrowRotationExample()
    ensures var narrow, now := ALICES.(whole := []), ALICES_DISK.(keySource := Some(KeyFile(1, {ALICE})), minted := 2);
            && Safe(ALICES, ALICES_DISK) && Narrower(narrow, ALICES)
            && RotationOutcome(narrow, ALICES_DISK, now, RotateResult([], None), {})
            && LiveKeys(now) == {1} && Readable(narrow, now, {1}) && !Readable(ALICES, now, {1})
  {
    var narrow, now := ALICES.(whole := []), ALICES_DISK.(keySource := Some(KeyFile(1, {ALICE})), minted := 2);
    ExampleIsSafe();
    assert "a" in ALICES.whole && !FileReadable("repo", "a", now.work["a"], {1});
  }
}
