/** keyfold recipients add and remove: the guards, and what they keep over any sequence of changes. */
module Recipients {
  import opened Wrappers
  import opened Fingerprints
  import opened Sorting
  import opened RecipientRoles
  import opened Sealer
  import Text

  /** One requested change; role None is no --role flag. */
  datatype Change = Change(add: bool, fpr: string, role: Option<Role>, force: bool)

  datatype Obj = Obj(spec: Spec, annotations: map<string, string>)

  datatype Verdict = NoChange | LastRecipient | LastRecovery | Proceed

  // ---- the change as a function of the object ----

  function Without(rs: seq<string>, key: string): (r: seq<string>)
    ensures forall x :: x in r <==> x in rs && Upper(x) != key
    ensures DistinctUpToCase(rs) ==> DistinctUpToCase(r)
  {
    if rs == [] then []
    else
      var front := Without(rs[..|rs| - 1], key);
      var x := rs[|rs| - 1];
      assert rs == rs[..|rs| - 1] + [x];
      if Upper(x) == key then front
      else
        assert DistinctUpToCase(rs) ==> forall y :: y in front ==> Upper(y) != Upper(x);
        front + [x]
  }

  function NextRecipients(rs: seq<string>, c: Change): seq<string> {
    if c.add then rs + [c.fpr] else Without(rs, Upper(c.fpr))
  }

  function NextRoles(roles: map<string, Role>, c: Change): map<string, Role> {
    if c.add then if c.role.Some? then roles[Upper(c.fpr) := c.role.value] else roles
    else roles - {Upper(c.fpr)}
  }

  predicate HasRole(fps: seq<string>, roles: map<string, Role>, want: Role) {
    exists fp :: fp in fps && Upper(fp) in roles && roles[Upper(fp)] == want
  }

  function Judge(o: Obj, c: Change): Verdict {
    var rs, roles, key := o.spec.recipients, Roles(o.annotations), Upper(c.fpr);
    if c.add then
      if key in UpperSet(rs) then NoChange else Proceed
    else if key !in UpperSet(rs) then NoChange
    else if Without(rs, key) == [] && !c.force then LastRecipient
    else if !c.force && key in roles && roles[key] == Recovery && !HasRole(Without(rs, key), roles, Recovery)
    then LastRecovery
    else Proceed
  }

  /** fp is one of these, up to case. */
  predicate ListsUpToCase(rs: seq<string>, fp: string) {
    exists r :: r in rs && Upper(r) == Upper(fp)
  }

  /**
   The guards: nothing to do iff the recipient is there already or not there; without --force, never
   the last recipient, nor the last of those marked recovery.
   */
  lemma VerdictMeans(o: Obj, c: Change)
    ensures var rs, roles, v := o.spec.recipients, Roles(o.annotations), Judge(o, c);
            && (v.NoChange? <==> (c.add <==> ListsUpToCase(rs, c.fpr)))
            && (v.LastRecipient? <==>
                  !c.add && !c.force && rs != [] && forall r :: r in rs ==> Upper(r) == Upper(c.fpr))
            && (v.LastRecovery? <==>
                  && !c.add && !c.force && ListsUpToCase(rs, c.fpr)
                  && (exists r :: r in rs && Upper(r) != Upper(c.fpr))
                  && Upper(c.fpr) in roles && roles[Upper(c.fpr)] == Recovery
                  && forall r :: r in rs && Upper(r) != Upper(c.fpr) ==>
                       Upper(r) !in roles || roles[Upper(r)] != Recovery)
  {
    hide Roles, DistinctUpToCase;
    var rs, key := o.spec.recipients, Upper(c.fpr);
    assert ListsUpToCase(rs, c.fpr) <==> key in UpperSet(rs);
    assert rs != [] ==> rs[0] in rs;
    assert Without(rs, key) != [] ==> Without(rs, key)[0] in Without(rs, key);
  }

  /** The annotations afterwards: roles under the current key, or under none; never under the old one. */
  ghost predicate Reannotated(was: map<string, string>, now: map<string, string>, roles: map<string, Role>) {
    exists fps ::
      Enumerates(fps, roles) &&
      var text := Rendered(roles, fps);
      var rest := was - {ROLES_KEY, LegacyAnnotationKey(ROLES_KEY)};
      now == if text == "" then rest else rest[ROLES_KEY := text]
  }

  ghost predicate Changed(was: Obj, now: Obj, c: Change) {
    && was.spec.encryptedKey.Some?
    && NextRecipients(was.spec.recipients, c) != []
    && AllFingerprints(NextRecipients(was.spec.recipients, c))
    && now.spec == RewrapSpec(was.spec, NextRecipients(was.spec.recipients, c))
    && Reannotated(was.annotations, now.annotations, NextRoles(Roles(was.annotations), c))
  }

  // ---- the operation in place ----

  const SOURCE_REVISION := "keyfold.opscalehub.io/source-revision"
  const SOURCE_REPO := "keyfold.opscalehub.io/source-repo"
  const PROVENANCE: set<string> := {SOURCE_REVISION, SOURCE_REPO,
                                    LegacyAnnotationKey(SOURCE_REVISION), LegacyAnnotationKey(SOURCE_REPO)}

  datatype Outcome = Applied | Refused(why: Verdict) | RewrapFailed

  /** How one change ends: the guards decide, then whether the key can be unwrapped and wrapped again. */
  function Attempted(o: Obj, c: Change, me: set<string>, gpg: bool): Outcome {
    var verdict := Judge(o, c);
    if !verdict.Proceed? then Refused(verdict)
    else if CanRewrap(o.spec, NextRecipients(o.spec.recipients, c), me, gpg) then Applied
    else RewrapFailed
  }

  class GitSecret {
    const namespace: string
    const name: string
    var spec: Spec
    var annotations: map<string, string>

    constructor (namespace: string, name: string, spec: Spec, annotations: map<string, string>)
      ensures this.namespace == namespace && this.name == name && this.spec == spec && this.annotations == annotations
    {
      this.namespace, this.name, this.spec, this.annotations := namespace, name, spec, annotations;
    }

    function Value(): Obj
      reads this
    {
      Obj(spec, annotations)
    }

    method ApplyRecipientChange(c: Change, me: set<string>, gpg: bool) returns (outcome: Outcome)
      modifies this
      ensures outcome == Attempted(old(Value()), c, me, gpg)
      ensures outcome.Applied? ==> Changed(old(Value()), Value(), c)
      ensures !outcome.Applied? ==> Value() == old(Value())
      // past the guards it takes the key of somebody it is wrapped to, full fingerprints, and gpg
      ensures !outcome.Refused? ==>
        (outcome.Applied? <==>
          && old(spec).encryptedKey.Some? && (exists x :: x in old(spec).encryptedKey.value.to && x in me)
          && NextRecipients(old(spec).recipients, c) != []
          && (forall r :: r in NextRecipients(old(spec).recipients, c) ==> ValidFingerprint(r)) && gpg)
      // the roles move to the current key, and every other annotation stays
      ensures outcome.Applied? ==>
        annotations - {ROLES_KEY} ==
          old(annotations) - {ROLES_KEY, "git-secret.opscalehub.io/recipient-roles"}
    {
      hide Judge, Sort, Reannotated, Roles, DistinctUpToCase;
      var verdict, next, nextRoles := Decide(c);
      if !verdict.Proceed? { return Refused(verdict); }
      var rewrapped := Rewrap(spec, next, me, gpg);
      assert CanUnwrap(spec, me) <==>
             spec.encryptedKey.Some? && exists x :: x in spec.encryptedKey.value.to && x in me
      by { KeyringOpens(spec, me); }
      if rewrapped.Err? { return RewrapFailed; }
      spec := rewrapped.value;
      WriteRoles(nextRoles);
      OnlyRolesMove(old(annotations), annotations, nextRoles);
      outcome := Applied;
    }

    // ---- rekey and set ----

    /** The object as a world whose next content key is minted. */
    function InWorld(minted: nat): World
      reads this
    {
      World(namespace, name, spec, minted, {})
    }

    method OpenForReseal(me: set<string>) returns (r: Option<map<string, string>>)
      ensures r.Some? ==> namespace != "" && name != "" && spec.recipients != [] && Unseals(namespace, name, spec, me)
      ensures r.Some? ==> r.value == Plaintexts(spec)
      ensures r.None? ==> namespace == "" || name == "" || spec.recipients == [] || !Unseals(namespace, name, spec, me)
    {
      if namespace == "" || name == "" || spec.recipients == [] { return None; }
      var data := Unseal(namespace, name, spec, me);
      r := if data.Ok? then Some(data.value) else None;
    }

    /** Seal data to the current recipients; stamp None keeps the provenance annotations, else they are replaced. */
    method Reseal(data: map<string, string>, stamp: Option<map<string, string>>, minted: nat, gpg: bool)
      returns (ok: bool)
      requires stamp.Some? ==> stamp.value.Keys <= {SOURCE_REVISION, SOURCE_REPO}
      modifies this
      ensures ok <==> CanWrap(old(spec).recipients, gpg)
      ensures ok ==> spec == SealSpec(namespace, name, data, old(spec).recipients, minted)
      ensures ok ==>
        annotations == if stamp.None? then old(annotations) else old(annotations) - PROVENANCE + stamp.value
      // no provenance but the new one, under its name of now or of before the rename
      ensures ok && stamp.Some? ==>
        && (SOURCE_REVISION in annotations ==> SOURCE_REVISION in stamp.value)
        && (SOURCE_REPO in annotations ==> SOURCE_REPO in stamp.value)
        && "git-secret.opscalehub.io/source-revision" !in annotations
        && "git-secret.opscalehub.io/source-repo" !in annotations
      ensures !ok ==> Value() == old(Value())
    {
      hide Upper, UpperSet, ValidFingerprint, Sort, LegacyAnnotationKey;
      var sealed := SealContext(namespace, name, data, spec.recipients, minted, gpg);
      if sealed.Err? { return false; }
      LegacyProvenance();
      spec := sealed.value;
      if stamp.Some? {
        annotations := annotations - PROVENANCE;
        annotations := annotations + stamp.value;
      }
      ok := true;
    }

    method RunRekey(me: set<string>, minted: nat, gpg: bool) returns (ok: bool)
      modifies this
      ensures ok <==> Succeeds(old(InWorld(minted)), Rekey(me, gpg))
      ensures spec == Step(old(InWorld(minted)), Rekey(me, gpg)).spec
      ensures ok <==>
        && namespace != "" && name != "" && old(spec).recipients != []
        && (forall r :: r in old(spec).recipients ==> ValidFingerprint(r))
        && Unseals(namespace, name, old(spec), me) && gpg
      ensures annotations == old(annotations)
    {
      var data := OpenForReseal(me);
      if data.None? { return false; }
      ok := Reseal(data.value, None, minted, gpg);
    }

    method RunSet(field: string, value: string, stamp: map<string, string>, me: set<string>, minted: nat, gpg: bool)
      returns (ok: bool)
      requires stamp.Keys <= {SOURCE_REVISION, SOURCE_REPO}
      modifies this
      ensures ok <==> Succeeds(old(InWorld(minted)), SetValue(me, field, value, gpg))
      ensures spec == Step(old(InWorld(minted)), SetValue(me, field, value, gpg)).spec
      ensures annotations == if ok then old(annotations) - PROVENANCE + stamp else old(annotations)
    {
      var data := OpenForReseal(me);
      if data.None? { return false; }
      ok := Reseal(data.value[field := value], Some(stamp), minted, gpg);
    }

    /** The guards, and the recipients and roles the change would leave. */
    method Decide(c: Change) returns (verdict: Verdict, next: seq<string>, nextRoles: map<string, Role>)
      ensures verdict == Judge(Value(), c)
      ensures verdict.Proceed? ==>
        next == NextRecipients(spec.recipients, c) && nextRoles == NextRoles(Roles(annotations), c)
    {
      hide Roles, DistinctUpToCase;
      var current := UpperSet(spec.recipients);
      var roles := ParseRecipientRoles(annotations);
      var key := Upper(c.fpr);
      verdict, next, nextRoles := Proceed, [], roles;
      if c.add {
        if key in current { return NoChange, next, roles; }
        next := spec.recipients + [c.fpr];
        if c.role.Some? { nextRoles := roles[key := c.role.value]; }
      } else {
        if key !in current { return NoChange, next, roles; }
        for n := 0 to |spec.recipients|
          invariant next == Without(spec.recipients[..n], key)
        {
          assert spec.recipients[..n + 1][..n] == spec.recipients[..n];
          if Upper(spec.recipients[n]) != key { next := next + [spec.recipients[n]]; }
        }
        assert spec.recipients[..|spec.recipients|] == spec.recipients;
        if next == [] && !c.force { return LastRecipient, next, roles; }
        if !c.force && key in roles && roles[key] == Recovery && !HasRole(next, roles, Recovery) {
          return LastRecovery, next, roles;
        }
        nextRoles := roles - {key};
      }
    }

    method WriteRoles(roles: map<string, Role>)
      modifies this`annotations
      ensures Reannotated(old(annotations), annotations, roles)
    {
      hide Enumerates, Rendered, LegacyAnnotationKey;
      var text := FormatRecipientRoles(roles);
      Restamped(annotations, ROLES_KEY, LegacyAnnotationKey(ROLES_KEY), text);
      annotations := annotations - {LegacyAnnotationKey(ROLES_KEY)};
      if text == "" {
        annotations := annotations - {ROLES_KEY};
      } else {
        annotations := annotations[ROLES_KEY := text];
      }
    }
  }

  lemma KeyringOpens(spec: Spec, me: set<string>)
    ensures CanUnwrap(spec, me) <==>
            spec.encryptedKey.Some? && exists x :: x in spec.encryptedKey.value.to && x in me
  {
    if spec.encryptedKey.Some? {
      assert forall x :: x in spec.encryptedKey.value.to * me <==> x in spec.encryptedKey.value.to && x in me;
    }
  }

  lemma LegacyProvenance()
    ensures LegacyAnnotationKey(SOURCE_REVISION) == "git-secret.opscalehub.io/source-revision"
    ensures LegacyAnnotationKey(SOURCE_REPO) == "git-secret.opscalehub.io/source-repo"
  {}

  lemma OnlyRolesMove(was: map<string, string>, now: map<string, string>, roles: map<string, Role>)
    requires Reannotated(was, now, roles)
    ensures now - {ROLES_KEY} == was - {ROLES_KEY, "git-secret.opscalehub.io/recipient-roles"}
  {
    hide Enumerates, Rendered, LegacyAnnotationKey;
    var legacy := "git-secret.opscalehub.io/recipient-roles";
    assert LegacyAnnotationKey(ROLES_KEY) == legacy by { LegacyRoles(); }
    assert (was - {ROLES_KEY, legacy}) - {ROLES_KEY} == was - {ROLES_KEY, legacy};
  }

  lemma LegacyRoles()
    ensures LegacyAnnotationKey(ROLES_KEY) == "git-secret.opscalehub.io/recipient-roles"
  {}

  lemma Restamped(was: map<string, string>, key: string, legacy: string, text: string)
    ensures was - {legacy} - {key} == was - {key, legacy}
    ensures (was - {legacy})[key := text] == (was - {key, legacy})[key := text]
  {}

  // ---- what the annotation says afterwards ----

  lemma RolesAreClean(annotations: map<string, string>)
    ensures forall fp :: fp in Roles(annotations) ==> Clean(fp)
  {
    var raw := Annotation(annotations, ROLES_KEY);
    if raw != "" {
      ParsedKeysAreClean(Text.Split(raw, ','));
    }
  }

  lemma FingerprintIsClean(fpr: string)
    requires ValidFingerprint(fpr)
    ensures Clean(Upper(fpr))
  {
    assert forall i :: 0 <= i < |fpr| ==> IsHex(fpr[i]);
    UpperIsClean(fpr);
  }

  /** The roles read back are the roles the change computed, humans being the default. */
  lemma RolesAfter(was: Obj, now: Obj, c: Change)
    requires Changed(was, now, c) && ValidFingerprint(c.fpr)
    ensures Roles(now.annotations) == NonHuman(NextRoles(Roles(was.annotations), c))
  {
    var roles := NextRoles(Roles(was.annotations), c);
    RolesAreClean(was.annotations);
    FingerprintIsClean(c.fpr);
    var fps :| Enumerates(fps, roles) &&
      var text := Rendered(roles, fps);
      var rest := was.annotations - {ROLES_KEY, LegacyAnnotationKey(ROLES_KEY)};
      now.annotations == if text == "" then rest else rest[ROLES_KEY := text];
    ParseOfFormat(roles, fps);
    assert Annotation(now.annotations, ROLES_KEY) == Rendered(roles, fps);
  }

  /** A given role is the one read back, a removed recipient has none, and nobody else's role changes. */
  lemma RoleGiven(was: Obj, now: Obj, c: Change, fp: string)
    requires Changed(was, now, c) && ValidFingerprint(c.fpr)
    ensures var before, after := Roles(was.annotations), Roles(now.annotations);
            && (c.add && c.role.Some? && c.role.value != Human ==>
                  Upper(c.fpr) in after && after[Upper(c.fpr)] == c.role.value)
            && (!c.add || c.role == Some(Human) ==> Upper(c.fpr) !in after)
            && (fp != Upper(c.fpr) || (c.add && c.role.None?) ==>
                  (fp in after <==> fp in before && before[fp] != Human) && (fp in after ==> after[fp] == before[fp]))
  {
    hide Reannotated, Roles;
    RolesAfter(was, now, c);
  }

  // ---- what every sequence of changes keeps ----

  ghost predicate Orderly(o: Obj) {
    o.spec.recipients != [] && DistinctUpToCase(o.spec.recipients) && Sorted(o.spec.recipients)
  }

  predicate HasRecovery(o: Obj) {
    HasRole(o.spec.recipients, Roles(o.annotations), Recovery)
  }

  lemma SortKeepsDistinct(rs: seq<string>)
    requires DistinctUpToCase(rs)
    ensures DistinctUpToCase(Sort(rs))
  {
    SortKeepsMembers(rs);
    DistinctCount(rs);
    assert UpperSet(Sort(rs)) == UpperSet(rs);
    CountDistinct(Sort(rs));
  }

  lemma DistinctAppend(front: seq<string>, x: string)
    requires DistinctUpToCase(front) && Upper(x) !in UpperSet(front)
    ensures DistinctUpToCase(front + [x])
  {
    assert forall y :: y in front ==> Upper(y) in UpperSet(front);
  }

  lemma {:induction false} CountDistinct(rs: seq<string>)
    ensures |UpperSet(rs)| <= |rs|
    ensures |UpperSet(rs)| == |rs| ==> DistinctUpToCase(rs)
  {
    hide DistinctUpToCase;
    if rs != [] {
      var front, x := rs[..|rs| - 1], rs[|rs| - 1];
      assert rs == front + [x];
      CountDistinct(front);
      assert UpperSet(rs) == UpperSet(front) + {Upper(x)};
      if |UpperSet(rs)| == |rs| { DistinctAppend(front, x); }
    } else {
      assert DistinctUpToCase(rs) by { NoneDistinct(); }
    }
  }

  lemma NoneDistinct()
    ensures DistinctUpToCase([])
  {}

  /** The recipients after a change that may proceed: one fingerprint more or less, still distinct. */
  lemma NextIsDistinct(o: Obj, c: Change)
    requires DistinctUpToCase(o.spec.recipients) && Judge(o, c).Proceed?
    ensures var next := NextRecipients(o.spec.recipients, c);
            DistinctUpToCase(next) &&
            UpperSet(next) == if c.add then UpperSet(o.spec.recipients) + {Upper(c.fpr)}
                              else UpperSet(o.spec.recipients) - {Upper(c.fpr)}
  {
    var rs := o.spec.recipients;
    forall y | y in rs ensures Upper(y) in UpperSet(rs) {}
  }

  lemma ChangeKeepsOrder(was: Obj, now: Obj, c: Change)
    requires Orderly(was) && Judge(was, c).Proceed? && Changed(was, now, c)
    ensures Orderly(now) && RecipientsMatch(now.spec)
    ensures now.spec.encryptedKey == Some(Wrapped(was.spec.encryptedKey.value.key, UpperSet(now.spec.recipients)))
    ensures now.spec.encryptedData == was.spec.encryptedData && |UpperSet(now.spec.recipients)| == |now.spec.recipients|
    ensures UpperSet(now.spec.recipients) ==
      if c.add then UpperSet(was.spec.recipients) + {Upper(c.fpr)} else UpperSet(was.spec.recipients) - {Upper(c.fpr)}
  {
    hide Judge, Reannotated, DistinctUpToCase, Roles;
    var next := NextRecipients(was.spec.recipients, c);
    NextIsDistinct(was, c);
    SortKeepsMembers(next);
    SortKeepsDistinct(next);
    assert UpperSet(Sort(next)) == UpperSet(next);
    DistinctCount(now.spec.recipients);
  }

  lemma ChangeKeepsRecovery(was: Obj, now: Obj, c: Change)
    requires Judge(was, c).Proceed? && Changed(was, now, c) && ValidFingerprint(c.fpr)
    requires !c.force && HasRecovery(was)
    ensures HasRecovery(now)
  {
    hide Reannotated, Roles, DistinctUpToCase, Sorted;
    RolesAfter(was, now, c);
    var rs, roles, key := was.spec.recipients, Roles(was.annotations), Upper(c.fpr);
    SortKeepsMembers(NextRecipients(rs, c));
    var fp :| fp in rs && Upper(fp) in roles && roles[Upper(fp)] == Recovery;
    if !c.add && Upper(fp) == key {
      fp :| fp in Without(rs, key) && Upper(fp) in roles && roles[Upper(fp)] == Recovery;
    }
    RecoveryFollows(rs, roles, c, fp);
    assert fp in now.spec.recipients && Upper(fp) in Roles(now.annotations);
  }

  lemma RecoveryFollows(rs: seq<string>, roles: map<string, Role>, c: Change, fp: string)
    requires fp in rs && Upper(fp) in roles && roles[Upper(fp)] == Recovery
    requires if c.add then Upper(c.fpr) !in UpperSet(rs) else Upper(fp) != Upper(c.fpr)
    ensures fp in NextRecipients(rs, c)
    ensures Upper(fp) in NextRoles(roles, c) && NextRoles(roles, c)[Upper(fp)] == Recovery
  {
    assert Upper(fp) in UpperSet(rs);
  }

  /** One object through a sequence of changes: refused or failed ones leave it alone. */
  ghost predicate History(objs: seq<Obj>, changes: seq<Change>) {
    && |objs| == |changes| + 1
    && forall i :: 0 <= i < |changes| ==>
         ValidFingerprint(changes[i].fpr) &&
         (objs[i + 1] == objs[i] || (Judge(objs[i], changes[i]).Proceed? && Changed(objs[i], objs[i + 1], changes[i])))
  }

  /**
   Over every sequence of adds and removes, forced or not, an object never loses its last recipient,
   and its recipients stay distinct up to case, sorted, and consistent with the wrapped key's count.
   */
  lemma {:induction false} RecipientsStayOrderly(objs: seq<Obj>, changes: seq<Change>, n: nat)
    requires History(objs, changes) && Orderly(objs[0]) && n < |objs|
    ensures Orderly(objs[n])
    ensures RecipientsMatch(objs[0].spec) ==> RecipientsMatch(objs[n].spec)
  {
    hide Changed, Orderly, RecipientsMatch, Judge;
    if n > 0 {
      RecipientsStayOrderly(objs, changes, n - 1);
      if objs[n] != objs[n - 1] {
        ChangeKeepsOrder(objs[n - 1], objs[n], changes[n - 1]);
      }
    }
  }

  /** Without --force, an object that has a recovery recipient always has one. */
  lemma {:induction false} RecoveryIsKept(objs: seq<Obj>, changes: seq<Change>, n: nat)
    requires History(objs, changes) && HasRecovery(objs[0]) && n < |objs|
    requires forall i :: 0 <= i < n ==> !changes[i].force
    ensures HasRecovery(objs[n])
  {
    hide Changed, HasRecovery, Judge;
    if n > 0 {
      RecoveryIsKept(objs, changes, n - 1);
      if objs[n] != objs[n - 1] {
        ChangeKeepsRecovery(objs[n - 1], objs[n], changes[n - 1]);
      }
    }
  }

  /** Repeating a change that was applied is reported as no change, whatever the role or force flag. */
  lemma RepeatIsNoChange(was: Obj, now: Obj, c: Change, again: Change)
    requires Judge(was, c).Proceed? && Changed(was, now, c)
    requires again.add == c.add && Upper(again.fpr) == Upper(c.fpr)
    ensures Judge(now, again) == NoChange
  {
    var next := NextRecipients(was.spec.recipients, c);
    SortKeepsMembers(next);
    if c.add {
      assert c.fpr in next;
      assert c.fpr in now.spec.recipients;
    }
  }

  // ---- several files ----

  datatype File = Manifest(obj: Obj) | Other
  datatype Target = Target(path: string, fromDir: bool)
  datatype Pending = Pending(path: string, obj: Obj)

  /** The result computed for one file: skipped, already done, failed, or changed to obj. */
  datatype Computed = Skip | Done | Fail | Rewrite(obj: Obj)

  /** What one target comes to, short of the new object itself. */
  predicate Readable(files: map<string, File>, t: Target) {
    t.path in files && files[t.path].Manifest?
  }

  predicate Rewrites(files: map<string, File>, t: Target, c: Change, me: set<string>, gpg: bool) {
    Readable(files, t) && Attempted(files[t.path].obj, c, me, gpg).Applied?
  }

  predicate Fails(files: map<string, File>, t: Target, c: Change, me: set<string>, gpg: bool) {
    if Readable(files, t) then
      var outcome := Attempted(files[t.path].obj, c, me, gpg);
      outcome.RewrapFailed? || (outcome.Refused? && !outcome.why.NoChange?)
    else !t.fromDir
  }

  method ComputeOne(files: map<string, File>, t: Target, c: Change, me: set<string>, gpg: bool) returns (r: Computed)
    ensures r.Rewrite? <==> Rewrites(files, t, c, me, gpg)
    ensures r.Rewrite? ==> ComputedFrom(files, c, Pending(t.path, r.obj))
    ensures r.Fail? <==> Fails(files, t, c, me, gpg)
    ensures r.Skip? <==> !Readable(files, t) && t.fromDir
    // an unreadable file fails only if it was named; a readable one unless the change is made or was there already
    ensures t.path !in files || files[t.path].Other? ==> r == if t.fromDir then Skip else Fail
    ensures t.path in files && files[t.path].Manifest? ==>
      var outcome := Attempted(files[t.path].obj, c, me, gpg);
      (r.Rewrite? <==> outcome == Applied) && (r.Done? <==> outcome == Refused(NoChange)) && !r.Skip?
  {
    if t.path !in files || files[t.path].Other? {
      return if t.fromDir then Skip else Fail;
    }
    var obj := files[t.path].obj;
    var gs := new GitSecret("", "", obj.spec, obj.annotations);
    var outcome := gs.ApplyRecipientChange(c, me, gpg);
    match outcome
    case Applied => r := Rewrite(gs.Value());
    case Refused(why) => r := if why.NoChange? then Done else Fail;
    case RewrapFailed => r := Fail;
  }

  ghost predicate ComputedFrom(files: map<string, File>, c: Change, p: Pending) {
    p.path in files && files[p.path].Manifest? && Judge(files[p.path].obj, c).Proceed? &&
      Changed(files[p.path].obj, p.obj, c)
  }

  /** p's file after the first n results were written: what it held, or the last result for it. */
  ghost predicate WrittenSoFar(files: map<string, File>, now: map<string, File>, changed: seq<Pending>, n: nat,
                               p: string) {
    && p in files && p in now && n <= |changed|
    && (|| (now[p] == files[p] && forall i :: 0 <= i < n ==> changed[i].path != p)
        || exists i :: LastFor(changed, n, p, i) && now[p] == Manifest(changed[i].obj))
  }

  predicate LastFor(changed: seq<Pending>, n: nat, p: string, i: int)
    requires n <= |changed|
  {
    0 <= i < n && changed[i].path == p && forall j :: i < j < n ==> changed[j].path != p
  }

  /** The files to rewrite, in order, among the first n targets; gpg(i) says whether gpg wraps for the i-th. */
  function ToRewrite(files: map<string, File>, targets: seq<Target>, c: Change, me: set<string>,
                     gpg: nat -> bool, n: nat):
    seq<string>
    requires n <= |targets|
  {
    if n == 0 then []
    else
      ToRewrite(files, targets, c, me, gpg, n - 1) +
      if Rewrites(files, targets[n - 1], c, me, gpg(n - 1)) then [targets[n - 1].path] else []
  }

  /**
   recipientsMutate with --write: everything is computed first; one failure and nothing is written.
   The budget is the number of files that can be written before a write fails.
   */
  method RecipientsMutate(files: map<string, File>, targets: seq<Target>, c: Change, me: set<string>, gpg: nat -> bool,
                          budget: nat)
    returns (ok: bool, failures: nat, now: map<string, File>, changed: seq<Pending>, written: nat)
    ensures failures > 0 <==> exists n: nat :: n < |targets| && Fails(files, targets[n], c, me, gpg(n))
    ensures failures > 0 ==> !ok && now == files && written == 0
    ensures Paths(changed) == ToRewrite(files, targets, c, me, gpg, |targets|)
    ensures failures == 0 ==> written == (if budget < |changed| then budget else |changed|) && (ok <==>
      written == |changed|)
    ensures forall i :: 0 <= i < |changed| ==> ComputedFrom(files, c, changed[i])
    ensures now.Keys == files.Keys && forall p :: p in files ==> WrittenSoFar(files, now, changed, written, p)
  {
    hide ComputedFrom, Rewrites, Fails, Attempted, Readable, LastFor;
    changed, written, now, failures := [], 0, files, 0;
    for n := 0 to |targets|
      invariant failures > 0 <==> exists k: nat :: k < n && Fails(files, targets[k], c, me, gpg(k))
      invariant Paths(changed) == ToRewrite(files, targets, c, me, gpg, n)
      invariant forall i :: 0 <= i < |changed| ==> ComputedFrom(files, c, changed[i])
    {
      var r := ComputeOne(files, targets[n], c, me, gpg(n));
      match r
      case Skip =>
      case Done =>
      case Fail => failures := failures + 1;
      case Rewrite(obj) => changed := changed + [Pending(targets[n].path, obj)];
    }
    ok := false;
    if failures > 0 { return; }
    forall i | 0 <= i < |changed| ensures changed[i].path in files {
      ComputedIsAFile(files, c, changed[i]);
    }
    now, written := WriteAll(files, changed, budget);
    ok := written == |changed|;
  }

  function Paths(ps: seq<Pending>): (r: seq<string>)
    ensures |r| == |ps| && forall i :: 0 <= i < |ps| ==> r[i] == ps[i].path
  {
    seq(|ps|, i requires 0 <= i < |ps| => ps[i].path)
  }

  lemma ComputedIsAFile(files: map<string, File>, c: Change, p: Pending)
    requires ComputedFrom(files, c, p)
    ensures p.path in files
  {}

  method WriteAll(files: map<string, File>, changed: seq<Pending>, budget: nat)
    returns (now: map<string, File>, written: nat)
    requires forall i :: 0 <= i < |changed| ==> changed[i].path in files
    ensures written == if budget < |changed| then budget else |changed|
    ensures now.Keys == files.Keys && forall p :: p in files ==> WrittenSoFar(files, now, changed, written, p)
  {
    now, written := files, 0;
    while written < |changed|
      invariant written <= budget && written <= |changed| && now.Keys == files.Keys
      invariant forall p :: p in files ==> WrittenSoFar(files, now, changed, written, p)
    {
      if written == budget { return; }
      ghost var before := now;
      now := now[changed[written].path := Manifest(changed[written].obj)];
      written := written + 1;
      forall p | p in files ensures WrittenSoFar(files, now, changed, written, p) {
        assert WrittenSoFar(files, before, changed, written - 1, p);
        if p == changed[written - 1].path {
          assert LastFor(changed, written, p, written - 1);
        } else if i :| LastFor(changed, written - 1, p, i) && before[p] == Manifest(changed[i].obj) {
          assert LastFor(changed, written, p, i);
        }
      }
    }
  }
}
