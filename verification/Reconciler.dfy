/** The controller: one GitSecret reconciled into its target Secret, against an apiserver others write to too. */
module Reconciler {
  import opened Wrappers
  import RecipientRoles

  const GROUP := RecipientRoles.GROUP
  const LEGACY_GROUP := RecipientRoles.LEGACY_GROUP

  datatype OwnerRef = OwnerRef(group: string, kind: string, name: string, uid: string, controller: bool)

  /** A Secret; stringData is what a write carries beside data. */
  datatype Secret = Secret(owners: seq<OwnerRef>, kind: string, data: map<string, string>,
                           stringData: map<string, string>)

  datatype Condition = Condition(kind: string, status: bool, reason: string, message: string, generation: int,
                                 transition: int)

  datatype Status = Status(observedGeneration: int, conditions: seq<Condition>, syncedKeys: int,
                           lastSyncTime: Option<int>, recipients: seq<string>, recipientCount: int,
                           sourceRevision: string, targetName: string)

  datatype Target = Target(name: string, kind: string, adopt: bool)

  datatype GitSecret = GitSecret(name: string, uid: string, generation: int, annotations: map<string, string>,
                                 target: Target, recipients: seq<string>, status: Status)

  // ---- ownership ----

  /** The first controller reference. */
  function ControllerOf(refs: seq<OwnerRef>): (r: Option<OwnerRef>)
    ensures r.Some? ==> r.value in refs && r.value.controller
  {
    if refs == [] then None
    else if refs[0].controller then Some(refs[0])
    else ControllerOf(refs[1..])
  }

  function RefTo(gs: GitSecret): OwnerRef {
    OwnerRef(GROUP, "GitSecret", gs.name, gs.uid, true)
  }

  /** Group, kind and name agree; the uid is not compared. */
  predicate SameObject(a: OwnerRef, b: OwnerRef) {
    a.group == b.group && a.kind == b.kind && a.name == b.name
  }

  predicate OwnedByThis(gs: GitSecret, s: Secret) {
    var owner := ControllerOf(s.owners);
    owner.Some? && owner.value.kind == "GitSecret" && owner.value.name == gs.name && owner.value.uid == gs.uid
  }

  predicate OwnedByLegacyNamesake(gs: GitSecret, s: Secret) {
    var owner := ControllerOf(s.owners);
    owner.Some? && owner.value.kind == "GitSecret" && owner.value.name == gs.name && owner.value.group == LEGACY_GROUP
  }

  function WithoutOwner(refs: seq<OwnerRef>, uid: string): (r: seq<OwnerRef>)
    ensures forall x :: x in r <==> x in refs && x.uid != uid
  {
    if refs == [] then []
    else (if refs[0].uid != uid then [refs[0]] else []) + WithoutOwner(refs[1..], uid)
  }

  /** Each reference with another uid stays as often as it was there. */
  lemma {:induction false} WithoutOwnerCounts(refs: seq<OwnerRef>, uid: string, x: OwnerRef)
    ensures multiset(WithoutOwner(refs, uid))[x] == if x.uid == uid then 0 else multiset(refs)[x]
  {
    if refs != [] {
      WithoutOwnerCounts(refs[1..], uid, x);
      var kept := if refs[0].uid != uid then [refs[0]] else [];
      assert refs == [refs[0]] + refs[1..];
      assert WithoutOwner(refs, uid) == kept + WithoutOwner(refs[1..], uid);
    }
  }

  lemma WithoutOwnerStep(refs: seq<OwnerRef>, n: nat, uid: string, out: seq<OwnerRef>)
    requires n < |refs|
    ensures out + WithoutOwner(refs[n..], uid) ==
            (out + if refs[n].uid != uid then [refs[n]] else []) + WithoutOwner(refs[n + 1..], uid)
  {
    assert refs[n..][1..] == refs[n + 1..];
    Associative(out, if refs[n].uid != uid then [refs[n]] else [], WithoutOwner(refs[n + 1..], uid));
  }

  lemma Associative<T>(a: seq<T>, b: seq<T>, c: seq<T>)
    ensures a + (b + c) == (a + b) + c
  {}

  /** withoutOwner: a new list of the references with another uid, in their order. */
  method DropOwner(refs: seq<OwnerRef>, uid: string) returns (out: seq<OwnerRef>)
    ensures out == WithoutOwner(refs, uid)
  {
    hide WithoutOwner;
    out := [];
    assert refs[0..] == refs;
    for n := 0 to |refs|
      invariant out + WithoutOwner(refs[n..], uid) == WithoutOwner(refs, uid)
    {
      WithoutOwnerStep(refs, n, uid, out);
      out := out + if refs[n].uid != uid then [refs[n]] else [];
    }
    NoneLeft(refs[|refs|..], uid);
  }

  lemma NoneLeft(refs: seq<OwnerRef>, uid: string)
    requires refs == []
    ensures WithoutOwner(refs, uid) == []
  {}

  /** SetControllerReference: refused if another object controls, else inserted or replaced. */
  function SetController(refs: seq<OwnerRef>, owner: OwnerRef): Option<seq<OwnerRef>> {
    var current := ControllerOf(refs);
    if current.Some? && !SameObject(current.value, owner) then None else Some(Upsert(refs, owner))
  }

  function Upsert(refs: seq<OwnerRef>, owner: OwnerRef): seq<OwnerRef> {
    if refs == [] then [owner]
    else if SameObject(refs[0], owner) then [owner] + refs[1..]
    else [refs[0]] + Upsert(refs[1..], owner)
  }

  function Controllers(refs: seq<OwnerRef>): nat {
    if refs == [] then 0 else (if refs[0].controller then 1 else 0) + Controllers(refs[1..])
  }

  lemma {:induction false} NoController(refs: seq<OwnerRef>)
    ensures ControllerOf(refs).None? <==> Controllers(refs) == 0
  {
    if refs != [] { NoController(refs[1..]); }
  }

  lemma {:induction false} WithoutOwnerControllers(refs: seq<OwnerRef>, uid: string)
    ensures Controllers(WithoutOwner(refs, uid)) <= Controllers(refs)
    ensures Controllers(refs) <= 1 && ControllerOf(refs).Some? && ControllerOf(refs).value.uid == uid ==>
      ControllerOf(WithoutOwner(refs, uid)).None?
  {
    if refs != [] {
      WithoutOwnerControllers(refs[1..], uid);
      NoController(refs[1..]);
      NoController(WithoutOwner(refs[1..], uid));
      var r := WithoutOwner(refs, uid);
      if refs[0].uid != uid {
        assert r[1..] == WithoutOwner(refs[1..], uid);
      } else {
        assert r == WithoutOwner(refs[1..], uid);
      }
    }
  }

  function FirstSame(refs: seq<OwnerRef>, owner: OwnerRef): Option<OwnerRef> {
    if refs == [] then None
    else if SameObject(refs[0], owner) then Some(refs[0])
    else FirstSame(refs[1..], owner)
  }

  lemma {:induction false} UpsertedIsController(refs: seq<OwnerRef>, owner: OwnerRef)
    requires owner.controller && SetController(refs, owner).Some?
    ensures ControllerOf(Upsert(refs, owner)) == Some(owner)
    ensures Upsert(Upsert(refs, owner), owner) == Upsert(refs, owner)
  {
    if refs != [] && !SameObject(refs[0], owner) {
      UpsertedIsController(refs[1..], owner);
      assert Upsert(refs, owner)[1..] == Upsert(refs[1..], owner);
    }
  }

  lemma {:induction false} UpsertCount(refs: seq<OwnerRef>, owner: OwnerRef)
    requires owner.controller
    ensures var first := FirstSame(refs, owner);
            Controllers(Upsert(refs, owner)) ==
              Controllers(refs) + if first.Some? && first.value.controller then 0 else 1
  {
    if refs != [] {
      UpsertCount(refs[1..], owner);
      var r := Upsert(refs, owner);
      assert r[1..] == if SameObject(refs[0], owner) then refs[1..] else Upsert(refs[1..], owner);
    }
  }

  /**
   Setting the controller reference leaves one controller, unless the controlling reference is
   preceded by a non-controlling one to the same group, kind and name.
   */
  lemma OneControllerIff(refs: seq<OwnerRef>, owner: OwnerRef)
    requires owner.controller && Controllers(refs) <= 1 && SetController(refs, owner).Some?
    ensures Controllers(SetController(refs, owner).value) == 1 <==>
            ControllerOf(refs).None? || FirstSame(refs, owner) == ControllerOf(refs)
  {
    UpsertCount(refs, owner);
    NoController(refs);
    ControlledFirst(refs, owner);
  }

  /** The odd case: a non-controlling reference to the same object stands before the controlling one. */
  lemma TwoControllersExample(owner: OwnerRef)
    requires owner.controller
    ensures var refs := [owner.(controller := false), owner];
            Controllers(refs) == 1 && SetController(refs, owner).Some? &&
            Controllers(SetController(refs, owner).value) == 2
  {
    var refs := [owner.(controller := false), owner];
    assert refs[1..] == [owner] && [owner][1..] == [];
    assert Controllers([owner]) == 1 && ControllerOf([owner]) == Some(owner);
    UpsertCount(refs, owner);
  }

  lemma {:induction false} ControlledFirst(refs: seq<OwnerRef>, owner: OwnerRef)
    requires Controllers(refs) <= 1
    ensures FirstSame(refs, owner).Some? && FirstSame(refs, owner).value.controller ==>
      FirstSame(refs, owner) == ControllerOf(refs)
    ensures FirstSame(refs, owner).Some? && FirstSame(refs, owner) == ControllerOf(refs) ==>
      FirstSame(refs, owner).value.controller
  {
    if refs != [] {
      ControlledFirst(refs[1..], owner);
      NoController(refs[1..]);
    }
  }

  // ---- status ----

  function SetCondition(cs: seq<Condition>, c: Condition, now: int): seq<Condition> {
    if cs == [] then [c.(transition := now)]
    else if cs[0].kind == c.kind then
      [Kept(cs[0], c, now)] + cs[1..]
    else [cs[0]] + SetCondition(cs[1..], c, now)
  }

  function Kept(was: Condition, c: Condition, now: int): Condition {
    c.(transition := if was.status == c.status then was.transition else now)
  }

  lemma {:induction false} SetConditionAt(cs: seq<Condition>, c: Condition, now: int, i: nat)
    requires i <= |cs| && forall j :: 0 <= j < i ==> cs[j].kind != c.kind
    ensures i < |cs| && cs[i].kind == c.kind ==> SetCondition(cs, c, now) == cs[i := Kept(cs[i], c, now)]
    ensures i == |cs| ==> SetCondition(cs, c, now) == cs + [c.(transition := now)]
  {
    if cs != [] && i > 0 {
      SetConditionAt(cs[1..], c, now, i - 1);
      assert cs == [cs[0]] + cs[1..];
    }
  }

  /** setStatusCondition: the first condition of that type is replaced in place, or a new one appended. */
  method SetStatusCondition(conditions: seq<Condition>, c: Condition, now: int) returns (r: seq<Condition>)
    ensures r == SetCondition(conditions, c, now)
  {
    for i := 0 to |conditions|
      invariant forall j :: 0 <= j < i ==> conditions[j].kind != c.kind
    {
      if conditions[i].kind == c.kind {
        SetConditionAt(conditions, c, now, i);
        return conditions[i := Kept(conditions[i], c, now)];
      }
    }
    SetConditionAt(conditions, c, now, |conditions|);
    r := conditions + [c.(transition := now)];
  }

  predicate UniqueKinds(cs: seq<Condition>) {
    forall i, j :: 0 <= i < j < |cs| ==> cs[i].kind != cs[j].kind
  }

  /** The condition of a type, if there is one. */
  function Find(cs: seq<Condition>, kind: string): Option<Condition> {
    if cs == [] then None else if cs[0].kind == kind then Some(cs[0]) else Find(cs[1..], kind)
  }

  lemma {:induction false} SetConditionMembers(cs: seq<Condition>, c: Condition, now: int, x: Condition)
    requires x in SetCondition(cs, c, now)
    ensures x.kind == c.kind || x in cs
  {
    if cs != [] && cs[0].kind != c.kind && x != cs[0] {
      SetConditionMembers(cs[1..], c, now, x);
    }
  }

  lemma {:induction false} SetConditionKeepsUnique(cs: seq<Condition>, c: Condition, now: int)
    requires UniqueKinds(cs)
    ensures UniqueKinds(SetCondition(cs, c, now))
  {
    if cs != [] {
      var r, rest := SetCondition(cs, c, now), SetCondition(cs[1..], c, now);
      if cs[0].kind == c.kind {
        assert |r| == |cs| && forall i :: 0 <= i < |r| ==> r[i].kind == cs[i].kind;
      } else {
        SetConditionKeepsUnique(cs[1..], c, now);
        forall x | x in rest ensures x.kind != cs[0].kind {
          SetConditionMembers(cs[1..], c, now, x);
        }
        assert r == [cs[0]] + rest;
        forall i, j | 0 <= i < j < |r| ensures r[i].kind != r[j].kind {
          assert r[j] == rest[j - 1] && (i > 0 ==> r[i] == rest[i - 1]);
        }
      }
    }
  }

  /** Condition types stay unique, others are untouched, and the transition time moves only with the status. */
  lemma {:induction false} SetConditionKeeps(cs: seq<Condition>, c: Condition, now: int, kind: string)
    ensures var r := SetCondition(cs, c, now);
            && (UniqueKinds(cs) ==> UniqueKinds(r))
            && Find(r, c.kind).Some?
            && Find(r, c.kind).value == c.(transition := Find(r, c.kind).value.transition)
            && Find(r, c.kind).value.transition ==
                 (if Find(cs, c.kind).Some? && Find(cs, c.kind).value.status == c.status
                  then Find(cs, c.kind).value.transition else now)
            && (kind != c.kind ==> Find(r, kind) == Find(cs, kind))
  {
    hide UniqueKinds;
    if UniqueKinds(cs) { SetConditionKeepsUnique(cs, c, now); }
    FoundAfterSet(cs, c, now, kind);
  }

  lemma {:induction false} FoundAfterSet(cs: seq<Condition>, c: Condition, now: int, kind: string)
    ensures var r := SetCondition(cs, c, now);
            && Find(r, c.kind) ==
                 Some(c.(transition := if Find(cs, c.kind).Some? && Find(cs, c.kind).value.status == c.status
                                       then Find(cs, c.kind).value.transition else now))
            && (kind != c.kind ==> Find(r, kind) == Find(cs, kind))
  {
    if cs != [] {
      var r := SetCondition(cs, c, now);
      assert r[1..] == if cs[0].kind == c.kind then cs[1..] else SetCondition(cs[1..], c, now);
      FoundAfterSet(cs[1..], c, now, kind);
    }
  }

  predicate SameCondition(x: Condition, y: Condition) {
    x == y.(transition := x.transition)
  }

  /** A difference in anything but LastSyncTime and transition times. */
  predicate MeaningfullyChanged(a: Status, b: Status) {
    || a.observedGeneration != b.observedGeneration || a.syncedKeys != b.syncedKeys
    || a.recipientCount != b.recipientCount || a.sourceRevision != b.sourceRevision
    || a.targetName != b.targetName || a.recipients != b.recipients
    || |a.conditions| != |b.conditions|
    || exists i :: 0 <= i < |a.conditions| && !SameCondition(a.conditions[i], b.conditions[i])
  }

  /** Setting a condition again, or at another time, changes nothing meaningful. */
  lemma {:induction false} SetConditionAgain(cs: seq<Condition>, c: Condition, now: int, later: int)
    ensures SetCondition(SetCondition(cs, c, now), c, later) == SetCondition(cs, c, now)
    ensures |SetCondition(cs, c, later)| == |SetCondition(cs, c, now)|
    ensures forall i :: 0 <= i < |SetCondition(cs, c, now)| ==>
              SameCondition(SetCondition(cs, c, now)[i], SetCondition(cs, c, later)[i])
  {
    if cs != [] && cs[0].kind != c.kind {
      SetConditionAgain(cs[1..], c, now, later);
      assert SetCondition(cs, c, now)[1..] == SetCondition(cs[1..], c, now);
    } else if cs != [] {
      assert SetCondition(cs, c, now)[1..] == cs[1..];
    }
  }

  // ---- one reconcile, undisturbed ----

  function TargetName(gs: GitSecret): string {
    if gs.target.name == "" then gs.name else gs.target.name
  }

  function SourceRevision(gs: GitSecret): string {
    RecipientRoles.Annotation(gs.annotations, "keyfold.opscalehub.io/source-revision")
  }

  /** The status fields mirrored whatever happens. */
  function Mirrored(gs: GitSecret): Status {
    gs.status.(targetName := TargetName(gs), recipients := gs.recipients, recipientCount := |gs.recipients|,
               sourceRevision := SourceRevision(gs))
  }

  function Ready(gs: GitSecret, status: bool, reason: string, message: string): Condition {
    Condition("Ready", status, reason, message, gs.generation, 0)
  }

  /** A computed status: the mirrored fields, two counters and one condition. */
  function Computed(gs: GitSecret, generation: int, keys: int, c: Condition, now: int): Status {
    Mirrored(gs).(observedGeneration := generation, syncedKeys := keys,
                  conditions := SetCondition(gs.status.conditions, c, now))
  }

  function FailedStatus(gs: GitSecret, reason: string, message: string, now: int): Status {
    Computed(gs, gs.status.observedGeneration, gs.status.syncedKeys, Ready(gs, false, reason, message), now)
  }

  function SyncedStatus(gs: GitSecret, keys: int, message: string, now: int): Status {
    Computed(gs, gs.generation, keys, Ready(gs, true, "Synced", message), now)
  }

  /** Whether a status was written or was not worth writing, computing it again finds nothing to write. */
  lemma ComputedSettles(gs: GitSecret, generation: int, keys: int, c: Condition, now: int, later: int,
                        sync: Option<int>)
    ensures var st := Computed(gs, generation, keys, c, now);
            && (var after := gs.(status := st.(lastSyncTime := sync));
                !MeaningfullyChanged(after.status, Computed(after, generation, keys, c, later)))
            && (!MeaningfullyChanged(gs.status, st) ==>
                  !MeaningfullyChanged(gs.status, Computed(gs, generation, keys, c, later)))
  {
    SetConditionAgain(gs.status.conditions, c, now, later);
  }

  datatype Guard = Free | Owned | Release | Adopt | Conflict

  function Judge(gs: GitSecret, existing: Option<Secret>): Guard {
    if existing.None? then Free
    else if OwnedByThis(gs, existing.value) then Owned
    else if OwnedByLegacyNamesake(gs, existing.value) then Release
    else if gs.target.adopt then Adopt
    else Conflict
  }

  /** Under a predecessor's control alone. */
  predicate IsPredecessors(gs: GitSecret, existing: Option<Secret>) {
    existing.Some? && OwnedByLegacyNamesake(gs, existing.value) && !OwnedByThis(gs, existing.value) &&
    Controllers(existing.value.owners) == 1
  }

  /** No Secret yet, adopt is set, or its controller is this very object or its namesake of the group's old name. */
  predicate MayTouch(gs: GitSecret, existing: Option<Secret>) {
    existing.Some? && !gs.target.adopt ==>
      var o := ControllerOf(existing.value.owners);
      o.Some? && o.value.kind == "GitSecret" && o.value.name == gs.name &&
      (o.value.uid == gs.uid || o.value.group == "git-secret.opscalehub.io")
  }

  function Released(s: Secret): Secret {
    var owner := ControllerOf(s.owners);
    if owner.None? then s else s.(owners := WithoutOwner(s.owners, owner.value.uid))
  }

  const EMPTY: Secret := Secret([], "", map[], map[])

  /** CreateOrUpdate's mutation; None is SetControllerReference refusing. */
  function Mutated(gs: GitSecret, s: Secret, data: map<string, string>): Option<Secret> {
    var owners := SetController(s.owners, RefTo(gs));
    if owners.None? then None
    else Some(Secret(owners.value, if gs.target.kind == "" then "Opaque" else gs.target.kind, map[], data))
  }

  /** What the apiserver keeps of a write: a folding one merges stringData into data. */
  function Stored(folding: bool, s: Secret): Secret {
    if folding then s.(data := s.data + s.stringData, stringData := map[]) else s
  }

  /** What a consumer of the Secret sees. */
  function Visible(s: Secret): map<string, string> {
    s.data + s.stringData
  }

  function Lookup(secrets: map<string, Secret>, name: string): Option<Secret> {
    if name in secrets then Some(secrets[name]) else None
  }

  /** The Secrets once the ownership check is through: a predecessor's Secret has been released. */
  function AfterGuard(folding: bool, gs: GitSecret, secrets: map<string, Secret>): map<string, Secret> {
    var existing := Lookup(secrets, TargetName(gs));
    if Judge(gs, existing).Release? then secrets[TargetName(gs) := Stored(folding, Released(existing.value))]
    else secrets
  }

  function Desired(gs: GitSecret, seen: map<string, Secret>, data: map<string, string>): Option<Secret> {
    var existing := Lookup(seen, TargetName(gs));
    Mutated(gs, if existing.Some? then existing.value else EMPTY, data)
  }

  /** CreateOrUpdate went through: the target alone is written, if it differed. */
  predicate AppliedTo(folding: bool, gs: GitSecret, seen: map<string, Secret>, now: map<string, Secret>,
                      data: map<string, string>, wrote: bool) {
    var desired := Desired(gs, seen, data);
    && desired.Some?
    && (wrote <==> Lookup(seen, TargetName(gs)) != desired)
    && now == if wrote then seen[TargetName(gs) := Stored(folding, desired.value)] else seen
  }

  function ConflictMessage(gs: GitSecret): string {
    "Secret/" + TargetName(gs) + " already exists and is not managed by this GitSecret"
  }

  const OWNED_ELSEWHERE := "already owned by another controller"

  function SyncMessage(gs: GitSecret): string {
    "decrypted into Secret/" + TargetName(gs)
  }

  /** The status a reconcile computes, when no call fails. */
  function Outcome(gs: GitSecret, secrets: map<string, Secret>, unsealed: Result<map<string, string>, string>,
                   now: int): Status {
    if unsealed.Err? then FailedStatus(gs, "UnsealFailed", unsealed.error, now)
    else if Judge(gs, Lookup(secrets, TargetName(gs))).Conflict? then FailedStatus(gs, "TargetConflict",
                                                                                   ConflictMessage(gs), now)
    else if Desired(gs, secrets, unsealed.value).None? then FailedStatus(gs, "ApplyFailed", OWNED_ELSEWHERE, now)
    else SyncedStatus(gs, |unsealed.value|, SyncMessage(gs), now)
  }

  /** A reconcile of this state would write nothing. */
  predicate Settled(gs: GitSecret, secrets: map<string, Secret>, unsealed: Result<map<string, string>, string>,
                    now: int) {
    && !MeaningfullyChanged(gs.status, Outcome(gs, secrets, unsealed, now))
    && (unsealed.Ok? ==>
          var guard := Judge(gs, Lookup(secrets, TargetName(gs)));
          var desired := Desired(gs, secrets, unsealed.value);
          !guard.Release? && (guard.Conflict? || desired.None? || Lookup(secrets, TargetName(gs)) == desired))
  }

  // ---- why it settles ----

  /** How a status computed by a reconcile without failed calls is left in the store. */
  predicate Left(gs: GitSecret, computed: Status, wrote: bool, sync: Option<int>, after: GitSecret) {
    if wrote || MeaningfullyChanged(gs.status, computed) then after == gs.(status := computed.(lastSyncTime := sync))
    else after == gs
  }

  /** The computed status says Ready as it should. */
  predicate ReadyIs(status: Status, b: bool) {
    Find(status.conditions, "Ready").Some? && Find(status.conditions, "Ready").value.status == b
  }

  /** Types stay unique, conditions but Ready stay, and Ready's transition time moves only with its status. */
  ghost predicate ConditionsKept(was: seq<Condition>, now: seq<Condition>) {
    && (UniqueKinds(was) ==> UniqueKinds(now))
    && (forall kind :: kind != "Ready" ==> Find(now, kind) == Find(was, kind))
    && (Find(was, "Ready").Some? ==>
          && Find(now, "Ready").Some?
          && (Find(now, "Ready").value.status == Find(was, "Ready").value.status ==>
                Find(now, "Ready").value.transition == Find(was, "Ready").value.transition))
  }

  /** All a reconcile changes of the object: its status, and there Ready to whether it synced. */
  ghost predicate Recorded(was: GitSecret, now: GitSecret, synced: bool) {
    && now == was.(status := now.status)
    && (now != was ==> ReadyIs(now.status, synced))
    && ConditionsKept(was.status.conditions, now.status.conditions)
  }

  lemma NothingRecorded(gs: GitSecret, synced: bool)
    ensures Recorded(gs, gs, synced)
  {}

  /** Recording a computed status says Ready as it should, whenever the last sync was. */
  lemma ComputedIsRecorded(gs: GitSecret, generation: int, keys: int, c: Condition, now: int, sync: Option<int>)
    requires c.kind == "Ready"
    ensures var st := Computed(gs, generation, keys, c, now);
            ReadyIs(st, c.status) && Recorded(gs, gs.(status := st), c.status) &&
            Recorded(gs, gs.(status := st.(lastSyncTime := sync)), c.status)
  {
    hide UniqueKinds, SetCondition;
    SetConditionKeeps(gs.status.conditions, c, now, "Ready");
    forall kind | kind != "Ready"
      ensures Find(SetCondition(gs.status.conditions, c, now), kind) == Find(gs.status.conditions, kind)
    {
      SetConditionKeeps(gs.status.conditions, c, now, kind);
    }
  }

  lemma {:induction false} FindOfSame(a: seq<Condition>, b: seq<Condition>, kind: string)
    requires |a| == |b| && forall i :: 0 <= i < |a| ==> SameCondition(a[i], b[i])
    ensures Find(a, kind).Some? <==> Find(b, kind).Some?
    ensures Find(a, kind).Some? ==> SameCondition(Find(a, kind).value, Find(b, kind).value)
  {
    if a != [] {
      assert SameCondition(a[0], b[0]);
      FindOfSame(a[1..], b[1..], kind);
    }
  }

  /** Written or not worth writing, the computed status is what the store then says of Ready. */
  lemma LeftIsReady(gs: GitSecret, computed: Status, wrote: bool, sync: Option<int>, after: GitSecret, synced: bool)
    requires Left(gs, computed, wrote, sync, after) && ReadyIs(computed, synced)
    ensures ReadyIs(after.status, synced)
  {
    if !wrote && !MeaningfullyChanged(gs.status, computed) {
      FindOfSame(gs.status.conditions, computed.conditions, "Ready");
    }
  }

  /**
   What a status says after a reconcile: the mirrored fields, counters that only a sync moves, the time of
   the last sync, and why Ready is what it is.
   */
  predicate Reports(was: GitSecret, now: GitSecret, reason: string, wrote: bool, keys: nat, at: int) {
    var synced := reason == "Synced";
    && now.status.targetName == (if was.target.name != "" then was.target.name else was.name)
    && now.status.recipients == was.recipients && now.status.recipientCount == |was.recipients|
    && now.status.sourceRevision ==
         RecipientRoles.Annotation(was.annotations, "keyfold.opscalehub.io/source-revision")
    && now.status.observedGeneration == (if synced then was.generation else was.status.observedGeneration)
    && now.status.syncedKeys == (if synced then keys else was.status.syncedKeys)
    && now.status.lastSyncTime == (if synced && (wrote || now != was) then Some(at) else was.status.lastSyncTime)
    && var ready := Find(now.status.conditions, "Ready");
       ready.Some? && ready.value.reason == reason && ready.value.generation == was.generation
  }

  lemma FailureKeepsSync(gs: GitSecret, reason: string, message: string, now: int)
    ensures FailedStatus(gs, reason, message, now).lastSyncTime == gs.status.lastSyncTime
  {}

  /** The computed statuses report all of that, however they are left in the store. */
  lemma FailureReports(gs: GitSecret, reason: string, message: string, now: int, after: GitSecret, keys: nat)
    requires reason != "Synced"
    requires Left(gs, FailedStatus(gs, reason, message, now), false, gs.status.lastSyncTime, after)
    ensures Reports(gs, after, reason, false, keys, now)
  {
    LeftFinds(gs, gs.status.observedGeneration, gs.status.syncedKeys, Ready(gs, false, reason, message), now, false,
              gs.status.lastSyncTime, after);
  }

  lemma SyncReports(gs: GitSecret, keys: nat, message: string, wrote: bool, now: int, after: GitSecret)
    requires Left(gs, SyncedStatus(gs, keys, message, now), wrote, Some(now), after)
    ensures Reports(gs, after, "Synced", wrote, keys, now)
  {
    LeftFinds(gs, gs.generation, keys, Ready(gs, true, "Synced", message), now, wrote, Some(now), after);
  }

  lemma LeftFinds(gs: GitSecret, generation: int, keys: int, c: Condition, now: int, wrote: bool, sync: Option<int>,
                  after: GitSecret)
    requires Left(gs, Computed(gs, generation, keys, c, now), wrote, sync, after)
    ensures var ready := Find(after.status.conditions, c.kind);
            ready.Some? && ready.value.reason == c.reason && ready.value.generation == c.generation
  {
    SetConditionKeeps(gs.status.conditions, c, now, c.kind);
    var computed := Computed(gs, generation, keys, c, now);
    if !wrote && !MeaningfullyChanged(gs.status, computed) {
      FindOfSame(gs.status.conditions, computed.conditions, c.kind);
    }
  }

  /** A recorded failure is recorded once: nothing is written while object, Secrets and error text stay. */
  lemma FailureSettles(gs: GitSecret, after: GitSecret, secrets: map<string, Secret>,
                       unsealed: Result<map<string, string>, string>, now: int, later: int)
    requires Left(gs, Outcome(gs, secrets, unsealed, now), false, gs.status.lastSyncTime, after)
    requires unsealed.Ok? ==> var guard := Judge(gs, Lookup(secrets, TargetName(gs)));
      guard.Conflict? || (!guard.Release? && Desired(gs, secrets, unsealed.value).None?)
    ensures Settled(after, secrets, unsealed, later)
  {
    var c := FailureOf(gs, secrets, unsealed);
    StatusDecidesNothing(gs, after, secrets, unsealed);
    ComputedSettles(gs, gs.status.observedGeneration, gs.status.syncedKeys, c, now, later, after.status.lastSyncTime);
    hide MeaningfullyChanged, SetCondition, FailureOf, Judge, Desired, Lookup, TargetName;
  }

  /** The condition of a reconcile that does not sync. */
  function FailureOf(gs: GitSecret, secrets: map<string, Secret>, unsealed: Result<map<string, string>,
                     string>): Condition {
    if unsealed.Err? then Ready(gs, false, "UnsealFailed", unsealed.error)
    else if Judge(gs, Lookup(secrets, TargetName(gs))).Conflict? then Ready(gs, false, "TargetConflict",
                                                                            ConflictMessage(gs))
    else Ready(gs, false, "ApplyFailed", OWNED_ELSEWHERE)
  }

  lemma StatusDecidesNothing(gs: GitSecret, after: GitSecret, secrets: map<string, Secret>,
                             unsealed: Result<map<string, string>, string>)
    requires after == gs.(status := after.status)
    requires unsealed.Ok? ==> var guard := Judge(gs, Lookup(secrets, TargetName(gs)));
      guard.Conflict? || (!guard.Release? && Desired(gs, secrets, unsealed.value).None?)
    ensures FailureOf(after, secrets, unsealed) == FailureOf(gs, secrets, unsealed)
    ensures unsealed.Ok? ==>
      && Judge(after, Lookup(secrets, TargetName(after))) == Judge(gs, Lookup(secrets, TargetName(gs)))
      && Desired(after, secrets, unsealed.value) == Desired(gs, secrets, unsealed.value)
    ensures forall o: GitSecret, later :: o == gs || o == after ==>
      Outcome(o, secrets, unsealed, later) ==
      Computed(o, o.status.observedGeneration, o.status.syncedKeys, FailureOf(gs, secrets, unsealed), later)
  {
    hide SetController, SetCondition, Mirrored, OwnedByThis, OwnedByLegacyNamesake;
    assert RefTo(after) == RefTo(gs) && TargetName(after) == TargetName(gs);
    assert ConflictMessage(after) == ConflictMessage(gs);
    if unsealed.Ok? {
      var existing := Lookup(secrets, TargetName(gs));
      JudgeSame(gs, after, existing);
      MutatedSame(gs, after, if existing.Some? then existing.value else EMPTY, unsealed.value);
    }
  }

  lemma JudgeSame(gs: GitSecret, after: GitSecret, existing: Option<Secret>)
    requires after == gs.(status := after.status)
    ensures Judge(after, existing) == Judge(gs, existing)
  {}

  /** The Secret a sync stored is owned by this object, and wanted again exactly as the mutation left it. */
  lemma StoredIsOwned(folding: bool, gs: GitSecret, s: Secret, data: map<string, string>)
    requires Mutated(gs, s, data).Some?
    ensures var desired := Mutated(gs, s, data).value;
            && OwnedByThis(gs, Stored(folding, desired)) && OwnedByThis(gs, desired)
            && Mutated(gs, Stored(folding, desired), data) == Some(desired)
            && Mutated(gs, desired, data) == Some(desired)
            && Visible(Stored(folding, desired)) == data == Visible(desired)
            && (Stored(folding, desired) == desired <==> !folding || data == map[])
  {
    UpsertedIsController(s.owners, RefTo(gs));
  }

  /**
   A clean sync settles iff the store gives back what was written.  A store that folds stringData
   into data, as the real apiserver does, reports a change every time there is a key to write.
   */
  lemma SyncSettlesIff(folding: bool, gs: GitSecret, after: GitSecret, seen: map<string, Secret>,
                       now_: map<string, Secret>,
                       data: map<string, string>, wrote: bool, now: int, later: int)
    requires AppliedTo(folding, gs, seen, now_, data, wrote)
    requires Left(gs, SyncedStatus(gs, |data|, SyncMessage(gs), now), wrote, Some(now), after)
    ensures Settled(after, now_, Ok(data), later) <==> !(wrote && folding && data != map[])
  {
    var existing := Lookup(seen, TargetName(gs));
    var s := if existing.Some? then existing.value else EMPTY;
    StoredIsOwned(folding, gs, s, data);
    ComputedSettles(gs, gs.generation, |data|, Ready(gs, true, "Synced", SyncMessage(gs)), now, later,
                    after.status.lastSyncTime);
    hide MeaningfullyChanged, SetCondition, Stored, Mutated;
    assert RefTo(after) == RefTo(gs) && TargetName(after) == TargetName(gs) && SyncMessage(after) == SyncMessage(gs);
    var desired := Mutated(gs, s, data).value;
    assert now_[TargetName(gs)] == if wrote then Stored(folding, desired) else desired;
    assert Judge(after, Lookup(now_, TargetName(after))).Owned?;
    assert Desired(after, now_, data) == Some(desired) by { MutatedSame(gs, after, now_[TargetName(gs)], data); }
  }

  lemma MutatedSame(gs: GitSecret, after: GitSecret, s: Secret, data: map<string, string>)
    requires after == gs.(status := after.status)
    ensures Mutated(after, s, data) == Mutated(gs, s, data)
  {}

  // ---- ownership ----

  /** After a sync the consumer sees exactly the unsealed data, in a Secret this object controls. */
  lemma SyncMirrorsData(folding: bool, gs: GitSecret, seen: map<string, Secret>, now: map<string, Secret>,
                        data: map<string, string>, wrote: bool)
    requires AppliedTo(folding, gs, seen, now, data, wrote)
    ensures TargetName(gs) in now && Visible(now[TargetName(gs)]) == data && OwnedByThis(gs, now[TargetName(gs)])
    ensures forall name :: name != TargetName(gs) ==> Lookup(now, name) == Lookup(seen, name)
    // the name and type asked for, or the object's own name and Opaque
    ensures TargetName(gs) == gs.target.name || (gs.target.name == "" && TargetName(gs) == gs.name)
    ensures now[TargetName(gs)].kind == gs.target.kind != "" ||
            (gs.target.kind == "" && now[TargetName(gs)].kind == "Opaque")
    // references to any other object stay as often as they were there
    ensures TargetName(gs) in seen ==>
      forall x :: !SameObject(x, RefTo(gs)) ==>
        multiset(now[TargetName(gs)].owners)[x] == multiset(seen[TargetName(gs)].owners)[x]
  {
    var existing := Lookup(seen, TargetName(gs));
    StoredIsOwned(folding, gs, if existing.Some? then existing.value else EMPTY, data);
    if existing.Some? {
      forall x | !SameObject(x, RefTo(gs)) { OthersReferencesStay(existing.value.owners, RefTo(gs), x); }
    }
  }

  lemma {:induction false} OthersReferencesStay(refs: seq<OwnerRef>, owner: OwnerRef, x: OwnerRef)
    requires !SameObject(x, owner)
    ensures multiset(Upsert(refs, owner))[x] == multiset(refs)[x]
  {
    if refs != [] {
      OthersReferencesStay(refs[1..], owner, x);
      assert refs == [refs[0]] + refs[1..];
    }
  }

  /**
   A sync leaves exactly one controller owner, if the Secret had at most one before, except in the one
   case where a non-controlling reference of the same group, kind and name stands before the controlling one.
   */
  lemma SyncLeavesOneController(folding: bool, gs: GitSecret, seen: map<string, Secret>, now: map<string, Secret>,
                                data: map<string, string>, wrote: bool)
    requires AppliedTo(folding, gs, seen, now, data, wrote)
    requires TargetName(gs) in seen ==> Controllers(seen[TargetName(gs)].owners) <= 1
    ensures TargetName(gs) in now
    ensures Controllers(now[TargetName(gs)].owners) == 1 <==>
            TargetName(gs) !in seen ||
            var refs := seen[TargetName(gs)].owners;
            ControllerOf(refs).None? || FirstSame(refs, RefTo(gs)) == ControllerOf(refs)
  {
    OneControllerIff(if TargetName(gs) in seen then seen[TargetName(gs)].owners else [], RefTo(gs));
  }

  /**
   A Secret the ownership check would have refused, but that CreateOrUpdate may take over: it has no
   controller, or that of a same-named object of the current group with another uid.
   */
  predicate TakenUnasked(gs: GitSecret, s: Secret) {
    var owner := ControllerOf(s.owners);
    !gs.target.adopt &&
    (owner.None? || (owner.value.group == "keyfold.opscalehub.io" && owner.value.kind == "GitSecret" &&
                     owner.value.name == gs.name && owner.value.uid != gs.uid))
  }

  /**
   The race between the ownership check and CreateOrUpdate, exactly: a Secret that was not to be
   touched, found only by CreateOrUpdate, is taken over -- its data replaced -- iff it is TakenUnasked;
   any other one makes the apply fail.
   */
  lemma LateSecretIsTakenIff(folding: bool, gs: GitSecret, seen: map<string, Secret>, now: map<string, Secret>,
                             data: map<string, string>, wrote: bool)
    requires TargetName(gs) in seen && !MayTouch(gs, Some(seen[TargetName(gs)]))
    ensures Desired(gs, seen, data).Some? <==> TakenUnasked(gs, seen[TargetName(gs)])
    ensures AppliedTo(folding, gs, seen, now, data, wrote) ==>
      wrote && TargetName(gs) in now && Visible(now[TargetName(gs)]) == data && OwnedByThis(gs, now[TargetName(gs)])
  {
    var s := seen[TargetName(gs)];
    GroupsDiffer();
    if AppliedTo(folding, gs, seen, now, data, wrote) {
      StoredIsOwned(folding, gs, s, data);
    }
  }

  lemma GroupsDiffer()
    ensures GROUP != LEGACY_GROUP
  {
    assert GROUP[0] != LEGACY_GROUP[0];
  }

  /** It happens: another's Secret, created without an owner just after the check found none, loses its data. */
  lemma LateSecretExample(gs: GitSecret, data: map<string, string>)
    requires gs.target.adopt == false && data != map["kept" := "theirs"]
    ensures var theirs := Secret([], "Opaque", map["kept" := "theirs"], map[]);
            var seen, now := map[TargetName(gs) := theirs], map[TargetName(gs) := Mutated(gs, theirs, data).value];
            && Judge(gs, None) == Free && Judge(gs, Some(theirs)) == Conflict
            && AppliedTo(false, gs, seen, now, data, true) && Visible(now[TargetName(gs)]) != Visible(theirs)
  {
    var theirs := Secret([], "Opaque", map["kept" := "theirs"], map[]);
    var seen := map[TargetName(gs) := theirs];
    LateSecretIsTakenIff(false, gs, seen, seen, data, true);
    assert Mutated(gs, theirs, data).value.owners != theirs.owners;
  }

  /**
   Releasing a predecessor's Secret and syncing it are two writes.  If the second never happens, the
   released Secret has no controller and the next reconcile refuses it unless adopt is set.
   */
  lemma ReleaseAloneStrands(folding: bool, gs: GitSecret, s: Secret)
    requires Judge(gs, Some(s)).Release? && Controllers(s.owners) <= 1
    ensures Judge(gs, Some(Stored(folding, Released(s)))) == if gs.target.adopt then Adopt else Conflict
    ensures Visible(Stored(folding, Released(s))) == Visible(s)
  {
    WithoutOwnerControllers(s.owners, ControllerOf(s.owners).value.uid);
  }

  // ---- the apiserver and the controller ----

  /** The namespace's Secrets and the stored GitSecret; every call may fail, and faults counts those that did. */
  class ApiServer {
    const folding: bool
    var gs: GitSecret
    var secrets: map<string, Secret>
    var writes: nat
    ghost var faults: nat

    constructor (folding: bool, gs: GitSecret, secrets: map<string, Secret>)
      ensures this.folding == folding && this.gs == gs && this.secrets == secrets && writes == 0 && faults == 0
    {
      this.folding, this.gs, this.secrets, writes, faults := folding, gs, secrets, 0, 0;
    }

    /** Whether a request gets through. */
    method Request() returns (ok: bool)
      modifies this`faults
      ensures faults == old(faults) + if ok then 0 else 1
    {
      ok := *;
      if !ok { faults := faults + 1; }
    }

    method Put(name: string, s: Secret) returns (ok: bool)
      modifies this`secrets, this`writes, this`faults
      ensures ok ==> secrets == old(secrets)[name := Stored(folding, s)] && writes == old(writes) + 1
      ensures !ok ==> secrets == old(secrets) && writes == old(writes)
      ensures faults == old(faults) + if ok then 0 else 1
    {
      ok := Request();
      if ok { secrets, writes := secrets[name := Stored(folding, s)], writes + 1; }
    }

    /** Status().Update: the status subresource only. */
    method UpdateStatus(status: Status) returns (ok: bool)
      modifies this`gs, this`writes, this`faults
      ensures ok ==> gs == old(gs).(status := status) && writes == old(writes) + 1
      ensures !ok ==> gs == old(gs) && writes == old(writes)
      ensures faults == old(faults) + if ok then 0 else 1
    {
      ok := Request();
      if ok { gs, writes := gs.(status := status), writes + 1; }
    }

    /** Anyone applying a new version of the object; its status is kept. */
    method Resubmit(gs': GitSecret)
      modifies this`gs
      ensures gs == gs'.(status := old(gs.status))
    {
      gs := gs'.(status := gs.status);
    }

    /** Anyone else writing Secrets in between. */
    method Interfere()
      modifies this`secrets
    {
      var others: map<string, Secret> := *;
      secrets := others;
    }
  }

  datatype Ended = GetFailed | UnsealFailed | ReleaseFailed | TargetConflict | ApplyFailed | Synced(wrote: bool)

  /** The reason of the Ready condition; none is given for a reconcile that ends in a bare error. */
  function Reason(ended: Ended): string {
    match ended
    case UnsealFailed => "UnsealFailed"
    case TargetConflict => "TargetConflict"
    case ApplyFailed => "ApplyFailed"
    case Synced(_) => "Synced"
    case _ => ""
  }

  /**
   What a reconcile of an unsealed object may do to the Secrets it finds as was, when CreateOrUpdate
   finds them as seen and leaves them as now.
   */
  ghost predicate SecretsAsAllowed(folding: bool, gs: GitSecret, was: map<string, Secret>, seen: map<string, Secret>,
                                   now: map<string, Secret>, data: map<string, string>, ended: Ended, busy: bool) {
    var target := TargetName(gs);
    // a conflict and a failed call leave every Secret alone
    && (ended.GetFailed? || ended.TargetConflict? || ended.ReleaseFailed? ==> now == was)
    && (!ended.GetFailed? ==> (ended.TargetConflict? <==> !MayTouch(gs, Lookup(was, target))))
    // no Secret changes but the target, and that only if it was absent, owned, a predecessor's, or adopt is set
    && (!busy ==>
          forall name :: Lookup(now, name) != Lookup(was, name) ==> name == target && MayTouch(gs, Lookup(was, name)))
    // past the ownership check only the target is written, and only by a sync
    && (!busy && (ended.ApplyFailed? || ended.Synced?) ==> seen == AfterGuard(folding, gs, was))
    && (ended.ApplyFailed? ==> now == seen)
    && (ended.Synced? ==> AppliedTo(folding, gs, seen, now, data, ended.wrote))
    // what others put there in between is overwritten only if it might have been, or in the one unguarded case
    && (now != seen ==> ended.Synced? && (MayTouch(gs, Lookup(seen, target)) || TakenUnasked(gs, seen[target])))
  }

  /** A released Secret has no controller left, so the reference of this object is accepted. */
  lemma PredecessorIsTakenOver(folding: bool, gs: GitSecret, was: map<string, Secret>, data: map<string, string>)
    requires IsPredecessors(gs, Lookup(was, TargetName(gs)))
    ensures Desired(gs, AfterGuard(folding, gs, was), data).Some?
  {
    var s := was[TargetName(gs)];
    WithoutOwnerControllers(s.owners, ControllerOf(s.owners).value.uid);
  }

  lemma NothingDone(folding: bool, gs: GitSecret, secrets: map<string, Secret>, data: map<string, string>,
                    ended: Ended, busy: bool)
    requires ended.GetFailed? ||
      if Judge(gs, Lookup(secrets, TargetName(gs))).Conflict? then ended.TargetConflict? else ended.ReleaseFailed?
    ensures SecretsAsAllowed(folding, gs, secrets, secrets, secrets, data, ended, busy)
  {
    hide TargetName, Lookup;
  }

  lemma ReleasedOnly(folding: bool, gs: GitSecret, was: map<string, Secret>, seen: map<string, Secret>,
                     data: map<string, string>, busy: bool)
    requires !Judge(gs, Lookup(was, TargetName(gs))).Conflict? && (!busy ==> seen == AfterGuard(folding, gs, was))
    ensures SecretsAsAllowed(folding, gs, was, seen, seen, data, ApplyFailed, busy)
  {
    hide Stored, Released, TargetName;
  }

  lemma AppliedAsAllowed(folding: bool, gs: GitSecret, was: map<string, Secret>, seen: map<string, Secret>,
                         now: map<string, Secret>, data: map<string, string>, wrote: bool, busy: bool)
    requires !Judge(gs, Lookup(was, TargetName(gs))).Conflict? && (!busy ==> seen == AfterGuard(folding, gs, was))
    requires AppliedTo(folding, gs, seen, now, data, wrote)
    ensures SecretsAsAllowed(folding, gs, was, seen, now, data, Synced(wrote), busy)
  {
    var target := TargetName(gs);
    if !MayTouch(gs, Lookup(seen, target)) {
      LateSecretIsTakenIff(folding, gs, seen, now, data, wrote);
    }
    hide Stored, Released, TargetName, Mutated, TakenUnasked;
    assert forall name :: name != target ==> Lookup(now, name) == Lookup(seen, name);
    assert !busy ==> forall name :: name != target ==> Lookup(seen, name) == Lookup(was, name);
  }

  class Controller {
    const api: ApiServer

    constructor (api: ApiServer)
      ensures this.api == api
    {
      this.api := api;
    }

    /** The ownership check on the Secrets as they are. */
    function Checked(): Guard
      reads this, api
    {
      Judge(api.gs, Lookup(api.secrets, TargetName(api.gs)))
    }

    /** persistStatus: write only what is meaningfully different; a failure is only logged. */
    method PersistStatus(status: Status) returns (clean: bool)
      modifies api`gs, api`writes, api`faults
      ensures clean ==> Left(old(api.gs), status, false, status.lastSyncTime, api.gs)
      ensures !clean ==> api.gs == old(api.gs)
      ensures api.gs == old(api.gs) || api.gs == old(api.gs).(status := status)
      ensures api.faults == old(api.faults) + if clean then 0 else 1
      ensures !MeaningfullyChanged(old(api.gs).status, status) ==>
        api.gs == old(api.gs) && api.writes == old(api.writes)
    {
      clean := true;
      if MeaningfullyChanged(api.gs.status, status) {
        clean := api.UpdateStatus(status);
      }
    }

    /**
     Reconcile, for the outcome of Unseal.  When busy, others write Secrets between the ownership
     check and CreateOrUpdate; seen is what CreateOrUpdate then finds.  clean: no call failed.
     */
    method Reconcile(unsealed: Result<map<string, string>, string>, now: int, busy: bool)
      returns (ended: Ended, clean: bool, ghost seen: map<string, Secret>)
      modifies api
      // without a failed call the outcome follows from what was read
      ensures clean <==> api.faults == old(api.faults)
      ensures clean ==> !ended.GetFailed? && !ended.ReleaseFailed? && (ended.UnsealFailed? <==> unsealed.Err?)
      ensures clean && ended.ApplyFailed? ==> Desired(old(api.gs), seen, unsealed.value).None?
      // a failed unseal leaves every Secret alone
      ensures unsealed.Err? ==>
        (ended.UnsealFailed? || ended.GetFailed?) && api.secrets == old(api.secrets) && seen == api.secrets
      ensures unsealed.Ok? ==>
        SecretsAsAllowed(api.folding, old(api.gs), old(api.secrets), seen, api.secrets, unsealed.value, ended, busy)
      // a predecessor's Secret is taken over, whatever adopt says
      ensures clean && !busy && unsealed.Ok? && old(IsPredecessors(api.gs, Lookup(api.secrets, TargetName(api.gs)))) ==>
        ended.Synced?
      // of the object only the status changes, and there Ready to whether this was a sync
      ensures Recorded(old(api.gs), api.gs, ended.Synced?)
      ensures clean ==> ReadyIs(api.gs.status, ended.Synced?)
      ensures clean ==>
        Reports(old(api.gs), api.gs, Reason(ended), ended == Synced(true), if unsealed.Ok? then |unsealed.value| else 0,
                now)
      // quiescence: a settled state is left without a write, and a clean reconcile settles
      ensures clean && !busy && Settled(old(api.gs), old(api.secrets), unsealed, now) ==>
        api.gs == old(api.gs) && api.secrets == old(api.secrets) && api.writes == old(api.writes)
      ensures clean && !busy && (ended.ApplyFailed? ==> !old(Checked()).Release?) ==>
        forall later :: Settled(api.gs, api.secrets, unsealed, later) <==>
                        !(ended.Synced? && ended.wrote && api.folding && unsealed.value != map[])
    {
      hide MeaningfullyChanged, SetCondition, Mirrored, Left, Computed, Recorded, ReadyIs, SecretsAsAllowed, Desired;
      hide Reports;
      seen, clean := api.secrets, false;
      ghost var gs0, secrets0 := api.gs, api.secrets;
      NothingRecorded(gs0, false);
      var got := api.Request();
      if !got {
        ended := GetFailed;
        NothingDone(api.folding, gs0, secrets0, if unsealed.Ok? then unsealed.value else map[], GetFailed, busy);
      } else if unsealed.Err? {
        clean := PersistFailure(gs0, "UnsealFailed", unsealed.error, now);
        ended := UnsealFailed;
        if clean { forall later { FailureSettles(gs0, api.gs, secrets0, unsealed, now, later); } }
      } else {
        ended, clean, seen := ReconcileOpened(unsealed.value, now, busy);
      }
    }

    /** The rest of Reconcile, once the object is unsealed: ownership check, release, CreateOrUpdate, status. */
    method ReconcileOpened(data: map<string, string>, now: int, busy: bool)
      returns (ended: Ended, clean: bool, ghost seen: map<string, Secret>)
      modifies api
      ensures api.faults >= old(api.faults) && (clean <==> api.faults == old(api.faults))
      ensures !ended.UnsealFailed? && (clean ==> !ended.GetFailed? && !ended.ReleaseFailed?)
      ensures clean && ended.ApplyFailed? ==> Desired(old(api.gs), seen, data).None?
      ensures SecretsAsAllowed(api.folding, old(api.gs), old(api.secrets), seen, api.secrets, data, ended, busy)
      ensures clean && !busy && old(IsPredecessors(api.gs, Lookup(api.secrets, TargetName(api.gs)))) ==> ended.Synced?
      ensures Recorded(old(api.gs), api.gs, ended.Synced?)
      ensures clean ==> ReadyIs(api.gs.status, ended.Synced?)
      ensures clean ==> Reports(old(api.gs), api.gs, Reason(ended), ended == Synced(true), |data|, now)
      ensures clean && !busy && Settled(old(api.gs), old(api.secrets), Ok(data), now) ==>
        api.gs == old(api.gs) && api.secrets == old(api.secrets) && api.writes == old(api.writes)
      ensures clean && !busy && (ended.ApplyFailed? ==> !old(Checked()).Release?) ==>
        forall later :: Settled(api.gs, api.secrets, Ok(data), later) <==>
                        !(ended.Synced? && ended.wrote && api.folding && data != map[])
    {
      hide MeaningfullyChanged, Released, Mutated, Stored, SetCondition, Mirrored, Left, Computed, Recorded, ReadyIs;
      hide SecretsAsAllowed, AfterGuard, AppliedTo, OwnedByThis, OwnedByLegacyNamesake, Reports;
      seen, clean := api.secrets, false;
      ghost var gs0, secrets0 := api.gs, api.secrets;
      NothingRecorded(gs0, false);
      var got := api.Request();
      if !got {
        NothingDone(api.folding, gs0, secrets0, data, GetFailed, busy);
        return GetFailed, false, seen;
      }
      var target := TargetName(api.gs);
      var guard := Judge(api.gs, Lookup(api.secrets, target));
      if guard.Conflict? {
        clean := PersistFailure(gs0, "TargetConflict", ConflictMessage(api.gs), now);
        ended := TargetConflict;
        NothingDone(api.folding, gs0, secrets0, data, ended, busy);
        if clean { forall later { FailureSettles(gs0, api.gs, secrets0, Ok(data), now, later); } }
        return;
      }
      var through := PassGuard(guard, target);
      if !through {
        NothingDone(api.folding, gs0, secrets0, data, ReleaseFailed, busy);
        return ReleaseFailed, false, seen;
      }
      if busy { api.Interfere(); }
      seen := api.secrets;
      if !busy && IsPredecessors(gs0, Lookup(secrets0, target)) {
        PredecessorIsTakenOver(api.folding, gs0, secrets0, data);
      }
      ended, clean := Apply(data, now);
      if clean && !busy && ended.ApplyFailed? && !guard.Release? {
        forall later { FailureSettles(gs0, api.gs, secrets0, Ok(data), now, later); }
      }
      if ended.Synced? {
        AppliedAsAllowed(api.folding, gs0, secrets0, seen, api.secrets, data, ended.wrote, busy);
      } else {
        ReleasedOnly(api.folding, gs0, secrets0, seen, data, busy);
      }
      if clean && ended.Synced? {
        forall later {
          SyncSettlesIff(api.folding, gs0, api.gs, seen, api.secrets, data, ended.wrote, now, later);
        }
      }
    }

    /** Past the ownership check: a predecessor's Secret is released first. */
    method PassGuard(guard: Guard, target: string) returns (ok: bool)
      requires target == TargetName(api.gs) && guard == Checked()
      modifies api`secrets, api`writes, api`faults
      ensures ok ==> api.secrets == old(AfterGuard(api.folding, api.gs, api.secrets)) && api.faults == old(api.faults)
      ensures !ok ==> api.secrets == old(api.secrets) && api.faults > old(api.faults)
      ensures !guard.Release? ==> ok && api.secrets == old(api.secrets) && api.writes == old(api.writes)
    {
      hide Stored, Released;
      ok := true;
      if guard.Release? { ok := ReleaseTarget(target); }
    }

    /** Drop the controller reference of the object's predecessor. */
    method ReleaseTarget(target: string) returns (ok: bool)
      requires target in api.secrets && OwnedByLegacyNamesake(api.gs, api.secrets[target])
      modifies api`secrets, api`writes, api`faults
      ensures ok ==> api.secrets == old(api.secrets)[target := Stored(api.folding, Released(old(api.secrets)[target]))]
      ensures !ok ==> api.secrets == old(api.secrets)
      ensures api.faults == old(api.faults) + if ok then 0 else 1
    {
      var s := api.secrets[target];
      var kept := DropOwner(s.owners, ControllerOf(s.owners).value.uid);
      ok := api.Put(target, s.(owners := kept));
    }

    method PersistFailure(ghost gs: GitSecret, reason: string, message: string, now: int) returns (clean: bool)
      requires gs == api.gs
      modifies api`gs, api`writes, api`faults
      ensures api.faults == old(api.faults) + if clean then 0 else 1
      ensures clean ==> Left(gs, FailedStatus(gs, reason, message, now), false, gs.status.lastSyncTime, api.gs)
      ensures clean && reason != "Synced" ==> forall keys: nat :: Reports(gs, api.gs, reason, false, keys, now)
      ensures Recorded(gs, api.gs, false) && (clean ==> ReadyIs(api.gs.status, false))
      ensures !MeaningfullyChanged(gs.status, FailedStatus(gs, reason, message, now)) ==>
        api.gs == gs && api.writes == old(api.writes)
    {
      hide MeaningfullyChanged, SetCondition, Mirrored, Computed, Recorded, ReadyIs, Left, Reports;
      ghost var status := FailedStatus(gs, reason, message, now);
      FailureKeepsSync(gs, reason, message, now);
      ComputedIsRecorded(gs, gs.status.observedGeneration, gs.status.syncedKeys, Ready(gs, false, reason, message), now,
                         None);
      NothingRecorded(gs, false);
      clean := PersistStatus(FailedStatus(api.gs, reason, message, now));
      if clean { LeftIsReady(gs, status, false, gs.status.lastSyncTime, api.gs, false); }
      if clean && reason != "Synced" {
        forall keys: nat { FailureReports(gs, reason, message, now, api.gs, keys); }
      }
    }

    /** CreateOrUpdate and the final status update. */
    method Apply(data: map<string, string>, now: int) returns (ended: Ended, clean: bool)
      modifies api
      ensures ended.ApplyFailed? || ended.Synced?
      ensures api.faults >= old(api.faults) && (clean <==> api.faults == old(api.faults))
      ensures ended.ApplyFailed? ==> api.secrets == old(api.secrets)
      ensures ended.Synced? ==> AppliedTo(api.folding, old(api.gs), old(api.secrets), api.secrets, data, ended.wrote)
      ensures clean && ended.ApplyFailed? ==>
        Desired(old(api.gs), old(api.secrets), data).None? &&
        Left(old(api.gs), FailedStatus(old(api.gs), "ApplyFailed", OWNED_ELSEWHERE, now), false,
             old(api.gs.status.lastSyncTime), api.gs)
      ensures clean && ended.Synced? ==>
        Left(old(api.gs), SyncedStatus(old(api.gs), |data|, SyncMessage(old(api.gs)), now), ended.wrote, Some(now),
             api.gs)
      ensures Recorded(old(api.gs), api.gs, ended.Synced?)
      ensures clean ==> ReadyIs(api.gs.status, ended.Synced?)
      ensures clean ==> Reports(old(api.gs), api.gs, Reason(ended), ended == Synced(true), |data|, now)
      ensures var desired := Desired(old(api.gs), old(api.secrets), data);
        clean && ((desired.None? && !MeaningfullyChanged(old(api.gs).status, FailedStatus(old(api.gs),
            "ApplyFailed", OWNED_ELSEWHERE, now))) ||
        (desired.Some? && Lookup(old(api.secrets), TargetName(old(api.gs))) == desired &&
         !MeaningfullyChanged(old(api.gs).status, SyncedStatus(old(api.gs), |data|, SyncMessage(old(api.gs)), now))))
        ==> api.gs == old(api.gs) && api.secrets == old(api.secrets) && api.writes == old(api.writes)
    {
      hide MeaningfullyChanged, Mutated, Stored, SetCondition, Mirrored, Computed, Recorded, ReadyIs, Reports;
      ghost var gs0 := api.gs;
      NothingRecorded(gs0, true);
      var existing := Lookup(api.secrets, TargetName(api.gs));
      var desired := Desired(api.gs, api.secrets, data);
      var through := api.Request();
      if through && desired.Some? && existing != desired {
        through := api.Put(TargetName(api.gs), desired.value);
      }
      if !through || desired.None? {
        var text := OWNED_ELSEWHERE;
        if !through { text := *; }
        clean := PersistFailure(gs0, "ApplyFailed", text, now);
        return ApplyFailed, clean && through;
      }
      var status := SyncedStatus(api.gs, |data|, SyncMessage(api.gs), now);
      ComputedIsRecorded(gs0, gs0.generation, |data|, Ready(gs0, true, "Synced", SyncMessage(gs0)), now, Some(now));
      clean := true;
      if existing != desired || MeaningfullyChanged(api.gs.status, status) {
        clean := api.UpdateStatus(status.(lastSyncTime := Some(now)));
      }
      ended := Synced(existing != desired);
      if clean {
        LeftIsReady(gs0, status, ended.wrote, Some(now), api.gs, true);
        SyncReports(gs0, |data|, SyncMessage(gs0), ended.wrote, now, api.gs);
      }
    }
  }
}
