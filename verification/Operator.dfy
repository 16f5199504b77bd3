/** The controller over time: reconciles of a sealed object between spec edits, drift and changes of its keyring. */
module Operator {
  import opened Wrappers
  import R = Reconciler
  import S = Sealer

  function ErrorText(e: S.SealError): string {
    match e
    case NoRecipients => "no recipients given"
    case BadFingerprint => "not a full GPG fingerprint"
    case GpgFailed => "wrap content key"
    case NoKey => "unwrap content key"
    case TooMany => "too many entries"
    case TooLong => "over the limit"
    case BadEntry => "does not open"
  }

  /** Everything a reconcile depends on and may change. */
  datatype Moment = Moment(gs: R.GitSecret, spec: S.Spec, secrets: map<string, R.Secret>)

  datatype Event =
    | Reconcile(me: set<string>, now: int, busy: bool)  // the controller, with these secret keys
    | Submit(gs: R.GitSecret, spec: S.Spec)             // a new version of the object is applied
    | Meddle                                            // anybody changes Secrets

  /** How a reconcile ended; nothing for other events. */
  datatype Report = Report(ended: R.Ended, clean: bool) | Silent

  // ---- one reconcile of a sealed object ----

  predicate Unseals(namespace: string, m: Moment, me: set<string>) {
    S.Unseals(namespace, m.gs.name, m.spec, me)
  }

  /** The target shows exactly the values of the spec, and this object controls it. */
  predicate Shows(m: Moment, spec: S.Spec) {
    var name := R.TargetName(m.gs);
    name in m.secrets && R.Visible(m.secrets[name]) == S.Plaintexts(spec) && R.OwnedByThis(m.gs, m.secrets[name])
  }

  /** What a reconcile may make of a moment. */
  ghost predicate Reconciled(namespace: string, was: Moment, now: Moment, me: set<string>, busy: bool, ended: R.Ended,
                             clean: bool) {
    && now.spec == was.spec && R.Recorded(was.gs, now.gs, ended.Synced?)
    // Ready says whether it synced, and then the target shows the values the keyring can unseal
    && (clean ==> R.ReadyIs(now.gs.status, ended.Synced?))
    && (ended.Synced? ==> Unseals(namespace, was, me) && Shows(now, was.spec))
    // what does not unseal, and what is not to be touched, is left alone
    && (!Unseals(namespace, was, me) ==> now.secrets == was.secrets)
    && (!busy ==>
          forall name :: R.Lookup(now.secrets, name) != R.Lookup(was.secrets, name) ==>
            name == R.TargetName(was.gs) && R.MayTouch(was.gs, R.Lookup(was.secrets, name)))
  }

  method ReconcileSealed(c: R.Controller, namespace: string, spec: S.Spec, me: set<string>, now: int, busy: bool)
    returns (ended: R.Ended, clean: bool)
    modifies c.api
    ensures Reconciled(namespace, Moment(old(c.api.gs), spec, old(c.api.secrets)),
                       Moment(c.api.gs, spec, c.api.secrets), me, busy, ended, clean)
  {
    ghost var gs0, secrets0 := c.api.gs, c.api.secrets;
    var plain := S.Unseal(namespace, c.api.gs.name, spec, me);
    var unsealed := if plain.Ok? then Ok(plain.value) else Err(ErrorText(plain.error));
    ghost var seen;
    ended, clean, seen := c.Reconcile(unsealed, now, busy);
    SyncedShows(c.api.folding, gs0, c.api.gs, secrets0, seen, c.api.secrets, spec, ended, busy);
    hide R.ReadyIs, R.Recorded, R.AppliedTo, R.AfterGuard, S.EntriesOpen, S.WithinLimits;
  }

  lemma SyncedShows(folding: bool, gs: R.GitSecret, after: R.GitSecret, was: map<string, R.Secret>,
                    seen: map<string, R.Secret>, now: map<string, R.Secret>, spec: S.Spec, ended: R.Ended, busy: bool)
    requires R.Recorded(gs, after, ended.Synced?)
    ensures ended.Synced? && R.SecretsAsAllowed(folding, gs, was, seen, now, S.Plaintexts(spec), ended, busy) ==>
      Shows(Moment(after, spec, now), spec)
  {
    if ended.Synced? && R.SecretsAsAllowed(folding, gs, was, seen, now, S.Plaintexts(spec), ended, busy) {
      R.SyncMirrorsData(folding, gs, seen, now, S.Plaintexts(spec), ended.wrote);
    }
  }

  // ---- runs ----

  ghost predicate Step(namespace: string, e: Event, was: Moment, now: Moment, r: Report) {
    match e
    case Reconcile(me, _, busy) => r.Report? && Reconciled(namespace, was, now, me, busy, r.ended, r.clean)
    case Submit(gs, spec) => now == Moment(gs.(status := was.gs.status), spec, was.secrets)
    case Meddle => now == was.(secrets := now.secrets)
  }

  ghost predicate Run(namespace: string, events: seq<Event>, trace: seq<Moment>, reports: seq<Report>) {
    && |trace| == |events| + 1 && |reports| == |events|
    && forall i :: 0 <= i < |events| ==> Step(namespace, events[i], trace[i], trace[i + 1], reports[i])
  }

  /** The controller's object and Secrets through any sequence of events. */
  method Operate(c: R.Controller, namespace: string, spec0: S.Spec, events: seq<Event>)
    returns (ghost trace: seq<Moment>, ghost reports: seq<Report>)
    modifies c.api
    ensures Run(namespace, events, trace, reports)
    ensures trace[0] == Moment(old(c.api.gs), spec0, old(c.api.secrets))
    ensures trace[|events|].gs == c.api.gs && trace[|events|].secrets == c.api.secrets
  {
    hide Reconciled;
    var spec := spec0;
    trace, reports := [Moment(c.api.gs, spec, c.api.secrets)], [];
    for n := 0 to |events|
      invariant |trace| == n + 1 && |reports| == n
      invariant trace[0] == Moment(old(c.api.gs), spec0, old(c.api.secrets))
      invariant trace[n] == Moment(c.api.gs, spec, c.api.secrets)
      invariant forall i :: 0 <= i < n ==> Step(namespace, events[i], trace[i], trace[i + 1], reports[i])
    {
      ghost var report := Silent;
      match events[n] {
        case Reconcile(me, now, busy) =>
          var ended, clean := ReconcileSealed(c, namespace, spec, me, now, busy);
          report := Report(ended, clean);
        case Submit(gs, spec') =>
          c.api.Resubmit(gs);
          spec := spec';
        case Meddle => c.api.Interfere();
      }
      trace := trace + [Moment(c.api.gs, spec, c.api.secrets)];
      reports := reports + [report];
    }
  }

  /** Condition types stay unique over every run. */
  lemma {:induction false} ConditionsStayUnique(namespace: string, events: seq<Event>, trace: seq<Moment>,
                                                reports: seq<Report>, n: nat)
    requires Run(namespace, events, trace, reports) && n < |trace|
    requires R.UniqueKinds(trace[0].gs.status.conditions)
    ensures R.UniqueKinds(trace[n].gs.status.conditions)
  {
    hide R.UniqueKinds, R.Find, R.ReadyIs;
    if n > 0 {
      ConditionsStayUnique(namespace, events, trace, reports, n - 1);
      assert Step(namespace, events[n - 1], trace[n - 1], trace[n], reports[n - 1]);
    }
  }

  predicate IsMeddling(e: Event) {
    e.Meddle? || (e.Reconcile? && e.busy)
  }

  /**
   Over every run in which nobody else writes Secrets, a Secret that is not to be touched by any
   version of the object stays exactly as it was.
   */
  lemma {:induction false} UntouchableStays(namespace: string, events: seq<Event>, trace: seq<Moment>,
                                            reports: seq<Report>, name: string, n: nat)
    requires Run(namespace, events, trace, reports) && n < |trace|
    requires forall i :: 0 <= i < n ==> !IsMeddling(events[i])
    requires forall i :: 0 <= i < n && R.TargetName(trace[i].gs) == name ==>
      !R.MayTouch(trace[i].gs, R.Lookup(trace[0].secrets, name))
    ensures R.Lookup(trace[n].secrets, name) == R.Lookup(trace[0].secrets, name)
  {
    hide R.MayTouch, R.Recorded, R.ReadyIs;
    if n > 0 {
      UntouchableStays(namespace, events, trace, reports, name, n - 1);
      assert Step(namespace, events[n - 1], trace[n - 1], trace[n], reports[n - 1]);
    }
  }

  /**
   At the end of every reconcile without a failed call, Ready is true exactly if it synced, and then
   the target shows exactly the values of the spec, which the keyring unseals.
   */
  lemma ReadyMeansShown(namespace: string, events: seq<Event>, trace: seq<Moment>, reports: seq<Report>, i: nat)
    requires Run(namespace, events, trace, reports) && i < |events| && events[i].Reconcile?
    requires reports[i].Report? && reports[i].clean
    ensures R.ReadyIs(trace[i + 1].gs.status, true) ==>
      Unseals(namespace, trace[i], events[i].me) && Shows(trace[i + 1], trace[i + 1].spec)
    ensures !Unseals(namespace, trace[i], events[i].me) ==>
      R.ReadyIs(trace[i + 1].gs.status, false) && trace[i + 1].secrets == trace[i].secrets
  {
    assert Step(namespace, events[i], trace[i], trace[i + 1], reports[i]);
  }
}
