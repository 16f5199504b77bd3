/** GitSecret objects: sealing, rewrapping, rekeying, setting one value, and who can open what. */
module Sealer {
  import opened Wrappers
  import opened Fingerprints
  import opened Sorting
  import EnvelopeFormat

  const MAX_ENTRIES := 1024
  const MAX_VALUE_BYTES := 0x100000

  /** A content key wrapped by gpg to a set of identities (fingerprints up to case). */
  datatype Wrapped = Wrapped(key: nat, to: set<string>)

  /** An encoded entry: a sealed plaintext with its binding, or other text of some length. */
  datatype Value = Sealed(key: nat, namespace: string, name: string, field: string,
                          plaintext: string) | Garbage(length: nat)

  datatype Spec = Spec(encryptedKey: Option<Wrapped>, encryptedData: map<string, Value>, recipients: seq<string>)

  datatype SealError = NoRecipients | BadFingerprint | GpgFailed | NoKey | TooMany | TooLong | BadEntry

  /** The length of the base64 text of a value; a sealed one has a version 1 envelope inside. */
  function EncodedLength(v: Value): nat {
    if v.Garbage? then v.length
    else EnvelopeFormat.Base64Length(EnvelopeFormat.EnvelopeLength(|v.plaintext|))
  }

  predicate AllFingerprints(rs: seq<string>) {
    forall r :: r in rs ==> ValidFingerprint(r)
  }

  predicate OpensAs(v: Value, key: nat, namespace: string, name: string, field: string) {
    v.Sealed? && v.key == key && v.namespace == namespace && v.name == name && v.field == field
  }

  // ---- the specification functions ----

  function SealSpec(namespace: string, name: string, data: map<string, string>, recipients: seq<string>,
                    key: nat): Spec {
    Spec(Some(Wrapped(key, UpperSet(recipients))),
         map k | k in data :: Sealed(key, namespace, name, k, data[k]),
         Sort(recipients))
  }

  function RewrapSpec(spec: Spec, recipients: seq<string>): Spec
    requires spec.encryptedKey.Some?
  {
    spec.(encryptedKey := Some(Wrapped(spec.encryptedKey.value.key, UpperSet(recipients))),
          recipients := Sort(recipients))
  }

  /** Some secret key in the keyring unwraps the content key. */
  predicate CanUnwrap(spec: Spec, me: set<string>) {
    spec.encryptedKey.Some? && spec.encryptedKey.value.to * me != {}
  }

  predicate WithinLimits(spec: Spec) {
    |spec.encryptedData| <= MAX_ENTRIES &&
    forall k :: k in spec.encryptedData ==> EncodedLength(spec.encryptedData[k]) <= MAX_VALUE_BYTES
  }

  predicate EntriesOpen(namespace: string, name: string, spec: Spec)
    requires spec.encryptedKey.Some?
  {
    forall k :: k in spec.encryptedData ==>
      OpensAs(spec.encryptedData[k], spec.encryptedKey.value.key, namespace, name, k)
  }

  /** What every successful Unseal returns. */
  function Plaintexts(spec: Spec): map<string, string> {
    map k | k in spec.encryptedData && spec.encryptedData[k].Sealed? :: spec.encryptedData[k].plaintext
  }

  predicate Unseals(namespace: string, name: string, spec: Spec, me: set<string>) {
    CanUnwrap(spec, me) && WithinLimits(spec) && EntriesOpen(namespace, name, spec)
  }

  // ---- the operations ----

  /** Whether every check before wrapping passes; gpg says whether gpg then wraps. */
  predicate CanWrap(recipients: seq<string>, gpg: bool) {
    recipients != [] && AllFingerprints(recipients) && gpg
  }

  predicate CanRewrap(spec: Spec, recipients: seq<string>, me: set<string>, gpg: bool) {
    CanUnwrap(spec, me) && CanWrap(recipients, gpg)
  }

  function WrapError(recipients: seq<string>): SealError {
    if recipients == [] then NoRecipients else if !AllFingerprints(recipients) then BadFingerprint else GpgFailed
  }

  method SealContext(namespace: string, name: string, data: map<string, string>, recipients: seq<string>, minted: nat,
                     gpg: bool)
    returns (r: Result<Spec, SealError>)
    ensures r == if CanWrap(recipients, gpg) then Ok(SealSpec(namespace, name, data, recipients, minted))
                 else Err(WrapError(recipients))
    // there are recipients, each a full fingerprint, and gpg wraps the fresh key to exactly those
    ensures r.Ok? <==> recipients != [] && (forall x :: x in recipients ==> ValidFingerprint(x)) && gpg
    ensures r.Ok? ==> r.value.encryptedKey == Some(Wrapped(minted, set x | x in recipients :: Upper(x)))
    ensures r.Err? ==> r.error in {NoRecipients, BadFingerprint, GpgFailed}
    ensures r == Err(NoRecipients) <==> recipients == []
    ensures r == Err(BadFingerprint) <==> exists x :: x in recipients && !ValidFingerprint(x)
  {
    if recipients == [] { return Err(NoRecipients); }
    if !AllFingerprints(recipients) { return Err(BadFingerprint); }
    if !gpg { return Err(GpgFailed); }
    var sealed: map<string, Value> := map[];
    var todo := data.Keys;
    while todo != {}
      invariant todo <= data.Keys && sealed.Keys == data.Keys - todo
      invariant forall k :: k in sealed ==> sealed[k] == Sealed(minted, namespace, name, k, data[k])
      decreases |todo|
    {
      var k :| k in todo;
      sealed := sealed[k := Sealed(minted, namespace, name, k, data[k])];
      todo := todo - {k};
    }
    var spec := Spec(Some(Wrapped(minted, UpperSet(recipients))), sealed, Sort(recipients));
    assert spec == SealSpec(namespace, name, data, recipients, minted);
    r := Ok(spec);
  }

  method Rewrap(spec: Spec, recipients: seq<string>, me: set<string>, gpg: bool) returns (r: Result<Spec, SealError>)
    ensures r.Ok? <==> CanRewrap(spec, recipients, me, gpg)
    ensures r.Ok? ==> r.value == RewrapSpec(spec, recipients)
    ensures r.Err? && CanUnwrap(spec, me) ==> r.error == WrapError(recipients)
    ensures spec.encryptedKey.None? ==> r == Err(NoKey)
    // somebody the key is wrapped to runs it, and it is the same key, now for exactly the new recipients
    ensures r.Ok? ==>
      && (exists x :: x in me && x in spec.encryptedKey.value.to)
      && recipients != [] && (forall x :: x in recipients ==> ValidFingerprint(x)) && gpg
      && r.value.encryptedKey == Some(Wrapped(spec.encryptedKey.value.key, set x | x in recipients :: Upper(x)))
      && r.value.encryptedData == spec.encryptedData
  {
    if spec.encryptedKey.None? { return Err(NoKey); }
    if recipients == [] { return Err(NoRecipients); }
    if !AllFingerprints(recipients) { return Err(BadFingerprint); }
    if !CanUnwrap(spec, me) { return Err(NoKey); }
    if !gpg { return Err(GpgFailed); }
    r := Ok(spec.(encryptedKey := Some(Wrapped(spec.encryptedKey.value.key, UpperSet(recipients))),
                  recipients := Sort(recipients)));
  }

  /** The entries are visited in no particular order, so only whether there is an error is determined, not which. */
  method Unseal(namespace: string, name: string, spec: Spec, me: set<string>)
    returns (r: Result<map<string, string>, SealError>)
    ensures r.Ok? <==> Unseals(namespace, name, spec, me)
    ensures r.Ok? ==> r.value == Plaintexts(spec)
  {
    if !CanUnwrap(spec, me) { return Err(NoKey); }
    if |spec.encryptedData| > MAX_ENTRIES { return Err(TooMany); }
    var key := spec.encryptedKey.value.key;
    var data: map<string, string> := map[];
    var todo := spec.encryptedData.Keys;
    while todo != {}
      invariant todo <= spec.encryptedData.Keys && data.Keys == spec.encryptedData.Keys - todo
      invariant forall k :: k in data ==>
        EncodedLength(spec.encryptedData[k]) <= MAX_VALUE_BYTES &&
        OpensAs(spec.encryptedData[k], key, namespace, name, k) && data[k] == spec.encryptedData[k].plaintext
      decreases |todo|
    {
      var k :| k in todo;
      var v := spec.encryptedData[k];
      if EncodedLength(v) > MAX_VALUE_BYTES { return Err(TooLong); }
      if !OpensAs(v, key, namespace, name, k) { return Err(BadEntry); }
      data := data[k := v.plaintext];
      todo := todo - {k};
    }
    r := Ok(data);
  }

  /** A drift check: as many recipients listed as the key is wrapped to. */
  predicate RecipientsMatch(spec: Spec) {
    spec.recipients == [] ||
    (AllFingerprints(spec.recipients) && spec.encryptedKey.Some? && |spec.encryptedKey.value.to| == |spec.recipients|)
  }

  /** It notices any edit of the list that leaves another number of entries, and no edit that keeps the number. */
  lemma DriftIsNoticedIff(w: World, rs: seq<string>)
    requires WellSealed(w)
    ensures !RecipientsMatch(w.spec.(recipients := rs)) <==>
            rs != [] &&
            ((exists r :: r in rs && !ValidFingerprint(r)) || |rs| != |set r | r in w.spec.recipients :: Upper(r)|)
  {}

  // ---- runs ----

  /** An object, the number of content keys generated so far, and who has ever held which of them. */
  datatype World = World(namespace: string, name: string, spec: Spec, minted: nat, known: set<(string, nat)>)

  /** The commands on an existing object; gpg may refuse to wrap, which changes nothing. */
  datatype Command =
    | RewrapTo(me: set<string>, recipients: seq<string>, gpg: bool)
    | Rekey(me: set<string>, gpg: bool)
    | SetValue(me: set<string>, field: string, value: string, gpg: bool)

  predicate CanReseal(w: World, me: set<string>) {
    w.namespace != "" && w.name != "" && w.spec.recipients != [] && AllFingerprints(w.spec.recipients) &&
    Unseals(w.namespace, w.name, w.spec, me)
  }

  predicate Succeeds(w: World, c: Command) {
    match c
    case RewrapTo(me, rs, gpg) => CanRewrap(w.spec, rs, me, gpg)
    case Rekey(me, gpg) => gpg && CanReseal(w, me)
    case SetValue(me, _, _, gpg) => gpg && CanReseal(w, me)
  }

  function NewData(w: World, c: Command): map<string, string> {
    if c.SetValue? then Plaintexts(w.spec)[c.field := c.value] else Plaintexts(w.spec)
  }

  /** Everyone a key is wrapped to is taken to have kept it. */
  function Learn(known: set<(string, nat)>, spec: Spec): set<(string, nat)> {
    if spec.encryptedKey.None? then known
    else known + (set x | x in spec.encryptedKey.value.to :: (x, spec.encryptedKey.value.key))
  }

  function Step(w: World, c: Command): World {
    if !Succeeds(w, c) then w
    else if c.RewrapTo? then
      var spec := RewrapSpec(w.spec, c.recipients);
      w.(spec := spec, known := Learn(w.known, spec))
    else
      var spec := SealSpec(w.namespace, w.name, NewData(w, c), w.spec.recipients, w.minted);
      w.(spec := spec, minted := w.minted + 1, known := Learn(w.known, spec))
  }

  function Run(w: World, cs: seq<Command>): World {
    if cs == [] then w else Step(Run(w, cs[..|cs| - 1]), cs[|cs| - 1])
  }

  ghost predicate WellSealed(w: World) {
    && w.spec.encryptedKey.Some?
    && var k := w.spec.encryptedKey.value;
       && k.to == UpperSet(w.spec.recipients) && w.spec.recipients != [] && k.key < w.minted
       && EntriesOpen(w.namespace, w.name, w.spec)
       && (forall x :: x in k.to ==> (x, k.key) in w.known)
       && forall x, i :: (x, i) in w.known ==> i < w.minted
  }

  lemma SortedMembers(rs: seq<string>)
    ensures UpperSet(Sort(rs)) == UpperSet(rs) && (Sort(rs) == [] <==> rs == [])
  {
    SortKeepsMembers(rs);
  }

  lemma StepKeepsWellSealed(w: World, c: Command)
    requires WellSealed(w)
    ensures WellSealed(Step(w, c))
  {
    if Succeeds(w, c) {
      SortedMembers(if c.RewrapTo? then c.recipients else w.spec.recipients);
    }
  }

  /** Sealing starts a run. */
  lemma SealStarts(namespace: string, name: string, data: map<string, string>, recipients: seq<string>, key: nat)
    requires recipients != []
    ensures var spec := SealSpec(namespace, name, data, recipients, key);
            WellSealed(World(namespace, name, spec, key + 1, Learn({}, spec)))
  {
    SortedMembers(recipients);
  }

  lemma {:induction false} RunKeepsWellSealed(w: World, cs: seq<Command>)
    requires WellSealed(w)
    ensures WellSealed(Run(w, cs))
  {
    if cs != [] {
      RunKeepsWellSealed(w, cs[..|cs| - 1]);
      StepKeepsWellSealed(Run(w, cs[..|cs| - 1]), cs[|cs| - 1]);
    }
  }

  /**
   After any run, a keyring unseals the object iff it holds a secret key of a listed recipient (and
   the object is within the limits); whoever unseals it gets the same data.
   */
  lemma UnsealsIffRecipient(w: World, cs: seq<Command>, me: set<string>)
    requires WellSealed(w)
    ensures var now := Run(w, cs);
            Unseals(now.namespace, now.name, now.spec, me) <==>
            UpperSet(now.spec.recipients) * me != {} && WithinLimits(now.spec)
  {
    RunKeepsWellSealed(w, cs);
  }

  /**
   What each successful command does to the values: rewrap leaves the very ciphertexts, rekey the
   data, set one key.
   */
  lemma StepEffect(w: World, c: Command)
    requires WellSealed(w) && Succeeds(w, c)
    ensures c.RewrapTo? ==> Step(w, c).spec.encryptedData == w.spec.encryptedData
    ensures c.Rekey? ==> Plaintexts(Step(w, c).spec) == Plaintexts(w.spec)
    ensures c.SetValue? ==> Plaintexts(Step(w, c).spec) == Plaintexts(w.spec)[c.field := c.value]
    ensures !c.RewrapTo? ==> UpperSet(Step(w, c).spec.recipients) == UpperSet(w.spec.recipients)
  {
    SortedMembers(w.spec.recipients);
  }

  /** x holds a content key under which some current value opens. */
  ghost predicate CanStillRead(w: World, x: string) {
    exists i, k :: (x, i) in w.known && k in w.spec.encryptedData &&
      OpensAs(w.spec.encryptedData[k], i, w.namespace, w.name, k)
  }

  /**
   After a rekey or a set, no content key obtained earlier opens any current value: exactly the
   current recipients can read, whatever the others have kept.
   */
  lemma ResealLocksOutOthers(w: World, c: Command, x: string)
    requires WellSealed(w) && Succeeds(w, c) && !c.RewrapTo? && NewData(w, c) != map[]
    ensures CanStillRead(Step(w, c), x) <==> x in UpperSet(w.spec.recipients)
    ensures forall i, k :: (x, i) in w.known && k in Step(w, c).spec.encryptedData ==>
              !OpensAs(Step(w, c).spec.encryptedData[k], i, w.namespace, w.name, k)
  {
    SortedMembers(w.spec.recipients);
    var now := Step(w, c);
    if x in UpperSet(w.spec.recipients) {
      assert (x, w.minted) in now.known;
      var k :| k in NewData(w, c);
      assert OpensAs(now.spec.encryptedData[k], w.minted, now.namespace, now.name, k);
    }
  }

  /**
   A rewrap alone does not: someone it removes can no longer unseal, but reads on with the key they
   kept, if there is anything to read.
   */
  lemma RewrapAloneIsInsufficient(w: World, c: Command, x: string)
    requires WellSealed(w) && Succeeds(w, c) && c.RewrapTo?
    requires x in UpperSet(w.spec.recipients) && x !in UpperSet(c.recipients)
    ensures !Unseals(w.namespace, w.name, Step(w, c).spec, {x})
    ensures CanStillRead(Step(w, c), x) <==> w.spec.encryptedData != map[]
  {
    StepKeepsWellSealed(w, c);
    ReadersAreHolders(Step(w, c), x);
    assert (x, w.spec.encryptedKey.value.key) in Step(w, c).known;
  }

  /** Who has the current content key. */
  predicate Holds(w: World, x: string) {
    w.spec.encryptedKey.Some? && (x, w.spec.encryptedKey.value.key) in w.known
  }

  lemma ReadersAreHolders(w: World, x: string)
    requires WellSealed(w)
    ensures CanStillRead(w, x) <==> Holds(w, x) && w.spec.encryptedData != map[]
  {
    if Holds(w, x) && w.spec.encryptedData != map[] {
      var k :| k in w.spec.encryptedData;
      assert OpensAs(w.spec.encryptedData[k], w.spec.encryptedKey.value.key, w.namespace, w.name, k);
    }
  }

  /** x was wrapped to since the last successful rekey or set or, if there was none, at the start or since. */
  predicate WrappedSince(w: World, cs: seq<Command>, x: string) {
    if cs == [] then Holds(w, x)
    else
      var before, c := Run(w, cs[..|cs| - 1]), cs[|cs| - 1];
      if !Succeeds(before, c) then WrappedSince(w, cs[..|cs| - 1], x)
      else if c.RewrapTo? then x in UpperSet(c.recipients) || WrappedSince(w, cs[..|cs| - 1], x)
      else x in UpperSet(before.spec.recipients)
  }

  /**
   Who can still read after any run, whatever has been removed since: exactly the identities the
   content key has been wrapped to since the last rekey or set.
   */
  lemma {:induction false} ReadersAreWrappedSince(w: World, cs: seq<Command>, x: string)
    requires WellSealed(w)
    ensures Holds(Run(w, cs), x) <==> WrappedSince(w, cs, x)
    ensures CanStillRead(Run(w, cs), x) <==> WrappedSince(w, cs, x) && Run(w, cs).spec.encryptedData != map[]
  {
    RunKeepsWellSealed(w, cs);
    ReadersAreHolders(Run(w, cs), x);
    if cs != [] {
      ReadersAreWrappedSince(w, cs[..|cs| - 1], x);
      RunKeepsWellSealed(w, cs[..|cs| - 1]);
      StepChangesHolders(Run(w, cs[..|cs| - 1]), cs[|cs| - 1], x);
    }
  }

  lemma StepChangesHolders(w: World, c: Command, x: string)
    requires WellSealed(w)
    ensures Holds(Step(w, c), x) <==>
      if !Succeeds(w, c) then Holds(w, x)
      else if c.RewrapTo? then x in UpperSet(c.recipients) || Holds(w, x)
      else x in UpperSet(w.spec.recipients)
  {}

  /**
   Sealing does not check the limits unsealing enforces: a recipient gets back what was sealed exactly
   when there are at most 1024 entries of at most 786369 bytes each.
   */
  lemma UnsealOfSeal(namespace: string, name: string, data: map<string, string>, recipients: seq<string>, key: nat,
                     me: set<string>)
    requires UpperSet(recipients) * me != {}
    ensures var spec := SealSpec(namespace, name, data, recipients, key);
            Plaintexts(spec) == data &&
            (Unseals(namespace, name, spec, me) <==>
             |data| <= 1024 && forall k :: k in data ==> |data[k]| <= 786369)
  {
    var spec := SealSpec(namespace, name, data, recipients, key);
    assert spec.encryptedData.Keys == data.Keys;
    assert |spec.encryptedData| == |spec.encryptedData.Keys| == |data.Keys| == |data|;
    forall k | k in data
      ensures EncodedLength(spec.encryptedData[k]) <= MAX_VALUE_BYTES <==> |data[k]| <= 786369
    {
      EnvelopeFormat.LargestValue(|data[k]|);
    }
    assert WithinLimits(spec) <==> |data| <= 1024 && forall k :: k in data ==> |data[k]| <= 786369;
  }

  /** A value copied to another key of the same object opens for nobody. */
  lemma CopiedValueOpensForNobody(w: World, a: string, b: string, me: set<string>)
    requires WellSealed(w) && a != b && b in w.spec.encryptedData
    ensures !Unseals(w.namespace, w.name,
                     w.spec.(encryptedData := w.spec.encryptedData[a := w.spec.encryptedData[b]]), me)
  {
    var key, v := w.spec.encryptedKey.value.key, w.spec.encryptedData[b];
    assert OpensAs(v, key, w.namespace, w.name, b);
    assert w.spec.encryptedData[a := v][a] == v && !OpensAs(v, key, w.namespace, w.name, a);
  }

  /** A sealed object moved to another namespace or name opens for nobody. */
  lemma MovedObjectOpensForNobody(w: World, namespace: string, name: string, me: set<string>)
    requires WellSealed(w) && w.spec.encryptedData != map[] && (namespace != w.namespace || name != w.name)
    ensures !Unseals(namespace, name, w.spec, me)
  {
    var k :| k in w.spec.encryptedData;
    assert OpensAs(w.spec.encryptedData[k], w.spec.encryptedKey.value.key, w.namespace, w.name, k);
  }
}
