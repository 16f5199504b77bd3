/** Per-value encryption of Kubernetes manifests: linting a manifest and decrypting it. */
module K8sValue {
  import opened Wrappers
  import opened Content

  datatype Reason = BadBase64 | NotAllowlisted | HasAnchor | DoesNotOpen | NotAnEnvelope
  datatype Problem = Problem(slot: nat, name: string, reason: Reason)
  datatype LintError = NotAManifest | NoIdentity
  datatype DecryptError = Unparsable | Unidentified | BadValue(slot: nat) | NothingEncrypted

  /** Why an entry is flagged; without a key a ciphertext is checked for its structure only. */
  function Verdict(path: Path, id: ObjectId, key: Option<Key>, allowed: seq<string>, e: Entry): Option<Reason> {
    match e.value
    case Malformed(_) => Some(BadBase64)
    case Plain(_) => if e.name in allowed then None else Some(NotAllowlisted)
    case Cipher(blob) =>
      if e.anchor != "" then Some(HasAnchor)
      else if key.Some? then
        if Open(blob, key.value, ValueAad(path, e.name, id)).Some? then None else Some(DoesNotOpen)
      else if ParsesAsEnvelope(blob) then None
      else Some(NotAnEnvelope)
  }

  predicate Parses(data: Content) {
    data.Doc? && data.manifest.stringData.Some?
  }

  /** lintK8sManifest: one problem for each flagged entry, in order. */
  method LintManifest(data: Content, path: Path, key: Option<Key>, allowed: seq<string>)
    returns (r: Result<seq<Problem>, LintError>)
    ensures r.Ok? <==> Parses(data) && (key.Some? ==> HasIdentity(data.manifest))
    ensures r.Ok? ==> FlagsExactly(r.value, data.manifest, path, key, allowed, |Entries(data.manifest)|)
    ensures r == Err(NotAManifest) <==> !data.Doc? || data.manifest.stringData.None?
    ensures r == Err(NoIdentity) <==>
            Parses(data) && key.Some? && var id := data.manifest.id; "" in {id.apiVersion, id.kind, id.name}
    // an empty report: plain values are allowlisted, the others carry no anchor and open, or at least parse
    ensures r.Ok? ==> (r.value == [] <==>
      forall e :: e in Entries(data.manifest) ==>
        if e.value.Plain? then e.name in allowed
        else e.value.Cipher? && e.anchor == "" &&
             match key
             case Some(k) => Open(e.value.blob, k, ValueAad(path, e.name, data.manifest.id)).Some?
             case None => ParsesAsEnvelope(e.value.blob))
  {
    if !Parses(data) { return Err(NotAManifest); }
    var m := data.manifest;
    if key.Some? && !HasIdentity(m) { return Err(NoIdentity); }
    var es := Entries(m);
    var problems := [];
    for i := 0 to |es|
      invariant FlagsExactly(problems, m, path, key, allowed, i)
    {
      var reason: Option<Reason> := None;
      match es[i].value {
        case Malformed(_) => reason := Some(BadBase64);
        case Plain(_) =>
          if es[i].name !in allowed { reason := Some(NotAllowlisted); }
        case Cipher(blob) =>
          if es[i].anchor != "" {
            reason := Some(HasAnchor);
          } else if key.Some? {
            if Open(blob, key.value, ValueAad(path, es[i].name, m.id)).None? { reason := Some(DoesNotOpen); }
          } else if !ParsesAsEnvelope(blob) {
            reason := Some(NotAnEnvelope);
          }
      }
      FlagsMore(problems, m, path, key, allowed, i, reason);
      if reason.Some? { problems := problems + [Problem(i, es[i].name, reason.value)]; }
    }
    CleanIffNoProblems(problems, data, path, key, allowed);
    r := Ok(problems);
  }

  lemma FlagsMore(problems: seq<Problem>, m: Manifest, path: Path, key: Option<Key>, allowed: seq<string>, n: nat,
                  reason: Option<Reason>)
    requires FlagsExactly(problems, m, path, key, allowed, n) && n < |Entries(m)|
    requires reason == Verdict(path, m.id, key, allowed, Entries(m)[n])
    ensures FlagsExactly(if reason.Some? then problems + [Problem(n, Entries(m)[n].name, reason.value)] else problems,
                         m, path, key, allowed, n + 1)
  {
    hide Verdict;
  }

  /** The problems are those of the first n entries that have one, and no others. */
  ghost predicate FlagsExactly(problems: seq<Problem>, m: Manifest, path: Path, key: Option<Key>,
                               allowed: seq<string>, n: nat) {
    && n <= |Entries(m)|
    && (forall p :: p in problems ==>
          p.slot < n && p.name == Entries(m)[p.slot].name &&
          Verdict(path, m.id, key, allowed, Entries(m)[p.slot]) == Some(p.reason))
    && (forall i :: 0 <= i < n && Verdict(path, m.id, key, allowed, Entries(m)[i]).Some? ==>
          Problem(i, Entries(m)[i].name, Verdict(path, m.id, key, allowed, Entries(m)[i]).value) in problems)
  }

  /** What lint answers: Ok with nothing flagged. */
  predicate LintsClean(data: Content, path: Path, key: Option<Key>, allowed: seq<string>) {
    && Parses(data) && (key.Some? ==> HasIdentity(data.manifest))
    && forall i :: 0 <= i < |Entries(data.manifest)| ==>
         Verdict(path, data.manifest.id, key, allowed, Entries(data.manifest)[i]).None?
  }

  lemma CleanIffNoProblems(problems: seq<Problem>, data: Content, path: Path, key: Option<Key>, allowed: seq<string>)
    requires Parses(data) && (key.Some? ==> HasIdentity(data.manifest))
    requires FlagsExactly(problems, data.manifest, path, key, allowed, |Entries(data.manifest)|)
    ensures problems == [] <==> LintsClean(data, path, key, allowed)
  {
    if problems != [] {
      assert problems[0] in problems;
      assert Verdict(path, data.manifest.id, key, allowed, Entries(data.manifest)[problems[0].slot]).Some?;
    }
  }

  // ---- decrypting ----

  function OpenedEntry(e: Entry): Entry {
    if e.value.Cipher? then e.(value := Plain(Clear(e.value.blob))) else e
  }

  function EffectiveId(m: Manifest, namespaceOverride: string): ObjectId {
    if namespaceOverride != "" then m.id.(namespace := namespaceOverride) else m.id
  }

  predicate EntryDecrypts(path: Path, id: ObjectId, key: Key, e: Entry) {
    match e.value
    case Plain(_) => true
    case Malformed(_) => false
    case Cipher(blob) => e.anchor == "" && Open(blob, key, ValueAad(path, e.name, id)).Some?
  }

  /** Whether decrypt succeeds: a known identity, every value in order, and something to decrypt. */
  predicate Decrypts(data: Content, path: Path, key: Key, namespaceOverride: string) {
    && Parses(data) && HasIdentity(data.manifest)
    && (forall e :: e in Entries(data.manifest) ==>
          EntryDecrypts(path, EffectiveId(data.manifest, namespaceOverride), key, e))
    && exists e :: e in Entries(data.manifest) && e.value.Cipher?
  }

  /** DecryptK8sManifest: every ciphertext is replaced by its plaintext in place, or the whole call fails. */
  method DecryptManifest(data: Content, path: Path, key: Key, namespaceOverride: string)
    returns (r: Result<Manifest, DecryptError>)
    ensures r.Ok? <==> Decrypts(data, path, key, namespaceOverride)
    ensures r.Ok? ==>
      && r.value == data.manifest.(stringData := r.value.stringData) && r.value.stringData.Some?
      && |Entries(r.value)| == |Entries(data.manifest)|
      && forall i :: 0 <= i < |Entries(data.manifest)| ==>
           Entries(r.value)[i] == OpenedEntry(Entries(data.manifest)[i])
    // so every value that was encrypted is what it opens to, and every other entry as it was
    ensures r.Ok? ==>
      forall i :: 0 <= i < |Entries(data.manifest)| ==>
        var e, e' := Entries(data.manifest)[i], Entries(r.value)[i];
        e'.name == e.name && e'.anchor == e.anchor &&
        if e.value.Cipher? then
          e'.value.Plain? &&
          Open(e.value.blob, key, ValueAad(path, e.name, EffectiveId(data.manifest, namespaceOverride))) ==
            Some(e'.value.content)
        else e'.value == e.value
    ensures r == Err(Unparsable) <==> !data.Doc? || data.manifest.stringData.None?
    ensures r == Err(Unidentified) <==>
            Parses(data) && var id := data.manifest.id; "" in {id.apiVersion, id.kind, id.name}
    // the first value that cannot be decrypted is named: not base64, anchored or not opening
    ensures r.Err? && r.error.BadValue? ==>
      var es, id := Entries(data.manifest), EffectiveId(data.manifest, namespaceOverride);
      var k := r.error.slot;
      k < |es| && !EntryDecrypts(path, id, key, es[k]) &&
      forall j :: 0 <= j < k ==> EntryDecrypts(path, id, key, es[j])
    ensures r.Ok? ==> forall e :: e in Entries(data.manifest) && e.value.Cipher? ==> e.anchor == ""
  {
    if !Parses(data) { return Err(Unparsable); }
    var m := data.manifest;
    if !HasIdentity(m) { return Err(Unidentified); }
    var id := EffectiveId(m, namespaceOverride);
    var es := Entries(m);
    var out := es;
    var matched := 0;
    for i := 0 to |es|
      invariant |out| == |es|
      invariant forall j :: i <= j < |es| ==> out[j] == es[j]
      invariant forall j :: 0 <= j < i ==> EntryDecrypts(path, id, key, es[j]) && out[j] == OpenedEntry(es[j])
      invariant matched > 0 <==> exists j :: 0 <= j < i && es[j].value.Cipher?
    {
      match es[i].value {
        case Plain(_) =>
        case Malformed(_) => assert es[i] in es; return Err(BadValue(i));
        case Cipher(blob) =>
          assert es[i] in es;
          if es[i].anchor != "" { return Err(BadValue(i)); }
          var plain := Open(blob, key, ValueAad(path, es[i].name, id));
          if plain.None? { return Err(BadValue(i)); }
          out := out[i := es[i].(value := Plain(plain.value))];
          matched := matched + 1;
      }
    }
    if matched == 0 { return Err(NothingEncrypted); }
    r := Ok(m.(stringData := Some(out)));
  }

  predicate Allowlisted(data: Content, allowed: seq<string>)
    requires data.Doc?
  {
    forall e :: e in Entries(data.manifest) && e.value.Plain? ==> e.name in allowed
  }

  predicate HasCiphertext(data: Content)
    requires data.Doc?
  {
    exists e :: e in Entries(data.manifest) && e.value.Cipher?
  }

  /**
   Lint and decrypt agree on every manifest: the authenticated lint reports nothing iff the manifest
   is identified, every value decrypts without a namespace override and every plain value is
   allowlisted.  A manifest that lints clean is refused by decrypt iff it has nothing to decrypt.
   */
  lemma LintAgreesWithDecrypt(data: Content, path: Path, key: Key, allowed: seq<string>)
    ensures LintsClean(data, path, Some(key), allowed) <==>
      && Parses(data) && HasIdentity(data.manifest) && Allowlisted(data, allowed)
      && forall e :: e in Entries(data.manifest) ==> EntryDecrypts(path, data.manifest.id, key, e)
    ensures LintsClean(data, path, Some(key), allowed) ==> (Decrypts(data, path, key, "") <==> HasCiphertext(data))
    ensures Decrypts(data, path, key, "") ==> (LintsClean(data, path, Some(key), allowed) <==>
      Allowlisted(data, allowed))
  {
    if Parses(data) && HasIdentity(data.manifest) {
      var es := Entries(data.manifest);
      if LintsClean(data, path, Some(key), allowed) {
        forall e | e in es
          ensures EntryDecrypts(path, data.manifest.id, key, e) && (e.value.Plain? ==> e.name in allowed)
        {
          var i :| 0 <= i < |es| && es[i] == e;
          assert Verdict(path, data.manifest.id, Some(key), allowed, es[i]).None?;
        }
      } else {
        var i :| 0 <= i < |es| && Verdict(path, data.manifest.id, Some(key), allowed, es[i]).Some?;
        assert es[i] in es;
      }
    }
  }

  /** The structural lint flags no entry that the authenticated lint accepts, whatever the key. */
  lemma StructuralLintIsWeaker(path: Path, m: Manifest, key: Key, allowed: seq<string>, e: Entry)
    ensures Verdict(path, m.id, None, allowed, e).Some? ==> Verdict(path, m.id, Some(key), allowed, e).Some?
    ensures LintsClean(Doc(m), path, Some(key), allowed) ==> LintsClean(Doc(m), path, None, allowed)
  {
    if LintsClean(Doc(m), path, Some(key), allowed) {
      forall i | 0 <= i < |Entries(m)| ensures Verdict(path, m.id, None, allowed, Entries(m)[i]).None? {
        assert Verdict(path, m.id, Some(key), allowed, Entries(m)[i]).None?;
      }
    }
  }

  /** With plain values only, a manifest lints clean iff each of them is allowlisted, whatever the key. */
  lemma PlainManifestIsCleanIff(path: Path, m: Manifest, key: Option<Key>, allowed: seq<string>)
    requires m.stringData.Some? && HasIdentity(m) && forall e :: e in Entries(m) ==> e.value.Plain?
    ensures LintsClean(Doc(m), path, key, allowed) <==> forall e :: e in Entries(m) ==> e.name in allowed
  {
    var es := Entries(m);
    forall i | 0 <= i < |es|
      ensures Verdict(path, m.id, key, allowed, es[i]).None? <==> es[i].name in allowed
    {
      assert es[i] in es;
    }
    if LintsClean(Doc(m), path, key, allowed) {
      forall e | e in es ensures e.name in allowed {
        var i :| 0 <= i < |es| && es[i] == e;
        assert Verdict(path, m.id, key, allowed, es[i]).None?;
      }
    } else {
      var i :| 0 <= i < |es| && Verdict(path, m.id, key, allowed, es[i]).Some?;
      assert es[i] in es;
    }
  }

  /** A manifest that decrypts for its own namespace is refused for any other. */
  lemma OverrideCannotRetarget(data: Content, path: Path, key: Key, other: string)
    requires Decrypts(data, path, key, "") && other != "" && other != data.manifest.id.namespace
    ensures !Decrypts(data, path, key, other)
  {
    var e :| e in Entries(data.manifest) && e.value.Cipher?;
    assert EntryDecrypts(path, EffectiveId(data.manifest, ""), key, e);
    assert !EntryDecrypts(path, EffectiveId(data.manifest, other), key, e);
  }

  /** A freshly sealed value passes both lints and decrypts in the object it was sealed for. */
  lemma SealedValueIsAccepted(path: Path, id: ObjectId, key: Key, name: string, plaintext: Content,
                              allowed: seq<string>)
    ensures var e := Entry(name, SealValue(path, name, id, key, plaintext), "");
            Verdict(path, id, Some(key), allowed, e).None? && Verdict(path, id, None, allowed, e).None? &&
            EntryDecrypts(path, id, key, e) && OpenedEntry(e).value == Plain(plaintext)
  {}
}
