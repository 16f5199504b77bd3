/**
 What a repository file holds, with ideal authenticated encryption: an envelope records the key,
 the associated data and the payload it was sealed with, and opens for exactly that key and that
 associated data.  Module EnvelopeFormat justifies this view on bytes.
 */
module Content {
  import opened Wrappers
  import EnvelopeFormat

  type Path = string
  type Key = nat
  type Identity = string

  /** The object identity a per-value ciphertext is bound to. */
  datatype ObjectId = ObjectId(apiVersion: string, kind: string, name: string, namespace: string)

  datatype Aad =
    | PathAad(path: Path)
    | BoundAad(repo: string, path: Path)
    | ValueAad(path: Path, field: string, id: ObjectId)

  datatype Version = V1 | V2

  /** A file: other bytes, a parsed single-document manifest, or an envelope. */
  datatype Content =
    | Raw(bytes: EnvelopeFormat.Bytes)
    | Doc(manifest: Manifest)
    | Envelope(version: Version, key: Key, aad: Aad, payload: Content)

  /** A manifest: its identity, its stringData list (absent when None) and everything else. */
  datatype Manifest = Manifest(id: ObjectId, stringData: Option<seq<Entry>>, rest: string)

  datatype Entry = Entry(name: string, value: Scalar, anchor: string)

  /** A stringData scalar: no ciphertext prefix, the prefix without valid base64, or a ciphertext. */
  datatype Scalar = Plain(content: Content) | Malformed(text: string) | Cipher(blob: Content)

  /** The magic-prefix check: true of every envelope, and of any other bytes that start like one. */
  predicate IsEnvelope(c: Content) {
    match c
    case Raw(bytes) => EnvelopeFormat.IsEnvelope(bytes)
    case Doc(_) => false
    case Envelope(_, _, _, _) => true
  }

  /** The structural check: a supported version and a known cipher, nothing about authenticity. */
  predicate ParsesAsEnvelope(c: Content) {
    match c
    case Raw(bytes) => EnvelopeFormat.Parse(bytes).Ok?
    case Doc(_) => false
    case Envelope(_, _, _, _) => true
  }

  function Open(c: Content, key: Key, aad: Aad): Option<Content> {
    if c.Envelope? && c.key == key && c.aad == aad then Some(c.payload) else None
  }

  /** Whole files are bound to repository and path when the repository has an id, else to the path. */
  function SealFile(repoId: string, path: Path, key: Key, plaintext: Content): Content {
    if repoId != "" then Envelope(V2, key, BoundAad(repoId, path), plaintext)
    else Envelope(V1, key, PathAad(path), plaintext)
  }

  function OpenFile(repoId: string, path: Path, key: Key, c: Content): Option<Content> {
    if !c.Envelope? then None
    else if c.version == V1 then Open(c, key, PathAad(path))
    else if repoId == "" then None
    else Open(c, key, BoundAad(repoId, path))
  }

  /** A sealed file opens exactly with its key, at its path and, if it was sealed with an id, in its repository. */
  lemma SealedFileOpensAtHome(repoId: string, path: Path, key: Key, c: Content, repoId': string, path': Path, key': Key)
    ensures OpenFile(repoId', path', key', SealFile(repoId, path, key, c)) ==
      if key' == key && path' == path && (repoId != "" ==> repoId' == repoId) then Some(c) else None
  {}

  /** What opens was sealed for the path with this key, in this repository or before it had an id. */
  lemma OpenedWasSealedHere(repoId: string, path: Path, key: Key, c: Content, plaintext: Content)
    ensures OpenFile(repoId, path, key, c) == Some(plaintext) <==>
            c == SealFile(repoId, path, key, plaintext) || c == SealFile("", path, key, plaintext)
  {}

  function SealValue(path: Path, field: string, id: ObjectId, key: Key, plaintext: Content): Scalar {
    Cipher(Envelope(V1, key, ValueAad(path, field, id), plaintext))
  }

  /** A sealed value opens exactly with its key, in its file, under its name and in its object. */
  lemma SealedValueOpensAtHome(path: Path, field: string, id: ObjectId, key: Key, c: Content,
                               path': Path, field': string, id': ObjectId, key': Key)
    ensures Open(SealValue(path, field, id, key, c).blob, key', ValueAad(path', field', id')) ==
      if key' == key && path' == path && field' == field && id' == id then Some(c) else None
  {}

  /** A value binding needs apiVersion, kind and name; the namespace may be empty. */
  predicate HasIdentity(m: Manifest) {
    m.id.apiVersion != "" && m.id.kind != "" && m.id.name != ""
  }

  function Entries(m: Manifest): seq<Entry> {
    if m.stringData.Some? then m.stringData.value else []
  }

  // ---- what a file means, whatever key it happens to be sealed under ----

  function Clear(c: Content): Content {
    if c.Envelope? then c.payload else c
  }

  function ClearEntry(e: Entry): Entry {
    if e.value.Cipher? then e.(value := Cipher(Clear(e.value.blob))) else e
  }

  function ClearManifest(m: Manifest): Manifest {
    var es := Entries(m);
    if m.stringData.None? then m
    else m.(stringData := Some(seq(|es|, i requires 0 <= i < |es| => ClearEntry(es[i]))))
  }

  // ---- moving a manifest to another key ----

  function ResealEntry(path: Path, id: ObjectId, key: Key, e: Entry): Entry {
    if e.value.Cipher? then e.(value := SealValue(path, e.name, id, key, Clear(e.value.blob))) else e
  }

  function Reseal(path: Path, m: Manifest, key: Key): Manifest {
    var es := Entries(m);
    if m.stringData.None? then m
    else m.(stringData := Some(seq(|es|, i requires 0 <= i < |es| => ResealEntry(path, m.id, key, es[i]))))
  }

  /** A resealed manifest means the same and needs the new key only; its plain values are untouched. */
  lemma ResealKeepsMeaning(path: Path, m: Manifest, key: Key)
    ensures ClearManifest(Reseal(path, m, key)) == ClearManifest(m)
    ensures ManifestReadable(path, Doc(Reseal(path, m, key)), {key})
    ensures Reseal(path, m, key).stringData.Some? <==> m.stringData.Some?
    ensures Reseal(path, m, key).id == m.id && Reseal(path, m, key).rest == m.rest
    ensures |Entries(Reseal(path, m, key))| == |Entries(m)|
    ensures forall i :: 0 <= i < |Entries(m)| && !Entries(m)[i].value.Cipher? ==>
              Entries(Reseal(path, m, key))[i] == Entries(m)[i]
  {
    var r := Reseal(path, m, key);
    if m.stringData.Some? {
      var es, rs := Entries(m), Entries(r);
      forall i | 0 <= i < |es| ensures ClearEntry(rs[i]) == ClearEntry(es[i]) {}
      assert ClearManifest(r).stringData.value == ClearManifest(m).stringData.value;
    }
  }

  // ---- which keys a file needs ----

  /** A managed whole file is readable with keys: not an envelope, or one that opens for its path. */
  predicate FileReadable(repoId: string, path: Path, c: Content, keys: set<Key>) {
    c.Envelope? ==>
      && c.key in keys
      && OpenFile(repoId, path, c.key, c).Some?
      && !IsEnvelope(c.payload)
  }

  predicate ValueReadable(path: Path, id: ObjectId, e: Entry, keys: set<Key>) {
    e.value.Cipher? ==>
      && e.value.blob.Envelope?
      && e.value.blob.key in keys
      && e.value.blob.aad == ValueAad(path, e.name, id)
  }

  predicate ManifestReadable(path: Path, c: Content, keys: set<Key>) {
    c.Doc? ==>
      forall i :: 0 <= i < |Entries(c.manifest)| ==>
        ValueReadable(path, c.manifest.id, Entries(c.manifest)[i], keys)
  }
}
