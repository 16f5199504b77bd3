/**
 The self-describing envelope: magic, version, cipher name, ciphertext, on bytes; and what the ideal
 cipher makes of it.
 */
module EnvelopeFormat {
  import opened Wrappers
  import Text

  newtype byte = x: int | 0 <= x < 256
  type Bytes = seq<byte>

  const MAGIC: Bytes := [0x52, 0x45, 0x4E, 0x43]  // "RENC"

  datatype Cipher = XChaCha20Poly1305 | AesGcm

  const XCHACHA_NAME: Bytes :=
    [0x78, 0x63, 0x68, 0x61, 0x63, 0x68, 0x61, 0x32, 0x30, 0x70, 0x6F, 0x6C, 0x79, 0x31, 0x33, 0x30, 0x35]
  const AES_NAME: Bytes := [0x61, 0x65, 0x73, 0x32, 0x35, 0x36, 0x67, 0x63, 0x6D]

  function Name(c: Cipher): Bytes {
    match c
    case XChaCha20Poly1305 => XCHACHA_NAME
    case AesGcm => AES_NAME
  }

  function ByName(name: Bytes): Option<Cipher> {
    if name == XCHACHA_NAME then Some(XChaCha20Poly1305)
    else if name == AES_NAME then Some(AesGcm)
    else None
  }

  datatype Parsed = Parsed(cipher: Cipher, header: Bytes, ciphertext: Bytes, version: byte)
  datatype ParseError = TooShort | BadMagic | UnsupportedVersion | Truncated | UnknownCipher

  // ---- printing ----

  function Header(version: byte, c: Cipher): Bytes {
    MAGIC + [version, |Name(c)| as byte] + Name(c)
  }

  function Print(version: byte, c: Cipher, ciphertext: Bytes): Bytes {
    Header(version, c) + ciphertext
  }

  predicate Supported(version: byte) {
    version == 1 || version == 2
  }

  // ---- parsing ----

  predicate IsEnvelope(data: Bytes) {
    MAGIC <= data
  }

  function Parse(data: Bytes): Result<Parsed, ParseError> {
    if |data| < 6 then Err(TooShort)
    else if data[..4] != MAGIC then Err(BadMagic)
    else if !Supported(data[4]) then Err(UnsupportedVersion)
    else
      var end := 6 + data[5] as int;
      if |data| < end then Err(Truncated)
      else
        var c := ByName(data[6..end]);
        if c.None? then Err(UnknownCipher)
        else Ok(Parsed(c.value, data[..end], data[end..], data[4]))
  }

  /** parseEnvelope: an offset walks over magic, version, name length and name. */
  method ParseEnvelope(data: Bytes) returns (r: Result<Parsed, ParseError>)
    ensures r == Parse(data)
    ensures r.Ok? ==> data == Print(r.value.version, r.value.cipher, r.value.ciphertext)
    ensures r == Err(TooShort) <==> |data| < 6
    ensures r == Err(BadMagic) <==> |data| >= 6 && !IsEnvelope(data)
    ensures r == Err(UnsupportedVersion) <==> |data| >= 6 && IsEnvelope(data) && data[4] != 1 && data[4] != 2
    ensures r == Err(Truncated) <==>
      |data| >= 6 && IsEnvelope(data) && (data[4] == 1 || data[4] == 2) && |data| < 6 + data[5] as int
  {
    if |data| < |MAGIC| + 2 { return Err(TooShort); }
    if data[..|MAGIC|] != MAGIC { return Err(BadMagic); }
    var off := |MAGIC|;
    var version := data[off];
    off := off + 1;
    if version != 1 && version != 2 { return Err(UnsupportedVersion); }
    var nameLen := data[off] as int;
    off := off + 1;
    if |data| < off + nameLen { return Err(Truncated); }
    var name := data[off..off + nameLen];
    off := off + nameLen;
    var c := ByName(name);
    if c.None? { return Err(UnknownCipher); }
    r := Ok(Parsed(c.value, data[..off], data[off..], version));
    ParsedIsPrinted(data);
  }

  // ---- the two undo each other ----

  lemma PrintedParses(version: byte, c: Cipher, ciphertext: Bytes)
    requires Supported(version)
    ensures Parse(Print(version, c, ciphertext)) == Ok(Parsed(c, Header(version, c), ciphertext, version))
    ensures IsEnvelope(Print(version, c, ciphertext))
  {
    var data := Print(version, c, ciphertext);
    var end := 6 + |Name(c)|;
    assert data[..4] == MAGIC;
    assert data[6..end] == Name(c);
    assert data[..end] == Header(version, c) && data[end..] == ciphertext;
  }

  lemma ParsedIsPrinted(data: Bytes)
    requires Parse(data).Ok?
    ensures var p := Parse(data).value;
            Supported(p.version) && p.header == Header(p.version, p.cipher) &&
            data == Print(p.version, p.cipher, p.ciphertext)
  {
    var p := Parse(data).value;
    var end := 6 + data[5] as int;
    assert data[6..end] == Name(p.cipher);
    assert data[..end] == data[..4] + [data[4], data[5]] + data[6..end];
  }

  /** The parser accepts exactly what the printer prints. */
  lemma AcceptedIffPrinted(data: Bytes)
    ensures Parse(data).Ok? <==> exists v, c, ct :: Supported(v) && data == Print(v, c, ct)
  {
    if Parse(data).Ok? {
      ParsedIsPrinted(data);
    }
    if v, c, ct :| Supported(v) && data == Print(v, c, ct) {
      PrintedParses(v, c, ct);
    }
  }

  // ---- ideal authenticated encryption ----

  /** One call to seal: what its ciphertext authenticates. */
  datatype Request = Request(version: byte, cipher: Cipher, key: Bytes, aad: Bytes, plaintext: Bytes)

  /** Every ciphertext ever produced, with the call that produced it. */
  type Ledger = map<Bytes, Request>

  /** The associated data handed to the cipher: version 2 folds the header in. */
  function AeadAad(version: byte, c: Cipher, aad: Bytes): Bytes {
    if version < 2 then aad else Header(version, c) + aad
  }

  function Decrypt(ledger: Ledger, c: Cipher, ciphertext: Bytes, key: Bytes, aeadAad: Bytes): Option<Bytes> {
    if ciphertext !in ledger then None
    else
      var q := ledger[ciphertext];
      if q.cipher == c && q.key == key && AeadAad(q.version, q.cipher, q.aad) == aeadAad then Some(q.plaintext)
      else None
  }

  function Seal(ledger: Ledger, q: Request, ciphertext: Bytes): (r: (Bytes, Ledger)) {
    (Print(q.version, q.cipher, ciphertext), ledger[ciphertext := q])
  }

  function Open(ledger: Ledger, data: Bytes, key: Bytes, aad: Bytes): Option<Bytes> {
    var p := Parse(data);
    if p.Err? then None
    else Decrypt(ledger, p.value.cipher, p.value.ciphertext, key, AeadAad(p.value.version, p.value.cipher, aad))
  }

  lemma SealedOpens(ledger: Ledger, q: Request, ciphertext: Bytes)
    requires Supported(q.version)
    ensures var (data, ledger') := Seal(ledger, q, ciphertext);
            Open(ledger', data, q.key, q.aad) == Some(q.plaintext)
  {
    PrintedParses(q.version, q.cipher, ciphertext);
  }

  /** A version 1 caller's data could be mistaken for version 2's only if it starts with a version 2 header. */
  predicate LooksLikeV2(version: byte, aad: Bytes) {
    version == 1 && exists c :: Header(2, c) <= aad
  }

  /**
   An envelope opens exactly when its ciphertext was sealed with the cipher it names, under that key,
   in that version and for that associated data -- provided no version 1 associated data begins with
   a version 2 header.
   */
  lemma OpensExactlyAsSealed(ledger: Ledger, data: Bytes, key: Bytes, aad: Bytes)
    requires forall ct :: ct in ledger ==> Supported(ledger[ct].version)
    requires Parse(data).Ok? && !LooksLikeV2(Parse(data).value.version, aad)
    requires Parse(data).value.ciphertext in ledger
    requires var q := ledger[Parse(data).value.ciphertext]; !LooksLikeV2(q.version, q.aad)
    ensures var p, q := Parse(data).value, ledger[Parse(data).value.ciphertext];
            Open(ledger, data, key, aad) ==
              if q.cipher == p.cipher && q.key == key && q.version == p.version && q.aad == aad
              then Some(q.plaintext) else None
  {
    ParsedIsPrinted(data);
    var p, q := Parse(data).value, ledger[Parse(data).value.ciphertext];
    var sealedAad, givenAad := AeadAad(q.version, q.cipher, q.aad), AeadAad(p.version, p.cipher, aad);
    assert q.version == 2 ==> Header(2, q.cipher) <= sealedAad && q.aad == sealedAad[|Header(2, q.cipher)|..];
    assert p.version == 2 ==> Header(2, p.cipher) <= givenAad && aad == givenAad[|Header(2, p.cipher)|..];
  }

  /** Without that proviso the versions can be confused: a relabelled version 2 blob opens as version 1. */
  lemma RelabelledBlobOpens(ledger: Ledger, q: Request, ciphertext: Bytes)
    requires q.version == 2
    ensures var (_, ledger') := Seal(ledger, q, ciphertext);
            Open(ledger', Print(1, q.cipher, ciphertext), q.key, Header(2, q.cipher) + q.aad) == Some(q.plaintext)
  {
    PrintedParses(1, q.cipher, ciphertext);
  }

  // ---- what the callers bind ----

  const UNIT_SEPARATOR: byte := 0x1F
  const SLASH: byte := 0x2F

  /** Repository id, unit separator, path. */
  function FileBindAad(repoId: Bytes, path: Bytes): Bytes {
    repoId + [UNIT_SEPARATOR] + path
  }

  /** openFile: the associated data follows the version recorded in the blob. */
  function OpenFile(ledger: Ledger, repoId: Bytes, path: Bytes, key: Bytes, data: Bytes): Option<Bytes> {
    if |data| < 5 || data[..4] != MAGIC then None
    else if data[4] < 2 then Open(ledger, data, key, path)
    else if repoId == [] then None
    else Open(ledger, data, key, FileBindAad(repoId, path))
  }

  function FileRequest(repoId: Bytes, path: Bytes, key: Bytes, plaintext: Bytes): Request {
    if repoId != [] then Request(2, XChaCha20Poly1305, key, FileBindAad(repoId, path), plaintext)
    else Request(1, XChaCha20Poly1305, key, path, plaintext)
  }

  /**
   A sealed file opens, anywhere, exactly under its key, at its path and -- when it was sealed with a
   repository id -- in its repository; a blob sealed without one opens at its path in any repository.
   */
  lemma FileOpensOnlyAtHome(ledger: Ledger, ciphertext: Bytes, repoId: Bytes, path: Bytes, key: Bytes,
                            plaintext: Bytes, repoId': Bytes, path': Bytes, key': Bytes)
    requires UNIT_SEPARATOR !in repoId && UNIT_SEPARATOR !in repoId'
    requires !LooksLikeV2(1, path) && !LooksLikeV2(1, path')
    ensures var q := FileRequest(repoId, path, key, plaintext);
            var (data, ledger') := Seal(ledger, q, ciphertext);
            OpenFile(ledger', repoId', path', key', data) ==
              if key' == key && path' == path && (repoId != [] ==> repoId' == repoId)
              then Some(plaintext) else None
  {
    var q := FileRequest(repoId, path, key, plaintext);
    var (data, ledger') := Seal(ledger, q, ciphertext);
    PrintedParses(q.version, q.cipher, ciphertext);
    assert data[..4] == MAGIC && data[4] == q.version;
    if repoId != [] && repoId' != [] && FileBindAad(repoId, path) == FileBindAad(repoId', path') {
      Text.FirstPartUnique(repoId, path, repoId', path', UNIT_SEPARATOR);
    }
    if q.version == 2 {
      var a, b := AeadAad(2, q.cipher, q.aad), AeadAad(2, q.cipher, FileBindAad(repoId', path'));
      assert q.aad == a[|Header(2, q.cipher)|..] && FileBindAad(repoId', path') == b[|Header(2, q.cipher)|..];
    }
  }

  /** path, field, apiVersion, kind, name, namespace, each free of NUL, joined by NUL. */
  function K8sAad(parts: seq<Bytes>): Bytes {
    Text.Join(parts, 0)
  }

  lemma K8sAadBindsEveryPart(xs: seq<Bytes>, ys: seq<Bytes>)
    requires |xs| == |ys| == 6 && forall i :: 0 <= i < 5 ==> 0 !in xs[i] && 0 !in ys[i]
    ensures K8sAad(xs) == K8sAad(ys) <==> xs == ys
  {
    if K8sAad(xs) == K8sAad(ys) {
      Text.JoinInjective(xs, ys, 0);
    }
  }

  /** namespace/name/key. */
  function ObjectAad(namespace: Bytes, name: Bytes, key: Bytes): Bytes {
    Text.Join([namespace, name, key], SLASH)
  }

  lemma ObjectAadBindsEveryPart(ns: Bytes, name: Bytes, key: Bytes, ns': Bytes, name': Bytes, key': Bytes)
    requires SLASH !in ns && SLASH !in name && SLASH !in ns' && SLASH !in name'
    ensures ObjectAad(ns, name, key) == ObjectAad(ns', name', key') <==> ns == ns' && name == name' && key == key'
  {
    if ObjectAad(ns, name, key) == ObjectAad(ns', name', key') {
      Text.JoinInjective([ns, name, key], [ns', name', key'], SLASH);
      assert [ns, name, key][0] == ns && [ns, name, key][1] == name && [ns, name, key][2] == key;
    }
  }

  // ---- sizes ----

  const NONCE_SIZE := 24
  const TAG_SIZE := 16

  /** The length of a version 1 XChaCha20-Poly1305 envelope over n plaintext bytes. */
  function EnvelopeLength(n: nat): nat {
    |Header(1, XChaCha20Poly1305)| + NONCE_SIZE + n + TAG_SIZE
  }

  /** Padded base64: four characters for every three bytes begun. */
  function Base64Length(n: nat): nat {
    (n + 2) / 3 * 4
  }

  /** Exactly the values of at most 786369 bytes stay within 1 MiB once sealed and encoded. */
  lemma LargestValue(n: nat)
    ensures Base64Length(EnvelopeLength(n)) <= 0x100000 <==> n <= 786369
  {
    assert |Header(1, XChaCha20Poly1305)| == 23;
  }
}
