/** The recipient-roles annotation: "FPR:role,FPR:role", read with the pre-rename key as fallback. */
module RecipientRoles {
  import opened Wrappers
  import opened Sorting
  import Lists
  import Text

  datatype Role = Human | Controller | Recovery | Deprecated

  const GROUP := "keyfold.opscalehub.io"
  const LEGACY_GROUP := "git-secret.opscalehub.io"
  const ROLES_KEY := "keyfold.opscalehub.io/recipient-roles"

  function LegacyAnnotationKey(key: string): string {
    if GROUP + "/" <= key then LEGACY_GROUP + "/" + key[|GROUP| + 1..] else key
  }

  function Annotation(annotations: map<string, string>, key: string): string {
    if key in annotations then annotations[key]
    else if LegacyAnnotationKey(key) in annotations then annotations[LegacyAnnotationKey(key)]
    else ""
  }

  function RoleName(r: Role): string {
    match r
    case Human => "human"
    case Controller => "controller"
    case Recovery => "recovery"
    case Deprecated => "deprecated"
  }

  function RoleOf(name: string): Option<Role> {
    if name == "human" then Some(Human)
    else if name == "controller" then Some(Controller)
    else if name == "recovery" then Some(Recovery)
    else if name == "deprecated" then Some(Deprecated)
    else None
  }

  lemma RoleNames(r: Role)
    ensures RoleOf(RoleName(r)) == Some(r) && RoleName(r) != "" && ',' !in RoleName(r) && Trimmed(RoleName(r))
  {}

  /** No other text is a role. */
  lemma OnlyRoleNames(name: string, r: Role)
    ensures RoleOf(name) == Some(r) <==> name == RoleName(r)
    ensures RoleOf(name).None? <==> name !in {"human", "controller", "recovery", "deprecated"}
  {}

  // ---- trimming ----

  predicate IsSpace(c: char) {
    c == ' ' || '\t' <= c <= '\r' || c == '\U{85}' || c == '\U{A0}'
  }

  predicate Trimmed(s: string) {
    s == "" || (!IsSpace(s[0]) && !IsSpace(s[|s| - 1]))
  }

  function TrimSpace(s: string): (r: string)
    ensures Trimmed(r)
    ensures forall c :: c in r ==> c in s
    ensures Trimmed(s) ==> r == s
  {
    if s == "" then ""
    else if IsSpace(s[0]) then TrimSpace(s[1..])
    else if IsSpace(s[|s| - 1]) then TrimSpace(s[..|s| - 1])
    else s
  }

  // ---- parsing ----

  /** One entry: the text up to the first colon, trimmed and upper-cased, and a known role. */
  function ParsePart(text: string): Option<(string, Role)> {
    var part := TrimSpace(text);
    if ':' !in part then None
    else
      var i := Text.IndexOf(part, ':');
      var fp := Upper(TrimSpace(part[..i]));
      var role := RoleOf(TrimSpace(part[i + 1..]));
      if fp == "" || role.None? then None else Some((fp, role.value))
  }

  function ParseParts(parts: seq<string>): map<string, Role> {
    if parts == [] then map[]
    else
      var m := ParseParts(parts[..|parts| - 1]);
      match ParsePart(parts[|parts| - 1])
      case None => m
      case Some(entry) => m[entry.0 := entry.1]
  }

  /** Nothing but spaces, tabs, line ends and the like. */
  predicate Blank(s: string) {
    forall i :: 0 <= i < |s| ==> s[i] in {' ', '\t', '\n', '\U{b}', '\U{c}', '\r', '\U{85}', '\U{a0}'}
  }

  lemma {:induction false} TrimIsUnpadded(left: string, s: string, right: string)
    requires Blank(left) && Blank(right) && s != "" && Trimmed(s)
    ensures TrimSpace(left + s + right) == s
    decreases |left| + |right|
  {
    var padded := left + s + right;
    if left != "" {
      assert padded[1..] == left[1..] + s + right && IsSpace(padded[0]) && Blank(left[1..]);
      TrimIsUnpadded(left[1..], s, right);
    } else if right != "" {
      var shorter := right[..|right| - 1];
      assert padded[..|padded| - 1] == left + s + shorter && padded[0] == s[0];
      assert IsSpace(padded[|padded| - 1]) && Blank(shorter);
      TrimIsUnpadded(left, s, shorter);
    } else {
      assert padded == s;
    }
  }

  /** Spaces around either part and the case of the fingerprint do not matter; an unknown role drops the entry. */
  lemma SpellingDoesNotMatter(fp: string, name: string, a: string, b: string, c: string, d: string)
    requires fp != "" && Trimmed(fp) && ':' !in fp && name != "" && Trimmed(name)
    requires Blank(a) && Blank(b) && Blank(c) && Blank(d)
    ensures ParsePart(a + fp + b + ":" + c + name + d) ==
      match RoleOf(name)
      case None => None
      case Some(role) => Some((Upper(fp), role))
  {
    var left, right := fp + b, c + name;
    var part := left + ":" + right;
    hide TrimSpace, RoleOf, Upper, ParsePart;
    assert part[0] == fp[0] && part[|part| - 1] == name[|name| - 1];
    TrimIsUnpadded(a, part, d);
    assert a + fp + b + ":" + c + name + d == a + part + d;
    TrimIsUnpadded("", fp, b);
    TrimIsUnpadded(c, name, "");
    assert "" + fp + b == left && c + name + "" == right;
    EntryParses(a + part + d, left, right);
  }

  lemma EntryParses(text: string, left: string, right: string)
    requires TrimSpace(text) == left + ":" + right && ':' !in left && TrimSpace(left) != ""
    ensures ParsePart(text) ==
      match RoleOf(TrimSpace(right))
      case None => None
      case Some(role) => Some((Upper(TrimSpace(left)), role))
  {
    hide TrimSpace, RoleOf;
    CutAtColon(left, right);
  }

  /** Of several entries for one fingerprint the last counts, and the others are independent of it. */
  lemma {:induction false} LastEntryCounts(parts: seq<string>, fp: string, n: nat, role: Role)
    requires n < |parts| && ParsePart(parts[n]) == Some((fp, role))
    requires forall i :: n < i < |parts| ==> ParsePart(parts[i]).None? || ParsePart(parts[i]).value.0 != fp
    ensures fp in ParseParts(parts) && ParseParts(parts)[fp] == role
  {
    hide ParsePart;
    if n < |parts| - 1 { LastEntryCounts(parts[..|parts| - 1], fp, n, role); }
  }

  lemma {:induction false} ParsedIsListed(parts: seq<string>, fp: string)
    requires fp in ParseParts(parts)
    ensures exists i :: 0 <= i < |parts| && ParsePart(parts[i]) == Some((fp, ParseParts(parts)[fp]))
  {
    hide ParsePart;
    var front, last := parts[..|parts| - 1], |parts| - 1;
    if ParsePart(parts[last]).None? || ParsePart(parts[last]).value.0 != fp {
      ParsedIsListed(front, fp);
      var i :| 0 <= i < |front| && ParsePart(front[i]) == Some((fp, ParseParts(front)[fp]));
      assert ParsePart(parts[i]) == Some((fp, ParseParts(parts)[fp]));
    } else {
      assert ParsePart(parts[last]) == Some((fp, ParseParts(parts)[fp]));
    }
  }

  function ParseRaw(raw: string): map<string, Role> {
    if raw == "" then map[] else ParseParts(Text.Split(raw, ','))
  }

  function Roles(annotations: map<string, string>): map<string, Role> {
    ParseRaw(Annotation(annotations, ROLES_KEY))
  }

  /** Roles are read under the current key or, only if there is none, under the one from before the rename. */
  lemma LegacyIsFallback(annotations: map<string, string>)
    ensures var legacy := "git-secret.opscalehub.io/recipient-roles";
            && (ROLES_KEY in annotations ==> Roles(annotations) == ParseRaw(annotations[ROLES_KEY]))
            && (ROLES_KEY !in annotations ==>
                  Roles(annotations) == if legacy in annotations then ParseRaw(annotations[legacy]) else map[])
  {
    assert LegacyAnnotationKey(ROLES_KEY) == "git-secret.opscalehub.io/recipient-roles";
  }

  method ParseRecipientRoles(annotations: map<string, string>) returns (out: map<string, Role>)
    ensures out == Roles(annotations)
    ensures forall fp :: fp in out ==> Clean(fp)
  {
    out := map[];
    var raw := Annotation(annotations, ROLES_KEY);
    if raw == "" { return; }
    var parts := Text.Split(raw, ',');
    for n := 0 to |parts|
      invariant out == ParseParts(parts[..n])
    {
      assert parts[..n + 1][..n] == parts[..n];
      var part := TrimSpace(parts[n]);
      if ':' !in part { continue; }
      var i := Text.IndexOf(part, ':');
      var fp := Upper(TrimSpace(part[..i]));
      var role := RoleOf(TrimSpace(part[i + 1..]));
      if fp == "" || role.None? { continue; }
      out := out[fp := role.value];
    }
    assert parts[..|parts|] == parts;
    ParsedKeysAreClean(parts);
  }

  /** A fingerprint as a parsed annotation yields it. */
  predicate Clean(fp: string) {
    fp != "" && ',' !in fp && ':' !in fp && Trimmed(fp) && Upper(fp) == fp
  }

  lemma UpperIsClean(s: string)
    requires s != "" && ',' !in s && ':' !in s && Trimmed(s)
    ensures Clean(Upper(s))
  {
    assert Upper(Upper(s)) == Upper(s);
  }

  lemma {:induction false} ParsedKeysAreClean(parts: seq<string>)
    requires forall i :: 0 <= i < |parts| ==> ',' !in parts[i]
    ensures forall fp :: fp in ParseParts(parts) ==> Clean(fp)
  {
    if parts != [] {
      ParsedKeysAreClean(parts[..|parts| - 1]);
      var part := TrimSpace(parts[|parts| - 1]);
      if ':' in part {
        var fp := TrimSpace(part[..Text.IndexOf(part, ':')]);
        if fp != "" {
          UpperIsClean(fp);
        }
      }
    }
  }

  // ---- formatting ----

  predicate Listed(roles: map<string, Role>, fp: string) {
    fp in roles && roles[fp] != Human
  }

  function Part(roles: map<string, Role>, fp: string): string
    requires fp in roles
  {
    Upper(fp) + ":" + RoleName(roles[fp])
  }

  function Parts(roles: map<string, Role>, fps: seq<string>): seq<string>
    requires forall fp :: fp in fps ==> fp in roles
  {
    seq(|fps|, i requires 0 <= i < |fps| => Part(roles, fps[i]))
  }

  /** One order in which the map may be iterated. */
  ghost predicate Enumerates(fps: seq<string>, roles: map<string, Role>) {
    Lists.NoDuplicates(fps) && forall fp :: fp in fps <==> Listed(roles, fp)
  }

  function Rendered(roles: map<string, Role>, fps: seq<string>): string
    requires forall fp :: fp in fps ==> fp in roles
  {
    Text.Join(Sort(Parts(roles, fps)), ',')
  }

  lemma {:induction false} SamePartsAnyOrder(roles: map<string, Role>, a: seq<string>, b: seq<string>)
    requires Lists.NoDuplicates(a) && Lists.NoDuplicates(b)
    requires forall fp :: fp in a <==> fp in b
    requires forall fp :: fp in a ==> fp in roles
    ensures multiset(Parts(roles, a)) == multiset(Parts(roles, b))
  {
    hide Lists.NoDuplicates, Part, Parts;
    if a == [] {
      HasHead(b);
    } else {
      assert a[0] in a;
      var j :| 0 <= j < |b| && b[j] == a[0];
      var rest := b[..j] + b[j + 1..];
      WithoutOne(b, j);
      WithoutOne(a, 0);
      assert a[..0] + a[1..] == a[1..];
      PartsWithoutOne(roles, a, 0);
      PartsWithoutOne(roles, b, j);
      SamePartsAnyOrder(roles, a[1..], rest);
    }
  }

  lemma HasHead(b: seq<string>)
    ensures b == [] || exists x :: x in b
  {
    if b != [] {
      assert b[0] in b;
    }
  }

  lemma WithoutOne(b: seq<string>, j: nat)
    requires Lists.NoDuplicates(b) && j < |b|
    ensures var rest := b[..j] + b[j + 1..];
            Lists.NoDuplicates(rest) && forall fp :: fp in rest <==> fp in b && fp != b[j]
  {
    var rest := b[..j] + b[j + 1..];
    forall fp | fp in b && fp != b[j] ensures fp in rest {
      var i :| 0 <= i < |b| && b[i] == fp;
      assert fp == rest[if i < j then i else i - 1];
    }
  }

  lemma PartsWithoutOne(roles: map<string, Role>, b: seq<string>, j: nat)
    requires j < |b| && forall fp :: fp in b ==> fp in roles
    ensures multiset(Parts(roles, b)) == multiset(Parts(roles, b[..j] + b[j + 1..])) + multiset{Part(roles, b[j])}
  {
    var pb := Parts(roles, b);
    assert pb == pb[..j] + [pb[j]] + pb[j + 1..];
    assert Parts(roles, b[..j] + b[j + 1..]) == pb[..j] + pb[j + 1..];
  }

  /** The text does not depend on the order in which the map is iterated: it is the sorted one. */
  lemma FormatIsUnique(roles: map<string, Role>, a: seq<string>, b: seq<string>)
    requires Enumerates(a, roles) && Enumerates(b, roles)
    ensures Rendered(roles, a) == Rendered(roles, b) && Sorted(Sort(Parts(roles, a)))
  {
    SamePartsAnyOrder(roles, a, b);
    SortedIsUnique(Sort(Parts(roles, a)), Sort(Parts(roles, b)));
  }

  /** The map is visited in no particular order; the text is the sorted one. */
  method FormatRecipientRoles(roles: map<string, Role>) returns (r: string)
    ensures exists fps :: Enumerates(fps, roles) && r == Rendered(roles, fps)
    ensures forall fps :: Enumerates(fps, roles) ==> r == Rendered(roles, fps)
  {
    var parts: seq<string> := [];
    ghost var fps: seq<string> := [];
    var todo := roles.Keys;
    while todo != {}
      invariant todo <= roles.Keys && Lists.NoDuplicates(fps)
      invariant forall fp :: fp in fps <==> Listed(roles, fp) && fp !in todo
      invariant parts == Parts(roles, fps)
      decreases |todo|
    {
      var fp :| fp in todo;
      todo := todo - {fp};
      if roles[fp] != Human {
        parts := parts + [Upper(fp) + ":" + RoleName(roles[fp])];
        fps := fps + [fp];
      }
    }
    r := Text.Join(Sort(parts), ',');
    assert Enumerates(fps, roles) && r == Rendered(roles, fps);
    forall other | Enumerates(other, roles) ensures r == Rendered(roles, other) {
      FormatIsUnique(roles, fps, other);
    }
  }

  // ---- the round trip ----

  function NonHuman(roles: map<string, Role>): map<string, Role> {
    map fp | fp in roles && roles[fp] != Human :: roles[fp]
  }

  lemma PartParses(roles: map<string, Role>, fp: string)
    requires fp in roles && Clean(fp)
    ensures ParsePart(Part(roles, fp)) == Some((fp, roles[fp])) && ',' !in Part(roles, fp)
  {
    var name := RoleName(roles[fp]);
    RoleNames(roles[fp]);
    EntryIsTrimmed(fp, name);
    CutAtColon(fp, name);
    hide RoleName, RoleOf, Trimmed, Text.IndexOf;
    assert Part(roles, fp) == fp + ":" + name;
  }

  lemma EntryIsTrimmed(fp: string, name: string)
    requires Clean(fp) && name != "" && Trimmed(name)
    ensures TrimSpace(fp + ":" + name) == fp + ":" + name && TrimSpace(fp) == fp && TrimSpace(name) == name
  {
    var part := fp + ":" + name;
    assert part[0] == fp[0] && part[|part| - 1] == name[|name| - 1];
    assert Trimmed(part);
  }

  lemma CutAtColon(fp: string, name: string)
    requires ':' !in fp
    ensures var part := fp + ":" + name;
            ':' in part &&
            var i := Text.IndexOf(part, ':'); part[..i] == fp && part[i + 1..] == name
  {
    var part := fp + ":" + name;
    assert part[|fp|] == ':';
    var i := Text.IndexOf(part, ':');
    assert part == part[..i] + [':'] + part[i + 1..];
    Text.FirstPartUnique(fp, name, part[..i], part[i + 1..], ':');
  }

  predicate IsPart(roles: map<string, Role>, p: string) {
    exists fp :: fp in roles && p == Part(roles, fp)
  }

  /** Parsing any list of parts of one role map finds exactly the fingerprints in it. */
  lemma {:induction false} PartsParse(roles: map<string, Role>, parts: seq<string>)
    requires forall fp :: fp in roles ==> Clean(fp)
    requires forall p :: p in parts ==> IsPart(roles, p)
    ensures forall fp :: fp in ParseParts(parts) <==> fp in roles && Part(roles, fp) in parts
    ensures forall fp :: fp in ParseParts(parts) ==> ParseParts(parts)[fp] == roles[fp]
  {
    hide Clean, Part, ParsePart;
    if parts != [] {
      var front, last := parts[..|parts| - 1], parts[|parts| - 1];
      assert parts == front + [last];
      PartsParse(roles, front);
      assert last in parts;
      var fp :| fp in roles && last == Part(roles, fp);
      PartParses(roles, fp);
      forall g | g in roles && Part(roles, g) == last ensures g == fp {
        PartParses(roles, g);
      }
    }
  }

  lemma RenderedParts(roles: map<string, Role>, fps: seq<string>)
    requires forall fp :: fp in roles ==> Clean(fp)
    requires Enumerates(fps, roles)
    ensures var parts := Sort(Parts(roles, fps));
            && |parts| == |fps|
            && (forall p :: p in parts ==> IsPart(roles, p) && ',' !in p && p != "")
            && forall fp :: fp in roles ==> (Part(roles, fp) in parts <==> roles[fp] != Human)
  {
    SortKeepsMembers(Parts(roles, fps));
    hide Sort, ParsePart, Clean, Lists.NoDuplicates;
    forall p | p in Parts(roles, fps) ensures IsPart(roles, p) && ',' !in p && p != "" {
      var i :| 0 <= i < |fps| && Parts(roles, fps)[i] == p;
      assert fps[i] in fps;
      PartParses(roles, fps[i]);
    }
    forall fp | fp in roles ensures Part(roles, fp) in Parts(roles, fps) <==> roles[fp] != Human {
      PartListed(roles, fps, fp);
    }
  }

  lemma PartListed(roles: map<string, Role>, fps: seq<string>, fp: string)
    requires forall fp :: fp in roles ==> Clean(fp)
    requires Enumerates(fps, roles) && fp in roles
    ensures Part(roles, fp) in Parts(roles, fps) <==> roles[fp] != Human
  {
    hide ParsePart, Clean, Lists.NoDuplicates, Part;
    PartParses(roles, fp);
    if Part(roles, fp) in Parts(roles, fps) {
      var i :| 0 <= i < |fps| && Parts(roles, fps)[i] == Part(roles, fp);
      assert fps[i] in fps;
      PartParses(roles, fps[i]);
    }
    if roles[fp] != Human {
      assert fp in fps;
      var i :| 0 <= i < |fps| && fps[i] == fp;
      assert Parts(roles, fps)[i] in Parts(roles, fps);
    }
  }

  lemma JoinOfNonEmpty(parts: seq<string>)
    requires parts != [] && parts[0] != ""
    ensures Text.Join(parts, ',') != ""
  {}

  lemma ListedPartsParse(roles: map<string, Role>, parts: seq<string>)
    requires forall fp :: fp in roles ==> Clean(fp)
    requires forall p :: p in parts ==> IsPart(roles, p)
    requires forall fp :: fp in roles ==> (Part(roles, fp) in parts <==> roles[fp] != Human)
    ensures ParseParts(parts) == NonHuman(roles)
  {
    PartsParse(roles, parts);
  }

  /** Formatting then parsing returns exactly the non-human entries. */
  lemma ParseOfFormat(roles: map<string, Role>, fps: seq<string>)
    requires forall fp :: fp in roles ==> Clean(fp)
    requires Enumerates(fps, roles)
    ensures ParseRaw(Rendered(roles, fps)) == NonHuman(roles)
    ensures Rendered(roles, fps) == "" <==> NonHuman(roles) == map[]
  {
    hide Text.Split, Text.Join, ParseParts, Sort, Sorted, Parts, Clean, IsPart;
    var parts := Sort(Parts(roles, fps));
    RenderedParts(roles, fps);
    if fps == [] {
      assert parts == [] && NonHuman(roles) == map[];
      assert Text.Join(parts, ',') == "" by { EmptyJoin(); }
    } else {
      assert forall i :: 0 <= i < |parts| ==> parts[i] in parts;
      Text.SplitOfJoin(parts, ',');
      JoinOfNonEmpty(parts);
      ListedPartsParse(roles, parts);
      assert fps[0] in fps;
      assert fps[0] in NonHuman(roles);
    }
  }

  lemma EmptyJoin()
    ensures Text.Join<char>([], ',') == ""
  {}
}
