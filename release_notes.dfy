/** infra/gha/release-notes.js: the draft that keeps a tag's pieces as
    texts, and the regular expression a tag name must match before it is
    parsed. */
module ReleaseNotes {
  import opened Wrappers
  import opened Text
  import opened VersionText
  import opened RefName

  /** The texts of `TAG_TYPE`. */
  function TagTypeName(k: TagKind): string {
    match k
    case MajorKind => "major"
    case MinorKind => "minor"
    case PatchKind => "patch"
    case PreReleaseKind => "pre-release"
  }

  /** The `semver` record: every piece a string, `preRelease` absent when
      the patch text has no `-`. */
  datatype StringSemver = StringSemver(
    semver: string,
    tagType: string,
    major: string,
    minor: string,
    patch: string,
    preRelease: Option<string>)

  datatype ParsedRefName = ParsedRefName(namespace: string, version: string, semver: StringSemver)

  /** `parseRefName`: the destructured pieces kept as texts, typed by the
      if/else chain; the TypeError of splitting a missing piece (not
      caught here) is `Err`. The type is exactly one of the four names:
      "pre-release" for a non-empty pre-release, else "major" for minor and
      patch "0", "minor" for patch "0", "patch" otherwise. */
  function ParseRefName(refName: string): (r: Result<ParsedRefName, string>)
    ensures r.Err? <==> SplitRef(refName).None?
    ensures r.Err? ==> r.error == SplitOfUndefined
    ensures r.Ok? ==> var p := SplitRef(refName).value;
      && r.value.namespace == p.namespace && r.value.version == p.version
      && r.value.semver == StringSemver(p.semver, r.value.semver.tagType, p.major, p.minor, p.patch, p.preRelease)
    ensures r.Ok? ==> var s := r.value.semver;
      && (s.tagType == "pre-release" <==> Truthy(s.preRelease))
      && (s.tagType == "major" <==> !Truthy(s.preRelease) && s.minor == "0" && s.patch == "0")
      && (s.tagType == "minor" <==> !Truthy(s.preRelease) && s.minor != "0" && s.patch == "0")
      && (s.tagType == "patch" <==> !Truthy(s.preRelease) && s.patch != "0")
  {
    match SplitRef(refName)
    case None => Err(SplitOfUndefined)
    case Some(p) =>
      var kind := Classify(p.minor, p.patch, p.preRelease);
      Ok(ParsedRefName(p.namespace, p.version,
        StringSemver(p.semver, TagTypeName(kind), p.major, p.minor, p.patch, p.preRelease)))
  }

  /** A tag name of the form `namespace/vM.m.p[-N]` parses to its
      namespace, its version with the `v`, the semver after the `v`, and the
      groups' texts unchanged. */
  lemma ParseRefNameRender(namespace: string, g: Groups)
    requires '/' !in namespace && WellFormed(g)
    ensures ParseRefName(RefNameOf(namespace, g)) == Ok(ParsedRefName(namespace, "v" + Render(g),
      StringSemver(Render(g), TagTypeName(Classify(g.minor, g.patch, g.preRelease)),
                   g.major, g.minor, g.patch, g.preRelease)))
  {
    SplitRefRender(namespace, g);
  }

  // ---------------------------------------------------------------------
  // checkIfTagIsSemver
  // ---------------------------------------------------------------------

  /** The message of the ReferenceError `checkIfTagIsSemver` throws. */
  const TagIsNotDefined := "tag is not defined"

  /** `checkIfTagIsSemver` as written: it tests a variable `tag` that is not
      in its scope (the caller's `tag` is declared later, in another
      function), so every call throws and `refName` is never looked at. */
  function CheckIfTagIsSemverAsWritten(refName: string): (r: Result<bool, string>)
    ensures r.Err?
  {
    Err(TagIsNotDefined)
  }

  /** `[a-zA-Z0-9-_]`. */
  predicate IsNamespaceChar(c: char) {
    'a' <= c <= 'z' || 'A' <= c <= 'Z' || '0' <= c <= '9' || c == '-' || c == '_'
  }

  /** `[a-zA-Z0-9-_]+`. */
  predicate IsNamespace(s: string) {
    |s| > 0 && forall i :: 0 <= i < |s| ==> IsNamespaceChar(s[i])
  }

  lemma NamespaceHasNoSlash(s: string)
    requires IsNamespace(s)
    ensures '/' !in s
  {
    forall c | c in s ensures c != '/' {
      var i :| 0 <= i < |s| && s[i] == c;
      assert IsNamespaceChar(s[i]);
    }
  }

  /** `^([a-zA-Z0-9-_]+)\/v(\d+)\.(\d+)\.(\d+)(?:-([0-9]+))?$` on `refName`:
      the namespace group and the version groups of a match, which render
      back to exactly `refName`. */
  function MatchSemverTag(refName: string): (r: Option<(string, Groups)>)
    ensures r.Some? ==> IsNamespace(r.value.0) && WellFormed(r.value.1)
    ensures r.Some? ==> RefNameOf(r.value.0, r.value.1) == refName
  {
    match IndexOf(refName, '/')
    case None => None
    case Some(i) =>
      var namespace := refName[..i];
      var rest := refName[i + 1..];
      if !IsNamespace(namespace) || rest == [] || rest[0] != 'v' then None
      else
        match Match(rest[1..])
        case None => None
        case Some(g) =>
          RejoinRefName(refName, i, g);
          Some((namespace, g))
  }

  /** A name with `/v` at `i` and a rendering after it is that rendering's
      tag name. */
  lemma RejoinRefName(refName: string, i: nat, g: Groups)
    requires i + 1 < |refName| && refName[i] == '/' && refName[i + 1] == 'v'
    requires refName[i + 1..][1..] == Render(g)
    ensures RefNameOf(refName[..i], g) == refName
  {
    assert refName[i + 1..][1..] == refName[i + 2..];
    assert refName == refName[..i] + "/v" + refName[i + 2..];
  }

  /** Every text of the regular expression's language is matched, with its
      own groups: with `MatchSemverTag`'s contract, a name is matched
      exactly when it is `namespace/vM.m.p[-N]` for such groups. */
  lemma MatchSemverTagRender(namespace: string, g: Groups)
    requires IsNamespace(namespace) && WellFormed(g)
    ensures MatchSemverTag(RefNameOf(namespace, g)) == Some((namespace, g))
  {
    var rest := "v" + Render(g);
    NamespaceHasNoSlash(namespace);
    assert RefNameOf(namespace, g) == namespace + ['/'] + rest;
    IndexOfAfter(namespace, rest, '/');
    assert (namespace + ['/'] + rest)[..|namespace|] == namespace;
    assert (namespace + ['/'] + rest)[|namespace| + 1..] == rest;
    assert rest[1..] == Render(g);
    MatchRender(g);
  }

  /** `checkIfTagIsSemver` as evidently intended: the regular expression
      tested on `refName`. */
  predicate CheckIfTagIsSemver(refName: string) {
    MatchSemverTag(refName).Some?
  }

  /** The as-written check fails on the very tag name the caller hard-codes,
      which the intended check accepts. */
  lemma CheckIfTagIsSemverThrows()
    ensures CheckIfTagIsSemverAsWritten("namespace/v1.2.3") == Err(TagIsNotDefined)
    ensures CheckIfTagIsSemver("namespace/v1.2.3")
  {
    var g := Groups("1", "2", "3", None);
    assert IsNamespace("namespace") by {
      assert forall i :: 0 <= i < |"namespace"| ==> IsNamespaceChar("namespace"[i]);
    }
    assert WellFormed(g) by {
      assert IsDigit("1"[0]) && IsDigit("2"[0]) && IsDigit("3"[0]);
    }
    assert Render(g) == "1.2.3";
    assert RefNameOf("namespace", g) == "namespace/v1.2.3";
    MatchSemverTagRender("namespace", g);
  }

  /** A name that passes the intended check parses without error, and the
      parse agrees with the regular expression's groups. */
  lemma CheckedTagParses(refName: string)
    requires CheckIfTagIsSemver(refName)
    ensures ParseRefName(refName).Ok?
    ensures var (namespace, g) := MatchSemverTag(refName).value;
      var s := ParseRefName(refName).value.semver;
      && ParseRefName(refName).value.namespace == namespace
      && s.major == g.major && s.minor == g.minor && s.patch == g.patch && s.preRelease == g.preRelease
  {
    var (namespace, g) := MatchSemverTag(refName).value;
    NamespaceHasNoSlash(namespace);
    ParseRefNameRender(namespace, g);
  }
}
