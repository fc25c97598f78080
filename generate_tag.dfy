/** infra/gha/generate-tag.js: derives the next tag `<namespace>/vM.m.p[-N]`
    of one monorepo namespace from the repository's tag names and a bump
    type (major, minor, patch or rc), together with the current version,
    the previous tag to diff against and the hotfixes of the superseded
    minor line. */
module GenerateTag {
  import opened Wrappers
  import opened Text
  import opened VersionText
  import opened Lists

  // ---------------------------------------------------------------------
  // Bump type validation (validateBumpType)
  // ---------------------------------------------------------------------

  datatype BumpType = Major | Minor | Patch | Rc

  function BumpTypeName(b: BumpType): string {
    match b
    case Major => "major"
    case Minor => "minor"
    case Patch => "patch"
    case Rc => "rc"
  }

  const ValidBumpTypes: seq<string> := ["major", "minor", "patch", "rc"]

  function ValidOptions(): string {
    "Valid options: " + Join(ValidBumpTypes, ", ")
  }

  function RequiredMessage(): string {
    "Bump type is required. " + ValidOptions()
  }

  function InvalidMessage(bumpType: string): string {
    "Invalid bump type: " + bumpType + ". " + ValidOptions()
  }

  /** `validateBumpType`: a missing (`null`, `undefined`) or empty bump type
      is required, anything outside the four names is invalid; otherwise
      the bump type whose name it is. */
  function ValidateBumpType(bumpType: Option<string>): (r: Result<BumpType, string>)
    ensures r.Ok? <==> bumpType.Some? && bumpType.value in ValidBumpTypes
    ensures r.Ok? ==> BumpTypeName(r.value) == bumpType.value
    ensures bumpType.None? || bumpType == Some("") ==> r == Err(RequiredMessage())
    ensures bumpType.Some? && bumpType.value != "" && bumpType.value !in ValidBumpTypes ==>
              r == Err(InvalidMessage(bumpType.value))
  {
    if bumpType.None? || bumpType.value == "" then Err(RequiredMessage())
    else if bumpType.value == "major" then Ok(Major)
    else if bumpType.value == "minor" then Ok(Minor)
    else if bumpType.value == "patch" then Ok(Patch)
    else if bumpType.value == "rc" then Ok(Rc)
    else Err(InvalidMessage(bumpType.value))
  }

  // ---------------------------------------------------------------------
  // Versions: parseVersion, formatNewTag, compareVersions
  // ---------------------------------------------------------------------

  /** A parsed version; `preRelease == None` is a stable release. */
  datatype Version = Version(major: nat, minor: nat, patch: nat, preRelease: Option<nat>)

  /** The version a namespace without tags is taken to be at. */
  const InitialVersion := Version(0, 0, 0, None)

  /** A tag of the namespace as `filterAndParseNamespaceTags` keeps it: the
      full tag name, the version text after the namespace (without `v`)
      and the parsed version. */
  datatype NamespaceTag = NamespaceTag(name: string, version: string, semver: Version)

  function OptionalValue(p: Option<string>): Option<nat>
    requires p.Some? ==> IsDigits(p.value)
  {
    match p
    case None => None
    case Some(digits) => Some(DigitsValue(digits))
  }

  /** `parseVersion`: succeeds exactly on `\d+\.\d+\.\d+(-\d+)?` and reads
      each group as a number. */
  function ParseVersion(versionString: string): (r: Option<Version>)
    ensures r.Some? <==> Match(versionString).Some?
    ensures r.Some? ==> var g := Match(versionString).value;
      && r.value.major == DigitsValue(g.major)
      && r.value.minor == DigitsValue(g.minor)
      && r.value.patch == DigitsValue(g.patch)
      && (g.preRelease.None? ==> r.value.preRelease.None?)
      && (g.preRelease.Some? ==> r.value.preRelease == Some(DigitsValue(g.preRelease.value)))
  {
    match Match(versionString)
    case None => None
    case Some(g) =>
      Some(Version(DigitsValue(g.major), DigitsValue(g.minor), DigitsValue(g.patch), OptionalValue(g.preRelease)))
  }

  function VersionGroups(v: Version): Groups {
    Groups(NatToString(v.major), NatToString(v.minor), NatToString(v.patch),
           match v.preRelease case None => None case Some(n) => Some(NatToString(n)))
  }

  datatype NewTag = NewTag(newTag: string, versionString: string)

  /** `formatNewTag`: the version text `M.m.p[-N]` reads back as the same
      version, and the tag is the namespace, `/v`, and that text. */
  function FormatNewTag(namespace: string, next: Version): (r: NewTag)
    ensures r.newTag == namespace + "/v" + r.versionString
    ensures ParseVersion(r.versionString) == Some(next)
    ensures Match(r.versionString) == Some(VersionGroups(next))
    ensures r.versionString != [] && IsDigit(r.versionString[0])
  {
    var g := VersionGroups(next);
    ParseRenderedVersion(next);
    RenderStartsWithMajor(g);
    NewTag(namespace + "/v" + Render(g), Render(g))
  }

  /** The groups of a version are digit runs that match and parse back to
      the version. */
  lemma ParseRenderedVersion(v: Version)
    ensures WellFormed(VersionGroups(v))
    ensures Match(Render(VersionGroups(v))) == Some(VersionGroups(v))
    ensures ParseVersion(Render(VersionGroups(v))) == Some(v)
  {
    var g := VersionGroups(v);
    assert WellFormed(g);
    MatchRender(g);
  }

  /** Rendering a parsed version gives the text back whenever that text has
      no superfluous leading zeros. */
  lemma ParseFormatRoundTrip(namespace: string, versionString: string)
    requires ParseVersion(versionString).Some?
    requires var g := Match(versionString).value;
      IsCanonical(g.major) && IsCanonical(g.minor) && IsCanonical(g.patch)
      && (g.preRelease.Some? ==> IsCanonical(g.preRelease.value))
    ensures FormatNewTag(namespace, ParseVersion(versionString).value).versionString == versionString
  {
    var g := Match(versionString).value;
    var v := ParseVersion(versionString).value;
    CanonicalRoundTrip(g.major);
    CanonicalRoundTrip(g.minor);
    CanonicalRoundTrip(g.patch);
    if g.preRelease.Some? {
      CanonicalRoundTrip(g.preRelease.value);
    }
    assert VersionGroups(v) == g;
  }

  /** Semantic-versioning precedence, stated independently of
      `compareVersions`: the numeric triple lexicographically; at an equal
      triple a pre-release comes before the release, and pre-releases
      come in the order of their numbers. */
  ghost predicate Precedes(a: Version, b: Version) {
    || a.major < b.major
    || (a.major == b.major && a.minor < b.minor)
    || (a.major == b.major && a.minor == b.minor && a.patch < b.patch)
    || (a.major == b.major && a.minor == b.minor && a.patch == b.patch
        && match (a.preRelease, b.preRelease)
           case (Some(m), Some(n)) => m < n
           case (Some(_), None) => true
           case (None, _) => false)
  }

  /** `compareVersions`: negative, zero or positive as `a` precedes, equals
      or follows `b`; so two stable versions with one triple compare equal
      and a release follows each of its pre-releases. */
  function CompareVersions(a: Version, b: Version): (r: int)
    ensures r == 0 <==> a == b
    ensures r < 0 <==> Precedes(a, b)
    ensures r > 0 <==> Precedes(b, a)
  {
    if a.major != b.major then a.major - b.major
    else if a.minor != b.minor then a.minor - b.minor
    else if a.patch != b.patch then a.patch - b.patch
    else if a.preRelease.None? && b.preRelease.None? then 0
    else if a.preRelease.None? then 1
    else if b.preRelease.None? then -1
    else a.preRelease.value - b.preRelease.value
  }

  /** The comparator swaps sign with its arguments. */
  lemma CompareVersionsAntisymmetric(a: Version, b: Version)
    ensures CompareVersions(a, b) < 0 <==> CompareVersions(b, a) > 0
    ensures CompareVersions(a, b) == 0 <==> CompareVersions(b, a) == 0
  {
  }

  lemma CompareVersionsTransitive(a: Version, b: Version, c: Version)
    requires CompareVersions(a, b) <= 0 && CompareVersions(b, c) <= 0
    ensures CompareVersions(a, c) <= 0
  {
  }

  /** The order `sort((a, b) => compareVersions(a, b))` uses. */
  predicate TagLe(a: NamespaceTag, b: NamespaceTag) {
    CompareVersions(a.semver, b.semver) <= 0
  }

  /** `compareVersions` is a consistent comparator: total and transitive. */
  lemma TagLeTotalPreorder()
    ensures TotalPreorder(TagLe)
  {
    forall a: NamespaceTag, b: NamespaceTag, c: NamespaceTag | TagLe(a, b) && TagLe(b, c)
      ensures TagLe(a, c)
    {
      CompareVersionsTransitive(a.semver, b.semver, c.semver);
    }
  }

  // ---------------------------------------------------------------------
  // The namespace's tags (filterAndParseNamespaceTags)
  // ---------------------------------------------------------------------

  /** A namespace tag whose version text reads as its version. */
  predicate WellFormedTag(t: NamespaceTag) {
    ParseVersion(t.version) == Some(t.semver)
  }

  /** The version text of a tag: what follows the namespace, without a
      leading `v`. */
  function StripV(tagVersion: string): string {
    if StartsWith(tagVersion, "v") then tagVersion[1..] else tagVersion
  }

  /** One tag name: kept when it starts with `namespace/`; the part after
      that prefix (the first occurrence `replace` removes is the prefix
      itself) loses a leading `v`, and must parse as a version. */
  function ParseNamespaceTag(name: string, namespace: string): (r: Option<NamespaceTag>)
    ensures r.Some? ==> r.value.name == name && StartsWith(name, namespace + "/") && WellFormedTag(r.value)
    ensures r.Some? ==> name == namespace + "/" + r.value.version || name == namespace + "/v" + r.value.version
  {
    if !StartsWith(name, namespace + "/") then None
    else
      var tagVersion := name[|namespace| + 1..];
      var versionString := StripV(tagVersion);
      assert name == namespace + "/" + tagVersion;
      assert StartsWith(tagVersion, "v") ==> tagVersion == "v" + versionString;
      match ParseVersion(versionString)
      case None => None
      case Some(v) => Some(NamespaceTag(name, versionString, v))
  }

  lemma ParseNamespaceTagOf(namespace: string, tagVersion: string)
    ensures ParseNamespaceTag(namespace + "/" + tagVersion, namespace)
      == match ParseVersion(StripV(tagVersion))
         case None => None
         case Some(v) => Some(NamespaceTag(namespace + "/" + tagVersion, StripV(tagVersion), v))
  {
    var name := namespace + "/" + tagVersion;
    assert name[..|namespace| + 1] == namespace + "/";
    assert name[|namespace| + 1..] == tagVersion;
  }

  /** A formatted version text starts with a digit, never with `v`. */
  lemma FormattedTextStartsWithDigit(namespace: string, v: Version)
    ensures var text := FormatNewTag(namespace, v).versionString;
      text != [] && IsDigit(text[0]) && StripV(text) == text
  {
    var text := FormatNewTag(namespace, v).versionString;
    assert !StartsWith(text, "v") by {
      assert text[..1] == [text[0]];
    }
  }

  /** The `v` of a tag is optional: both spellings of a version are kept,
      with the same version text and version. */
  lemma ParseNamespaceTagOptionalV(namespace: string, v: Version)
    ensures var text := FormatNewTag(namespace, v).versionString;
      && ParseNamespaceTag(namespace + "/v" + text, namespace) == Some(NamespaceTag(namespace + "/v" + text, text, v))
      && ParseNamespaceTag(namespace + "/" + text, namespace) == Some(NamespaceTag(namespace + "/" + text, text, v))
  {
    var text := FormatNewTag(namespace, v).versionString;
    FormattedTextStartsWithDigit(namespace, v);
    ParseNamespaceTagWithV(namespace, text, v);
    ParseNamespaceTagOf(namespace, text);
  }

  lemma ParseNamespaceTagWithV(namespace: string, text: string, v: Version)
    requires ParseVersion(text) == Some(v)
    ensures ParseNamespaceTag(namespace + "/v" + text, namespace) == Some(NamespaceTag(namespace + "/v" + text, text, v))
  {
    assert namespace + "/v" + text == namespace + "/" + ("v" + text);
    assert StripV("v" + text) == text by {
      assert ("v" + text)[..1] == "v";
      assert ("v" + text)[1..] == text;
    }
    ParseNamespaceTagOf(namespace, "v" + text);
  }

  /** The filter / map / filter part of the chain: every name of the
      namespace that parses, in input order (`ParseNamespaceTagsConcat`),
      one tag for each occurrence of its name. */
  function ParseNamespaceTags(names: seq<string>, namespace: string): (r: seq<NamespaceTag>)
    ensures |r| <= |names|
    ensures forall t :: t in r <==> t.name in names && ParseNamespaceTag(t.name, namespace) == Some(t)
    ensures forall t {:trigger multiset(r)[t]} :: multiset(r)[t] ==
              if ParseNamespaceTag(t.name, namespace) == Some(t) then multiset(names)[t.name] else 0
  {
    if names == [] then []
    else
      var init := names[..|names| - 1];
      var name := names[|names| - 1];
      assert names == init + [name];
      ParseNamespaceTags(init, namespace)
        + match ParseNamespaceTag(name, namespace) case None => [] case Some(t) => [t]
  }

  /** The chain keeps the order of the names: parsing a concatenation
      concatenates the parsed parts. */
  lemma {:induction false} ParseNamespaceTagsConcat(a: seq<string>, b: seq<string>, namespace: string)
    ensures ParseNamespaceTags(a + b, namespace) == ParseNamespaceTags(a, namespace) + ParseNamespaceTags(b, namespace)
    decreases |b|
  {
    if b == [] {
      assert a + b == a;
    } else {
      var init := b[..|b| - 1];
      assert b == init + [b[|b| - 1]];
      assert (a + b)[..|a + b| - 1] == a + init;
      ParseNamespaceTagsConcat(a, init, namespace);
    }
  }

  /** `filterAndParseNamespaceTags`: the namespace's parsable tags, sorted
      ascending by `compareVersions`; a tag is in it exactly when its name
      is one of the input names and parses as that tag. */
  function FilterAndParseNamespaceTags(allTags: seq<string>, namespace: string): (r: seq<NamespaceTag>)
    ensures Sorted(r, TagLe)
    ensures multiset(r) == multiset(ParseNamespaceTags(allTags, namespace))
    ensures forall t {:trigger multiset(r)[t]} :: multiset(r)[t] ==
              if ParseNamespaceTag(t.name, namespace) == Some(t) then multiset(allTags)[t.name] else 0
    ensures forall t :: t in r <==> t.name in allTags && ParseNamespaceTag(t.name, namespace) == Some(t)
    ensures forall t :: t in r ==> WellFormedTag(t)
  {
    TagLeTotalPreorder();
    SortedMembers(ParseNamespaceTags(allTags, namespace), TagLe);
    InsertionSort(ParseNamespaceTags(allTags, namespace), TagLe)
  }

  /** The names that start with `namespace/`. */
  function OwnTagNames(names: seq<string>, namespace: string): seq<string> {
    Filter(names, (name: string) => StartsWith(name, namespace + "/"))
  }

  lemma {:induction false} ParseOnlyOwnNames(names: seq<string>, namespace: string)
    ensures ParseNamespaceTags(names, namespace) == ParseNamespaceTags(OwnTagNames(names, namespace), namespace)
  {
    if names != [] {
      var init := names[..|names| - 1];
      var name := names[|names| - 1];
      ParseOnlyOwnNames(init, namespace);
      var own := OwnTagNames(init, namespace);
      if StartsWith(name, namespace + "/") {
        assert OwnTagNames(names, namespace) == own + [name];
        assert (own + [name])[..|own|] == own;
      } else {
        assert OwnTagNames(names, namespace) == own;
      }
    }
  }

  /** Tags of other namespaces never affect the namespace's tags: two tag
      lists with the same names under `namespace/` (in the same order)
      give the same result, however other names are interleaved. */
  lemma NamespaceIsolation(a: seq<string>, b: seq<string>, namespace: string)
    requires OwnTagNames(a, namespace) == OwnTagNames(b, namespace)
    ensures FilterAndParseNamespaceTags(a, namespace) == FilterAndParseNamespaceTags(b, namespace)
  {
    ParseOnlyOwnNames(a, namespace);
    ParseOnlyOwnNames(b, namespace);
  }

  // ---------------------------------------------------------------------
  // The previous tag (findPrevious*Version)
  // ---------------------------------------------------------------------

  /** `findPreviousMajorVersion`: the last tag with a lower major; in a
      sorted list the maximum of those, absent when there is none. */
  function FindPreviousMajorVersion(tags: seq<NamespaceTag>, current: Version): (r: Option<NamespaceTag>)
    ensures r.None? <==> forall t :: t in tags ==> t.semver.major >= current.major
    ensures r.Some? ==> r.value in tags && r.value.semver.major < current.major
    ensures r.Some? && Sorted(tags, TagLe) ==>
      forall t :: t in tags && t.semver.major < current.major ==> TagLe(t, r.value)
  {
    var lowerMajor := (t: NamespaceTag) => t.semver.major < current.major;
    TagLeTotalPreorder();
    LastOfFilter(tags, lowerMajor, TagLe);
    Last(Filter(tags, lowerMajor))
  }

  /** `findPreviousMinorVersion`: the last tag with the same major and a
      lower minor; in a sorted list the maximum of those. */
  function FindPreviousMinorVersion(tags: seq<NamespaceTag>, current: Version): (r: Option<NamespaceTag>)
    ensures r.None? <==>
      forall t :: t in tags ==> !(t.semver.major == current.major && t.semver.minor < current.minor)
    ensures r.Some? ==>
      r.value in tags && r.value.semver.major == current.major && r.value.semver.minor < current.minor
    ensures r.Some? && Sorted(tags, TagLe) ==>
      forall t :: t in tags && t.semver.major == current.major && t.semver.minor < current.minor ==> TagLe(t, r.value)
  {
    var lowerMinor := (t: NamespaceTag) => t.semver.major == current.major && t.semver.minor < current.minor;
    TagLeTotalPreorder();
    LastOfFilter(tags, lowerMinor, TagLe);
    Last(Filter(tags, lowerMinor))
  }

  predicate SameLine(a: Version, b: Version) {
    a.major == b.major && a.minor == b.minor
  }

  /** `findPreviousPatchVersion`: the last tag with the same major.minor
      and a lower patch; in a sorted list the maximum of those. */
  function FindPreviousPatchVersion(tags: seq<NamespaceTag>, current: Version): (r: Option<NamespaceTag>)
    ensures r.None? <==>
      forall t :: t in tags ==> !(SameLine(t.semver, current) && t.semver.patch < current.patch)
    ensures r.Some? ==>
      r.value in tags && SameLine(r.value.semver, current) && r.value.semver.patch < current.patch
    ensures r.Some? && Sorted(tags, TagLe) ==>
      forall t :: t in tags && SameLine(t.semver, current) && t.semver.patch < current.patch ==> TagLe(t, r.value)
  {
    var lowerPatch := (t: NamespaceTag) => SameLine(t.semver, current) && t.semver.patch < current.patch;
    TagLeTotalPreorder();
    LastOfFilter(tags, lowerPatch, TagLe);
    Last(Filter(tags, lowerPatch))
  }

  predicate SameTriple(a: Version, b: Version) {
    a.major == b.major && a.minor == b.minor && a.patch == b.patch
  }

  /** A missing pre-release number where `<` compares it with a number:
      JavaScript converts `null` to 0. */
  function PreReleaseNumber(p: Option<nat>): nat {
    match p
    case None => 0
    case Some(n) => n
  }

  /** The filter of `findPreviousPreReleaseVersion` for a pre-release
      `current`: on the same triple a lower pre-release number, otherwise
      a lower triple. */
  predicate BelowPreRelease(t: NamespaceTag, current: Version)
    requires current.preRelease.Some?
  {
    if SameTriple(t.semver, current) then PreReleaseNumber(t.semver.preRelease) < current.preRelease.value
    else
      || t.semver.major < current.major
      || (t.semver.major == current.major && t.semver.minor < current.minor)
      || (SameLine(t.semver, current) && t.semver.patch < current.patch)
  }

  predicate IsStableTag(t: NamespaceTag) {
    t.semver.preRelease.None?
  }

  /** `findPreviousPreReleaseVersion`: for a pre-release `current`, the last
      tag below it; for a stable `current`, the second-to-last stable tag. */
  function FindPreviousPreReleaseVersion(tags: seq<NamespaceTag>, current: Version): (r: Option<NamespaceTag>)
    ensures r.Some? ==> r.value in tags
    ensures current.preRelease.Some? ==>
      && (r.None? <==> forall t :: t in tags ==> !BelowPreRelease(t, current))
      && (r.Some? ==> BelowPreRelease(r.value, current))
      && (r.Some? && Sorted(tags, TagLe) ==>
            forall t :: t in tags && BelowPreRelease(t, current) ==> TagLe(t, r.value))
    ensures current.preRelease.None? ==> r == SecondToLast(Filter(tags, IsStableTag))
  {
    if current.preRelease.Some? then
      var below := (t: NamespaceTag) => BelowPreRelease(t, current);
      TagLeTotalPreorder();
      LastOfFilter(tags, below, TagLe);
      Last(Filter(tags, below))
    else
      var stable := Filter(tags, IsStableTag);
      assert |stable| >= 2 ==> stable[|stable| - 2] in stable;
      SecondToLast(stable)
  }

  /** `findPreviousVersion`: the previous tag for the bump type, one of the
      tags; for a major, minor or patch bump a version that precedes
      `current`. */
  function FindPreviousVersion(tags: seq<NamespaceTag>, current: Version, bump: BumpType): (r: Option<NamespaceTag>)
    ensures r.Some? ==> r.value in tags
    ensures r.Some? && bump != Rc ==> Precedes(r.value.semver, current)
  {
    match bump
    case Major => FindPreviousMajorVersion(tags, current)
    case Minor => FindPreviousMinorVersion(tags, current)
    case Patch => FindPreviousPatchVersion(tags, current)
    case Rc => FindPreviousPreReleaseVersion(tags, current)
  }

  /** For an rc bump from a pre-release `current` that is the latest tag,
      the previous tag is the maximum of the tags strictly below `current`
      (an earlier pre-release of the same triple or a lower triple), and
      absent when no tag is below it. */
  lemma {:induction false} PreviousPreReleaseIsMaximumBelow(tags: seq<NamespaceTag>)
    requires Sorted(tags, TagLe) && tags != []
    requires tags[|tags| - 1].semver.preRelease.Some?
    ensures var current := tags[|tags| - 1].semver;
      var r := FindPreviousPreReleaseVersion(tags, current);
      && (r.None? <==> forall t :: t in tags ==> !Precedes(t.semver, current))
      && (r.Some? ==> r.value in tags && Precedes(r.value.semver, current))
      && (r.Some? ==> forall t :: t in tags && Precedes(t.semver, current) ==> TagLe(t, r.value))
  {
    var current := tags[|tags| - 1].semver;
    TagLeTotalPreorder();
    LastIsMaximum(tags, TagLe);
    forall t | t in tags ensures BelowPreRelease(t, current) <==> Precedes(t.semver, current) {
      assert TagLe(t, tags[|tags| - 1]);
    }
  }

  /** For an rc bump from a stable `current` the previous tag is the
      second-to-last stable tag: present exactly when there are two stable
      tags; in a sorted list it is at most the latest stable tag and at
      least every earlier stable tag. */
  lemma PreviousFromStable(tags: seq<NamespaceTag>, current: Version)
    requires current.preRelease.None?
    ensures var stable := Filter(tags, IsStableTag);
      var r := FindPreviousPreReleaseVersion(tags, current);
      && (r.Some? <==> |stable| >= 2)
      && (r.Some? ==> r.value in tags && IsStableTag(r.value))
      && (r.Some? && Sorted(tags, TagLe) ==>
            && TagLe(r.value, stable[|stable| - 1])
            && forall i :: 0 <= i < |stable| - 1 ==> TagLe(stable[i], r.value))
  {
    var stable := Filter(tags, IsStableTag);
    if |stable| >= 2 {
      var r := stable[|stable| - 2];
      assert FindPreviousPreReleaseVersion(tags, current) == Some(r);
      assert r in stable;
      if Sorted(tags, TagLe) {
        assert Sorted(stable, TagLe) by {
          FilterSorted(tags, IsStableTag, TagLe);
        }
        TagLeTotalPreorder();
        SecondToLastBounds(stable, TagLe);
      }
    }
  }

  // ---------------------------------------------------------------------
  // Hotfixes of the superseded minor line (findHotfixesBetweenMinorVersions)
  // ---------------------------------------------------------------------

  /** The stable `major.(minor-1).0` tag a minor bump supersedes. */
  predicate IsMinorBase(t: NamespaceTag, current: Version) {
    t.semver.major == current.major && t.semver.minor + 1 == current.minor
    && t.semver.patch == 0 && t.semver.preRelease.None?
  }

  predicate HasMinorBase(tags: seq<NamespaceTag>, current: Version) {
    exists b :: b in tags && IsMinorBase(b, current)
  }

  /** A stable patch release `major.(minor-1).p`, `p > 0`. */
  predicate IsHotfix(t: NamespaceTag, current: Version) {
    t.semver.major == current.major && t.semver.minor + 1 == current.minor
    && t.semver.patch > 0 && t.semver.preRelease.None?
  }

  function HotfixOf(current: Version): NamespaceTag -> bool {
    (t: NamespaceTag) => IsHotfix(t, current)
  }

  /** The tags `findHotfixesBetweenMinorVersions` lists: none without the
      base tag of the previous minor line; otherwise every stable patch
      release of that line, in list order (so ascending in a sorted list),
      each as often as it is listed. */
  function HotfixTags(tags: seq<NamespaceTag>, current: Version): (r: seq<NamespaceTag>)
    ensures forall t :: t in r <==> t in tags && HasMinorBase(tags, current) && IsHotfix(t, current)
    ensures forall t {:trigger multiset(r)[t]} :: multiset(r)[t] ==
              if HasMinorBase(tags, current) && IsHotfix(t, current) then multiset(tags)[t] else 0
    ensures HasMinorBase(tags, current) ==> r == Filter(tags, HotfixOf(current))
    ensures Sorted(tags, TagLe) ==> Sorted(r, TagLe)
  {
    var previousLine := Filter(tags, (t: NamespaceTag) =>
      t.semver.major == current.major && t.semver.minor == current.minor - 1);
    var isBase := (t: NamespaceTag) => t.semver.patch == 0 && t.semver.preRelease.None?;
    assert forall b :: b in tags && IsMinorBase(b, current) ==> b in previousLine && isBase(b);
    match Find(previousLine, isBase)
    case None =>
      []
    case Some(base) =>
      var isHotfix := (t: NamespaceTag) =>
        t.semver.major == base.semver.major && t.semver.minor == base.semver.minor
        && t.semver.patch > 0 && t.semver.preRelease.None?;
      assert IsMinorBase(base, current);
      FilterSorted(tags, isHotfix, TagLe);
      FilterAgree(tags, isHotfix, HotfixOf(current));
      Filter(tags, isHotfix)
  }

  function VersionTexts(tags: seq<NamespaceTag>): (texts: seq<string>)
    ensures |texts| == |tags|
  {
    seq(|tags|, i requires 0 <= i < |tags| => tags[i].version)
  }

  lemma VersionTextHasNoComma(t: NamespaceTag)
    requires WellFormedTag(t)
    ensures ',' !in t.version && t.version != ""
  {
    var g := Match(t.version).value;
    DigitsHaveNoPunctuation(g.major);
    DigitsHaveNoPunctuation(g.minor);
    DigitsHaveNoPunctuation(g.patch);
    if g.preRelease.Some? {
      DigitsHaveNoPunctuation(g.preRelease.value);
    }
  }

  /** `findHotfixesBetweenMinorVersions`: the hotfixes' version texts joined
      by "," (no space). For well-formed tags, the text is empty exactly
      when there is no hotfix, and otherwise splits at "," into the
      hotfixes' version texts, in order. */
  function FindHotfixesBetweenMinorVersions(tags: seq<NamespaceTag>, current: Version): (r: string)
    ensures !HasMinorBase(tags, current) ==> r == ""
    ensures (forall t :: t in tags ==> WellFormedTag(t)) ==>
      && (r == "" <==> HotfixTags(tags, current) == [])
      && (r != "" ==> Split(r, ',') == VersionTexts(HotfixTags(tags, current)))
  {
    var texts := VersionTexts(HotfixTags(tags, current));
    HotfixTextsSplit(tags, current);
    Join(texts, ",")
  }

  lemma HotfixTextsSplit(tags: seq<NamespaceTag>, current: Version)
    ensures var texts := VersionTexts(HotfixTags(tags, current));
      (forall t :: t in tags ==> WellFormedTag(t)) && texts != [] ==>
        Join(texts, ",") != "" && Split(Join(texts, ","), ',') == texts
  {
    var hotfixes := HotfixTags(tags, current);
    var texts := VersionTexts(hotfixes);
    if (forall t :: t in tags ==> WellFormedTag(t)) && texts != [] {
      forall i | 0 <= i < |texts| ensures ',' !in texts[i] && texts[i] != "" {
        assert hotfixes[i] in hotfixes;
        VersionTextHasNoComma(hotfixes[i]);
      }
      SplitJoin(texts, ',');
      JoinNonEmpty(texts, ",");
    }
  }

  // ---------------------------------------------------------------------
  // The next version (calculateNextVersion, isReleaseCandidate)
  // ---------------------------------------------------------------------

  /** The version a bump produces: major, minor and patch bumps give a
      stable version above `current` (resetting the lower fields); an rc
      bump keeps the triple and starts (0) or advances the pre-release
      number, which from a stable `current` gives a version BELOW it. */
  function NextVersion(current: Version, bump: BumpType): (next: Version)
    ensures next.preRelease.None? <==> bump != Rc
    ensures bump != Rc ==> Precedes(current, next)
    ensures bump == Major ==> next == Version(current.major + 1, 0, 0, None)
    ensures bump == Minor ==> next == Version(current.major, current.minor + 1, 0, None)
    ensures bump == Patch ==> next == Version(current.major, current.minor, current.patch + 1, None)
    ensures bump == Rc ==> SameTriple(next, current)
    ensures bump == Rc && current.preRelease.None? ==> next.preRelease == Some(0) && Precedes(next, current)
    ensures bump == Rc && current.preRelease.Some? ==>
      next.preRelease == Some(current.preRelease.value + 1) && Precedes(current, next)
  {
    match bump
    case Major => Version(current.major + 1, 0, 0, None)
    case Minor => Version(current.major, current.minor + 1, 0, None)
    case Patch => Version(current.major, current.minor, current.patch + 1, None)
    case Rc => current.(preRelease := Some(if current.preRelease.Some? then current.preRelease.value + 1 else 0))
  }

  /** `calculateNextVersion`: copies `current` and overwrites the fields the
      bump type changes. */
  method CalculateNextVersion(current: Version, bump: BumpType) returns (next: Version)
    ensures next == NextVersion(current, bump)
  {
    next := current;
    if bump == Major {
      next := next.(major := current.major + 1);
      next := next.(minor := 0);
      next := next.(patch := 0);
      next := next.(preRelease := None);
    } else if bump == Minor {
      next := next.(minor := current.minor + 1);
      next := next.(patch := 0);
      next := next.(preRelease := None);
    } else if bump == Patch {
      next := next.(patch := current.patch + 1);
      next := next.(preRelease := None);
    }
    if bump == Rc {
      if current.preRelease.Some? {
        next := next.(preRelease := Some(current.preRelease.value + 1));
      } else {
        next := next.(preRelease := Some(0));
      }
    }
  }

  /** `isReleaseCandidate`: a version is a release candidate exactly when
      it comes before the release of its own triple. */
  predicate IsReleaseCandidate(v: Version): (r: bool)
    ensures r <==> Precedes(v, v.(preRelease := None))
    ensures !r ==> v == v.(preRelease := None)
  {
    v.preRelease.Some?
  }

  // ---------------------------------------------------------------------
  // Putting it together (findCurrentAndPreviousVersions, generateTag)
  // ---------------------------------------------------------------------

  /** `findCurrentAndPreviousVersions`: `current` is the last (for sorted
      tags, the maximum) tag's version or 0.0.0; the previous tag and the
      hotfixes (minor bumps only) are looked up only when there are tags. */
  method FindCurrentAndPreviousVersions(tags: seq<NamespaceTag>, bump: BumpType)
    returns (current: Version, previous: Option<NamespaceTag>, previousTag: Option<string>, hotfixes: string)
    ensures tags == [] ==> current == InitialVersion && previous == None && hotfixes == ""
    ensures tags != [] ==> current == tags[|tags| - 1].semver
    ensures Sorted(tags, TagLe) ==> forall t :: t in tags ==> CompareVersions(t.semver, current) <= 0
    ensures tags != [] ==> previous == FindPreviousVersion(tags, current, bump)
    ensures previous.Some? ==> previous.value in tags
    ensures previousTag == (match previous case None => None case Some(p) => Some(p.name))
    ensures hotfixes == (if bump == Minor && tags != [] then FindHotfixesBetweenMinorVersions(tags, current) else "")
  {
    current := InitialVersion;
    previous := None;
    previousTag := None;
    hotfixes := "";
    if |tags| > 0 {
      current := tags[|tags| - 1].semver;
      previous := FindPreviousVersion(tags, current, bump);
      if bump == Minor {
        hotfixes := FindHotfixesBetweenMinorVersions(tags, current);
      }
      if previous.Some? {
        previousTag := Some(previous.value.name);
      }
      if Sorted(tags, TagLe) {
        TagLeTotalPreorder();
        LastIsMaximum(tags, TagLe);
      }
    }
  }

  /** What `generateTag` resolves to. */
  datatype TagResult = TagResult(
    tag: string,
    version: string,
    current: Version,
    next: Version,
    previous: Option<NamespaceTag>,
    previousTag: Option<string>,
    hotfixes: string,
    tagPRD: bool)

  const ErrorPrefix := "Failed to generate tag: "

  /** `generateTag` over the outcome of fetching the tag names (`Ok` with
      every page's names, or `Err` with the fetch's error message). The bump
      type is validated first, so its errors win over a failed fetch; every
      error reaches the caller prefixed. On success the tag is
      `namespace/v` + the version text, that text is the canonical
      `M.m.p[-N]` of `next` (no leading zeros) and parses as it, `next`
      is the bump of the maximum namespace tag (or 0.0.0), and the tag is a
      production tag exactly when the bump is not rc. */
  method GenerateTag(fetchedTags: Result<seq<string>, string>, namespace: string, bumpType: Option<string>)
    returns (r: Result<TagResult, string>)
    ensures ValidateBumpType(bumpType).Err? ==> r == Err(ErrorPrefix + ValidateBumpType(bumpType).error)
    ensures ValidateBumpType(bumpType).Ok? && fetchedTags.Err? ==> r == Err(ErrorPrefix + fetchedTags.error)
    ensures r.Ok? <==> ValidateBumpType(bumpType).Ok? && fetchedTags.Ok?
    ensures r.Ok? ==>
      var bump := ValidateBumpType(bumpType).value;
      var tags := FilterAndParseNamespaceTags(fetchedTags.value, namespace);
      var res := r.value;
      && res.current == (if tags == [] then InitialVersion else tags[|tags| - 1].semver)
      && (forall t :: t in tags ==> CompareVersions(t.semver, res.current) <= 0)
      && res.previous == (if tags == [] then None else FindPreviousVersion(tags, res.current, bump))
      && res.previousTag == (match res.previous case None => None case Some(p) => Some(p.name))
      && res.hotfixes == (if bump == Minor && tags != [] then FindHotfixesBetweenMinorVersions(tags, res.current) else "")
      && res.next == NextVersion(res.current, bump)
      && res.tag == namespace + "/v" + res.version
      && ParseVersion(res.version) == Some(res.next)
      && Match(res.version) == Some(VersionGroups(res.next))
      && (res.tagPRD <==> bump != Rc)
  {
    var validated := ValidateBumpType(bumpType);
    if validated.Err? {
      return Err(ErrorPrefix + validated.error);
    }
    var bump := validated.value;
    if fetchedTags.Err? {
      return Err(ErrorPrefix + fetchedTags.error);
    }
    var namespaceTags := FilterAndParseNamespaceTags(fetchedTags.value, namespace);
    var currentVersion, previousVersion, previousTag, hotfixes := FindCurrentAndPreviousVersions(namespaceTags, bump);
    var nextVersion := CalculateNextVersion(currentVersion, bump);
    var formatted := FormatNewTag(namespace, nextVersion);
    var tagPRD := !IsReleaseCandidate(nextVersion);
    r := Ok(TagResult(formatted.newTag, formatted.versionString, currentVersion, nextVersion,
                      previousVersion, previousTag, hotfixes, tagPRD));
  }
}
