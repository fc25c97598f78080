/** The destructuring splits the two `parseRefName` drafts share
    (infra/gha/calculate-tag.js and infra/gha/release-notes.js), and their
    four-way tag classification over the split strings. */
module RefName {
  import opened Wrappers
  import opened Text
  import opened VersionText

  /** Every binding of the destructuring chain
        [namespace, version] = refName.split("/")
        [beforeV, semver] = version.split("v")
        [major, minor, patchWithPreRelease] = semver.split(".")
        [patch, preRelease] = patchWithPreRelease.split("-")
      where `preRelease` is `undefined` (`None`) when there is no `-`. */
  datatype RefParts = RefParts(
    namespace: string,
    version: string,
    beforeV: string,
    semver: string,
    major: string,
    minor: string,
    patchWithPreRelease: string,
    patch: string,
    preRelease: Option<string>)

  /** The TypeError message of calling `.split` on `undefined`, which is what
      the chain throws when a piece it splits next is missing. */
  const SplitOfUndefined := "Cannot read properties of undefined (reading 'split')"

  /** What each binding is in terms of the text it comes from: the
      namespace is the text before the first `/`, the version the text
      after it up to the next `/`; the semver is the text between the
      version's first and second `v`; major, minor and the patch text are
      its first three `.` pieces; patch and pre-release are the first two
      `-` pieces of the patch text. */
  ghost predicate RefPartsOf(refName: string, p: RefParts) {
    && SlashPieces(refName, p.namespace, p.version)
    && VPieces(p.version, p.beforeV, p.semver)
    && DotPieces(p.semver, p.major, p.minor, p.patchWithPreRelease)
    && DashPieces(p.patchWithPreRelease, p.patch, p.preRelease)
  }

  ghost predicate SlashPieces(refName: string, namespace: string, version: string) {
    LeadingPieces(refName, '/', namespace, version)
  }

  ghost predicate VPieces(version: string, beforeV: string, semver: string) {
    LeadingPieces(version, 'v', beforeV, semver)
  }

  ghost predicate DotPieces(semver: string, major: string, minor: string, patchWithPreRelease: string) {
    && Piece(semver, '.', major) && |major| < |semver|
    && LeadingPieces(semver[|major| + 1..], '.', minor, patchWithPreRelease)
  }

  /** `first` is the text up to the first `sep`, and `second` the text after
      that `sep` up to the next one. */
  ghost predicate LeadingPieces(s: string, sep: char, first: string, second: string) {
    Piece(s, sep, first) && |first| < |s| && Piece(s[|first| + 1..], sep, second)
  }

  ghost predicate DashPieces(patchWithPreRelease: string, patch: string, preRelease: Option<string>) {
    && Piece(patchWithPreRelease, '-', patch)
    && (preRelease.None? <==> |patch| == |patchWithPreRelease|)
    && (preRelease.Some? ==> Piece(patchWithPreRelease[|patch| + 1..], '-', preRelease.value))
  }

  /** The first two pieces of a split: the text up to the first separator
      and the text from there up to the next one; with a third piece, the
      same holds of the text after the first separator. */
  lemma SplitTwoPieces(s: string, sep: char)
    requires |Split(s, sep)| >= 2
    ensures var p := Split(s, sep);
      && LeadingPieces(s, sep, p[0], p[1])
      && (|p| >= 3 ==> LeadingPieces(s[|p[0]| + 1..], sep, p[1], p[2]))
  {
    var p := Split(s, sep);
    SplitFirstPiece(s, sep);
    NextPiece(s, sep);
    if |p| >= 3 {
      var q := Split(s[|p[0]| + 1..], sep);
      assert q[0] == p[1] && q[1] == p[2];
      SplitFirstPiece(s[|p[0]| + 1..], sep);
      NextPiece(s[|p[0]| + 1..], sep);
    }
  }

  /** The piece after the first one is the first piece of what follows the
      first separator, and the pieces after it split what follows that. */
  lemma NextPiece(s: string, sep: char)
    requires |Split(s, sep)| >= 2
    ensures var p := Split(s, sep);
      && |p[0]| < |s|
      && Piece(s[|p[0]| + 1..], sep, p[1])
      && Split(s[|p[0]| + 1..], sep) == p[1..]
  {
    var p := Split(s, sep);
    SplitFirstPiece(s, sep);
    var rest := s[|p[0]| + 1..];
    SplitFirstPiece(rest, sep);
    assert Split(rest, sep)[0] == p[1];
  }

  /** `s.split(sep)[1]`, "" where it is undefined. */
  function SecondPiece(s: string, sep: char): string {
    var pieces := Split(s, sep);
    if |pieces| >= 2 then pieces[1] else ""
  }

  /** `[first, second] = s.split(sep)`, `None` when `second` is undefined. */
  function FirstTwo(s: string, sep: char): (r: Option<(string, string)>)
    ensures r.None? <==> sep !in s
    ensures r.Some? ==> r.value.1 == SecondPiece(s, sep)
    ensures r.Some? && sep == '/' ==> SlashPieces(s, r.value.0, r.value.1)
    ensures r.Some? && sep == 'v' ==> VPieces(s, r.value.0, r.value.1)
  {
    SplitFirstPiece(s, sep);
    var pieces := Split(s, sep);
    if |pieces| < 2 then None
    else
      SplitTwoPieces(s, sep);
      Some((pieces[0], pieces[1]))
  }

  /** `[major, minor, patchWithPreRelease] = semver.split(".")`, `None`
      when the third piece is undefined. */
  function FirstThree(semver: string): (r: Option<(string, string, string)>)
    ensures r.None? <==> multiset(semver)['.'] < 2
    ensures r.Some? ==> DotPieces(semver, r.value.0, r.value.1, r.value.2)
  {
    var pieces := Split(semver, '.');
    SplitCount(semver, '.');
    if |pieces| < 3 then None
    else
      SplitTwoPieces(semver, '.');
      Some((pieces[0], pieces[1], pieces[2]))
  }

  /** `[patch, preRelease] = patchWithPreRelease.split("-")`. */
  function PatchAndPreRelease(patchWithPreRelease: string): (r: (string, Option<string>))
    ensures DashPieces(patchWithPreRelease, r.0, r.1)
  {
    SplitFirstPiece(patchWithPreRelease, '-');
    var pieces := Split(patchWithPreRelease, '-');
    if |pieces| < 2 then (pieces[0], None)
    else
      SplitTwoPieces(patchWithPreRelease, '-');
      (pieces[0], Some(pieces[1]))
  }

  /** The destructuring chain: `None` exactly where it would split
      `undefined`: no `/` in the name, no `v` in the version (the text after
      the first `/`, up to the next), or fewer than two `.` in the semver
      (the text after the version's first `v`, up to the next). */
  function SplitRef(refName: string): (r: Option<RefParts>)
    ensures '/' !in refName ==> r.None?
    ensures r.None? <==>
      || '/' !in refName
      || 'v' !in SecondPiece(refName, '/')
      || multiset(SecondPiece(SecondPiece(refName, '/'), 'v'))['.'] < 2
    ensures r.Some? ==> RefPartsOf(refName, r.value)
  {
    match FirstTwo(refName, '/')
    case None => None
    case Some((namespace, version)) =>
      match FirstTwo(version, 'v')
      case None => None
      case Some((beforeV, semver)) =>
        match FirstThree(semver)
        case None => None
        case Some((major, minor, patchWithPreRelease)) =>
          var (patch, preRelease) := PatchAndPreRelease(patchWithPreRelease);
          Some(RefParts(namespace, version, beforeV, semver, major, minor, patchWithPreRelease, patch, preRelease))
  }

  /** A tag name of the form `namespace/vM.m.p[-N]`. */
  function RefNameOf(namespace: string, g: Groups): string {
    namespace + "/v" + Render(g)
  }

  lemma FirstTwoAfter(a: string, b: string, sep: char)
    requires sep !in a && sep !in b
    ensures FirstTwo(a + [sep] + b, sep) == Some((a, b))
  {
    SplitAfter(a, b, sep);
    SplitWithout(b, sep);
  }

  lemma SlashOfRender(namespace: string, g: Groups)
    requires '/' !in namespace && WellFormed(g)
    ensures FirstTwo(RefNameOf(namespace, g), '/') == Some((namespace, "v" + Render(g)))
  {
    var version := "v" + Render(g);
    RenderSplit(g);
    assert RefNameOf(namespace, g) == namespace + ['/'] + version;
    FirstTwoAfter(namespace, version, '/');
  }

  lemma VOfRender(g: Groups)
    requires WellFormed(g)
    ensures FirstTwo("v" + Render(g), 'v') == Some(([], Render(g)))
  {
    RenderSplit(g);
    assert "v" + Render(g) == [] + ['v'] + Render(g);
    FirstTwoAfter([], Render(g), 'v');
  }

  lemma DotsOfRender(g: Groups)
    requires WellFormed(g)
    ensures FirstThree(Render(g)) == Some((g.major, g.minor, PatchText(g.patch, g.preRelease)))
    ensures PatchAndPreRelease(PatchText(g.patch, g.preRelease)) == (g.patch, g.preRelease)
  {
    RenderSplit(g);
    PatchTextSplit(g.patch, g.preRelease);
  }

  /** On a well-formed tag name the chain yields the namespace, the version
      with its `v`, and the groups' texts unchanged. */
  lemma SplitRefRender(namespace: string, g: Groups)
    requires '/' !in namespace && WellFormed(g)
    ensures SplitRef(RefNameOf(namespace, g))
      == Some(RefParts(namespace, "v" + Render(g), "", Render(g), g.major, g.minor,
                       PatchText(g.patch, g.preRelease), g.patch, g.preRelease))
  {
    SlashOfRender(namespace, g);
    VOfRender(g);
    DotsOfRender(g);
  }

  /** The four tag kinds both drafts distinguish. */
  datatype TagKind = MajorKind | MinorKind | PatchKind | PreReleaseKind

  /** `if (preRelease)`: the pre-release is defined and not empty. */
  predicate Truthy(preRelease: Option<string>) {
    preRelease.Some? && preRelease.value != ""
  }

  /** The if/else chain: exactly one kind, comparing texts (not numbers). */
  function Classify(minor: string, patch: string, preRelease: Option<string>): (k: TagKind)
    ensures k == PreReleaseKind <==> Truthy(preRelease)
    ensures k == MajorKind <==> !Truthy(preRelease) && minor == "0" && patch == "0"
    ensures k == MinorKind <==> !Truthy(preRelease) && minor != "0" && patch == "0"
    ensures k == PatchKind <==> !Truthy(preRelease) && patch != "0"
  {
    if Truthy(preRelease) then PreReleaseKind
    else if minor == "0" && patch == "0" then MajorKind
    else if patch == "0" then MinorKind
    else PatchKind
  }

  /** On numbers as they are printed (no leading zeros) the textual
      classification is the numeric one: a pre-release when there is a
      `-N`; otherwise major for `M.0.0`, minor for `M.m.0` with `m > 0`,
      patch for `M.m.p` with `p > 0`. */
  lemma ClassifyNumeric(g: Groups)
    requires WellFormed(g) && IsCanonical(g.minor) && IsCanonical(g.patch)
    ensures var k := Classify(g.minor, g.patch, g.preRelease);
      && (k == PreReleaseKind <==> g.preRelease.Some?)
      && (k == MajorKind <==> g.preRelease.None? && DigitsValue(g.minor) == 0 && DigitsValue(g.patch) == 0)
      && (k == MinorKind <==> g.preRelease.None? && DigitsValue(g.minor) > 0 && DigitsValue(g.patch) == 0)
      && (k == PatchKind <==> g.preRelease.None? && DigitsValue(g.patch) > 0)
  {
    CanonicalZero(g.minor);
    CanonicalZero(g.patch);
  }
}
