/** infra/gha/calculate-tag.js: for a pushed tag ref
    `refs/tags/<namespace>/vM.m.p[-N]`, the tag's type (one-hot bits), the
    previous tag of the namespace to diff against and, for a minor tag, the
    hotfixes of the previous tag's minor line. The git command and the
    filesystem are parameters. */
module CalculateTag {
  import opened Wrappers
  import opened Text
  import opened VersionText
  import opened Lists
  import opened RefName

  // ---------------------------------------------------------------------
  // Tag types (TAG_TYPE) and JavaScript numbers
  // ---------------------------------------------------------------------

  /** The one-hot bit of each tag type. */
  function TypeBit(k: TagKind): bv4 {
    match k
    case MajorKind => 0x8  // 0b1000
    case MinorKind => 0x4  // 0b0100
    case PatchKind => 0x2  // 0b0010
    case PreReleaseKind => 0x1  // 0b0001
  }

  /** A JavaScript number as `Number` produces them from the pieces of a
      tag: an integer, or `NaN`. */
  datatype JsNumber = Num(n: int) | NaN

  /** `Number(piece)`: `undefined` is NaN, "" is 0, a digit run is its value;
      any other text is taken to be NaN. */
  function ToNumber(piece: Option<string>): (r: JsNumber)
    ensures piece.None? ==> r == NaN
    ensures piece == Some("") ==> r == Num(0)
    ensures piece.Some? && IsDigits(piece.value) ==> r == Num(DigitsValue(piece.value))
    ensures piece.Some? && !AllDigits(piece.value) ==> r == NaN
    ensures r.Num? ==> r.n >= 0
  {
    match piece
    case None => NaN
    case Some(s) => if AllDigits(s) then Num(DigitsValue(s)) else NaN
  }

  /** A template literal's rendering of a number. */
  function Show(x: JsNumber): string {
    match x
    case NaN => "NaN"
    case Num(n) => if n >= 0 then NatToString(n) else "-" + NatToString(-n)
  }

  // ---------------------------------------------------------------------
  // parseRefName and version()
  // ---------------------------------------------------------------------

  datatype SemVer = SemVer(
    semver: string,
    tagType: TagKind,
    major: JsNumber,
    minor: JsNumber,
    patch: JsNumber,
    preRelease: JsNumber)

  datatype ParsedRef = ParsedRef(namespace: string, semver: SemVer)

  const ParseErrorPrefix := "Failed to parse refName: "

  /** `parseRefName`: the split pieces, typed by their texts and read as
      numbers; a missing piece to split is the TypeError, prefixed. */
  function ParseRefName(refName: string): (r: Result<ParsedRef, string>)
    ensures r.Err? <==> SplitRef(refName).None?
    ensures r.Err? ==> r.error == ParseErrorPrefix + SplitOfUndefined
    ensures r.Ok? ==> var p := SplitRef(refName).value;
      && r.value.namespace == p.namespace
      && r.value.semver.semver == p.semver
      && r.value.semver.tagType == Classify(p.minor, p.patch, p.preRelease)
      && r.value.semver.major == ToNumber(Some(p.major))
      && r.value.semver.minor == ToNumber(Some(p.minor))
      && r.value.semver.patch == ToNumber(Some(p.patch))
      && r.value.semver.preRelease == ToNumber(p.preRelease)
  {
    match SplitRef(refName)
    case None => Err(ParseErrorPrefix + SplitOfUndefined)
    case Some(p) =>
      Ok(ParsedRef(p.namespace,
        SemVer(p.semver, Classify(p.minor, p.patch, p.preRelease),
               ToNumber(Some(p.major)), ToNumber(Some(p.minor)), ToNumber(Some(p.patch)),
               ToNumber(p.preRelease))))
  }

  /** What `version()` prints after the namespace and its `/`. */
  function VersionTail(t: ParsedRef): string {
    "v" + Show(t.semver.major) + "." + Show(t.semver.minor) + "." + Show(t.semver.patch)
      + (if t.semver.preRelease.Num? then "-" + Show(t.semver.preRelease) else "")
  }

  /** Every field is a number, and not negative (as `Number` reads the
      pieces of a tag name), the pre-release possibly NaN. */
  predicate NonNegative(t: ParsedRef) {
    && t.semver.major.Num? && t.semver.major.n >= 0
    && t.semver.minor.Num? && t.semver.minor.n >= 0
    && t.semver.patch.Num? && t.semver.patch.n >= 0
    && (t.semver.preRelease.Num? ==> t.semver.preRelease.n >= 0)
  }

  /** The groups of the version grammar a tag's numbers print as; the
      pre-release group only for an integer pre-release. */
  function PrintedGroups(t: ParsedRef): Groups
    requires NonNegative(t)
  {
    Groups(NatToString(t.semver.major.n), NatToString(t.semver.minor.n), NatToString(t.semver.patch.n),
           if t.semver.preRelease.Num? then Some(NatToString(t.semver.preRelease.n)) else None)
  }

  /** `version()`: `namespace/vM.m.p`, with `-N` only when the pre-release
      is an integer (`Number.isInteger` is false for NaN). For non-negative
      numbers it is a tag name of the grammar, with the numbers printed
      without leading zeros (`ParseVersionOf` reads it back). */
  function Version(t: ParsedRef): (r: string)
    ensures StartsWith(r, t.namespace + "/v")
    ensures NonNegative(t) ==> WellFormed(PrintedGroups(t)) && r == RefNameOf(t.namespace, PrintedGroups(t))
  {
    PrintedVersion(t);
    t.namespace + "/" + VersionTail(t)
  }

  lemma PrintedVersion(t: ParsedRef)
    ensures StartsWith(t.namespace + "/" + VersionTail(t), t.namespace + "/v")
    ensures NonNegative(t) ==>
      WellFormed(PrintedGroups(t)) && t.namespace + "/" + VersionTail(t) == RefNameOf(t.namespace, PrintedGroups(t))
  {
    var tail := VersionTail(t);
    var ma, mi, pa := Show(t.semver.major), Show(t.semver.minor), Show(t.semver.patch);
    var suffix := if t.semver.preRelease.Num? then "-" + Show(t.semver.preRelease) else "";
    assert tail == "v" + ma + "." + mi + "." + pa + suffix;
    Regroup(ma, mi, pa, suffix);
    assert t.namespace + "/" + tail == (t.namespace + "/v") + (ma + "." + mi + "." + pa + suffix);
    if NonNegative(t) {
      var g := PrintedGroups(t);
      assert ma == g.major && mi == g.minor && pa == g.patch;
      assert suffix == match g.preRelease case None => "" case Some(p) => "-" + p;
    }
  }

  lemma Regroup(ma: string, mi: string, pa: string, suffix: string)
    ensures "v" + ma + "." + mi + "." + pa + suffix == "v" + (ma + "." + mi + "." + pa + suffix)
  {
  }

  /** Reading `version()` back: for a namespace without `/` and
      non-negative numbers, `parseRefName` of the printed name succeeds with
      the same namespace and numbers. */
  lemma ParseVersionOf(t: ParsedRef)
    requires '/' !in t.namespace && NonNegative(t)
    ensures ParseRefName(Version(t)).Ok?
    ensures var p := ParseRefName(Version(t)).value;
      && p.namespace == t.namespace
      && p.semver.major == t.semver.major && p.semver.minor == t.semver.minor
      && p.semver.patch == t.semver.patch && p.semver.preRelease == t.semver.preRelease
  {
    ParseRefNameRender(t.namespace, PrintedGroups(t));
  }

  /** A parsed number for each group, as `parseRefName` reads it. */
  function ParsedOf(namespace: string, g: Groups): ParsedRef
    requires WellFormed(g)
  {
    ParsedRef(namespace, SemVer(Render(g), Classify(g.minor, g.patch, g.preRelease),
      Num(DigitsValue(g.major)), Num(DigitsValue(g.minor)), Num(DigitsValue(g.patch)),
      match g.preRelease case None => NaN case Some(p) => Num(DigitsValue(p))))
  }

  /** A well-formed tag name parses to its namespace, its semver text, the
      values of its groups (NaN for an absent pre-release) and the type of
      its texts. */
  lemma ParseRefNameRender(namespace: string, g: Groups)
    requires '/' !in namespace && WellFormed(g)
    ensures ParseRefName(RefNameOf(namespace, g)) == Ok(ParsedOf(namespace, g))
  {
    SplitRefRender(namespace, g);
  }

  /** `parseRefName(r).version()` is `r` for every well-formed tag name
      without superfluous leading zeros. */
  lemma VersionRoundTrip(namespace: string, g: Groups)
    requires '/' !in namespace && WellFormed(g)
    requires IsCanonical(g.major) && IsCanonical(g.minor) && IsCanonical(g.patch)
    requires g.preRelease.Some? ==> IsCanonical(g.preRelease.value)
    ensures ParseRefName(RefNameOf(namespace, g)).Ok?
    ensures Version(ParseRefName(RefNameOf(namespace, g)).value) == RefNameOf(namespace, g)
  {
    ParseRefNameRender(namespace, g);
    VersionOfParsed(namespace, g);
  }

  lemma VersionOfParsed(namespace: string, g: Groups)
    requires WellFormed(g)
    requires IsCanonical(g.major) && IsCanonical(g.minor) && IsCanonical(g.patch)
    requires g.preRelease.Some? ==> IsCanonical(g.preRelease.value)
    ensures Version(ParsedOf(namespace, g)) == RefNameOf(namespace, g)
  {
    VersionTailOfRender(namespace, g);
    assert RefNameOf(namespace, g) == namespace + "/" + ("v" + Render(g));
  }

  /** Printing a canonical digit run's value gives the run back. */
  lemma ShowCanonical(s: string)
    requires IsCanonical(s)
    ensures Show(Num(DigitsValue(s))) == s
  {
    CanonicalRoundTrip(s);
  }

  lemma VersionTailOfRender(namespace: string, g: Groups)
    requires WellFormed(g)
    requires IsCanonical(g.major) && IsCanonical(g.minor) && IsCanonical(g.patch)
    requires g.preRelease.Some? ==> IsCanonical(g.preRelease.value)
    ensures VersionTail(ParsedOf(namespace, g)) == "v" + Render(g)
  {
    var t := ParsedOf(namespace, g);
    ShowCanonical(g.major);
    ShowCanonical(g.minor);
    ShowCanonical(g.patch);
    var suffix := if t.semver.preRelease.Num? then "-" + Show(t.semver.preRelease) else "";
    assert suffix == match g.preRelease case None => "" case Some(p) => "-" + p by {
      if g.preRelease.Some? {
        ShowCanonical(g.preRelease.value);
      }
    }
    assert VersionTail(t) == "v" + (g.major + "." + g.minor + "." + g.patch + suffix);
  }

  // ---------------------------------------------------------------------
  // compareTags
  // ---------------------------------------------------------------------

  /** `!==` is false only for two equal numbers: NaN differs from itself. */
  predicate StrictEquals(x: JsNumber, y: JsNumber) {
    x.Num? && y.Num? && x.n == y.n
  }

  function Minus(x: JsNumber, y: JsNumber): JsNumber {
    if x.Num? && y.Num? then Num(x.n - y.n) else NaN
  }

  function Times(order: int, x: JsNumber): JsNumber {
    if x.Num? then Num(order * x.n) else NaN
  }

  function Negate(x: JsNumber): JsNumber {
    Times(-1, x)
  }

  /** Both numbers, the first below the second. */
  ghost predicate NumberLess(x: JsNumber, y: JsNumber) {
    x.Num? && y.Num? && x.n < y.n
  }

  /** Not strictly equal because one side is NaN. */
  ghost predicate NaNDiffers(x: JsNumber, y: JsNumber) {
    x.NaN? || y.NaN?
  }

  /** The ascending order `compareTags` means where it yields a number:
      major, then minor, then patch, then pre-release, each level reached
      only when the levels before it are strictly equal. */
  ghost predicate NumericPrecedes(a: ParsedRef, b: ParsedRef) {
    || NumberLess(a.semver.major, b.semver.major)
    || (StrictEquals(a.semver.major, b.semver.major) && NumberLess(a.semver.minor, b.semver.minor))
    || (StrictEquals(a.semver.major, b.semver.major) && StrictEquals(a.semver.minor, b.semver.minor)
        && NumberLess(a.semver.patch, b.semver.patch))
    || (StrictEquals(a.semver.major, b.semver.major) && StrictEquals(a.semver.minor, b.semver.minor)
        && StrictEquals(a.semver.patch, b.semver.patch) && NumberLess(a.semver.preRelease, b.semver.preRelease))
  }

  /** The first level that is not strictly equal has a NaN on one side. */
  ghost predicate NaNDecides(a: ParsedRef, b: ParsedRef) {
    || NaNDiffers(a.semver.major, b.semver.major)
    || (StrictEquals(a.semver.major, b.semver.major) && NaNDiffers(a.semver.minor, b.semver.minor))
    || (StrictEquals(a.semver.major, b.semver.major) && StrictEquals(a.semver.minor, b.semver.minor)
        && NaNDiffers(a.semver.patch, b.semver.patch))
    || (StrictEquals(a.semver.major, b.semver.major) && StrictEquals(a.semver.minor, b.semver.minor)
        && StrictEquals(a.semver.patch, b.semver.patch) && NaNDiffers(a.semver.preRelease, b.semver.preRelease))
  }

  /** Scaling by the two orders the source uses. */
  lemma TimesUnit(order: int, x: JsNumber)
    ensures x.Num? && order == 1 ==> Times(order, x) == Num(x.n)
    ensures x.Num? && order == -1 ==> Times(order, x) == Num(-x.n)
    ensures x.NaN? ==> Times(order, x) == NaN
  {
    if x.Num? && order == 1 {
      assert 1 * x.n == x.n;
    } else if x.Num? && order == -1 {
      assert -1 * x.n == -x.n;
    }
  }

  /** `compareTags(order)(a, b)` as written: the first field that is not
      strictly equal decides, by `order * (a - b)`, which is NaN when either
      side is NaN (a stable tag's absent pre-release is NaN). For the two
      orders the source uses, the result is NaN exactly when a NaN decides,
      and otherwise its sign follows `NumericPrecedes`, reversed for -1. */
  function CompareTags(order: int, a: ParsedRef, b: ParsedRef): (r: JsNumber)
    ensures r.Num? && r.n != 0 ==> order != 0
    ensures StrictEquals(a.semver.major, b.semver.major) && StrictEquals(a.semver.minor, b.semver.minor)
            && StrictEquals(a.semver.patch, b.semver.patch) && StrictEquals(a.semver.preRelease, b.semver.preRelease)
            ==> r == Num(0)
    ensures order == 1 || order == -1 ==> (r.NaN? <==> NaNDecides(a, b))
    ensures order == 1 ==> (r.Num? && r.n < 0 <==> NumericPrecedes(a, b))
    ensures order == 1 ==> (r.Num? && r.n > 0 <==> NumericPrecedes(b, a))
    ensures order == -1 ==> (r.Num? && r.n < 0 <==> NumericPrecedes(b, a))
    ensures order == -1 ==> (r.Num? && r.n > 0 <==> NumericPrecedes(a, b))
  {
    TimesUnit(order, Minus(a.semver.major, b.semver.major));
    TimesUnit(order, Minus(a.semver.minor, b.semver.minor));
    TimesUnit(order, Minus(a.semver.patch, b.semver.patch));
    TimesUnit(order, Minus(a.semver.preRelease, b.semver.preRelease));
    if !StrictEquals(a.semver.major, b.semver.major) then Times(order, Minus(a.semver.major, b.semver.major))
    else if !StrictEquals(a.semver.minor, b.semver.minor) then Times(order, Minus(a.semver.minor, b.semver.minor))
    else if !StrictEquals(a.semver.patch, b.semver.patch) then Times(order, Minus(a.semver.patch, b.semver.patch))
    else if !StrictEquals(a.semver.preRelease, b.semver.preRelease) then Times(order, Minus(a.semver.preRelease, b.semver.preRelease))
    else Num(0)
  }

  /** The descending comparator is the ascending one negated. */
  lemma CompareTagsReversed(a: ParsedRef, b: ParsedRef)
    ensures CompareTags(-1, a, b) == Negate(CompareTags(1, a, b))
  {
  }

  /** How `sort` reads a comparator's result: NaN counts as 0. */
  function SortValue(c: JsNumber): int {
    if c.NaN? then 0 else c.n
  }

  /** The order `sort(compareTags(-1))` is given, as written. */
  predicate DescLeAsWritten(a: ParsedRef, b: ParsedRef) {
    SortValue(CompareTags(-1, a, b)) <= 0
  }

  /** As written the comparator is inconsistent, so `sort` may order the
      tags of one triple any way: a stable `1.1.0` compares equal (NaN) to
      both `1.1.0-0` and `1.1.0-1`, which do not compare equal. */
  lemma CompareTagsInconsistent()
    ensures var a := ParsedOf("ns", Groups("1", "1", "0", Some("0")));
      var b := ParsedOf("ns", Groups("1", "1", "0", None));
      var c := ParsedOf("ns", Groups("1", "1", "0", Some("1")));
      && CompareTags(-1, a, b) == NaN && CompareTags(-1, b, c) == NaN
      && DescLeAsWritten(a, b) && DescLeAsWritten(b, c) && !DescLeAsWritten(a, c)
    ensures !TotalPreorder(DescLeAsWritten)
  {
    var a := ParsedOf("ns", Groups("1", "1", "0", Some("0")));
    var b := ParsedOf("ns", Groups("1", "1", "0", None));
    var c := ParsedOf("ns", Groups("1", "1", "0", Some("1")));
    assert DigitsValue("1") == 1 by {
      assert "1"[..0] == [];
    }
    assert DigitsValue("0") == 0 by {
      assert "0"[..0] == [];
    }
    assert DescLeAsWritten(a, b) && DescLeAsWritten(b, c) && !DescLeAsWritten(a, c);
  }

  /** Numbers by value, NaN below every number. */
  function CompareNumbers(x: JsNumber, y: JsNumber): int {
    match (x, y)
    case (Num(m), Num(n)) => m - n
    case (NaN, NaN) => 0
    case (NaN, Num(_)) => -1
    case (Num(_), NaN) => 1
  }

  /** Pre-releases by number, the release (NaN) after every pre-release. */
  function ComparePreReleases(x: JsNumber, y: JsNumber): int {
    match (x, y)
    case (Num(m), Num(n)) => m - n
    case (NaN, NaN) => 0
    case (NaN, Num(_)) => 1
    case (Num(_), NaN) => -1
  }

  /** The comparator as evidently intended: NaN is compared like a value,
      a pre-release comes before its release. It gives exactly the result
      of `compareTags` wherever that is a number, and at one triple it
      places pre-releases before the release. */
  function CompareTagsOrdered(order: int, a: ParsedRef, b: ParsedRef): (r: int)
    ensures CompareTags(order, a, b).Num? ==> r == CompareTags(order, a, b).n
    ensures order == 1 && StrictEquals(a.semver.major, b.semver.major) && StrictEquals(a.semver.minor, b.semver.minor)
            && StrictEquals(a.semver.patch, b.semver.patch) && a.semver.preRelease.Num? && b.semver.preRelease.NaN?
            ==> r < 0
  {
    order * CompareKeys(a, b)
  }

  /** NaN below every number (major, minor, patch). */
  ghost predicate KeyBelow(x: JsNumber, y: JsNumber) {
    (x.NaN? && y.Num?) || NumberLess(x, y)
  }

  /** A pre-release (a number) below the release (NaN). */
  ghost predicate PreReleaseBelow(x: JsNumber, y: JsNumber) {
    (x.Num? && y.NaN?) || NumberLess(x, y)
  }

  /** The corrected ascending order: major, minor and patch by value with
      NaN lowest, then pre-releases by number before the release. */
  ghost predicate KeysPrecede(a: ParsedRef, b: ParsedRef) {
    || KeyBelow(a.semver.major, b.semver.major)
    || (a.semver.major == b.semver.major && KeyBelow(a.semver.minor, b.semver.minor))
    || (a.semver.major == b.semver.major && a.semver.minor == b.semver.minor
        && KeyBelow(a.semver.patch, b.semver.patch))
    || (a.semver.major == b.semver.major && a.semver.minor == b.semver.minor
        && a.semver.patch == b.semver.patch && PreReleaseBelow(a.semver.preRelease, b.semver.preRelease))
  }

  ghost predicate SameKeys(a: ParsedRef, b: ParsedRef) {
    && a.semver.major == b.semver.major && a.semver.minor == b.semver.minor
    && a.semver.patch == b.semver.patch && a.semver.preRelease == b.semver.preRelease
  }

  /** The ascending comparison `CompareTagsOrdered` scales by `order`: the
      first field that differs decides. Negative, zero or positive exactly
      as `a` precedes, has the keys of, or follows `b`. */
  function CompareKeys(a: ParsedRef, b: ParsedRef): (r: int)
    ensures r < 0 <==> KeysPrecede(a, b)
    ensures r > 0 <==> KeysPrecede(b, a)
    ensures r == 0 <==> SameKeys(a, b)
  {
    if CompareNumbers(a.semver.major, b.semver.major) != 0 then CompareNumbers(a.semver.major, b.semver.major)
    else if CompareNumbers(a.semver.minor, b.semver.minor) != 0 then CompareNumbers(a.semver.minor, b.semver.minor)
    else if CompareNumbers(a.semver.patch, b.semver.patch) != 0 then CompareNumbers(a.semver.patch, b.semver.patch)
    else ComparePreReleases(a.semver.preRelease, b.semver.preRelease)
  }

  lemma CompareKeysTransitive(a: ParsedRef, b: ParsedRef, c: ParsedRef)
    ensures CompareKeys(a, b) <= 0 && CompareKeys(b, c) <= 0 ==> CompareKeys(a, c) <= 0
    ensures CompareKeys(a, b) >= 0 && CompareKeys(b, c) >= 0 ==> CompareKeys(a, c) >= 0
  {
  }

  /** The order of `sort(compareTags(1))`, corrected. */
  predicate AscLe(a: ParsedRef, b: ParsedRef) {
    CompareTagsOrdered(1, a, b) <= 0
  }

  /** The order of `sort(compareTags(-1))`, corrected. */
  predicate DescLe(a: ParsedRef, b: ParsedRef) {
    CompareTagsOrdered(-1, a, b) <= 0
  }

  lemma CompareTagsOrderedTransitive(order: int, a: ParsedRef, b: ParsedRef, c: ParsedRef)
    requires order == 1 || order == -1
    requires CompareTagsOrdered(order, a, b) <= 0 && CompareTagsOrdered(order, b, c) <= 0
    ensures CompareTagsOrdered(order, a, c) <= 0
  {
    CompareKeysTransitive(a, b, c);
    if order == 1 {
      assert CompareTagsOrdered(1, a, b) == CompareKeys(a, b);
      assert CompareTagsOrdered(1, b, c) == CompareKeys(b, c);
      assert CompareTagsOrdered(1, a, c) == CompareKeys(a, c);
    } else {
      assert CompareTagsOrdered(-1, a, b) == -CompareKeys(a, b);
      assert CompareTagsOrdered(-1, b, c) == -CompareKeys(b, c);
      assert CompareTagsOrdered(-1, a, c) == -CompareKeys(a, c);
    }
  }

  /** The corrected comparator is consistent in both directions. */
  lemma CompareTagsOrderedTotalPreorder()
    ensures TotalPreorder(AscLe) && TotalPreorder(DescLe)
  {
    forall a: ParsedRef, b: ParsedRef, c: ParsedRef | AscLe(a, b) && AscLe(b, c) ensures AscLe(a, c) {
      CompareTagsOrderedTransitive(1, a, b, c);
    }
    forall a: ParsedRef, b: ParsedRef, c: ParsedRef | DescLe(a, b) && DescLe(b, c) ensures DescLe(a, c) {
      CompareTagsOrderedTransitive(-1, a, b, c);
    }
  }

  /** `sort(compareTags(-1))`, with the corrected comparator. */
  function SortDescending(tags: seq<ParsedRef>): (r: seq<ParsedRef>)
    ensures Sorted(r, DescLe)
    ensures multiset(r) == multiset(tags)
    ensures forall t :: t in r <==> t in tags
  {
    CompareTagsOrderedTotalPreorder();
    SortedMembers(tags, DescLe);
    InsertionSort(tags, DescLe)
  }

  /** `sort(compareTags(1))`, with the corrected comparator. */
  function SortAscending(tags: seq<ParsedRef>): (r: seq<ParsedRef>)
    ensures Sorted(r, AscLe)
    ensures multiset(r) == multiset(tags)
    ensures forall t :: t in r <==> t in tags
  {
    CompareTagsOrderedTotalPreorder();
    SortedMembers(tags, AscLe);
    InsertionSort(tags, AscLe)
  }

  // ---------------------------------------------------------------------
  // filterTagByType and loadTagLists
  // ---------------------------------------------------------------------

  /** The types whose bit is set in `mask`. */
  function TypesIn(mask: bv4): set<TagKind> {
    (if TypeBit(MajorKind) & mask != 0 then {MajorKind} else {})
    + (if TypeBit(MinorKind) & mask != 0 then {MinorKind} else {})
    + (if TypeBit(PatchKind) & mask != 0 then {PatchKind} else {})
    + (if TypeBit(PreReleaseKind) & mask != 0 then {PreReleaseKind} else {})
  }

  /** `filterTagByType(mask)`: keeps a tag exactly when its type is one of
      the mask's types. */
  function FilterTagByType(typeComparator: bv4): (r: ParsedRef -> bool)
    ensures forall tag :: r(tag) <==> tag.semver.tagType in TypesIn(typeComparator)
  {
    (tag: ParsedRef) => TypeBit(tag.semver.tagType) & typeComparator != 0
  }

  /** The mask of a set of types holds exactly those types. */
  lemma TypesOfMask(types: set<TagKind>)
    ensures TypesIn(MaskOf(types)) == types
  {
    forall k ensures k in TypesIn(MaskOf(types)) <==> k in types {
      match k
      case MajorKind =>
      case MinorKind =>
      case PatchKind =>
      case PreReleaseKind =>
    }
  }

  /** The mask with the bits of `types`. */
  function MaskOf(types: set<TagKind>): bv4 {
    (if MajorKind in types then TypeBit(MajorKind) else 0)
    | (if MinorKind in types then TypeBit(MinorKind) else 0)
    | (if PatchKind in types then TypeBit(PatchKind) else 0)
    | (if PreReleaseKind in types then TypeBit(PreReleaseKind) else 0)
  }

  /** Bitmask membership: the filter for the mask of a set of types keeps
      exactly the tags whose type is in the set. */
  lemma FilterTagByTypeMembership(types: set<TagKind>, tag: ParsedRef)
    ensures FilterTagByType(MaskOf(types))(tag) <==> tag.semver.tagType in types
  {
  }

  const ExecErrorPrefix := "Failed to execute command: "
  const FetchErrorPrefix := "Failed to fetch tags: "

  /** `names.map(parseRefName)`: every name parsed, or the error of the
      first one that does not parse. */
  function ParseAll(names: seq<string>): (r: Result<seq<ParsedRef>, string>)
    ensures r.Ok? <==> forall i :: 0 <= i < |names| ==> ParseRefName(names[i]).Ok?
    ensures r.Ok? ==> |r.value| == |names| && forall i :: 0 <= i < |names| ==> ParseRefName(names[i]) == Ok(r.value[i])
    ensures r.Err? ==> r.error == ParseErrorPrefix + SplitOfUndefined
  {
    MapAll(names, ParseRefName)
  }

  /** `.filter((t) => t.namespace === namespace).sort(compareTags(-1))`:
      the tags of the namespace, each as often as it is parsed, newest
      first. */
  function NamespaceTagsNewestFirst(parsed: seq<ParsedRef>, namespace: string): (r: seq<ParsedRef>)
    ensures Sorted(r, DescLe)
    ensures forall t :: t in r <==> t in parsed && t.namespace == namespace
    ensures forall t {:trigger multiset(r)[t]} :: multiset(r)[t] ==
              if t.namespace == namespace then multiset(parsed)[t] else 0
  {
    SortDescending(Filter(parsed, (t: ParsedRef) => t.namespace == namespace))
  }

  /** `loadTagLists`, over the trimmed output of `git tag -l "<ns>/v*"` (or
      the message the command failed with): no output is no tags; otherwise
      the lines parsed, those of the namespace kept, sorted descending. */
  function LoadTagLists(namespace: string, gitOutput: Result<string, string>): (r: Result<seq<ParsedRef>, string>)
    ensures gitOutput.Err? ==> r == Err(FetchErrorPrefix + ExecErrorPrefix + gitOutput.error)
    ensures gitOutput.Ok? && Split(gitOutput.value, '\n')[0] == "" ==> r == Ok([])
    ensures gitOutput.Ok? && Split(gitOutput.value, '\n')[0] != "" ==>
      (r.Err? <==> ParseAll(Split(gitOutput.value, '\n')).Err?)
    ensures r.Err? && gitOutput.Ok? ==> r.error == FetchErrorPrefix + ParseErrorPrefix + SplitOfUndefined
    ensures r.Ok? ==> Sorted(r.value, DescLe) && forall t :: t in r.value ==> t.namespace == namespace
    ensures r.Ok? && Split(gitOutput.value, '\n')[0] != "" ==>
      forall t :: t in r.value <==> t in ParseAll(Split(gitOutput.value, '\n')).value && t.namespace == namespace
    ensures r.Ok? && Split(gitOutput.value, '\n')[0] != "" ==>
      forall t {:trigger multiset(r.value)[t]} :: multiset(r.value)[t] ==
        if t.namespace == namespace then multiset(ParseAll(Split(gitOutput.value, '\n')).value)[t] else 0
  {
    match gitOutput
    case Err(e) => Err(FetchErrorPrefix + ExecErrorPrefix + e)
    case Ok(output) =>
      var tags := Split(output, '\n');
      if |tags| == 0 || tags[0] == "" then
        Ok([])
      else
        match ParseAll(tags)
        case Err(e) => Err(FetchErrorPrefix + e)
        case Ok(parsed) => Ok(NamespaceTagsNewestFirst(parsed, namespace))
  }

  // ---------------------------------------------------------------------
  // findPreviousTag and getHotfixTag
  // ---------------------------------------------------------------------

  /** The types `findPreviousTag` looks at for a tag of type `k`: the
      major and minor tags, plus patch tags for a patch and pre-releases for
      a pre-release. */
  function AllowedTypes(k: TagKind): set<TagKind> {
    match k
    case MajorKind => {MajorKind, MinorKind}
    case MinorKind => {MajorKind, MinorKind}
    case PatchKind => {MajorKind, MinorKind, PatchKind}
    case PreReleaseKind => {MajorKind, MinorKind, PreReleaseKind}
  }

  /** The tags of allowed types, newest first. */
  function SemverTags(listTags: seq<ParsedRef>, k: TagKind): (r: seq<ParsedRef>)
    ensures Sorted(r, DescLe)
    ensures forall t :: t in r <==> t in listTags && t.semver.tagType in AllowedTypes(k)
    ensures forall t {:trigger multiset(r)[t]} :: multiset(r)[t] ==
              if t.semver.tagType in AllowedTypes(k) then multiset(listTags)[t] else 0
  {
    forall t ensures FilterTagByType(MaskOf(AllowedTypes(k)))(t) <==> t.semver.tagType in AllowedTypes(k) {
      FilterTagByTypeMembership(AllowedTypes(k), t);
    }
    SortDescending(Filter(listTags, FilterTagByType(MaskOf(AllowedTypes(k)))))
  }

  /** The tags whose `version()` is `version`. */
  function PrintsAs(version: string): ParsedRef -> bool {
    (t: ParsedRef) => Version(t) == version
  }

  /** The mask `findPreviousTag`'s switch sets for each type. */
  lemma AllowedMask(k: TagKind)
    ensures MaskOf(AllowedTypes(k)) == match k
      case MajorKind => TypeBit(MajorKind) | TypeBit(MinorKind)
      case MinorKind => TypeBit(MajorKind) | TypeBit(MinorKind)
      case PatchKind => TypeBit(MajorKind) | TypeBit(MinorKind) | TypeBit(PatchKind)
      case PreReleaseKind => TypeBit(MajorKind) | TypeBit(MinorKind) | TypeBit(PreReleaseKind)
  {
  }

  /** What `findPreviousTag` returns: in the allowed tags, newest first, the
      one right after the first that prints like `parsedTag`; none when no
      tag prints like it or that tag comes last. The result is a listed tag
      of an allowed type, not newer than a tag that prints like `parsedTag`. */
  function PreviousTagOf(listTags: seq<ParsedRef>, parsedTag: ParsedRef): Option<ParsedRef> {
    NextAfterFirst(SemverTags(listTags, parsedTag.semver.tagType), PrintsAs(Version(parsedTag)))
  }

  /** There is no previous tag exactly when no allowed tag prints like the
      tag, or the first one that does is the oldest. */
  lemma PreviousTagOfAbsent(listTags: seq<ParsedRef>, parsedTag: ParsedRef)
    ensures var st := SemverTags(listTags, parsedTag.semver.tagType);
      PreviousTagOf(listTags, parsedTag).None? <==>
        (forall i :: 0 <= i < |st| ==> Version(st[i]) != Version(parsedTag))
        || FindIndex(st, PrintsAs(Version(parsedTag))) == Some(|st| - 1)
  {
    var st := SemverTags(listTags, parsedTag.semver.tagType);
    var p := PrintsAs(Version(parsedTag));
    var none := forall i :: 0 <= i < |st| ==> Version(st[i]) != Version(parsedTag);
    match FindIndex(st, p)
    case None =>
      assert none by {
        forall i | 0 <= i < |st| ensures Version(st[i]) != Version(parsedTag) {
          assert !p(st[i]);
        }
      }
    case Some(i) =>
      assert !none by {
        assert p(st[i]);
      }
      assert PreviousTagOf(listTags, parsedTag).None? <==> i == |st| - 1;
  }

  /** A previous tag is one of the listed tags, of an allowed type, and not
      newer than a listed tag that prints like the tag. */
  lemma PreviousTagOfPresent(listTags: seq<ParsedRef>, parsedTag: ParsedRef)
    requires PreviousTagOf(listTags, parsedTag).Some?
    ensures var r := PreviousTagOf(listTags, parsedTag).value;
      && r in listTags && r.semver.tagType in AllowedTypes(parsedTag.semver.tagType)
      && exists t :: t in listTags && Version(t) == Version(parsedTag) && DescLe(t, r)
  {
    var st := SemverTags(listTags, parsedTag.semver.tagType);
    var i := FindIndex(st, PrintsAs(Version(parsedTag))).value;
    NextInSemverTags(listTags, parsedTag.semver.tagType, i);
    assert PrintsAs(Version(parsedTag))(st[i]);
  }

  /** The tag after position `i` of the sorted list is one of the input
      tags, of an allowed type, and not above the tag at `i`. */
  lemma NextInSemverTags(listTags: seq<ParsedRef>, k: TagKind, i: nat)
    requires i + 1 < |SemverTags(listTags, k)|
    ensures var st := SemverTags(listTags, k);
      && st[i] in listTags && st[i + 1] in listTags && st[i + 1].semver.tagType in AllowedTypes(k)
      && DescLe(st[i], st[i + 1])
  {
    var st := SemverTags(listTags, k);
    assert st[i] in st && st[i + 1] in st;
  }

  /** `findPreviousTag`: chooses the type mask, filters and sorts, then
      scans for the tag. */
  method FindPreviousTag(listTags: seq<ParsedRef>, parsedTag: ParsedRef) returns (previous: Option<ParsedRef>)
    ensures previous == PreviousTagOf(listTags, parsedTag)
  {
    var filterTagBy: bv4 := 0;
    match parsedTag.semver.tagType {
      case MajorKind =>
        filterTagBy := TypeBit(MajorKind) | TypeBit(MinorKind);
      case MinorKind =>
        filterTagBy := TypeBit(MajorKind) | TypeBit(MinorKind);
      case PatchKind =>
        filterTagBy := TypeBit(MajorKind) | TypeBit(MinorKind) | TypeBit(PatchKind);
      case PreReleaseKind =>
        filterTagBy := TypeBit(MajorKind) | TypeBit(MinorKind) | TypeBit(PreReleaseKind);
    }
    assert filterTagBy == MaskOf(AllowedTypes(parsedTag.semver.tagType)) by {
      AllowedMask(parsedTag.semver.tagType);
    }
    var semverTags := SortDescending(Filter(listTags, FilterTagByType(filterTagBy)));
    previous := ScanForPrevious(semverTags, Version(parsedTag));
  }

  /** The `for` loop of `findPreviousTag`: walks the tags newest first and,
      at the first one that prints as `version`, answers the tag after it
      (none when it is the last); none when no tag prints as `version`. */
  method ScanForPrevious(semverTags: seq<ParsedRef>, version: string) returns (previous: Option<ParsedRef>)
    ensures previous == NextAfterFirst(semverTags, PrintsAs(version))
  {
    for i := 0 to |semverTags|
      invariant forall j :: 0 <= j < i ==> !PrintsAs(version)(semverTags[j])
    {
      if Version(semverTags[i]) == version {
        assert PrintsAs(version)(semverTags[i]);
        FindIndexAt(semverTags, PrintsAs(version), i);
        if i + 1 < |semverTags| {
          return Some(semverTags[i + 1]);
        }
        return None;
      }
      assert !PrintsAs(version)(semverTags[i]);
    }
    return None;
  }

  /** `getHotfixTag`: the patch tags with the previous tag's major and minor
      (compared with `===`, so a NaN field matches nothing), oldest first. */
  function GetHotfixTag(listTags: seq<ParsedRef>, previousTag: ParsedRef): (r: seq<ParsedRef>)
    ensures Sorted(r, AscLe)
    ensures forall t :: t in r <==>
      && t in listTags && t.semver.tagType == PatchKind
      && StrictEquals(t.semver.major, previousTag.semver.major)
      && StrictEquals(t.semver.minor, previousTag.semver.minor)
    ensures forall t {:trigger multiset(r)[t]} :: multiset(r)[t] ==
              if && t.semver.tagType == PatchKind
                 && StrictEquals(t.semver.major, previousTag.semver.major)
                 && StrictEquals(t.semver.minor, previousTag.semver.minor)
              then multiset(listTags)[t] else 0
  {
    var patches := Filter(listTags, FilterTagByType(TypeBit(PatchKind)));
    assert TypeBit(PatchKind) == MaskOf({PatchKind});
    forall t ensures FilterTagByType(TypeBit(PatchKind))(t) <==> t.semver.tagType == PatchKind {
      FilterTagByTypeMembership({PatchKind}, t);
    }
    SortAscending(Filter(patches, (tag: ParsedRef) =>
      StrictEquals(tag.semver.major, previousTag.semver.major)
      && StrictEquals(tag.semver.minor, previousTag.semver.minor)))
  }

  function Versions(tags: seq<ParsedRef>): (r: seq<string>)
    ensures |r| == |tags| && forall i :: 0 <= i < |tags| ==> r[i] == Version(tags[i])
  {
    seq(|tags|, i requires 0 <= i < |tags| => Version(tags[i]))
  }

  /** `map((t) => t.version()).join(",")`: empty exactly for no tags; for
      namespaces without `,` it splits at `,` back into the tags' versions,
      in order. */
  function HotfixList(hotfixes: seq<ParsedRef>): (r: string)
    ensures r == "" <==> hotfixes == []
    ensures hotfixes != [] && (forall t :: t in hotfixes ==> ',' !in t.namespace) ==>
      Split(r, ',') == Versions(hotfixes)
  {
    JoinedVersions(hotfixes);
    Join(Versions(hotfixes), ",")
  }

  lemma JoinedVersions(hotfixes: seq<ParsedRef>)
    ensures Join(Versions(hotfixes), ",") == "" <==> hotfixes == []
    ensures hotfixes != [] && (forall t :: t in hotfixes ==> ',' !in t.namespace) ==>
      Split(Join(Versions(hotfixes), ","), ',') == Versions(hotfixes)
  {
    var versions := Versions(hotfixes);
    if hotfixes != [] {
      assert Version(hotfixes[0]) != "" by {
        assert |Version(hotfixes[0])| >= 2;
      }
      JoinNonEmpty(versions, ",");
      if forall t :: t in hotfixes ==> ',' !in t.namespace {
        forall i | 0 <= i < |versions| ensures ',' !in versions[i] {
          assert hotfixes[i] in hotfixes;
          VersionHasNoComma(hotfixes[i]);
        }
        SplitJoin(versions, ',');
      }
    }
  }

  lemma VersionHasNoComma(t: ParsedRef)
    requires ',' !in t.namespace
    ensures ',' !in Version(t)
  {
    ShowHasNoSeparator(t.semver.major);
    ShowHasNoSeparator(t.semver.minor);
    ShowHasNoSeparator(t.semver.patch);
    ShowHasNoSeparator(t.semver.preRelease);
  }

  // ---------------------------------------------------------------------
  // validateRef
  // ---------------------------------------------------------------------

  const ValidateErrorPrefix := "Failed to validate ref: "

  /** `ref.split("/")[i]`, with "" for `undefined` (both are falsy, and
      neither is used once the checks have passed). */
  function Segment(ref: string, i: nat): (r: string)
    ensures '/' !in r
  {
    var parts := Split(ref, '/');
    if i < |parts| then parts[i] else ""
  }

  /** `/^v\d+\.\d+\.\d+(-\d+)?$/.test(s)`. */
  predicate IsVSemver(s: string) {
    |s| > 0 && s[0] == 'v' && Match(s[1..]).Some?
  }

  /** `validateRef`, with the namespace directory check as a parameter:
      the checks fail in this order: no ref, not a tag ref, no namespace,
      no semver, a semver not of the form `vM.m.p[-N]`, no such namespace
      directory. On success, `namespace/semver` from the ref's third and
      fourth segments. */
  function ValidateRef(ref: Option<string>, namespaceDirExists: string -> bool): (r: Result<string, string>)
    ensures ref.None? || ref == Some("") ==> r == Err(ValidateErrorPrefix + "Ref is required")
    ensures ref.Some? && ref.value != "" && !StartsWith(ref.value, "refs/tags/") ==>
      r == Err(ValidateErrorPrefix + "Ref must be a tag")
    ensures ref.Some? && StartsWith(ref.value, "refs/tags/") && Segment(ref.value, 2) == "" ==>
      r == Err(ValidateErrorPrefix + "Namespace is required")
    ensures ref.Some? && StartsWith(ref.value, "refs/tags/") && Segment(ref.value, 2) != ""
            && Segment(ref.value, 3) == "" ==>
      r == Err(ValidateErrorPrefix + "Semver is required")
    ensures ref.Some? && StartsWith(ref.value, "refs/tags/") && Segment(ref.value, 2) != ""
            && Segment(ref.value, 3) != "" && !IsVSemver(Segment(ref.value, 3)) ==>
      r == Err(ValidateErrorPrefix + "Invalid semver format")
    ensures ref.Some? && StartsWith(ref.value, "refs/tags/") && Segment(ref.value, 2) != ""
            && IsVSemver(Segment(ref.value, 3)) && !namespaceDirExists(Segment(ref.value, 2)) ==>
      r == Err(ValidateErrorPrefix + "Invalid namespace " + Segment(ref.value, 2))
    ensures r.Ok? <==> ref.Some? && StartsWith(ref.value, "refs/tags/") && Segment(ref.value, 2) != ""
                       && IsVSemver(Segment(ref.value, 3)) && namespaceDirExists(Segment(ref.value, 2))
    ensures r.Ok? ==> r.value == Segment(ref.value, 2) + "/" + Segment(ref.value, 3)
  {
    if ref.None? || ref.value == "" then Err(ValidateErrorPrefix + "Ref is required")
    else if !StartsWith(ref.value, "refs/tags/") then Err(ValidateErrorPrefix + "Ref must be a tag")
    else
      var namespace := Segment(ref.value, 2);
      var semver := Segment(ref.value, 3);
      if namespace == "" then Err(ValidateErrorPrefix + "Namespace is required")
      else if semver == "" then Err(ValidateErrorPrefix + "Semver is required")
      else if !IsVSemver(semver) then Err(ValidateErrorPrefix + "Invalid semver format")
      else if !namespaceDirExists(namespace) then Err(ValidateErrorPrefix + "Invalid namespace " + namespace)
      else Ok(namespace + "/" + semver)
  }

  /** A validated ref always parses: the namespace is the ref's third
      segment and the semver its fourth without the `v`. */
  lemma ValidatedRefParses(ref: Option<string>, namespaceDirExists: string -> bool)
    requires ValidateRef(ref, namespaceDirExists).Ok?
    ensures var refName := ValidateRef(ref, namespaceDirExists).value;
      && ParseRefName(refName).Ok?
      && ParseRefName(refName).value.namespace == Segment(ref.value, 2)
      && ParseRefName(refName).value.semver.semver == Segment(ref.value, 3)[1..]
  {
    var semver := Segment(ref.value, 3);
    SegmentsParse(Segment(ref.value, 2), semver);
    assert Render(Match(semver[1..]).value) == semver[1..];
  }

  /** `namespace/semver` parses when the namespace has no `/` and the
      semver is `v` and a version. */
  lemma SegmentsParse(namespace: string, semver: string)
    requires '/' !in namespace && IsVSemver(semver)
    ensures ParseRefName(namespace + "/" + semver) == Ok(ParsedOf(namespace, Match(semver[1..]).value))
  {
    VSemverName(namespace, semver);
    ParseRefNameRender(namespace, Match(semver[1..]).value);
  }

  lemma VSemverName(namespace: string, semver: string)
    requires IsVSemver(semver)
    ensures namespace + "/" + semver == RefNameOf(namespace, Match(semver[1..]).value)
  {
    PrependV(namespace, semver, Render(Match(semver[1..]).value));
  }

  lemma PrependV(namespace: string, semver: string, rest: string)
    requires |semver| > 0 && semver[0] == 'v' && semver[1..] == rest
    ensures namespace + "/" + semver == namespace + "/v" + rest
  {
    assert semver == "v" + rest;
  }

  // ---------------------------------------------------------------------
  // buildOutput and calculatePreviousTag
  // ---------------------------------------------------------------------

  /** `tag.version().split("/")[1]`. */
  function ShortTag(t: ParsedRef): (r: string)
    ensures '/' !in t.namespace ==> r == VersionTail(t)
  {
    var pieces := Split(Version(t), '/');
    assert Version(t) == t.namespace + ['/'] + VersionTail(t);
    assert Version(t)[|t.namespace|] == '/';
    SplitFirstPiece(Version(t), '/');
    ShortTagTail(t);
    pieces[1]
  }

  lemma ShortTagTail(t: ParsedRef)
    ensures '/' !in t.namespace ==> Split(Version(t), '/') == [t.namespace, VersionTail(t)]
  {
    VersionTailHasNoSlash(t);
    if '/' !in t.namespace {
      SplitVersion(t);
    }
  }

  lemma VersionTailHasNoSlash(t: ParsedRef)
    ensures '/' !in VersionTail(t)
  {
    ShowHasNoSeparator(t.semver.major);
    ShowHasNoSeparator(t.semver.minor);
    ShowHasNoSeparator(t.semver.patch);
    ShowHasNoSeparator(t.semver.preRelease);
  }

  lemma SplitVersion(t: ParsedRef)
    requires '/' !in t.namespace && '/' !in VersionTail(t)
    ensures Split(Version(t), '/') == [t.namespace, VersionTail(t)]
  {
    assert Version(t) == t.namespace + ['/'] + VersionTail(t);
    SplitAfter(t.namespace, VersionTail(t), '/');
    SplitWithout(VersionTail(t), '/');
  }

  lemma ShowHasNoSeparator(x: JsNumber)
    ensures '/' !in Show(x) && ',' !in Show(x)
  {
    if x.Num? {
      var digits := NatToString(if x.n >= 0 then x.n else -x.n);
      DigitsHaveNoPunctuation(digits);
    }
  }

  /** The action's outputs (before `JSON.stringify`). */
  datatype Output = Output(
    tagPrdSemver: bool,
    tag: Option<string>,
    shortTag: string,
    previousTag: Option<string>,
    hotfixes: Option<string>)

  /** `buildOutput`: a production tag is any tag that is not a
      pre-release; no tag gives no tag, an empty short tag and `false`. */
  method BuildOutput(tag: Option<ParsedRef>, previousTag: Option<ParsedRef>, hotfixes: Option<string>)
    returns (output: Output)
    ensures tag.None? ==> output.tag.None? && !output.tagPrdSemver && output.shortTag == ""
    ensures tag.Some? ==> output.tag == Some(Version(tag.value)) && output.shortTag == ShortTag(tag.value)
    ensures tag.Some? ==> (output.tagPrdSemver <==> tag.value.semver.tagType != PreReleaseKind)
    ensures output.previousTag == if previousTag.Some? then Some(Version(previousTag.value)) else None
    ensures output.hotfixes == hotfixes
  {
    var tagVersion: Option<string> := None;
    var tagPrdSemver := false;
    var previousTagVersion: Option<string> := None;
    var shortTag := "";
    if tag.Some? {
      tagVersion := Some(Version(tag.value));
      tagPrdSemver := tag.value.semver.tagType != PreReleaseKind;
      shortTag := ShortTag(tag.value);
    }
    if previousTag.Some? {
      previousTagVersion := Some(Version(previousTag.value));
    }
    output := Output(tagPrdSemver, tagVersion, shortTag, previousTagVersion, hotfixes);
  }

  /** The TypeError message of calling `.startsWith` on `undefined`. */
  const StartsWithOfUndefined := "Cannot read properties of undefined (reading 'startsWith')"

  /** The outputs for a validated tag ref whose namespace's tags are `list`. */
  function TagOutput(parsedTag: ParsedRef, list: seq<ParsedRef>): Output {
    var previous := if list == [] then None else PreviousTagOf(list, parsedTag);
    var hotfixes :=
      if previous.Some? && parsedTag.semver.tagType == MinorKind then HotfixList(GetHotfixTag(list, previous.value))
      else "";
    Output(parsedTag.semver.tagType != PreReleaseKind, Some(Version(parsedTag)), ShortTag(parsedTag),
           if previous.Some? then Some(Version(previous.value)) else None, Some(hotfixes))
  }

  /** `calculatePreviousTag` for `context.ref`, with the namespace
      directory check and `git tag -l` as parameters; `Err` carries the
      message the action fails with. A branch ref gives the empty output;
      a tag ref is validated (a validated ref always parses), its
      namespace's tags loaded, and the previous tag (and, for a minor tag
      with a previous tag, the hotfixes) computed. */
  method CalculatePreviousTag(ref: Option<string>, namespaceDirExists: string -> bool,
                              gitTagList: string -> Result<string, string>)
    returns (r: Result<Output, string>)
    ensures ref.None? ==> r == Err(StartsWithOfUndefined)
    ensures ref.Some? && StartsWith(ref.value, "refs/heads/") ==> r == Ok(Output(false, None, "", None, None))
    ensures ref.Some? && !StartsWith(ref.value, "refs/heads/") ==>
      match ValidateRef(ref, namespaceDirExists)
      case Err(e) => r == Err(e)
      case Ok(refName) =>
        && ParseRefName(refName).Ok?
        && var parsedTag := ParseRefName(refName).value;
           match LoadTagLists(parsedTag.namespace, gitTagList(parsedTag.namespace))
           case Err(e) => r == Err(e)
           case Ok(list) => r == Ok(TagOutput(parsedTag, list))
  {
    if ref.None? {
      return Err(StartsWithOfUndefined);
    }
    if StartsWith(ref.value, "refs/heads/") {
      var output := BuildOutput(None, None, None);
      return Ok(output);
    }
    var validated := ValidateRef(ref, namespaceDirExists);
    if validated.Err? {
      return Err(validated.error);
    }
    var refName := validated.value;
    ValidatedRefParses(ref, namespaceDirExists);
    var parsedTag := ParseRefName(refName).value;
    var previousTag: Option<ParsedRef> := None;
    var hotfixTagListStr := "";
    var loaded := LoadTagLists(parsedTag.namespace, gitTagList(parsedTag.namespace));
    if loaded.Err? {
      return Err(loaded.error);
    }
    var listtag := loaded.value;
    if |listtag| > 0 {
      previousTag := FindPreviousTag(listtag, parsedTag);
      if previousTag.Some? && parsedTag.semver.tagType == MinorKind {
        var hotfixTagList := GetHotfixTag(listtag, previousTag.value);
        hotfixTagListStr := HotfixList(hotfixTagList);
      }
    }
    var output := BuildOutput(Some(parsedTag), previousTag, Some(hotfixTagListStr));
    r := Ok(output);
  }
}
