# Namespaced release tags, modelled in Dafny

The release scripts of a monorepo tag each component (a *namespace*, one
directory of the repository) independently. The tags look like
`<namespace>/vM.m.p` for releases and `<namespace>/vM.m.p-N` for release
candidates. This project models three drafts of the tag arithmetic separately,
and proves what each one does:

- `infra/gha/generate-tag.js` (`generate_tag.dfy`, module `GenerateTag`)
  computes the next tag from all tag names and a bump type (`major`, `minor`,
  `patch`, `rc`). It validates the bump type, keeps and parses the namespace's
  tags, and sorts them by semantic-versioning precedence. It takes the latest
  tag as the current version, bumps it, and formats the new tag. It also finds
  the previous tag to diff against and, for a minor bump, the hotfixes of the
  superseded minor line.
- `infra/gha/calculate-tag.js` (`calculate_tag.dfy`, module `CalculateTag`)
  handles a pushed tag ref `refs/tags/<namespace>/vM.m.p[-N]`:
  - it validates the ref and parses it into numbers, with JavaScript's `NaN`
    made explicit;
  - it classifies the tag as major, minor, patch or pre-release (a one-hot bit
    mask);
  - it loads the namespace's tags from `git tag -l` output, sorts them and
    finds the previous tag of an allowed type;
  - for a minor tag, it lists the hotfixes of the previous tag's line;
  - it builds the action's outputs.
- `infra/gha/release-notes.js` (`release_notes.dfy`, module `ReleaseNotes`)
  has a `parseRefName` that keeps every piece as a string, and the regular
  expression a tag name must match.

Shared modules:
- `wrappers.dfy` holds `Option` and `Result`. A thrown error is `Err` with the
  message it carries.
- `text.dfy` covers digit runs and their values, number printing,
  `String.split` on one character, `Array.join` and `startsWith`.
- `version_text.dfy` holds the version grammar `\d+\.\d+\.\d+(-\d+)?` as
  groups that render back to the matched text.
- `lists.dfy` covers `filter`, `pop`, `slice(-2, -1)[0]`, `find`, `map` with a
  throwing callback, and `sort` with a comparator. Sorting is a sorted
  permutation when the comparator is a total preorder.
- `ref_name.dfy` holds the destructuring splits the two `parseRefName` drafts
  share, and their textual four-way classification.

Three behaviours of the code a reader might not expect:
- An `rc` bump from a stable version `M.m.p` gives `M.m.p-0`. That version
  precedes `M.m.p` (`GenerateTag.NextVersion` proves it), so the next version
  is not always above the current one.
- The hotfixes text is joined with `","`. The program's own test file
  (infra/gha/generate-tag.test.js:184) expects `", "`; the model follows the
  code.
- `CalculateTag.CompareTags` models `compareTags` as written. Every sort of
  the calculate-tag draft uses the corrected `CompareTagsOrdered` instead, so
  the tag lists and the previous tag are computed from the corrected order
  (see Findings and Left out).

## Model

| member | source | states |
|---|---|---|
| GenerateTag.ValidateBumpType | infra/gha/generate-tag.js:30-40 | Succeeds exactly for the four names and returns the bump type whose name it is. A missing or empty value gives the "required" message listing the options joined by ", ". Any other value gives the "Invalid bump type" message naming it. |
| GenerateTag.ParseVersion | infra/gha/generate-tag.js:227-243 | Succeeds exactly on texts of `\d+\.\d+\.\d+(-\d+)?`. Each field, the pre-release included, is the decimal value of its group, leading zeros read as the value. The pre-release is absent exactly when the `-N` group is. |
| GenerateTag.FormatNewTag | infra/gha/generate-tag.js:216-225 | The tag is the namespace, `/v` and the version text. The version text starts with a digit, matches the grammar and parses back to exactly the version formatted. |
| GenerateTag.ParseFormatRoundTrip | infra/gha/generate-tag.js:216-243 | Formatting a parsed version gives the original text back whenever the text has no superfluous leading zeros. |
| GenerateTag.CompareVersions | infra/gha/generate-tag.js:245-259 | Zero exactly for equal versions. Negative or positive exactly as the first version precedes or follows the second under semantic-versioning precedence (`Precedes`, defined independently): a pre-release precedes its release. |
| GenerateTag.CompareVersionsAntisymmetric | infra/gha/generate-tag.js:245-259 | Swapping the arguments swaps the sign of the comparison. |
| GenerateTag.CompareVersionsTransitive | infra/gha/generate-tag.js:245-259 | The comparator is transitive. |
| GenerateTag.TagLeTotalPreorder | infra/gha/generate-tag.js:77 | The order `sort` is given is total and transitive, so the sort is well defined. |
| GenerateTag.ParseNamespaceTag | infra/gha/generate-tag.js:65-76 | A kept tag has a name starting with `namespace/`. Its version text is what follows that prefix, with or without `v`, and it parses as the tag's version. |
| GenerateTag.ParseNamespaceTagOptionalV | infra/gha/generate-tag.js:67-69 | `namespace/vX` and `namespace/X` are both kept, with the same version text and version. |
| GenerateTag.ParseNamespaceTags | infra/gha/generate-tag.js:64-76 | A tag is produced exactly when its name is an input name of the namespace that parses as that tag, once for each occurrence of the name, and never more tags than names. |
| GenerateTag.ParseNamespaceTagsConcat | infra/gha/generate-tag.js:64-76 | The chain keeps input order: parsing a concatenation of name lists concatenates their results. |
| GenerateTag.FilterAndParseNamespaceTags | infra/gha/generate-tag.js:63-78 | The result is sorted by `compareVersions` and is a permutation of the parsed namespace tags: a tag occurs as often as its name does among the inputs when that name parses as it, and otherwise not at all. Every kept tag's text reads as its version. |
| GenerateTag.ParseOnlyOwnNames | infra/gha/generate-tag.js:65 | Parsing all names gives what parsing only the names under `namespace/` gives. |
| GenerateTag.NamespaceIsolation | infra/gha/generate-tag.js:63-78 | Two tag lists with the same names under `namespace/` give the same namespace tags, whatever other tags they hold. |
| GenerateTag.FindPreviousMajorVersion | infra/gha/generate-tag.js:116-120 | Absent exactly when no tag has a lower major. Otherwise it is such a tag and, in a sorted list, the greatest of them. |
| GenerateTag.FindPreviousMinorVersion | infra/gha/generate-tag.js:122-126 | Absent exactly when no tag has the same major and a lower minor. Otherwise it is such a tag and, in a sorted list, the greatest of them. |
| GenerateTag.FindPreviousPatchVersion | infra/gha/generate-tag.js:128-134 | Absent exactly when no tag has the same major.minor and a lower patch. Otherwise it is such a tag and, in a sorted list, the greatest of them. |
| GenerateTag.FindPreviousPreReleaseVersion | infra/gha/generate-tag.js:136-157 | For a pre-release current version: absent exactly when no tag is below it (a missing pre-release compares as 0); otherwise a tag below it, and in a sorted list the greatest one. For a stable current version: the second-to-last stable tag. |
| GenerateTag.FindPreviousVersion | infra/gha/generate-tag.js:103-114 | The previous tag is one of the tags. For a major, minor or patch bump it precedes the current version. |
| GenerateTag.PreviousPreReleaseIsMaximumBelow | infra/gha/generate-tag.js:136-150 | When the current version is a pre-release at the top of the sorted list, the previous tag is the greatest tag that strictly precedes it, and is absent exactly when none does. |
| GenerateTag.PreviousFromStable | infra/gha/generate-tag.js:151-156 | From a stable version the previous tag exists exactly when there are two stable tags. It is stable, and in a sorted list it lies between every earlier stable tag and the latest stable tag. |
| GenerateTag.HotfixTags | infra/gha/generate-tag.js:159-178 | Empty when the previous minor line has no `M.(m-1).0` base release. Otherwise it is the list filtered to the stable `M.(m-1).p` tags with `p > 0`: each as often as listed, in list order (`Lists.FilterConcat`), so sorted when the list is. |
| GenerateTag.FindHotfixesBetweenMinorVersions | infra/gha/generate-tag.js:159-183 | `""` without a base release. For well-formed tags the text is empty exactly when there is no hotfix; otherwise, split at `,`, it gives the hotfixes' version texts in order. |
| GenerateTag.NextVersion | infra/gha/generate-tag.js:185-214 | Major, minor and patch bumps give the stable version with that field incremented and the lower fields zero, above the current version. An `rc` bump keeps the triple. From a pre-release it increments the number (above the current version). From a stable version it starts at 0, which precedes the current version. |
| GenerateTag.IsReleaseCandidate | infra/gha/generate-tag.js:261-264 | A version is a release candidate exactly when it precedes the release of its own triple; otherwise it is that release. |
| GenerateTag.CalculateNextVersion | infra/gha/generate-tag.js:185-214 | The copy-and-overwrite steps produce exactly `NextVersion`. |
| GenerateTag.FindCurrentAndPreviousVersions | infra/gha/generate-tag.js:80-101 | With no tags: 0.0.0, no previous tag, no hotfixes. Otherwise the current version is the last tag's version, which is the maximum of a sorted list. The previous tag is `findPreviousVersion`'s and its name is `previousTag`. Hotfixes are computed for minor bumps only. |
| GenerateTag.GenerateTag | infra/gha/generate-tag.js:2-28 | Bump type errors win over a failed fetch, and every error is prefixed "Failed to generate tag: ". On success the tag is `namespace/v` + the canonical `M.m.p[-N]` text of the next version: its groups are the next version's numbers printed without leading zeros, and it parses as the next version. The next version bumps the maximum namespace tag (or 0.0.0). The tag is a production tag exactly when the bump is not `rc`. |
| CalculateTag.ToNumber | infra/gha/calculate-tag.js:50-53 | `Number(undefined)` is NaN, `Number("")` is 0, a digit run is its decimal value, and any other text is NaN. |
| CalculateTag.ParseRefName | infra/gha/calculate-tag.js:27-68 | Fails, with the prefixed TypeError message, exactly when a piece to split is missing. Otherwise the namespace and semver are the split pieces, the type is the textual classification and the fields are their `Number` values. |
| CalculateTag.ParseRefNameRender | infra/gha/calculate-tag.js:27-54 | `namespace/vM.m.p[-N]` parses to its namespace, its semver text and the group values, with NaN for a missing pre-release. |
| CalculateTag.Version | infra/gha/calculate-tag.js:55-63 | `version()` starts with `namespace/v`. For non-negative numbers it is the tag name of the grammar with the numbers printed without leading zeros, and `-N` exactly when the pre-release is an integer. |
| CalculateTag.ParseVersionOf | infra/gha/calculate-tag.js:27-63 | For a namespace without `/`, `parseRefName` of `version()` succeeds with the same namespace and the same four numbers. |
| CalculateTag.VersionRoundTrip | infra/gha/calculate-tag.js:55-63 | `version()` of a parsed well-formed tag name without leading zeros is the name itself. |
| CalculateTag.CompareTags | infra/gha/calculate-tag.js:115-135 | As written, for orders 1 and -1: NaN exactly when the first field (major, minor, patch, pre-release) that is not strictly equal has a NaN side. Otherwise a number whose sign follows the independent lexicographic order `NumericPrecedes`, reversed for -1; zero when all four fields are strictly equal. |
| CalculateTag.CompareTagsReversed | infra/gha/calculate-tag.js:115-135 | `compareTags(-1)` is the negation of `compareTags(1)`. |
| CalculateTag.CompareTagsInconsistent | infra/gha/calculate-tag.js:129-131 | As written, `1.1.0` ties (NaN) with both `1.1.0-0` and `1.1.0-1`, which do not tie, so the order `sort` receives is not a total preorder. |
| CalculateTag.CompareKeys | infra/gha/calculate-tag.js:115-135 | The corrected ascending comparison is negative, zero or positive exactly as the first tag precedes, has the keys of, or follows the second under the independent order `KeysPrecede`: numbers by value with NaN lowest, and a pre-release before its release. |
| CalculateTag.CompareTagsOrdered | infra/gha/calculate-tag.js:115-135 | Wherever `compareTags` gives a number it gives the same number. At one triple a pre-release comes before the release. |
| CalculateTag.CompareTagsOrderedTransitive | infra/gha/calculate-tag.js:115-135 | The corrected comparator is transitive in both directions. |
| CalculateTag.CompareTagsOrderedTotalPreorder | infra/gha/calculate-tag.js:155 | Both orders built from the corrected comparator are total preorders. |
| CalculateTag.SortDescending | infra/gha/calculate-tag.js:155 | A descending, sorted permutation of the tags. |
| CalculateTag.SortAscending | infra/gha/calculate-tag.js:210 | An ascending, sorted permutation of the tags. |
| CalculateTag.FilterTagByType | infra/gha/calculate-tag.js:137-139 | The filter for a mask keeps a tag exactly when its type is one of the types whose bits the mask holds. |
| CalculateTag.TypesOfMask | infra/gha/calculate-tag.js:5-10 | The one-hot mask of a set of types holds exactly those types. |
| CalculateTag.FilterTagByTypeMembership | infra/gha/calculate-tag.js:5-10 | The bit-mask test `!!(type & mask)` keeps a tag exactly when its type is in the set whose one-hot bits form the mask. |
| CalculateTag.ParseAll | infra/gha/calculate-tag.js:153 | Succeeds exactly when every name parses, giving each name's parse in order. Otherwise the error is the parse error. |
| CalculateTag.NamespaceTagsNewestFirst | infra/gha/calculate-tag.js:153-155 | A permutation of the parsed tags of the namespace (each as often as parsed, no other tags), sorted newest first. |
| CalculateTag.LoadTagLists | infra/gha/calculate-tag.js:141-159 | A failed command gives the doubly prefixed message. An empty first line gives no tags. Otherwise it fails exactly when a line does not parse; on success it is a permutation of the parsed tags of this namespace, sorted descending. |
| CalculateTag.SemverTags | infra/gha/calculate-tag.js:183-185 | A permutation of the listed tags of an allowed type (each as often as listed), sorted descending. |
| CalculateTag.AllowedMask | infra/gha/calculate-tag.js:163-179 | The switch's mask for each type is the mask of its allowed types. |
| CalculateTag.PreviousTagOfAbsent | infra/gha/calculate-tag.js:183-196 | There is no previous tag exactly when no allowed tag prints like the tag, or when the first one that does is the oldest. |
| CalculateTag.PreviousTagOfPresent | infra/gha/calculate-tag.js:183-196 | A previous tag is a listed tag of an allowed type. It is not newer than a listed tag that prints like the tag. |
| CalculateTag.FindPreviousTag | infra/gha/calculate-tag.js:161-200 | The switch, filter, sort and scan give exactly `PreviousTagOf`: in the allowed tags, newest first, the tag right after the first one printing like the tag. |
| CalculateTag.ScanForPrevious | infra/gha/calculate-tag.js:189-196 | The loop answers the tag after the first tag printing as the version. It answers none when that tag is last or when no tag prints so. |
| CalculateTag.GetHotfixTag | infra/gha/calculate-tag.js:202-211 | A permutation of the listed patch tags whose major and minor are strictly equal to the previous tag's (each as often as listed), sorted ascending. |
| CalculateTag.HotfixList | infra/gha/calculate-tag.js:262-264 | The joined text is empty exactly when there are no hotfixes. For namespaces without `,` it splits at `,` back into the hotfixes' `version()` texts, in order. |
| CalculateTag.ValidateRef | infra/gha/calculate-tag.js:70-113 | The checks fail in the source's order with its prefixed messages. It succeeds exactly when the ref is a tag ref with a namespace, a `vM.m.p[-N]` segment and an existing namespace directory, giving `namespace/semver`. |
| CalculateTag.ValidatedRefParses | infra/gha/calculate-tag.js:70-113 | A validated ref always parses: the namespace is the ref's third segment and the semver its fourth without the `v`. |
| CalculateTag.ShortTag | infra/gha/calculate-tag.js:222 | For a namespace without `/`, the short tag is `version()` without the namespace and its `/`. |
| CalculateTag.ShortTagTail | infra/gha/calculate-tag.js:222 | `version().split("/")` is the namespace and the rest. |
| CalculateTag.BuildOutput | infra/gha/calculate-tag.js:213-236 | No tag gives no tag, `""` and `false`. For a tag: its `version()`, its short tag, and `tagPrdSemver` exactly when it is not a pre-release. The previous tag is printed when present and the hotfixes are passed through. |
| CalculateTag.CalculatePreviousTag | infra/gha/calculate-tag.js:238-282 | An undefined ref gives the `startsWith` TypeError. A branch ref gives the empty output. Otherwise validation and load errors are passed through; on success the ref always parses and the output is built from its previous tag and (minor tags only) hotfixes. |
| RefName.SplitRef | infra/gha/calculate-tag.js:29-32 | The destructuring fails exactly when a piece to split is missing: no `/` in the name, no `v` in the text after the first `/`, or fewer than two `.` in the text after that `v`. On success each binding is the text between the separators the JavaScript splits at. |
| Text.SplitCount | infra/gha/calculate-tag.js:29-32 | `split` yields one piece more than the text has separators. |
| RefName.SplitRefRender | infra/gha/release-notes.js:12-15 | On `namespace/vM.m.p[-N]` the bindings are the namespace, `v` + the semver, the semver, and the groups' texts. |
| RefName.Classify | infra/gha/calculate-tag.js:34-43 | Exactly one type: pre-release for a non-empty pre-release; otherwise major for minor and patch `"0"`, minor for patch `"0"` only, patch otherwise. |
| RefName.ClassifyNumeric | infra/gha/release-notes.js:17-26 | On printed numbers the textual test is the numeric one: major for `M.0.0`, minor for `M.m.0` with `m > 0`, patch for `p > 0`. |
| ReleaseNotes.ParseRefName | infra/gha/release-notes.js:11-33 | Fails with the TypeError exactly when a piece to split is missing. Otherwise the fields are the split texts, `preRelease` absent without a `-`, and the type name is exactly one of the four, by the same rules. |
| ReleaseNotes.ParseRefNameRender | infra/gha/release-notes.js:11-33 | `namespace/vM.m.p[-N]` parses to its namespace, `vM.m.p[-N]`, the semver and the groups' texts unchanged. |
| ReleaseNotes.MatchSemverTag | infra/gha/release-notes.js:36 | A match yields a namespace of `[a-zA-Z0-9-_]+` and well-formed groups that render back to exactly the name. |
| ReleaseNotes.MatchSemverTagRender | infra/gha/release-notes.js:36 | Every name of that form is matched with its own groups, so with the function's contract a name matches exactly when it has that form. |
| ReleaseNotes.CheckIfTagIsSemverAsWritten | infra/gha/release-notes.js:35-38 | As written, every call throws the ReferenceError, whatever the name. |
| ReleaseNotes.CheckIfTagIsSemverThrows | infra/gha/release-notes.js:35-38 | On `namespace/v1.2.3`, the caller's own tag, the as-written check throws while the intended check accepts. |
| ReleaseNotes.CheckedTagParses | infra/gha/release-notes.js:11-38 | A name that passes the intended check parses without error, with the namespace and fields of the regular expression's groups. |
| VersionText.Match | infra/gha/generate-tag.js:229 | A match yields well-formed groups that render back to exactly the matched text. |
| VersionText.MatchRender | infra/gha/generate-tag.js:229 | Every well-formed rendering matches with the same groups. |
| Text.NatToString | infra/gha/generate-tag.js:217 | A number prints as a digit run without leading zeros whose value is the number. |
| Text.CanonicalRoundTrip | infra/gha/generate-tag.js:238-240 | Printing the value of a digit run without leading zeros gives the run back. |
| Text.Split | infra/gha/calculate-tag.js:29-32 | `split` yields at least one piece, none containing the separator, and they join back to the text. |
| Lists.Filter | infra/gha/generate-tag.js:65 | `filter` keeps exactly the elements passing the test, each as often as it occurs. |
| Lists.FilterConcat | infra/gha/generate-tag.js:65 | `filter` keeps order: filtering a concatenation concatenates the filtered parts. |
| Lists.LastOfFilter | infra/gha/generate-tag.js:117-119 | `filter(p).pop()` is absent exactly when nothing satisfies `p`. Otherwise it is a member satisfying `p` and, in a sorted list, the greatest such member. |
| Lists.InsertionSort | infra/gha/generate-tag.js:77 | With a total-preorder comparator, `sort` gives a sorted permutation. |
| Lists.InsertionSortStable | infra/gha/generate-tag.js:77 | `sort` is stable: elements the comparator ranks level with each other (such as `ns/v1.0.0` and `ns/1.0.0`) keep their input order. |

## Left out

- Fetching tags from the GitHub API (`fetchAllTags`, with its pagination) is not modelled. `GenerateTag.GenerateTag` takes the fetched names, or the fetch's error message, as a parameter.
- Running `git tag -l` and `trim` are left out. `CalculateTag.LoadTagLists` takes the trimmed command output, or the command's error message, and which tags the `<namespace>/v*` pattern selects is left to that parameter.
- The filesystem check of the namespace directory is a predicate parameter of `CalculateTag.ValidateRef`.
- Logging and action plumbing are left out: `console.log`/`console.error`, `core.debug`/`notice`/`setFailed`, and the `TAG_TYPE_TXT` debug names. The `JSON.stringify` of the outputs is modelled as the record `Output`. `calculatePreviousTag`'s catch is modelled as `Err` carrying the message passed to `setFailed`.
- `createsReleaseNotes` in release-notes.js is left out. It has a hard-coded ref, debug prints and TODO comments only.
- CalculateTag.ToNumber: only digit runs and `""` are read as numbers. Any other text is NaN. JavaScript's `Number` also accepts whitespace, signs, decimals, exponents and `0x`/`0o`/`0b` prefixes, but these pieces come from a split tag name and such texts are not tag syntax.
- Numbers are unbounded integers. JavaScript doubles lose precision above 2^53, and that is not modelled.
- GenerateTag.FindCurrentAndPreviousVersions: the JavaScript `currentVersion` and `nextVersion` objects also carry the current tag's `name`, `version` and `isValid` through the spread copy. The model keeps only the version fields.
- The `default: throw new Error("Invalid tag type")` branch of `findPreviousTag` and its "Failed to find previous tag" prefix are left out. Every parsed tag has one of the four types, so the branch cannot run.
- CalculateTag.SortDescending: the model sorts with the corrected comparator `CompareTagsOrdered`. As written the comparator is not consistent (see Findings), and which order a JavaScript engine's sort produces with it is not modelled.
- CalculateTag.SortAscending: the model sorts with the corrected ascending order `AscLe`. It differs from `sort(compareTags(1))` wherever the as-written comparator gives NaN, e.g. a stable tag against a pre-release on the same `M.m.p`, or a major, minor or patch piece that is not a digit run (`ns/vx.1.2`, whose field is NaN by `CalculateTag.ToNumber`); which order an engine's sort produces there is not modelled.
- CalculateTag.GetHotfixTag: likewise sorted with the corrected ascending comparator, through `CalculateTag.SortAscending`.
- `undefined` from `pop()` or `slice(-2, -1)[0]` on a list too short is modelled as `None`, the same as the `null` that `previousVersion` starts as when there are no tags (infra/gha/generate-tag.js:82). `previousTag` is `null` either way (infra/gha/generate-tag.js:95-97); only the returned `previous` field would be `undefined` rather than `null`, and the model does not keep that difference.
- The test file's expectations that differ from the code (a `", "` separator, fewer result fields) are not followed. The model follows the code.

## Findings

| source | as written | input that shows it | evidently intended | confidence | as-written member | corrected member |
|---|---|---|---|---|---|---|
| infra/gha/calculate-tag.js:129-131 | `compareTags` subtracts pre-release numbers even when one side is a stable tag, whose pre-release is `Number(undefined)`, NaN. `sort` reads the NaN as "equal". | `1.1.0-0`, `1.1.0`, `1.1.0-1` in one namespace: `1.1.0` ties with both pre-releases, which do not tie with each other. The comparator is inconsistent, so the sorted order, and hence the previous tag, depends on the engine. | A pre-release sorts before its release and NaN is never subtracted, as the generate-tag draft's `compareVersions` does. | not executed | CalculateTag.CompareTagsInconsistent | CalculateTag.CompareTagsOrdered |
| infra/gha/release-notes.js:35-38 | `checkIfTagIsSemver(refName)` tests the undeclared variable `tag` instead of `refName`. | `namespace/v1.2.3`, the very ref the caller uses: the call throws a ReferenceError, so every ref is rejected. | The regular expression tested on `refName`. | not executed | ReleaseNotes.CheckIfTagIsSemverThrows | ReleaseNotes.MatchSemverTag |
