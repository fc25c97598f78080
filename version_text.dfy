/** The textual shape of a version, `^(\d+)\.(\d+)\.(\d+)(?:-(\d+))?$`,
    shared by `parseVersion` (generate-tag), the semver check of
    `validateRef` (calculate-tag) and the tag check of release-notes. */
module VersionText {
  import opened Wrappers
  import opened Text

  /** The four capture groups of the version regular expression. */
  datatype Groups = Groups(major: string, minor: string, patch: string, preRelease: Option<string>)

  predicate WellFormed(g: Groups) {
    && IsDigits(g.major) && IsDigits(g.minor) && IsDigits(g.patch)
    && (g.preRelease.Some? ==> IsDigits(g.preRelease.value))
  }

  /** The text the groups were matched from. */
  function Render(g: Groups): string {
    g.major + "." + g.minor + "." + g.patch
      + (match g.preRelease case None => "" case Some(p) => "-" + p)
  }

  lemma DigitsHaveNoPunctuation(s: string)
    requires AllDigits(s)
    ensures '.' !in s && '-' !in s && ',' !in s && '/' !in s && 'v' !in s
  {
    forall c | c in s ensures IsDigit(c) {
      var i :| 0 <= i < |s| && s[i] == c;
    }
  }

  /** A rendering starts with the first character of its major group. */
  lemma RenderStartsWithMajor(g: Groups)
    requires IsDigits(g.major)
    ensures Render(g) != [] && Render(g)[0] == g.major[0] && IsDigit(Render(g)[0])
  {
    var rest := Render(g)[|g.major|..];
    assert Render(g) == g.major + rest;
  }

  /** The text after the second dot: a patch number with an optional
      `-` pre-release number. */
  function PatchText(patch: string, preRelease: Option<string>): string {
    patch + (match preRelease case None => "" case Some(p) => "-" + p)
  }

  /** The part `(\d+)(?:-(\d+))?` of the regular expression. */
  function MatchPatch(t: string): (r: Option<(string, Option<string>)>)
    ensures r.Some? ==> IsDigits(r.value.0) && PatchText(r.value.0, r.value.1) == t
    ensures r.Some? && r.value.1.Some? ==> IsDigits(r.value.1.value)
  {
    var pieces := Split(t, '-');
    if |pieces| == 1 && IsDigits(pieces[0]) then
      Some((pieces[0], None))
    else if |pieces| == 2 && IsDigits(pieces[0]) && IsDigits(pieces[1]) then
      assert pieces[1..] == [pieces[1]];
      Some((pieces[0], Some(pieces[1])))
    else None
  }

  lemma JoinThree(parts: seq<string>, sep: string)
    requires |parts| == 3
    ensures Join(parts, sep) == parts[0] + sep + parts[1] + sep + parts[2]
  {
    assert parts[1..][1..] == [parts[2]];
    assert Join(parts[1..][1..], sep) == parts[2];
    assert Join(parts[1..], sep) == parts[1] + sep + parts[2];
  }

  /** Matching the version regular expression: a match yields well-formed
      groups that render back to exactly the matched text. */
  function Match(s: string): (r: Option<Groups>)
    ensures r.Some? ==> WellFormed(r.value) && Render(r.value) == s
  {
    var parts := Split(s, '.');
    if |parts| != 3 || !IsDigits(parts[0]) || !IsDigits(parts[1]) then None
    else
      match MatchPatch(parts[2])
      case None => None
      case Some((patch, pre)) =>
        JoinThree(parts, ".");
        Some(Groups(parts[0], parts[1], patch, pre))
  }

  lemma SplitThree(a: string, b: string, c: string)
    requires '.' !in a && '.' !in b && '.' !in c
    ensures Split(a + "." + b + "." + c, '.') == [a, b, c]
  {
    assert a + "." + b + "." + c == a + ['.'] + (b + ['.'] + c);
    SplitAfter(a, b + ['.'] + c, '.');
    SplitAfter(b, c, '.');
    SplitWithout(c, '.');
  }

  /** The pieces `split("-")` makes of a patch text. */
  lemma PatchTextSplit(patch: string, pre: Option<string>)
    requires IsDigits(patch) && (pre.Some? ==> IsDigits(pre.value))
    ensures '.' !in PatchText(patch, pre) && '/' !in PatchText(patch, pre) && 'v' !in PatchText(patch, pre)
    ensures Split(PatchText(patch, pre), '-') == match pre case None => [patch] case Some(p) => [patch, p]
  {
    DigitsHaveNoPunctuation(patch);
    match pre {
      case None =>
        assert PatchText(patch, pre) == patch;
        SplitWithout(patch, '-');
      case Some(p) =>
        DigitsHaveNoPunctuation(p);
        assert PatchText(patch, pre) == patch + ['-'] + p;
        SplitAfter(patch, p, '-');
        SplitWithout(p, '-');
    }
  }

  lemma MatchPatchText(patch: string, pre: Option<string>)
    requires IsDigits(patch) && (pre.Some? ==> IsDigits(pre.value))
    ensures '.' !in PatchText(patch, pre)
    ensures MatchPatch(PatchText(patch, pre)) == Some((patch, pre))
  {
    PatchTextSplit(patch, pre);
    match pre {
      case None =>
      case Some(p) =>
        assert [patch, p][1..] == [p];
    }
  }

  /** The pieces `split(".")` makes of a rendering; a rendering holds no
      `/` and no `v`. */
  lemma RenderSplit(g: Groups)
    requires WellFormed(g)
    ensures Split(Render(g), '.') == [g.major, g.minor, PatchText(g.patch, g.preRelease)]
    ensures '/' !in Render(g) && 'v' !in Render(g)
  {
    var t := PatchText(g.patch, g.preRelease);
    assert Render(g) == g.major + "." + g.minor + "." + t;
    DigitsHaveNoPunctuation(g.major);
    DigitsHaveNoPunctuation(g.minor);
    PatchTextSplit(g.patch, g.preRelease);
    SplitThree(g.major, g.minor, t);
    NotInThree(g.major, g.minor, t, '/');
    NotInThree(g.major, g.minor, t, 'v');
  }

  lemma NotInThree(a: string, b: string, c: string, x: char)
    requires x != '.' && x !in a && x !in b && x !in c
    ensures x !in a + "." + b + "." + c
  {
  }

  /** Every well-formed rendering is matched, with the same groups: with
      `Match`'s own contract, `Match` succeeds exactly on the texts of the
      regular expression. */
  lemma MatchRender(g: Groups)
    requires WellFormed(g)
    ensures Match(Render(g)) == Some(g)
  {
    RenderSplit(g);
    MatchPatchText(g.patch, g.preRelease);
  }
}
