/** Versions, their precedence (section 11 of SemVer 2.0.0) and its successor structure. */
module Versions {
  import opened Orders
  import opened Tags
  import opened Wrappers

  /** Absent tags are empty, as in the library. */
  datatype Version = Version(major: nat, minor: nat, patch: nat, prerelease: string, build: string)

  const U64_MAX: nat := 0xFFFF_FFFF_FFFF_FFFF

  /** The largest value of each component type; component types are unsigned and at most 64 bits wide. */
  datatype RawLimits = Limits(major: nat, minor: nat, patch: nat)
  type Limits = l: RawLimits | l.major <= U64_MAX && l.minor <= U64_MAX && l.patch <= U64_MAX
    witness Limits(0, 0, 0)

  /** What the constructor and the parser establish for both tags. */
  ghost predicate Valid(v: Version) {
    ValidPrerelease(v.prerelease) && ValidBuild(v.build)
  }

  predicate Fits(v: Version, lim: Limits) {
    v.major <= lim.major && v.minor <= lim.minor && v.patch <= lim.patch
  }

  ghost predicate Representable(v: Version, lim: Limits) {
    Valid(v) && Fits(v, lim)
  }

  predicate IsPrerelease(v: Version) {
    v.prerelease != ""
  }

  predicate SameCore(v: Version, w: Version) {
    v.major == w.major && v.minor == w.minor && v.patch == w.patch
  }

  function Release(v: Version): Version {
    v.(prerelease := "", build := "")
  }

  /** The prerelease of `v`'s core with the given tag. */
  function Tagged(v: Version, tag: string): Version {
    v.(prerelease := tag, build := "")
  }

  // ---------- Comparison ----------

  function CompareCore(v: Version, w: Version): int {
    if v.major != w.major then CompareInts(v.major, w.major)
    else if v.minor != w.minor then CompareInts(v.minor, w.minor)
    else CompareInts(v.patch, w.patch)
  }

  function ComparePrerelease(v: Version, w: Version): int {
    if (v.prerelease == "") != (w.prerelease == "") then (if v.prerelease == "" then 1 else -1)
    else if v.prerelease == "" then 0
    else CompareTags(v.prerelease, w.prerelease)
  }

  function Compare(v: Version, w: Version): int {
    var core := CompareCore(v, w);
    if core != 0 then core else ComparePrerelease(v, w)
  }

  function CompareWithBuild(v: Version, w: Version): int {
    if Compare(v, w) != 0 then Compare(v, w) else CompareLexicographically(v.build, w.build)
  }

  lemma CoreTransitive(a: Version, b: Version, c: Version)
    requires CompareCore(a, b) <= 0 && CompareCore(b, c) <= 0
    ensures CompareCore(a, c) <= 0
    ensures CompareCore(a, c) == 0 ==> CompareCore(a, b) == 0 && CompareCore(b, c) == 0
  {
  }

  /** Precedence is total and antisymmetric, and only build metadata separates versions of equal precedence. */
  lemma CompareIsTotal(v: Version, w: Version)
    ensures -1 <= Compare(v, w) <= 1
    ensures Compare(v, w) == -Compare(w, v)
    ensures Compare(v, v) == 0
    ensures Valid(v) && Valid(w) ==> (Compare(v, w) == 0 <==> v.(build := "") == w.(build := ""))
  {
    TagsAntisymmetric(v.prerelease, w.prerelease);
    TagsAntisymmetric(v.prerelease, v.prerelease);
    if Valid(v) && Valid(w) {
      TagsZeroIffEqual(v.prerelease, w.prerelease);
    }
  }

  /** Transitivity over mixed releases, numeric and alphanumeric prereleases; strict if either step is. */
  lemma CompareIsTransitive(a: Version, b: Version, c: Version)
    requires Compare(a, b) <= 0 && Compare(b, c) <= 0
    ensures Compare(a, c) <= 0
    ensures Compare(a, b) < 0 || Compare(b, c) < 0 ==> Compare(a, c) < 0
  {
    WeaklyTransitive(a, b, c);
    if Compare(a, c) == 0 {
      CompareIsTotal(a, b);
      CompareIsTotal(b, c);
      CompareIsTotal(a, c);
      WeaklyTransitive(c, a, b);
      WeaklyTransitive(b, c, a);
    }
  }

  lemma WeaklyTransitive(a: Version, b: Version, c: Version)
    requires Compare(a, b) <= 0 && Compare(b, c) <= 0
    ensures Compare(a, c) <= 0
  {
    CoreTransitive(a, b, c);
    if IsPrerelease(a) && IsPrerelease(b) && IsPrerelease(c)
      && CompareCore(a, b) == 0 && CompareCore(b, c) == 0 {
      TagsTransitive(a.prerelease, b.prerelease, c.prerelease);
    }
  }

  /** Build metadata breaks ties: the refined order is total and tells apart whatever differs in any field. */
  lemma CompareWithBuildIsTotal(v: Version, w: Version)
    ensures CompareWithBuild(v, w) == -CompareWithBuild(w, v)
    ensures Compare(v, w) != 0 ==> CompareWithBuild(v, w) == Compare(v, w)
    ensures Valid(v) && Valid(w) ==> (CompareWithBuild(v, w) == 0 <==> v == w)
  {
    CompareIsTotal(v, w);
    TextIsTotallyOrdered();
    assert CompareLexicographically(v.build, w.build) == -CompareLexicographically(w.build, v.build);
  }

  lemma CompareWithBuildIsTransitive(a: Version, b: Version, c: Version)
    requires CompareWithBuild(a, b) <= 0 && CompareWithBuild(b, c) <= 0
    ensures CompareWithBuild(a, c) <= 0
  {
    hide Compare;
    TextIsTotallyOrdered();
    CompareIsTransitive(a, b, c);
    assert CompareLexicographically(a.build, b.build) <= 0 && CompareLexicographically(b.build, c.build) <= 0
      ==> CompareLexicographically(a.build, c.build) <= 0;
  }

  // ---------- What precedence means ----------

  /** Section 11 of SemVer 2.0.0, written out. */
  ghost predicate Precedes(v: Version, w: Version)
    requires Valid(v) && Valid(w)
  {
    if v.major != w.major then v.major < w.major
    else if v.minor != w.minor then v.minor < w.minor
    else if v.patch != w.patch then v.patch < w.patch
    else if v.prerelease == "" then false
    else if w.prerelease == "" then true
    else TagBelow(v.prerelease, w.prerelease)
  }

  /** The comparison is negative exactly for a version that precedes, positive exactly for one that follows. */
  lemma CompareMeansPrecedence(v: Version, w: Version)
    requires Valid(v) && Valid(w)
    ensures Compare(v, w) < 0 <==> Precedes(v, w)
    ensures Compare(v, w) > 0 <==> Precedes(w, v)
  {
    CompareIsTotal(v, w);
    CompareBelowMeans(v, w);
    CompareBelowMeans(w, v);
  }

  lemma CompareBelowMeans(v: Version, w: Version)
    requires Valid(v) && Valid(w)
    ensures Compare(v, w) < 0 <==> Precedes(v, w)
  {
    hide CompareTags, TagBelow;
    if IsPrerelease(v) && IsPrerelease(w) {
      TagOrder(v.prerelease, w.prerelease);
    }
  }

  /** Among versions of one core and tag, the build metadata that is below as a text comes first. */
  lemma BuildBreaksTies(v: Version, w: Version)
    requires Valid(v) && Valid(w)
    ensures CompareWithBuild(v, w) < 0 <==>
      Precedes(v, w) || (v.(build := "") == w.(build := "") && TextBelow(v.build, w.build))
  {
    hide Compare, Precedes, TextBelow;
    CompareMeansPrecedence(v, w);
    CompareIsTotal(v, w);
    TextOrder(v.build, w.build);
  }

  // ---------- Successors ----------

  function BumpMajor(v: Version): Version {
    Version(v.major + 1, 0, 0, "", "")
  }

  function BumpMinor(v: Version): Version {
    Version(v.major, v.minor + 1, 0, "", "")
  }

  function BumpPatch(v: Version): Version {
    Version(v.major, v.minor, v.patch + 1, "", "")
  }

  /** The next core the component types can hold. */
  function NextCore(v: Version, lim: Limits): Option<Version> {
    if v.patch < lim.patch then Some(BumpPatch(v))
    else if v.minor < lim.minor then Some(BumpMinor(v))
    else if v.major < lim.major then Some(BumpMajor(v))
    else None
  }

  /** `next_core` is the least representable core above `v`'s, and there is one unless `v` has the last core. */
  lemma NextCoreIsImmediate(v: Version, w: Version, lim: Limits)
    requires Fits(v, lim) && Fits(w, lim)
    ensures NextCore(v, lim).Some? ==>
      var n := NextCore(v, lim).value;
      Fits(n, lim) && !IsPrerelease(n) && CompareCore(v, n) < 0
    ensures CompareCore(v, w) < 0 <==>
      NextCore(v, lim).Some? && CompareCore(NextCore(v, lim).value, w) <= 0
  {
  }

  function Successor(v: Version, lim: Limits): Option<Version> {
    if IsPrerelease(v) then Some(Tagged(v, v.prerelease + ".0"))
    else match NextCore(v, lim)
      case Some(n) => Some(Tagged(n, "0"))
      case None => None
  }

  /**
   * Nothing representable lies strictly between a version and its successor, although
   * precedence has infinite descending chains (b > ab > aab > ...).
   */
  lemma SuccessorIsImmediate(v: Version, w: Version, lim: Limits)
    requires Representable(v, lim) && Representable(w, lim)
    ensures Successor(v, lim).Some? ==>
      Representable(Successor(v, lim).value, lim) && Compare(v, Successor(v, lim).value) < 0
    ensures Compare(v, w) < 0 <==> Successor(v, lim).Some? && Compare(Successor(v, lim).value, w) <= 0
  {
    ZeroTag();
    if IsPrerelease(v) {
      DotZeroIsSuccessor(v.prerelease, if IsPrerelease(w) then w.prerelease else "0");
    } else {
      NextCoreIsImmediate(v, w, lim);
      if IsPrerelease(w) {
        ZeroIsLeastTag(w.prerelease);
      }
    }
  }

  /** The tag "0" gives the least version of a core, and its release the greatest. */
  lemma CoreRange(v: Version, w: Version)
    requires Valid(w)
    ensures Compare(Tagged(v, "0"), w) <= 0 <==> CompareCore(v, w) <= 0
    ensures Compare(w, Release(v)) <= 0 <==> CompareCore(w, v) <= 0
  {
    if IsPrerelease(w) {
      ZeroIsLeastTag(w.prerelease);
    }
  }

  /** Below `c-0` means below the core `c`, whatever the tag. */
  lemma BelowCoreZero(w: Version, c: Version)
    requires Valid(w)
    ensures Compare(w, Tagged(c, "0")) < 0 <==> CompareCore(w, c) < 0
  {
    CoreRange(c, w);
    CompareIsTotal(w, Tagged(c, "0"));
  }

  const ZERO: Version := Version(0, 0, 0, "", "")

  lemma ZeroIsLeast(w: Version)
    requires Valid(w)
    ensures Compare(Tagged(ZERO, "0"), w) <= 0
    ensures !IsPrerelease(w) ==> Compare(ZERO, w) <= 0
  {
    CoreRange(ZERO, w);
  }
}
