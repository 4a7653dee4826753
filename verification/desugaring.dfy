/** Expansion of carets, tildes, bare partials and partial comparators, and what it means. */
module Desugaring {
  import opened Tags
  import opened Versions
  import opened Ranges
  import opened Wrappers

  /** Omitted or wildcard components are None. */
  datatype Partial = Partial(
    major: Option<nat>, minor: Option<nat>, patch: Option<nat>, prerelease: string, wildcard: bool)

  predicate IsPartial(pv: Partial) {
    pv.major.None? || pv.minor.None? || pv.patch.None?
  }

  /** What `parse_partial` establishes. */
  ghost predicate WellFormedPartial(pv: Partial) {
    && (pv.minor.Some? ==> pv.major.Some?)
    && (pv.patch.Some? ==> pv.minor.Some?)
    && (pv.prerelease != "" ==> pv.patch.Some?)
    && ValidPrerelease(pv.prerelease)
  }

  /** The partial version with missing components as zero. */
  function Floor(pv: Partial): Version {
    Version(GetOr(pv.major, 0), GetOr(pv.minor, 0), GetOr(pv.patch, 0), pv.prerelease, "")
  }

  function PushComparator(v: Version, op: Operator, lim: Limits, fromZero: bool): Option<Range> {
    if Fits(v, lim) then Some([Comparator(v, op, fromZero)]) else None
  }

  datatype Component = Major | Minor | Patch

  /** The first core whose `component` exceeds that of `v`. */
  function Bumped(v: Version, component: Component): Version {
    match component
    case Major => BumpMajor(v)
    case Minor => BumpMinor(v)
    case Patch => BumpPatch(v)
  }

  /** Nothing when the component is at its maximum, even if a higher one has room. */
  function PushNextUpper(v: Version, component: Component, lim: Limits): Option<Range> {
    if !Fits(v, lim) then None
    else if component.Patch? then
      (if v.patch < lim.patch then PushComparator(Tagged(BumpPatch(v), "0"), Less, lim, false) else None)
    else if component.Minor? then
      (if v.minor < lim.minor then PushComparator(Tagged(BumpMinor(v), "0"), Less, lim, false) else None)
    else
      (if v.major < lim.major then PushComparator(Tagged(BumpMajor(v), "0"), Less, lim, false) else None)
  }

  /** A lower bound followed by the upper bound of one line of versions. */
  function Line(v: Version, component: Component, lim: Limits, fromZero: bool): Option<Range> {
    match PushComparator(v, GreaterOrEqual, lim, fromZero)
    case None => None
    case Some(lower) =>
      match PushNextUpper(v, component, lim)
      case None => None
      case Some(upper) => Some(lower + upper)
  }

  function NextLineComponent(pv: Partial): Component {
    if pv.minor.Some? then Minor else Major
  }

  function ExpandToNextLine(pv: Partial, lim: Limits, fromZero: bool): Option<Range> {
    if pv.major.None? then Some([])
    else Line(Floor(pv), NextLineComponent(pv), lim, fromZero)
  }

  function CaretComponent(pv: Partial): Component {
    if GetOr(pv.major, 0) > 0 || pv.minor.None? then Major
    else if GetOr(pv.minor, 0) > 0 || pv.patch.None? then Minor
    else Patch
  }

  function CaretFromZero(pv: Partial): bool {
    pv.prerelease == "" && (IsPartial(pv) || GetOr(pv.major, 0) == 0)
  }

  function ExpandCaret(pv: Partial, lim: Limits): Option<Range> {
    Line(Floor(pv), CaretComponent(pv), lim, CaretFromZero(pv))
  }

  function ExpandComparator(pv: Partial, op: Operator, lim: Limits): Option<Range> {
    var tag := if IsPartial(pv) && op == Less then "0" else pv.prerelease;
    PushComparator(Floor(pv).(prerelease := tag), op, lim, IsPartial(pv) && op == GreaterOrEqual)
  }

  // ---------- Meaning ----------

  /** Agreement on every component up to the locked one. */
  predicate AgreesUpTo(component: Component, v: Version, w: Version) {
    match component
    case Major => w.major == v.major
    case Minor => w.major == v.major && w.minor == v.minor
    case Patch => SameCore(v, w)
  }

  function Get(component: Component, v: Version): nat {
    match component
    case Major => v.major
    case Minor => v.minor
    case Patch => v.patch
  }

  function MaxOf(component: Component, lim: Limits): nat {
    match component
    case Major => lim.major
    case Minor => lim.minor
    case Patch => lim.patch
  }

  /** A pushed upper bound `c-0` admits exactly the versions whose core is below `c`, under both policies. */
  lemma UpperBoundAdmitsLowerCores(v: Version, component: Component, lim: Limits, w: Version, policy: Policy)
    requires Valid(w) && PushNextUpper(v, component, lim).Some?
    ensures AllContain(PushNextUpper(v, component, lim).value, w, policy)
      <==> CompareCore(w, Bumped(v, component)) < 0
  {
    var c := Bumped(v, component);
    var r := PushNextUpper(v, component, lim).value;
    assert r == [Comparator(Tagged(c, "0"), Less, false)];
    BelowCoreZero(w, c);
    assert AllContain(r, w, policy) <==> ComparatorContains(r[0], w, policy);
  }

  /** Above the lower bound, staying below the bumped core is agreeing on the locked components. */
  lemma BelowBumpIsAgreement(v: Version, component: Component, w: Version)
    requires CompareCore(v, w) <= 0
    ensures CompareCore(w, Bumped(v, component)) < 0 <==> AgreesUpTo(component, v, w)
  {
  }

  /** A line expands exactly when its version fits and the locked component can be incremented. */
  lemma LineSucceeds(v: Version, component: Component, lim: Limits, fromZero: bool)
    ensures Line(v, component, lim, fromZero).Some?
      <==> Fits(v, lim) && Get(component, v) < MaxOf(component, lim)
  {
  }

  /** The prerelease-aware lower bound of a line. */
  function LowerBound(v: Version, fromZero: bool, policy: Policy): Version {
    if policy == Include && fromZero then Tagged(v, "0") else v
  }

  /**
   * The meaning of a line, for every version and both policies: at or above the lower bound,
   * agreeing on the locked components; and under `exclude` a prerelease must besides be one of
   * the very core that the lower bound names with a tag.
   */
  lemma LineMeaning(v: Version, component: Component, lim: Limits, fromZero: bool, w: Version, policy: Policy)
    requires Valid(v) && Valid(w) && Line(v, component, lim, fromZero).Some?
    ensures RangeContains(Line(v, component, lim, fromZero).value, w, policy) <==>
      && Compare(w, LowerBound(v, fromZero, policy)) >= 0
      && AgreesUpTo(component, v, w)
      && (policy == Exclude && IsPrerelease(w) ==> IsPrerelease(v) && SameCore(v, w))
  {
    hide Line, RangeContains, Compare, CompareCore, Bumped;
    var low := LowerBound(v, fromZero, policy);
    LineComparators(v, component, lim, fromZero, w, policy);
    if Compare(w, low) >= 0 {
      AboveLowerBound(v, fromZero, policy, w);
      BelowBumpIsAgreement(v, component, w);
    }
    if CompareCore(w, Bumped(v, component)) < 0 {
      LineFilter(v, component, lim, fromZero, w);
    }
    RangeContainsMeans(Line(v, component, lim, fromZero).value, w, policy);
  }

  lemma RangeContainsMeans(r: Range, w: Version, policy: Policy)
    ensures RangeContains(r, w, policy) <==>
      (policy == Exclude ==> AllowsPrerelease(r, w)) && AllContain(r, w, policy)
  {
  }

  lemma AboveLowerBound(v: Version, fromZero: bool, policy: Policy, w: Version)
    requires Compare(w, LowerBound(v, fromZero, policy)) >= 0
    ensures CompareCore(v, w) <= 0
  {
    CompareIsTotal(w, LowerBound(v, fromZero, policy));
  }

  /** A line is its two comparators: the lower bound, and the bumped core. */
  lemma LineComparators(v: Version, component: Component, lim: Limits, fromZero: bool, w: Version, policy: Policy)
    requires Valid(v) && Valid(w) && Line(v, component, lim, fromZero).Some?
    ensures AllContain(Line(v, component, lim, fromZero).value, w, policy) <==>
      Compare(w, LowerBound(v, fromZero, policy)) >= 0 && CompareCore(w, Bumped(v, component)) < 0
  {
    var r := Line(v, component, lim, fromZero).value;
    var lower, upper := Comparator(v, GreaterOrEqual, fromZero), Tagged(Bumped(v, component), "0");
    assert r == [lower, Comparator(upper, Less, false)];
    ThresholdDecides(lower, w, policy);
    BelowCoreZero(w, Bumped(v, component));
    hide Compare, CompareCore, Bumped, Line;
    assert AllContain(r, w, policy) <==> ComparatorContains(r[0], w, policy) && ComparatorContains(r[1], w, policy);
  }

  /** Below the bumped core, only the lower bound can admit a prerelease. */
  lemma LineFilter(v: Version, component: Component, lim: Limits, fromZero: bool, w: Version)
    requires Line(v, component, lim, fromZero).Some? && CompareCore(w, Bumped(v, component)) < 0
    ensures AllowsPrerelease(Line(v, component, lim, fromZero).value, w) <==>
      (IsPrerelease(w) ==> IsPrerelease(v) && SameCore(v, w))
  {
    var r := Line(v, component, lim, fromZero).value;
    assert r == [Comparator(v, GreaterOrEqual, fromZero), Comparator(Tagged(Bumped(v, component), "0"), Less, false)];
    assert !Targets(r[1], w);
    assert IsPrerelease(w) ==> (AllowsPrerelease(r, w) <==> Targets(r[0], w));
  }

  /** A release matches a line exactly when it is at or above the floor and agrees on the locked components. */
  lemma ReleaseOnLine(v: Version, component: Component, lim: Limits, fromZero: bool, w: Version, policy: Policy)
    requires Valid(v) && Valid(w) && !IsPrerelease(w) && Line(v, component, lim, fromZero).Some?
    requires fromZero ==> !IsPrerelease(v)
    ensures RangeContains(Line(v, component, lim, fromZero).value, w, policy)
      <==> Compare(w, v) >= 0 && AgreesUpTo(component, v, w)
  {
    LineMeaning(v, component, lim, fromZero, w, policy);
  }

  /** `^pv`: at or above `pv`, with what `pv` says up to its first component that is not zero. */
  lemma CaretMeaning(pv: Partial, lim: Limits, w: Version, policy: Policy)
    requires WellFormedPartial(pv) && Valid(w) && !IsPrerelease(w)
    ensures ExpandCaret(pv, lim).Some? <==>
      Fits(Floor(pv), lim) && Get(CaretComponent(pv), Floor(pv)) < MaxOf(CaretComponent(pv), lim)
    ensures ExpandCaret(pv, lim).Some? ==>
      (RangeContains(ExpandCaret(pv, lim).value, w, policy) <==>
        && Compare(w, Floor(pv)) >= 0
        && w.major == Floor(pv).major
        && (Floor(pv).major == 0 && pv.minor.Some? ==> w.minor == Floor(pv).minor)
        && (Floor(pv).major == 0 && Floor(pv).minor == 0 && pv.patch.Some? ==> w.patch == Floor(pv).patch))
  {
    LineSucceeds(Floor(pv), CaretComponent(pv), lim, CaretFromZero(pv));
    if ExpandCaret(pv, lim).Some? {
      ReleaseOnLine(Floor(pv), CaretComponent(pv), lim, CaretFromZero(pv), w, policy);
    }
  }

  /** `~pv` and a bare partial: at or above `pv`, keeping the major and, when given, the minor component. */
  lemma NextLineMeaning(pv: Partial, lim: Limits, fromZero: bool, w: Version, policy: Policy)
    requires WellFormedPartial(pv) && Valid(w) && !IsPrerelease(w)
    requires fromZero ==> IsPartial(pv)
    ensures ExpandToNextLine(pv, lim, fromZero).Some? <==>
      pv.major.None? || (Fits(Floor(pv), lim)
        && if pv.minor.Some? then Floor(pv).minor < lim.minor else Floor(pv).major < lim.major)
    ensures ExpandToNextLine(pv, lim, fromZero).Some? ==>
      (RangeContains(ExpandToNextLine(pv, lim, fromZero).value, w, policy) <==>
        pv.major.Some? ==>
          && Compare(w, Floor(pv)) >= 0
          && w.major == Floor(pv).major
          && (pv.minor.Some? ==> w.minor == Floor(pv).minor))
  {
    if pv.major.Some? {
      LineSucceeds(Floor(pv), NextLineComponent(pv), lim, fromZero);
      if ExpandToNextLine(pv, lim, fromZero).Some? {
        ReleaseOnLine(Floor(pv), NextLineComponent(pv), lim, fromZero, w, policy);
      }
    }
  }

  /**
   * A prerelease inside a caret or tilde line: `exclude` admits it only next to a tag written
   * in the range, `include` from the floor upwards, or from core-0 when the flag is set.
   */
  lemma PrereleaseOnLine(v: Version, component: Component, lim: Limits, fromZero: bool, w: Version)
    requires Valid(v) && Valid(w) && IsPrerelease(w) && Line(v, component, lim, fromZero).Some?
    requires fromZero ==> !IsPrerelease(v)
    ensures RangeContains(Line(v, component, lim, fromZero).value, w, Exclude) <==>
      IsPrerelease(v) && SameCore(v, w) && CompareTags(w.prerelease, v.prerelease) >= 0
    ensures RangeContains(Line(v, component, lim, fromZero).value, w, Include) <==>
      && AgreesUpTo(component, v, w)
      && (if fromZero then CompareCore(w, v) >= 0 else Compare(w, v) >= 0)
  {
    LineMeaning(v, component, lim, fromZero, w, Exclude);
    LineMeaning(v, component, lim, fromZero, w, Include);
    CoreRange(v, w);
    CompareIsTotal(w, Tagged(v, "0"));
  }

  /**
   * Partial `>=` and `<` compare with the first core of the line: `include` looks at the core
   * alone, and `exclude` besides admits only releases.
   */
  lemma PartialComparatorMeaning(pv: Partial, lim: Limits, w: Version, policy: Policy)
    requires WellFormedPartial(pv) && IsPartial(pv) && Valid(w) && Fits(Floor(pv), lim)
    ensures ExpandComparator(pv, GreaterOrEqual, lim).Some? && ExpandComparator(pv, Less, lim).Some?
    ensures RangeContains(ExpandComparator(pv, GreaterOrEqual, lim).value, w, policy)
      <==> CompareCore(w, Floor(pv)) >= 0 && (policy == Exclude ==> !IsPrerelease(w))
    ensures RangeContains(ExpandComparator(pv, Less, lim).value, w, policy)
      <==> CompareCore(w, Floor(pv)) < 0 && (policy == Exclude ==> !IsPrerelease(w))
  {
    var atLeast := ExpandComparator(pv, GreaterOrEqual, lim).value;
    var below := ExpandComparator(pv, Less, lim).value;
    assert atLeast == [Comparator(Floor(pv), GreaterOrEqual, true)];
    assert below == [Comparator(Tagged(Floor(pv), "0"), Less, false)];
    BelowCoreZero(w, Floor(pv));
    ThresholdDecides(atLeast[0], w, policy);
    CompareIsTotal(w, Tagged(Floor(pv), "0"));
    assert AllContain(atLeast, w, policy) <==> ComparatorContains(atLeast[0], w, policy);
    assert AllContain(below, w, policy) <==> ComparatorContains(below[0], w, policy);
    assert Targets(below[0], w) <==> SameCore(w, Floor(pv));
  }

  /** Every expansion keeps the invariant of parser-made comparators. */
  lemma ExpansionsAreWellFormed(pv: Partial, op: Operator, lim: Limits, fromZero: bool)
    requires WellFormedPartial(pv) && (fromZero ==> IsPartial(pv))
    ensures ExpandCaret(pv, lim).Some? ==> WellFormedRange(ExpandCaret(pv, lim).value, lim)
    ensures ExpandToNextLine(pv, lim, fromZero).Some? ==>
      WellFormedRange(ExpandToNextLine(pv, lim, fromZero).value, lim)
    ensures ExpandComparator(pv, op, lim).Some? ==> WellFormedRange(ExpandComparator(pv, op, lim).value, lim)
  {
    ZeroTag();
    hide Line;
    LineIsWellFormed(Floor(pv), CaretComponent(pv), lim, CaretFromZero(pv));
    LineIsWellFormed(Floor(pv), NextLineComponent(pv), lim, fromZero);
  }

  lemma LineIsWellFormed(v: Version, component: Component, lim: Limits, fromZero: bool)
    requires ValidPrerelease(v.prerelease) && v.build == "" && (fromZero ==> !IsPrerelease(v))
    ensures Line(v, component, lim, fromZero).Some? ==> WellFormedRange(Line(v, component, lim, fromZero).value, lim)
  {
    ZeroTag();
    hide ValidIds;
  }
}
