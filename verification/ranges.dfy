/** Range sets, membership under the two prerelease policies, and the candidate search. */
module Ranges {
  import opened Tags
  import opened Versions
  import opened Wrappers

  datatype Operator = Less | LessOrEqual | Greater | GreaterOrEqual | Equal | NotEqual

  datatype Policy = Exclude | Include

  datatype Comparator = Comparator(bound: Version, op: Operator, fromZero: bool)

  type Range = seq<Comparator>
  type RangeSet = seq<Range>

  /** How a three-way comparison against the bound answers an operator. */
  predicate Holds(op: Operator, comparison: int) {
    match op
    case Less => comparison < 0
    case LessOrEqual => comparison <= 0
    case Greater => comparison > 0
    case GreaterOrEqual => comparison >= 0
    case Equal => comparison == 0
    case NotEqual => comparison != 0
  }

  function ComparisonUnder(rc: Comparator, v: Version, policy: Policy): int {
    if policy == Include && rc.fromZero then
      var core := CompareCore(v, rc.bound);
      if core != 0 then core
      else if v.prerelease == "" then 1
      else CompareTags(v.prerelease, "0")
    else Compare(v, rc.bound)
  }

  predicate ComparatorContains(rc: Comparator, v: Version, policy: Policy) {
    Holds(rc.op, ComparisonUnder(rc, v, policy))
  }

  /** A prerelease passes the default filter when a comparator targets a prerelease of its core. */
  predicate AllowsPrerelease(r: Range, v: Version) {
    || v.prerelease == ""
    || exists i :: 0 <= i < |r| && Targets(r[i], v)
  }

  predicate Targets(rc: Comparator, v: Version) {
    rc.op != NotEqual && IsPrerelease(rc.bound) && SameCore(v, rc.bound)
  }

  predicate AllContain(r: Range, v: Version, policy: Policy) {
    forall i :: 0 <= i < |r| ==> ComparatorContains(r[i], v, policy)
  }

  predicate RangeContains(r: Range, v: Version, policy: Policy) {
    && (policy == Exclude ==> AllowsPrerelease(r, v))
    && AllContain(r, v, policy)
  }

  predicate Contains(rs: RangeSet, v: Version, policy: Policy) {
    exists i :: 0 <= i < |rs| && RangeContains(rs[i], v, policy)
  }

  // ---------- What the parser establishes ----------

  /** The from-zero flag comes only with `>=` and a release bound. */
  ghost predicate WellFormed(rc: Comparator, lim: Limits) {
    && Representable(rc.bound, lim)
    && rc.bound.build == ""
    && (rc.fromZero ==> rc.op == GreaterOrEqual && !IsPrerelease(rc.bound))
  }

  ghost predicate WellFormedRange(r: Range, lim: Limits) {
    forall i :: 0 <= i < |r| ==> WellFormed(r[i], lim)
  }

  ghost predicate WellFormedSet(rs: RangeSet, lim: Limits) {
    forall i :: 0 <= i < |rs| ==> WellFormedRange(rs[i], lim)
  }

  // ---------- The two policies ----------

  /** `include` accepts whatever `exclude` accepts. */
  lemma IncludeExtendsExclude(rs: RangeSet, v: Version, lim: Limits)
    requires WellFormedSet(rs, lim) && Valid(v)
    requires Contains(rs, v, Exclude)
    ensures Contains(rs, v, Include)
  {
    var i :| 0 <= i < |rs| && RangeContains(rs[i], v, Exclude);
    forall j | 0 <= j < |rs[i]| ensures ComparatorContains(rs[i][j], v, Include) {
      var rc := rs[i][j];
      assert ComparatorContains(rc, v, Exclude) && WellFormed(rc, lim);
      if rc.fromZero && IsPrerelease(v) {
        ZeroIsLeastTag(v.prerelease);
        TagsAntisymmetric("0", v.prerelease);
      }
    }
    assert RangeContains(rs[i], v, Include);
  }

  /** The policies agree on releases. */
  lemma PoliciesAgreeOnReleases(rs: RangeSet, v: Version, lim: Limits)
    requires WellFormedSet(rs, lim) && Valid(v) && !IsPrerelease(v)
    ensures Contains(rs, v, Include) <==> Contains(rs, v, Exclude)
  {
    if Contains(rs, v, Exclude) {
      IncludeExtendsExclude(rs, v, lim);
    }
    if Contains(rs, v, Include) {
      var i :| 0 <= i < |rs| && RangeContains(rs[i], v, Include);
      forall j | 0 <= j < |rs[i]| ensures ComparatorContains(rs[i][j], v, Exclude) {
        assert ComparatorContains(rs[i][j], v, Include) && WellFormed(rs[i][j], lim);
      }
      assert RangeContains(rs[i], v, Exclude);
    }
  }

  // ---------- Thresholds ----------

  /** The one version at which the answer of a comparator can change. */
  function Threshold(rc: Comparator, policy: Policy): Version {
    if policy == Include && rc.fromZero then Tagged(rc.bound, "0") else rc.bound
  }

  lemma ThresholdDecides(rc: Comparator, v: Version, policy: Policy)
    requires Valid(v)
    ensures ComparatorContains(rc, v, policy) == Holds(rc.op, Compare(v, Threshold(rc, policy)))
  {
  }

  /** No threshold of `cs` separates `c` from `v`. */
  ghost predicate Agree(cs: Range, c: Version, v: Version, policy: Policy) {
    forall i :: 0 <= i < |cs| ==>
      ComparatorContains(cs[i], c, policy) == ComparatorContains(cs[i], v, policy)
  }

  /** Nothing in `cs` lies above `low` and at or below `v`. */
  ghost predicate GapBelow(cs: Range, low: Version, v: Version, policy: Policy) {
    forall i :: 0 <= i < |cs| ==> InGap(cs[i], low, v, policy)
  }

  ghost predicate InGap(rc: Comparator, low: Version, v: Version, policy: Policy) {
    var t := Threshold(rc, policy);
    Compare(t, low) <= 0 || Compare(v, t) < 0
  }

  lemma AgreeInGap(cs: Range, low: Version, c: Version, v: Version, policy: Policy)
    requires Valid(c) && Valid(v)
    requires GapBelow(cs, low, v, policy) && Compare(low, c) < 0 && Compare(c, v) <= 0
    ensures Agree(cs, c, v, policy)
  {
    forall i | 0 <= i < |cs|
      ensures ComparatorContains(cs[i], c, policy) == ComparatorContains(cs[i], v, policy)
    {
      var t := Threshold(cs[i], policy);
      assert InGap(cs[i], low, v, policy);
      CompareIsTotal(c, t);
      CompareIsTotal(v, t);
      if Compare(t, low) <= 0 {
        CompareIsTransitive(t, low, c);
        CompareIsTransitive(t, c, v);
        CompareIsTotal(t, c);
      } else {
        CompareIsTransitive(c, v, t);
      }
    }
  }

  lemma AgreeBelowAll(cs: Range, c: Version, v: Version, policy: Policy)
    requires Valid(c) && Valid(v) && Compare(c, v) <= 0
    requires forall i :: 0 <= i < |cs| ==> Compare(v, Threshold(cs[i], policy)) < 0
    ensures Agree(cs, c, v, policy)
  {
    forall i | 0 <= i < |cs|
      ensures ComparatorContains(cs[i], c, policy) == ComparatorContains(cs[i], v, policy)
    {
      CompareIsTransitive(c, v, Threshold(cs[i], policy));
    }
  }

  lemma AgreeWhenEqual(cs: Range, c: Version, v: Version, policy: Policy)
    requires Valid(c) && Valid(v) && Compare(c, v) == 0
    ensures Agree(cs, c, v, policy)
  {
    CompareIsTotal(c, v);
    forall i | 0 <= i < |cs|
      ensures ComparatorContains(cs[i], c, policy) == ComparatorContains(cs[i], v, policy)
    {
      assert Compare(c, Threshold(cs[i], policy)) == Compare(v, Threshold(cs[i], policy));
    }
  }

  /** The highest threshold at or below `v`, if any. */
  lemma FloorThreshold(cs: Range, v: Version, policy: Policy) returns (found: Option<nat>)
    ensures found.None? ==> forall i :: 0 <= i < |cs| ==> Compare(v, Threshold(cs[i], policy)) < 0
    ensures found.Some? ==>
      && found.value < |cs|
      && Compare(Threshold(cs[found.value], policy), v) <= 0
      && GapBelow(cs, Threshold(cs[found.value], policy), v, policy)
  {
    hide Compare, Threshold;
    found := None;
    for k := 0 to |cs|
      invariant found.None? ==> forall i :: 0 <= i < k ==> Compare(v, Threshold(cs[i], policy)) < 0
      invariant found.Some? ==>
        && found.value < k
        && Compare(Threshold(cs[found.value], policy), v) <= 0
        && forall i :: 0 <= i < k ==> InGap(cs[i], Threshold(cs[found.value], policy), v, policy)
    {
      var t := Threshold(cs[k], policy);
      CompareIsTotal(t, v);
      CompareIsTotal(t, t);
      if Compare(t, v) <= 0 {
        if found.None? {
          found := Some(k);
        } else {
          var low := Threshold(cs[found.value], policy);
          CompareIsTotal(low, t);
          if Compare(low, t) < 0 {
            forall i | 0 <= i < k ensures InGap(cs[i], t, v, policy) {
              RaiseGap(cs[i], low, t, v, policy);
            }
            found := Some(k);
          }
        }
      }
    }
  }

  lemma RaiseGap(rc: Comparator, low: Version, high: Version, v: Version, policy: Policy)
    requires InGap(rc, low, v, policy) && Compare(low, high) <= 0
    ensures InGap(rc, high, v, policy)
  {
    var t := Threshold(rc, policy);
    if Compare(t, low) <= 0 {
      CompareIsTransitive(t, low, high);
    }
  }

  // ---------- Candidates ----------

  /** The versions visited for one comparator, in visiting order. */
  function CandidatesOf(rc: Comparator, lim: Limits): seq<Version> {
    var b := rc.bound.(build := "");
    [b]
    + (if b.prerelease != "0" then [Tagged(b, "0")] else [])
    + (if IsPrerelease(b) then [Release(b), Tagged(b, b.prerelease + ".0")] else [])
    + (match NextCore(b, lim)
       case Some(n) => [n, Tagged(n, "0")]
       case None => [])
  }

  /** The versions visited for a range, in visiting order. */
  function RangeCandidates(cs: Range, lim: Limits): seq<Version> {
    if cs == [] then [] else CandidatesOf(cs[0], lim) + RangeCandidates(cs[1..], lim)
  }

  const FIRST_CANDIDATES: seq<Version> := [ZERO, Tagged(ZERO, "0")]

  lemma {:induction false} CandidateOfMember(cs: Range, i: nat, c: Version, lim: Limits)
    requires i < |cs| && c in CandidatesOf(cs[i], lim)
    ensures c in RangeCandidates(cs, lim)
  {
    if i > 0 {
      CandidateOfMember(cs[1..], i - 1, c, lim);
    }
  }

  lemma {:induction false} CandidatesOfConcat(a: Range, b: Range, lim: Limits)
    ensures RangeCandidates(a + b, lim) == RangeCandidates(a, lim) + RangeCandidates(b, lim)
  {
    if a == [] {
      assert a + b == b;
    } else {
      assert (a + b)[1..] == a[1..] + b;
      CandidatesOfConcat(a[1..], b, lim);
    }
  }

  lemma TaggedIsRepresentable(v: Version, tag: string, lim: Limits)
    requires Fits(v, lim) && (tag == "" || ValidIds(tag, true))
    ensures Representable(Tagged(v, tag), lim)
  {
    hide ValidIds;
  }

  lemma CandidatesOfAreRepresentable(rc: Comparator, lim: Limits)
    requires WellFormed(rc, lim)
    ensures forall c :: c in CandidatesOf(rc, lim) ==> Representable(c, lim)
  {
    var b := rc.bound;
    ZeroTag();
    if IsPrerelease(b) {
      DotZeroIsSuccessor(b.prerelease, "0");
      TaggedIsRepresentable(b, b.prerelease + ".0", lim);
    }
    TaggedIsRepresentable(b, "0", lim);
    TaggedIsRepresentable(b, "", lim);
    NextCoreIsImmediate(b, b, lim);
    if NextCore(b, lim).Some? {
      var n := NextCore(b, lim).value;
      TaggedIsRepresentable(n, "0", lim);
      TaggedIsRepresentable(n, "", lim);
      assert n == Tagged(n, "");
    }
    hide Representable, NextCore;
  }

  lemma {:induction false} CandidatesAreRepresentable(cs: Range, lim: Limits)
    requires WellFormedRange(cs, lim)
    ensures forall c :: c in RangeCandidates(cs, lim) ==> Representable(c, lim)
  {
    if cs != [] {
      assert WellFormed(cs[0], lim);
      CandidatesOfAreRepresentable(cs[0], lim);
      CandidatesAreRepresentable(cs[1..], lim);
    }
  }

  ghost predicate IsCandidate(cs: Range, c: Version, lim: Limits) {
    c in FIRST_CANDIDATES || c in RangeCandidates(cs, lim)
  }

  /** Under `exclude`, `v` is a release or some bound is a prerelease of its core. */
  ghost predicate PassesFilter(cs: Range, v: Version, policy: Policy) {
    policy == Exclude ==> !IsPrerelease(v) || exists i :: 0 <= i < |cs| && Targets(cs[i], v)
  }

  /** What makes a range filter `c` exactly as it filters `v`. */
  ghost predicate SameFiltering(c: Version, v: Version, policy: Policy) {
    policy == Exclude ==>
      && IsPrerelease(c) == IsPrerelease(v)
      && (IsPrerelease(v) ==> SameCore(c, v))
  }

  /** `c` is a visited candidate that stands in for `v`. */
  ghost predicate StandsFor(cs: Range, c: Version, v: Version, policy: Policy, lim: Limits) {
    && IsCandidate(cs, c, lim)
    && Compare(c, v) <= 0
    && Agree(cs, c, v, policy)
    && SameFiltering(c, v, policy)
  }

  lemma StandInIncluding(cs: Range, v: Version, lim: Limits) returns (c: Version)
    requires WellFormedRange(cs, lim) && Representable(v, lim)
    ensures StandsFor(cs, c, v, Include, lim)
  {
    var found := FloorThreshold(cs, v, Include);
    ZeroTag();
    if found.None? {
      c := Tagged(ZERO, "0");
      ZeroIsLeast(v);
      AgreeBelowAll(cs, c, v, Include);
      return;
    }
    var k := found.value;
    var t := Threshold(cs[k], Include);
    assert WellFormed(cs[k], lim);
    assert t in CandidatesOf(cs[k], lim);
    CandidateOfMember(cs, k, t, lim);
    if Compare(t, v) == 0 {
      c := t;
      AgreeWhenEqual(cs, c, v, Include);
    } else if exists i :: 0 <= i < |cs| && !cs[i].fromZero && Compare(cs[i].bound, t) == 0 {
      var i :| 0 <= i < |cs| && !cs[i].fromZero && Compare(cs[i].bound, t) == 0;
      var b := cs[i].bound;
      assert WellFormed(cs[i], lim);
      CompareIsTotal(b, t);
      assert b == t;
      SuccessorIsImmediate(t, v, lim);
      c := Successor(t, lim).value;
      assert c in CandidatesOf(cs[i], lim);
      CandidateOfMember(cs, i, c, lim);
      AgreeInGap(cs, t, c, v, Include);
    } else {
      c := t;
      AgreeOnFromZero(cs, t, v, lim);
    }
  }

  /** Only `>=` thresholds sit at `t`, so `t` itself answers as everything in the gap above it. */
  lemma AgreeOnFromZero(cs: Range, t: Version, v: Version, lim: Limits)
    requires WellFormedRange(cs, lim) && Valid(t) && Valid(v)
    requires GapBelow(cs, t, v, Include) && Compare(t, v) < 0
    requires forall i :: 0 <= i < |cs| && Compare(cs[i].bound, t) == 0 ==> cs[i].fromZero
    ensures Agree(cs, t, v, Include)
  {
    forall i | 0 <= i < |cs|
      ensures ComparatorContains(cs[i], t, Include) == ComparatorContains(cs[i], v, Include)
    {
      var s := Threshold(cs[i], Include);
      assert WellFormed(cs[i], lim) && InGap(cs[i], t, v, Include);
      CompareIsTotal(t, s);
      CompareIsTotal(v, s);
      if Compare(s, t) <= 0 {
        CompareIsTransitive(s, t, v);
      } else {
        CompareIsTransitive(t, v, s);
      }
    }
  }

  lemma StandInForRelease(cs: Range, v: Version, lim: Limits) returns (c: Version)
    requires WellFormedRange(cs, lim) && Representable(v, lim) && !IsPrerelease(v)
    ensures StandsFor(cs, c, v, Exclude, lim)
  {
    var found := FloorThreshold(cs, v, Exclude);
    if found.None? {
      c := ZERO;
      ZeroIsLeast(v);
      AgreeBelowAll(cs, c, v, Exclude);
      return;
    }
    var k := found.value;
    var t := cs[k].bound;
    assert WellFormed(cs[k], lim);
    if Compare(t, v) == 0 {
      c := t;
      AgreeWhenEqual(cs, c, v, Exclude);
    } else if IsPrerelease(t) {
      c := Release(t);
      AgreeInGap(cs, t, c, v, Exclude);
    } else {
      NextCoreIsImmediate(t, v, lim);
      c := NextCore(t, lim).value;
      AgreeInGap(cs, t, c, v, Exclude);
    }
    assert c in CandidatesOf(cs[k], lim);
    CandidateOfMember(cs, k, c, lim);
  }

  /** The bound, the bottom of its core, and its successor are visited. */
  lemma OwnCandidates(rc: Comparator, lim: Limits)
    requires WellFormed(rc, lim)
    ensures rc.bound in CandidatesOf(rc, lim)
    ensures Tagged(rc.bound, "0") in CandidatesOf(rc, lim)
    ensures Successor(rc.bound, lim).Some? ==> Successor(rc.bound, lim).value in CandidatesOf(rc, lim)
  {
  }

  lemma BottomOfCore(z: Version, v: Version)
    requires Valid(v) && z == Tagged(z, "0") && SameCore(z, v)
    ensures Compare(z, v) <= 0
  {
    CoreRange(z, v);
  }

  /** Between the bottom of a core and a prerelease of it there are only prereleases of it. */
  lemma BetweenBottomAnd(z: Version, t: Version, v: Version)
    requires Valid(t) && z == Tagged(z, "0") && SameCore(z, v) && IsPrerelease(v)
    requires Compare(t, z) >= 0 && Compare(t, v) <= 0
    ensures SameCore(t, v) && IsPrerelease(t)
  {
    CoreRange(z, t);
    CompareIsTotal(z, t);
  }

  lemma StandInForPrerelease(cs: Range, v: Version, lim: Limits) returns (c: Version)
    requires WellFormedRange(cs, lim) && Representable(v, lim) && IsPrerelease(v)
    requires PassesFilter(cs, v, Exclude)
    ensures StandsFor(cs, c, v, Exclude, lim)
  {
    hide CandidatesOf, RangeCandidates, NextCore, Compare, CompareCore, ValidIds;
    var j :| 0 <= j < |cs| && Targets(cs[j], v);
    var z := Tagged(cs[j].bound, "0");
    assert WellFormed(cs[j], lim);
    ZeroTag();
    OwnCandidates(cs[j], lim);
    CandidateOfMember(cs, j, z, lim);
    BottomOfCore(z, v);
    var found := FloorThreshold(cs, v, Exclude);
    if found.None? {
      c := z;
      AgreeBelowAll(cs, c, v, Exclude);
      return;
    }
    var k := found.value;
    var t := cs[k].bound;
    assert WellFormed(cs[k], lim);
    OwnCandidates(cs[k], lim);
    CompareIsTotal(t, z);
    if Compare(t, z) < 0 {
      c := z;
      AgreeInGap(cs, t, c, v, Exclude);
    } else {
      BetweenBottomAnd(z, t, v);
      if Compare(t, v) == 0 {
        c := t;
        AgreeWhenEqual(cs, c, v, Exclude);
      } else {
        SuccessorIsImmediate(t, v, lim);
        c := Successor(t, lim).value;
        AgreeInGap(cs, t, c, v, Exclude);
      }
      CandidateOfMember(cs, k, c, lim);
    }
  }

  /**
   * The short list is enough: for every representable version some visited candidate at or below
   * it gets the same answer from every comparator and from the prerelease filter.
   */
  lemma EveryVersionHasAStandIn(cs: Range, v: Version, policy: Policy, lim: Limits) returns (c: Version)
    requires WellFormedRange(cs, lim) && Representable(v, lim)
    requires PassesFilter(cs, v, policy)
    ensures StandsFor(cs, c, v, policy, lim)
  {
    if policy == Include {
      c := StandInIncluding(cs, v, lim);
    } else if IsPrerelease(v) {
      c := StandInForPrerelease(cs, v, lim);
    } else {
      c := StandInForRelease(cs, v, lim);
    }
  }

  /** A sub-range answers for a stand-in of a larger one as it answers for the version itself. */
  lemma StandInKeepsMembership(cs: Range, low: nat, high: nat, c: Version, v: Version, policy: Policy, lim: Limits)
    requires low <= high <= |cs| && StandsFor(cs, c, v, policy, lim)
    requires RangeContains(cs[low..high], v, policy)
    ensures RangeContains(cs[low..high], c, policy)
  {
    var r := cs[low..high];
    forall i | 0 <= i < |r| ensures ComparatorContains(r[i], c, policy) {
      assert r[i] == cs[low + i];
    }
    if policy == Exclude && IsPrerelease(v) {
      var i :| 0 <= i < |r| && Targets(r[i], v);
      assert Targets(r[i], c);
    }
  }

  lemma RangeHasLowStandIn(cs: Range, v: Version, policy: Policy, lim: Limits) returns (c: Version)
    requires WellFormedRange(cs, lim) && Representable(v, lim) && RangeContains(cs, v, policy)
    ensures IsCandidate(cs, c, lim) && Compare(c, v) <= 0 && RangeContains(cs, c, policy)
  {
    c := EveryVersionHasAStandIn(cs, v, policy, lim);
    assert cs[0..|cs|] == cs;
    StandInKeepsMembership(cs, 0, |cs|, c, v, policy, lim);
  }

  // ---------- min_version ----------

  /** `best` is contained and no version tested so far that is contained lies below it. */
  ghost predicate BestOf(tested: set<Version>, best: Option<Version>, rs: RangeSet, policy: Policy) {
    match best
    case None => forall c :: c in tested ==> !Contains(rs, c, policy)
    case Some(b) =>
      && b in tested && Contains(rs, b, policy)
      && forall c :: c in tested && Contains(rs, c, policy) ==> Compare(b, c) <= 0
  }

  /** One call of the `consider` closure. */
  method Consider(rs: RangeSet, policy: Policy, candidate: Version, best: Option<Version>, ghost tested: set<Version>)
    returns (better: Option<Version>)
    requires BestOf(tested, best, rs, policy)
    ensures BestOf(tested + {candidate}, better, rs, policy)
  {
    if Contains(rs, candidate, policy) && (best.None? || Compare(candidate, best.value) < 0) {
      better := Some(candidate);
      forall c | c in tested + {candidate} && Contains(rs, c, policy) ensures Compare(candidate, c) <= 0 {
        if c in tested {
          CompareIsTransitive(candidate, best.value, c);
        } else {
          CompareIsTotal(c, c);
        }
      }
    } else {
      better := best;
      if best.Some? {
        CompareIsTotal(candidate, best.value);
      }
    }
  }

  /** Visits candidates in order, considering each. */
  method ConsiderAll(rs: RangeSet, policy: Policy, candidates: seq<Version>, best: Option<Version>, ghost tested: set<Version>)
    returns (better: Option<Version>)
    requires BestOf(tested, best, rs, policy)
    ensures BestOf(tested + Elements(candidates), better, rs, policy)
  {
    hide BestOf;
    better := best;
    assert tested + Elements(candidates[..0]) == tested;
    for i := 0 to |candidates|
      invariant BestOf(tested + Elements(candidates[..i]), better, rs, policy)
    {
      ghost var before := tested + Elements(candidates[..i]);
      better := Consider(rs, policy, candidates[i], better, before);
      assert candidates[..i + 1] == candidates[..i] + [candidates[i]];
      assert before + {candidates[i]} == tested + Elements(candidates[..i + 1]);
    }
    assert candidates[..|candidates|] == candidates;
  }

  ghost function Elements(vs: seq<Version>): set<Version> {
    set v | v in vs
  }

  /** What has been tested after the first candidates and those of the first `k` ranges. */
  ghost function TestedUpTo(rs: RangeSet, k: nat, lim: Limits): set<Version>
    requires k <= |rs|
  {
    if k == 0 then Elements(FIRST_CANDIDATES)
    else TestedUpTo(rs, k - 1, lim) + Elements(RangeCandidates(rs[k - 1], lim))
  }

  lemma TestedUpToStep(rs: RangeSet, k: nat, lim: Limits)
    requires 0 < k <= |rs|
    ensures TestedUpTo(rs, k, lim) == TestedUpTo(rs, k - 1, lim) + Elements(RangeCandidates(rs[k - 1], lim))
  {
  }

  lemma {:induction false} TestedUpToHolds(rs: RangeSet, k: nat, lim: Limits)
    requires k <= |rs| && WellFormedSet(rs, lim)
    ensures forall c :: c in FIRST_CANDIDATES ==> c in TestedUpTo(rs, k, lim)
    ensures forall j, c :: 0 <= j < k && c in RangeCandidates(rs[j], lim) ==> c in TestedUpTo(rs, k, lim)
    ensures forall c :: c in TestedUpTo(rs, k, lim) ==> Representable(c, lim)
  {
    hide RangeCandidates;
    ZeroTag();
    if k > 0 {
      TestedUpToHolds(rs, k - 1, lim);
      assert WellFormedRange(rs[k - 1], lim);
      CandidatesAreRepresentable(rs[k - 1], lim);
    }
  }

  /** Once every candidate has been tested, the best of them is the least contained version. */
  lemma BestTestedIsLeast(rs: RangeSet, policy: Policy, lim: Limits, best: Option<Version>)
    requires WellFormedSet(rs, lim) && BestOf(TestedUpTo(rs, |rs|, lim), best, rs, policy)
    ensures best.Some? ==> Representable(best.value, lim) && Contains(rs, best.value, policy)
    ensures forall v :: Representable(v, lim) && Contains(rs, v, policy) ==>
      best.Some? && Compare(best.value, v) <= 0
  {
    TestedUpToHolds(rs, |rs|, lim);
    forall v | Representable(v, lim) && Contains(rs, v, policy)
      ensures best.Some? && Compare(best.value, v) <= 0
    {
      var k :| 0 <= k < |rs| && RangeContains(rs[k], v, policy);
      assert WellFormedRange(rs[k], lim);
      var c := RangeHasLowStandIn(rs[k], v, policy, lim);
      assert c in TestedUpTo(rs, |rs|, lim) && Contains(rs, c, policy);
      CompareIsTransitive(best.value, c, v);
    }
  }

  /**
   * The least contained version that the types can hold, found by testing only the candidates.
   */
  method MinVersion(rs: RangeSet, policy: Policy, lim: Limits) returns (result: Option<Version>)
    requires WellFormedSet(rs, lim)
    ensures result.None? <==> forall v :: Representable(v, lim) ==> !Contains(rs, v, policy)
    ensures result.Some? ==>
      && Representable(result.value, lim) && Contains(rs, result.value, policy)
      && forall v :: Representable(v, lim) && Contains(rs, v, policy) ==> Compare(result.value, v) <= 0
  {
    result := None;
    if rs == [] {
      return;
    }
    result := BestCandidate(rs, policy, lim);
    BestTestedIsLeast(rs, policy, lim, result);
  }

  method BestCandidate(rs: RangeSet, policy: Policy, lim: Limits) returns (best: Option<Version>)
    ensures BestOf(TestedUpTo(rs, |rs|, lim), best, rs, policy)
  {
    hide *;
    best := None;
    NothingTested(rs, policy);
    best := ConsiderAll(rs, policy, FIRST_CANDIDATES, best, {});
    FirstTested(rs, lim);
    for k := 0 to |rs|
      invariant BestOf(TestedUpTo(rs, k, lim), best, rs, policy)
    {
      ghost var tested := TestedUpTo(rs, k, lim);
      best := ConsiderAll(rs, policy, RangeCandidates(rs[k], lim), best, tested);
      TestedUpToStep(rs, k + 1, lim);
    }
  }

  lemma NothingTested(rs: RangeSet, policy: Policy)
    ensures BestOf({}, None, rs, policy)
  {
  }

  lemma FirstTested(rs: RangeSet, lim: Limits)
    ensures TestedUpTo(rs, 0, lim) == {} + Elements(FIRST_CANDIDATES)
  {
  }

  // ---------- intersects ----------

  function Wider(l: Limits, r: Limits): Limits {
    Limits(if l.major >= r.major then l.major else r.major,
           if l.minor >= r.minor then l.minor else r.minor,
           if l.patch >= r.patch then l.patch else r.patch)
  }

  predicate HasUpperBound(r: Range) {
    exists i :: 0 <= i < |r| && IsUpper(r[i].op)
  }

  predicate IsUpper(op: Operator) {
    op == Less || op == LessOrEqual || op == Equal
  }

  ghost predicate CommonVersion(l: RangeSet, r: RangeSet, v: Version, policy: Policy) {
    Contains(l, v, policy) && Contains(r, v, policy)
  }

  ghost predicate BothUnbounded(l: RangeSet, r: RangeSet) {
    exists i, j :: 0 <= i < |l| && 0 <= j < |r| && !HasUpperBound(l[i]) && !HasUpperBound(r[j])
  }

  /** Every major number used by a bound is below this one. */
  function BeyondAll(r: Range): nat {
    if r == [] then 0
    else var rest := BeyondAll(r[1..]);
      if r[0].bound.major >= rest then r[0].bound.major + 1 else rest
  }

  lemma {:induction false} BeyondAllIsBeyond(r: Range, i: nat)
    requires i < |r|
    ensures r[i].bound.major < BeyondAll(r)
  {
    if i > 0 {
      BeyondAllIsBeyond(r[1..], i - 1);
    }
  }

  /** A range without upper bound contains every release of a large enough major version. */
  lemma UnboundedRangeIsCofinal(r: Range, v: Version, policy: Policy)
    requires !HasUpperBound(r) && v.major >= BeyondAll(r) && !IsPrerelease(v)
    ensures RangeContains(r, v, policy)
  {
    forall i | 0 <= i < |r| ensures ComparatorContains(r[i], v, policy) {
      BeyondAllIsBeyond(r, i);
      assert !IsUpper(r[i].op);
    }
  }

  /** An upper bound is one: a range has it if and only if it contains nothing of the larger major versions. */
  lemma UpperBoundIsReal(r: Range, policy: Policy)
    ensures HasUpperBound(r) <==> exists m: nat :: NothingFrom(r, m, policy)
  {
    if HasUpperBound(r) {
      var i :| 0 <= i < |r| && IsUpper(r[i].op);
      var m := r[i].bound.major + 1;
      forall v: Version | v.major >= m ensures !RangeContains(r, v, policy) {
        assert !ComparatorContains(r[i], v, policy);
      }
      assert NothingFrom(r, m, policy);
    } else if m: nat :| NothingFrom(r, m, policy) {
      var v := Version(m + BeyondAll(r), 0, 0, "", "");
      UnboundedRangeIsCofinal(r, v, policy);
    }
  }

  ghost predicate NothingFrom(r: Range, m: nat, policy: Policy) {
    forall v: Version :: v.major >= m ==> !RangeContains(r, v, policy)
  }

  /** The both-unbounded shortcut is justified by a release with unbounded components. */
  lemma UnboundedRangesMeet(l: RangeSet, r: RangeSet, policy: Policy) returns (v: Version)
    requires BothUnbounded(l, r)
    ensures Valid(v) && CommonVersion(l, r, v, policy)
  {
    var i, j :| 0 <= i < |l| && 0 <= j < |r| && !HasUpperBound(l[i]) && !HasUpperBound(r[j]);
    v := Version(BeyondAll(l[i]) + BeyondAll(r[j]), 0, 0, "", "");
    UnboundedRangeIsCofinal(l[i], v, policy);
    UnboundedRangeIsCofinal(r[j], v, policy);
  }

  lemma WellFormedInWider(cs: Range, lim: Limits, wide: Limits)
    requires WellFormedRange(cs, lim)
    requires lim.major <= wide.major && lim.minor <= wide.minor && lim.patch <= wide.patch
    ensures WellFormedRange(cs, wide)
  {
    forall i | 0 <= i < |cs| ensures WellFormed(cs[i], wide) {
      assert WellFormed(cs[i], lim);
    }
  }

  /** A version common to two ranges has a common candidate among those of the two. */
  lemma CommonCandidate(l: Range, r: Range, v: Version, policy: Policy, lim: Limits) returns (c: Version)
    requires WellFormedRange(l, lim) && WellFormedRange(r, lim) && Representable(v, lim)
    requires RangeContains(l, v, policy) && RangeContains(r, v, policy)
    ensures c in FIRST_CANDIDATES || c in RangeCandidates(l, lim) || c in RangeCandidates(r, lim)
    ensures RangeContains(l, c, policy) && RangeContains(r, c, policy)
  {
    var cs := l + r;
    ConcatPassesFilter(l, r, v, policy, lim);
    c := EveryVersionHasAStandIn(cs, v, policy, lim);
    CandidatesOfConcat(l, r, lim);
    assert cs[0..|l|] == l;
    StandInKeepsMembership(cs, 0, |l|, c, v, policy, lim);
    assert cs[|l|..|cs|] == r;
    StandInKeepsMembership(cs, |l|, |cs|, c, v, policy, lim);
  }

  /** One of the finitely many visited candidates lies in both ranges. */
  predicate ShareCandidate(l: Range, r: Range, policy: Policy, lim: Limits) {
    exists c :: c in FIRST_CANDIDATES + RangeCandidates(l, lim) + RangeCandidates(r, lim)
      && RangeContains(l, c, policy) && RangeContains(r, c, policy)
  }

  predicate SetsShareCandidate(l: RangeSet, r: RangeSet, policy: Policy, lim: Limits) {
    exists i, j :: 0 <= i < |l| && 0 <= j < |r| && ShareCandidate(l[i], r[j], policy, lim)
  }

  lemma MeetIffShareCandidate(l: Range, r: Range, policy: Policy, lim: Limits)
    requires WellFormedRange(l, lim) && WellFormedRange(r, lim)
    ensures ShareCandidate(l, r, policy, lim) <==>
      exists v :: Representable(v, lim) && RangeContains(l, v, policy) && RangeContains(r, v, policy)
  {
    hide RangeContains, RangeCandidates, WellFormedRange;
    ZeroTag();
    CandidatesAreRepresentable(l, lim);
    CandidatesAreRepresentable(r, lim);
    if v :| Representable(v, lim) && RangeContains(l, v, policy) && RangeContains(r, v, policy) {
      var c := CommonCandidate(l, r, v, policy, lim);
    }
  }

  /**
   * A representable version lies in both sets if and only if a visited candidate does, also where
   * both hold a range without upper bound. So the shortcut's answer is right for the component
   * types exactly when some pair of ranges shares a candidate, which is a finite test.
   */
  lemma ShortcutIsRight(l: RangeSet, r: RangeSet, policy: Policy, lim: Limits)
    requires WellFormedSet(l, lim) && WellFormedSet(r, lim)
    ensures SetsShareCandidate(l, r, policy, lim) <==>
      exists v :: Representable(v, lim) && CommonVersion(l, r, v, policy)
  {
    hide RangeContains, ShareCandidate, WellFormedRange;
    if v :| Representable(v, lim) && CommonVersion(l, r, v, policy) {
      var i :| 0 <= i < |l| && RangeContains(l[i], v, policy);
      var j :| 0 <= j < |r| && RangeContains(r[j], v, policy);
      MeetIffShareCandidate(l[i], r[j], policy, lim);
    }
    if i, j :| 0 <= i < |l| && 0 <= j < |r| && ShareCandidate(l[i], r[j], policy, lim) {
      MeetIffShareCandidate(l[i], r[j], policy, lim);
      var v :| Representable(v, lim) && RangeContains(l[i], v, policy) && RangeContains(r[j], v, policy);
      assert CommonVersion(l, r, v, policy);
    }
  }

  lemma ConcatPassesFilter(l: Range, r: Range, v: Version, policy: Policy, lim: Limits)
    requires WellFormedRange(l, lim) && WellFormedRange(r, lim)
    requires RangeContains(l, v, policy)
    ensures WellFormedRange(l + r, lim) && PassesFilter(l + r, v, policy)
  {
    var cs := l + r;
    forall i | 0 <= i < |cs| ensures WellFormed(cs[i], lim) {
      assert cs[i] == if i < |l| then l[i] else r[i - |l|];
    }
    if policy == Exclude && IsPrerelease(v) {
      var i :| 0 <= i < |l| && Targets(l[i], v);
      assert Targets(cs[i], v);
    }
  }

  /** Whether some visited candidate lies in both ranges. */
  method AnyMatches(candidates: seq<Version>, l: Range, r: Range, policy: Policy) returns (found: bool)
    ensures found <==>
      exists c :: c in candidates && RangeContains(l, c, policy) && RangeContains(r, c, policy)
  {
    hide RangeContains;
    for i := 0 to |candidates|
      invariant forall j :: 0 <= j < i ==>
        !(RangeContains(l, candidates[j], policy) && RangeContains(r, candidates[j], policy))
    {
      if RangeContains(l, candidates[i], policy) && RangeContains(r, candidates[i], policy) {
        return true;
      }
    }
    return false;
  }

  method RangesIntersect(l: Range, r: Range, policy: Policy, lim: Limits) returns (found: bool)
    requires WellFormedRange(l, lim) && WellFormedRange(r, lim)
    ensures found <==> exists v :: Representable(v, lim) && RangeContains(l, v, policy) && RangeContains(r, v, policy)
  {
    hide RangeContains, RangeCandidates;
    MeetIffShareCandidate(l, r, policy, lim);
    found := AnyMatches(FIRST_CANDIDATES, l, r, policy);
    if !found {
      found := AnyMatches(RangeCandidates(l, lim), l, r, policy);
    }
    if !found {
      found := AnyMatches(RangeCandidates(r, lim), l, r, policy);
    }
  }

  /**
   * True exactly when a version of the wider component types lies in both sets or both hold
   * a range without upper bound; and then some version of unbounded components lies in both.
   */
  method Intersects(l: RangeSet, lLim: Limits, r: RangeSet, rLim: Limits, policy: Policy) returns (found: bool)
    requires WellFormedSet(l, lLim) && WellFormedSet(r, rLim)
    ensures found <==>
      || BothUnbounded(l, r)
      || exists v :: Representable(v, Wider(lLim, rLim)) && CommonVersion(l, r, v, policy)
    ensures found ==> exists v :: Valid(v) && CommonVersion(l, r, v, policy)
  {
    hide RangeContains, HasUpperBound;
    var wide := Wider(lLim, rLim);
    for i := 0 to |l|
      invariant forall i', j' :: 0 <= i' < i && 0 <= j' < |r| ==> Disjoint(l[i'], r[j'], policy, wide)
    {
      for j := 0 to |r|
        invariant forall i', j' :: 0 <= i' < i && 0 <= j' < |r| ==> Disjoint(l[i'], r[j'], policy, wide)
        invariant forall j' :: 0 <= j' < j ==> Disjoint(l[i], r[j'], policy, wide)
      {
        assert WellFormedRange(l[i], lLim) && WellFormedRange(r[j], rLim);
        if !HasUpperBound(l[i]) && !HasUpperBound(r[j]) {
          var v := UnboundedRangesMeet(l, r, policy);
          return true;
        }
        WellFormedInWider(l[i], lLim, wide);
        WellFormedInWider(r[j], rLim, wide);
        var meet := RangesIntersect(l[i], r[j], policy, wide);
        if meet {
          ghost var v :| Representable(v, wide) && RangeContains(l[i], v, policy) && RangeContains(r[j], v, policy);
          assert CommonVersion(l, r, v, policy);
          return true;
        }
      }
    }
    return false;
  }

  /** Neither the shortcut nor a representable version joins the two ranges. */
  ghost predicate Disjoint(l: Range, r: Range, policy: Policy, lim: Limits) {
    && (HasUpperBound(l) || HasUpperBound(r))
    && forall v :: Representable(v, lim) ==> !(RangeContains(l, v, policy) && RangeContains(r, v, policy))
  }
}
