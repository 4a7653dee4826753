/** What each way to write a term means: from its text to the versions it contains, under both policies. */
module RangeMeaning {
  import opened Tags
  import opened Texts
  import opened Versions
  import opened VersionGrammar
  import opened Ranges
  import opened Desugaring
  import opened RangeGrammar
  import opened Wrappers

  /** Missing components count as zero. */
  lemma FloorFields(pv: Partial)
    ensures Floor(pv).major == (if pv.major.Some? then pv.major.value else 0)
    ensures Floor(pv).minor == (if pv.minor.Some? then pv.minor.value else 0)
    ensures Floor(pv).patch == (if pv.patch.Some? then pv.patch.value else 0)
    ensures Floor(pv).prerelease == pv.prerelease && Floor(pv).build == ""
  {
  }

  /** Under `exclude` a prerelease needs a tag written on its very core. */
  ghost predicate Admits(pv: Partial, w: Version, policy: Policy) {
    policy == Exclude && IsPrerelease(w) ==> pv.prerelease != "" && SameCore(w, Floor(pv))
  }

  ghost predicate Holding(r: Outcome<RangeSet>, w: Version, policy: Policy) {
    r.Parsed? && Contains(r.value, w, policy)
  }

  lemma OneRange(r: Range, w: Version, policy: Policy)
    ensures Contains([r], w, policy) <==> RangeContains(r, w, policy)
  {
    var rs := [r];
    assert rs[0] == r;
  }

  /** From the text of a term that expands to the range it contains. */
  lemma TermTextHolds(kind: TermKind, pv: Partial, lim: Limits, w: Version, policy: Policy)
    requires Writable(pv) && |KindText(kind) + PartialText(pv)| <= MAX_INPUT_LENGTH
    ensures var r := ParseRangeSet(KindText(kind) + PartialText(pv), lim);
      && (r.Parsed? <==> !Refused(kind, pv) && Expand(kind, pv, lim).Some?)
      && (r.Parsed? ==> (Holding(r, w, policy) <==> RangeContains(Expand(kind, pv, lim).value, w, policy)))
  {
    hide ParseRangeSet, Contains, RangeContains, PartialText, Expand;
    SingleTermText(kind, pv, lim);
    if Expand(kind, pv, lim).Some? {
      OneRange(Expand(kind, pv, lim).value, w, policy);
    }
  }

  // ---------- Lines ----------

  lemma LineHolds(v: Version, component: Component, lim: Limits, fromZero: bool, w: Version, policy: Policy)
    requires Valid(v) && Valid(w) && Line(v, component, lim, fromZero).Some?
    ensures RangeContains(Line(v, component, lim, fromZero).value, w, policy) <==>
      && (if policy == Include && fromZero then CompareCore(w, v) >= 0 else Compare(w, v) >= 0)
      && AgreesUpTo(component, v, w)
      && (policy == Exclude && IsPrerelease(w) ==> IsPrerelease(v) && SameCore(w, v))
  {
    hide RangeContains, Line, Compare, CompareCore;
    LineMeaning(v, component, lim, fromZero, w, policy);
    if policy == Include && fromZero {
      CoreZeroUpwards(v, w);
    }
  }

  lemma CoreZeroUpwards(v: Version, w: Version)
    requires Valid(w)
    ensures Compare(w, Tagged(v, "0")) >= 0 <==> CompareCore(w, v) >= 0
  {
    CoreRange(v, w);
    CompareIsTotal(w, Tagged(v, "0"));
  }

  /**
   * `^` keeps the leftmost component that is not zero, or the last one given. Without a tag, and
   * with a component missing or a zero major one, `include` starts at the bottom of the first core.
   */
  lemma CaretTextMeaning(pv: Partial, lim: Limits, w: Version, policy: Policy)
    requires Writable(pv) && |"^" + PartialText(pv)| <= MAX_INPUT_LENGTH && Valid(w)
    ensures var r, low := ParseRangeSet("^" + PartialText(pv), lim), Floor(pv);
      && (r.Parsed? <==>
        && pv.major.Some? && !pv.wildcard && Fits(low, lim)
        && (if low.major > 0 || pv.minor.None? then low.major < lim.major
            else if low.minor > 0 || pv.patch.None? then low.minor < lim.minor
            else low.patch < lim.patch))
      && (r.Parsed? ==>
        (Holding(r, w, policy) <==>
          && (if policy == Include && pv.prerelease == "" && (pv.patch.None? || low.major == 0)
              then CompareCore(w, low) >= 0 else Compare(w, low) >= 0)
          && w.major == low.major
          && (low.major == 0 && pv.minor.Some? ==> w.minor == low.minor)
          && (low.major == 0 && low.minor == 0 && pv.patch.Some? ==> w.patch == low.patch)
          && Admits(pv, w, policy)))
  {
    hide ParseRangeSet, RangeContains, Line, Compare, CompareCore, Holding, PartialText;
    TermTextHolds(Caret, pv, lim, w, policy);
    LineSucceeds(Floor(pv), CaretComponent(pv), lim, CaretFromZero(pv));
    if ExpandCaret(pv, lim).Some? {
      LineHolds(Floor(pv), CaretComponent(pv), lim, CaretFromZero(pv), w, policy);
    }
  }

  /** `~` keeps the major component and, when given, the minor one. */
  lemma TildeTextMeaning(pv: Partial, lim: Limits, w: Version, policy: Policy)
    requires Writable(pv) && |"~" + PartialText(pv)| <= MAX_INPUT_LENGTH && Valid(w)
    ensures var r, low := ParseRangeSet("~" + PartialText(pv), lim), Floor(pv);
      && (r.Parsed? <==>
        && pv.major.Some? && !pv.wildcard && Fits(low, lim)
        && (if pv.minor.Some? then low.minor < lim.minor else low.major < lim.major))
      && (r.Parsed? ==>
        (Holding(r, w, policy) <==>
          && Compare(w, low) >= 0
          && w.major == low.major
          && (pv.minor.Some? ==> w.minor == low.minor)
          && Admits(pv, w, policy)))
  {
    hide ParseRangeSet, RangeContains, Line, Compare, CompareCore, Holding, PartialText;
    TermTextHolds(Tilde, pv, lim, w, policy);
    LineSucceeds(Floor(pv), NextLineComponent(pv), lim, false);
    if pv.major.Some? && ExpandToNextLine(pv, lim, false).Some? {
      LineHolds(Floor(pv), NextLineComponent(pv), lim, false, w, policy);
    }
  }

  /**
   * A bare partial version, with a wildcard or without: its line from the bottom of the first core,
   * and of that only the releases under `exclude`. A bare wildcard has no bounds at all.
   */
  lemma BarePartialTextMeaning(pv: Partial, lim: Limits, w: Version, policy: Policy)
    requires Writable(pv) && pv.patch.None? && |PartialText(pv)| <= MAX_INPUT_LENGTH && Valid(w)
    ensures var r, low := ParseRangeSet(PartialText(pv), lim), Floor(pv);
      && (r.Parsed? <==>
        pv.major.None? || (Fits(low, lim) &&
          if pv.minor.Some? then low.minor < lim.minor else low.major < lim.major))
      && (r.Parsed? ==>
        (Holding(r, w, policy) <==>
          && (policy == Exclude ==> !IsPrerelease(w))
          && (pv.major.Some? ==>
            && CompareCore(w, low) >= 0
            && w.major == low.major
            && (pv.minor.Some? ==> w.minor == low.minor))))
  {
    hide ParseRangeSet, RangeContains, Line, Compare, CompareCore, Holding, PartialText;
    assert "" + PartialText(pv) == PartialText(pv);
    TermTextHolds(Bare, pv, lim, w, policy);
    if pv.major.None? {
      NoBounds(w, policy);
    } else {
      LineSucceeds(Floor(pv), NextLineComponent(pv), lim, true);
      if ExpandToNextLine(pv, lim, true).Some? {
        LineHolds(Floor(pv), NextLineComponent(pv), lim, true, w, policy);
        ReleasesCompareByCore(w, Floor(pv));
      }
    }
  }

  lemma NoBounds(w: Version, policy: Policy)
    ensures RangeContains([], w, policy) <==> (policy == Exclude ==> !IsPrerelease(w))
  {
  }

  lemma ReleasesCompareByCore(w: Version, low: Version)
    requires !IsPrerelease(low)
    ensures !IsPrerelease(w) ==> (Compare(w, low) >= 0 <==> CompareCore(w, low) >= 0)
  {
  }

  // ---------- Comparators ----------

  lemma ComparatorHolds(v: Version, op: Operator, w: Version, policy: Policy)
    ensures RangeContains([Comparator(v, op, false)], w, policy) <==>
      && Holds(op, Compare(w, v))
      && (policy == Exclude && IsPrerelease(w) ==> op != NotEqual && IsPrerelease(v) && SameCore(w, v))
  {
    hide Compare, Holds;
    var r := [Comparator(v, op, false)];
    assert r[0] == Comparator(v, op, false);
    assert AllContain(r, w, policy) <==> ComparatorContains(r[0], w, policy);
  }

  /** A bare full version contains what compares equal to it, and nothing else. */
  lemma BareTextMeaning(pv: Partial, lim: Limits, w: Version, policy: Policy)
    requires Writable(pv) && pv.patch.Some? && |PartialText(pv)| <= MAX_INPUT_LENGTH && Valid(w)
    ensures var r := ParseRangeSet(PartialText(pv), lim);
      && (r.Parsed? <==> Fits(Floor(pv), lim))
      && (r.Parsed? ==> (Holding(r, w, policy) <==> Compare(w, Floor(pv)) == 0))
  {
    hide ParseRangeSet, RangeContains, Compare, Holding, PartialText;
    assert "" + PartialText(pv) == PartialText(pv);
    TermTextHolds(Bare, pv, lim, w, policy);
    ComparatorHolds(Floor(pv), Equal, w, policy);
    CompareIsTotal(w, Floor(pv));
  }

  /** What a mark asks of the comparison with the version behind it. */
  ghost predicate SignFits(mark: string, comparison: int) {
    && (mark == "<" ==> comparison < 0)
    && (mark == "<=" ==> comparison <= 0)
    && (mark == ">" ==> comparison > 0)
    && (mark == ">=" ==> comparison >= 0)
    && (mark == "=" ==> comparison == 0)
    && (mark == "!=" ==> comparison != 0)
  }

  ghost predicate IsMark(mark: string) {
    mark == "<" || mark == "<=" || mark == ">" || mark == ">=" || mark == "=" || mark == "!="
  }

  lemma OperatorOf(mark: string) returns (op: Operator)
    requires IsMark(mark)
    ensures KindText(ByComparator(op)) == mark && (op == NotEqual <==> mark == "!=")
    ensures op == GreaterOrEqual <==> mark == ">="
    ensures op == Less <==> mark == "<"
    ensures forall comparison :: Holds(op, comparison) <==> SignFits(mark, comparison)
  {
    assert |"<"| == 1 && |"<="| == 2 && |">"| == 1 && |">="| == 2 && |"="| == 1 && |"!="| == 2;
    assert "<"[0] == '<' && ">"[0] == '>' && "="[0] == '=' && "<="[0] == '<' && ">="[0] == '>' && "!="[0] == '!';
    op := if mark == "<" then Less else if mark == "<=" then LessOrEqual
      else if mark == ">" then Greater else if mark == ">=" then GreaterOrEqual
      else if mark == "=" then Equal else NotEqual;
  }

  /**
   * A comparator before a full version: the sign that its mark says, and under `exclude` of the
   * prereleases only those of the core it names with a tag, which `!=` does not.
   */
  lemma ComparatorTextMeaning(mark: string, pv: Partial, lim: Limits, w: Version, policy: Policy)
    requires IsMark(mark) && Writable(pv) && pv.patch.Some? && |mark + PartialText(pv)| <= MAX_INPUT_LENGTH && Valid(w)
    ensures var r := ParseRangeSet(mark + PartialText(pv), lim);
      && (r.Parsed? <==> Fits(Floor(pv), lim))
      && (r.Parsed? ==>
        (Holding(r, w, policy) <==>
          && SignFits(mark, Compare(w, Floor(pv)))
          && Admits(pv, w, policy)
          && (policy == Exclude && IsPrerelease(w) ==> mark != "!=")))
  {
    hide ParseRangeSet, RangeContains, Compare, Holding, PartialText, SignFits, Holds;
    var op := OperatorOf(mark);
    TermTextHolds(ByComparator(op), pv, lim, w, policy);
    ComparatorHolds(Floor(pv), op, w, policy);
  }

  /** Before a partial version only `>=` and `<` are accepted, and they compare with its first core. */
  lemma PartialComparatorTextMeaning(mark: string, pv: Partial, lim: Limits, w: Version, policy: Policy)
    requires IsMark(mark) && Writable(pv) && pv.patch.None? && |mark + PartialText(pv)| <= MAX_INPUT_LENGTH && Valid(w)
    ensures var r, low := ParseRangeSet(mark + PartialText(pv), lim), Floor(pv);
      && (r.Parsed? <==>
        pv.major.Some? && !pv.wildcard && (mark == ">=" || mark == "<") && Fits(low, lim))
      && (r.Parsed? ==>
        (Holding(r, w, policy) <==>
          && (if mark == ">=" then CompareCore(w, low) >= 0 else CompareCore(w, low) < 0)
          && (policy == Exclude ==> !IsPrerelease(w))))
  {
    hide ParseRangeSet, RangeContains, CompareCore, Holding, PartialText, SignFits, Holds;
    var op := OperatorOf(mark);
    TermTextHolds(ByComparator(op), pv, lim, w, policy);
    if pv.major.Some? && Fits(Floor(pv), lim) {
      PartialComparatorMeaning(pv, lim, w, policy);
    }
  }

  // ---------- Letters ----------

  /** The wildcards and the blanks by ASCII code. */
  lemma WildcardsAndBlanks(s: string, i: nat)
    ensures WildcardAt(s, i) <==> i < |s| && (s[i] as int == 42 || s[i] as int == 88 || s[i] as int == 120)
    ensures i < |s| ==> (IsSpace(s[i]) <==> s[i] as int == 32 || 9 <= s[i] as int <= 13)
  {
  }
}
