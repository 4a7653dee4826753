/** Whole range texts: what is written as terms, spaces and "||" is what the parser returns. */
module RangeText {
  import opened Numerals
  import opened Texts
  import opened Versions
  import opened VersionGrammar
  import opened Ranges
  import opened Desugaring
  import opened RangeGrammar
  import opened Wrappers

  datatype Term = Term(kind: TermKind, pv: Partial)

  function TermText(t: Term): string {
    KindText(t.kind) + PartialText(t.pv)
  }

  /** Terms separated by one space. */
  function ConjunctionText(ts: seq<Term>): string {
    if ts == [] then ""
    else if |ts| == 1 then TermText(ts[0])
    else TermText(ts[0]) + " " + ConjunctionText(ts[1..])
  }

  /** Conjunctions separated by " || ". */
  function SetText(rs: seq<seq<Term>>): string {
    if rs == [] then ""
    else if |rs| == 1 then ConjunctionText(rs[0])
    else ConjunctionText(rs[0]) + " || " + SetText(rs[1..])
  }

  /** A term the parser accepts: writable, not refused, and expanding within the component types. */
  ghost predicate Acceptable(t: Term, lim: Limits) {
    Writable(t.pv) && !Refused(t.kind, t.pv) && Expand(t.kind, t.pv, lim).Some?
  }

  ghost predicate AcceptableTerms(ts: seq<Term>, lim: Limits) {
    ts != [] && forall i :: 0 <= i < |ts| ==> Acceptable(ts[i], lim)
  }

  ghost predicate AcceptableSet(rs: seq<seq<Term>>, lim: Limits) {
    rs != [] && forall i :: 0 <= i < |rs| ==> AcceptableTerms(rs[i], lim)
  }

  /** The comparators of one term; an acceptable term always expands. */
  function TermRange(t: Term, lim: Limits): Range {
    GetOr(Expand(t.kind, t.pv, lim), [])
  }

  function ConjunctionOf(ts: seq<Term>, lim: Limits): Range {
    if ts == [] then [] else TermRange(ts[0], lim) + ConjunctionOf(ts[1..], lim)
  }

  function SetOf(rs: seq<seq<Term>>, lim: Limits): (s: RangeSet)
    ensures |s| == |rs| && forall i :: 0 <= i < |rs| ==> s[i] == ConjunctionOf(rs[i], lim)
  {
    if rs == [] then [] else [ConjunctionOf(rs[0], lim)] + SetOf(rs[1..], lim)
  }

  // ---------- How a text may be written ----------

  /** Nothing but blanks from `i` to `j`. */
  predicate Blank(s: string, i: nat, j: nat) {
    i <= j <= |s| && forall k :: i <= k < j ==> IsSpace(s[k])
  }

  /** A mark, blanks if there is one, and a version with any of the wildcard letters. */
  ghost predicate TermWritten(s: string, i: nat, j: nat, t: Term) {
    exists k: nat :: VersionWritten(s, i, k, j, t)
  }

  predicate VersionWritten(s: string, i: nat, k: nat, j: nat, t: Term) {
    var m := i + |KindText(t.kind)|;
    && TextAt(s, i, KindText(t.kind))
    && Blank(s, m, k) && (t.kind == Bare ==> k == m)
    && Spelled(s, k, j, t.pv)
  }

  /** Terms with blanks around them, and at least one between two. */
  ghost predicate ConjunctionWritten(s: string, i: nat, j: nat, ts: seq<Term>)
    decreases |ts|
  {
    ts != [] && exists a: nat, b: nat :: Blank(s, i, a) && TermWritten(s, a, b, ts[0]) && RestWritten(s, b, j, ts)
  }

  ghost predicate RestWritten(s: string, b: nat, j: nat, ts: seq<Term>)
    requires ts != []
    decreases |ts|, 0
  {
    if |ts| == 1 then Blank(s, b, j)
    else b < |s| && IsSpace(s[b]) && ConjunctionWritten(s, b, j, ts[1..])
  }

  /** Conjunctions with "||" between two. */
  ghost predicate SetWritten(s: string, i: nat, rs: seq<seq<Term>>)
    decreases |rs|
  {
    rs != [] && exists j: nat :: ConjunctionWritten(s, i, j, rs[0]) && AlternativesWritten(s, j, rs)
  }

  ghost predicate AlternativesWritten(s: string, j: nat, rs: seq<seq<Term>>)
    requires rs != []
    decreases |rs|, 0
  {
    if |rs| == 1 then j == |s| else OrAt(s, j) && SetWritten(s, j + 2, rs[1..])
  }

  // ---------- What is written is read ----------

  /** What may follow a term. */
  predicate TermEnds(s: string, j: nat) {
    j == |s| || OrAt(s, j) || (j < |s| && IsSpace(s[j]))
  }

  /** What may follow a conjunction. */
  predicate ConjunctionEnds(s: string, j: nat) {
    j == |s| || OrAt(s, j)
  }

  lemma BlanksAreSkipped(s: string, i: nat, j: nat)
    requires Blank(s, i, j) && (j == |s| || !IsSpace(s[j]))
    ensures SkipSpaces(s, i) == j
  {
    RunEndSkip(IsSpace, s, i, j);
  }

  lemma MarkIsRead(s: string, i: nat, k: nat, kind: TermKind)
    requires TextAt(s, i, KindText(kind)) && Blank(s, i + |KindText(kind)|, k) && k < |s| && StartsVersion(s[k])
    requires kind == Bare ==> k == i
    ensures MarkAt(s, i) == (kind, i + |KindText(kind)|) && CanStartTerm(s, i) && !IsSpace(s[i])
  {
    var t := KindText(kind);
    if |t| > 0 { assert s[i + 0] == CharAt(t, 0); }
    if |t| > 1 { assert s[i + 1] == CharAt(t, 1); }
  }

  lemma TermIsRead(s: string, i: nat, j: nat, t: Term, lim: Limits)
    requires Acceptable(t, lim) && TermWritten(s, i, j, t) && TermEnds(s, j)
    ensures i < |s| && CanStartTerm(s, i) && !IsSpace(s[i])
    ensures TermAt(s, i, lim) == Parsed(TermRange(t, lim), j)
  {
    hide TextAt, Spelled, PartialAt, Expand, Refused, MarkAt, SkipSpaces, CanStartTerm;
    var k: nat :| VersionWritten(s, i, k, j, t);
    VersionStarts(s, k, j, t.pv);
    MarkIsRead(s, i, k, t.kind);
    BlanksAreSkipped(s, i + |KindText(t.kind)|, k);
    SpelledIsRead(s, k, j, t.pv);
  }

  lemma RangeAtSkips(s: string, i: nat, first: nat, lim: Limits, before: Range)
    requires i <= first <= |s| && SkipSpaces(s, i) == first && SkipSpaces(s, first) == first
    ensures RangeAt(s, i, lim, before) == RangeAt(s, first, lim, before)
  {
  }

  lemma AlternativesAtSkips(s: string, i: nat, first: nat, lim: Limits, before: RangeSet)
    requires i <= first <= |s| && SkipSpaces(s, i) == first && SkipSpaces(s, first) == first
    ensures AlternativesAt(s, i, lim, before) == AlternativesAt(s, first, lim, before)
  {
    hide RangeAt;
    RangeAtSkips(s, i, first, lim, []);
  }

  lemma RangeAtUnfolds(s: string, a: nat, b: nat, lim: Limits, before: Range, term: Range)
    requires a <= b <= |s| && SkipSpaces(s, a) == a && TermAt(s, a, lim) == Parsed(term, b)
    ensures var next := SkipSpaces(s, b);
      && (!CanStartTerm(s, next) ==> RangeAt(s, a, lim, before) == Parsed(before + term, next))
      && (CanStartTerm(s, next) && next > b ==> RangeAt(s, a, lim, before) == RangeAt(s, next, lim, before + term))
  {
    hide TermAt, CanStartTerm;
  }

  lemma LastTermIsRead(s: string, a: nat, b: nat, j: nat, lim: Limits, before: Range, term: Range)
    requires a <= b <= |s| && SkipSpaces(s, a) == a && TermAt(s, a, lim) == Parsed(term, b)
    requires Blank(s, b, j) && ConjunctionEnds(s, j)
    ensures RangeAt(s, a, lim, before) == Parsed(before + term, j)
  {
    hide TermAt;
    BlanksAreSkipped(s, b, j);
    RangeAtUnfolds(s, a, b, lim, before, term);
  }

  lemma SpaceIsSkipped(s: string, b: nat)
    requires b < |s| && IsSpace(s[b])
    ensures SkipSpaces(s, b) > b
  {
  }

  lemma SkippedIsSettled(s: string, i: nat)
    requires i <= |s|
    ensures SkipSpaces(s, SkipSpaces(s, i)) == SkipSpaces(s, i)
  {
  }

  lemma {:induction false} ConjunctionIsRead(s: string, i: nat, j: nat, ts: seq<Term>, lim: Limits, before: Range)
    requires AcceptableTerms(ts, lim) && ConjunctionWritten(s, i, j, ts) && ConjunctionEnds(s, j)
    ensures i <= |s| && CanStartTerm(s, SkipSpaces(s, i))
    ensures RangeAt(s, i, lim, before) == Parsed(before + ConjunctionOf(ts, lim), j)
    decreases |ts|
  {
    hide TermAt, SkipSpaces, CanStartTerm, TermRange, Acceptable, RangeAt, TermWritten;
    var a: nat, b: nat :| Blank(s, i, a) && TermWritten(s, a, b, ts[0]) && RestWritten(s, b, j, ts);
    assert Acceptable(ts[0], lim);
    var term := TermRange(ts[0], lim);
    AfterTerm(s, b, j, ts);
    TermIsRead(s, a, b, ts[0], lim);
    TermIsInside(s, a, lim);
    BlanksAreSkipped(s, i, a);
    BlanksAreSkipped(s, a, a);
    RangeAtSkips(s, i, a, lim, before);
    if |ts| == 1 {
      LastTermIsRead(s, a, b, j, lim, before, term);
      assert ts[1..] == [] && term + [] == term;
    } else {
      var next := SkipSpaces(s, b);
      SpaceIsSkipped(s, b);
      SkippedIsSettled(s, b);
      RangeAtUnfolds(s, a, b, lim, before, term);
      ConjunctionIsRead(s, b, j, ts[1..], lim, before + term);
      RangeAtSkips(s, b, next, lim, before + term);
      assert before + term + ConjunctionOf(ts[1..], lim) == before + (term + ConjunctionOf(ts[1..], lim));
    }
  }

  lemma AfterTerm(s: string, b: nat, j: nat, ts: seq<Term>)
    requires ts != [] && RestWritten(s, b, j, ts) && ConjunctionEnds(s, j)
    ensures TermEnds(s, b)
  {
  }

  lemma TermIsInside(s: string, a: nat, lim: Limits)
    requires a <= |s| && TermAt(s, a, lim).Parsed?
    ensures a < TermAt(s, a, lim).next <= |s|
  {
    hide TermAt;
  }

  lemma EndIsSettled(s: string, j: nat)
    requires ConjunctionEnds(s, j)
    ensures j <= |s| && SkipSpaces(s, j) == j
  {
  }

  lemma AlternativesUnfold(s: string, i: nat, lim: Limits, before: RangeSet, range: Range, next: nat)
    requires i <= next <= |s| && RangeAt(s, i, lim, []) == Parsed(range, next) && SkipSpaces(s, next) == next
    ensures AlternativesAt(s, i, lim, before) ==
      (if OrAt(s, next) then AlternativesAt(s, next + 2, lim, before + [range]) else Parsed(before + [range], next))
  {
    hide RangeAt;
  }

  lemma {:induction false} SetIsRead(s: string, i: nat, rs: seq<seq<Term>>, lim: Limits, before: RangeSet)
    requires AcceptableSet(rs, lim) && SetWritten(s, i, rs)
    ensures i <= |s| && CanStartTerm(s, SkipSpaces(s, i))
    ensures AlternativesAt(s, i, lim, before) == Parsed(before + SetOf(rs, lim), |s|)
    decreases |rs|
  {
    hide RangeAt, SkipSpaces, CanStartTerm, AcceptableTerms, ConjunctionOf, AlternativesAt, ConjunctionWritten;
    var j: nat :| ConjunctionWritten(s, i, j, rs[0]) && AlternativesWritten(s, j, rs);
    var range := ConjunctionOf(rs[0], lim);
    assert [] + range == range;
    ConjunctionIsRead(s, i, j, rs[0], lim, []);
    EndIsSettled(s, j);
    AlternativesUnfold(s, i, lim, before, range, j);
    if |rs| == 1 {
      assert rs[1..] == [];
      assert SetOf(rs, lim) == [range];
    } else {
      SetIsRead(s, j + 2, rs[1..], lim, before + [range]);
      assert before + [range] + SetOf(rs[1..], lim) == before + SetOf(rs, lim);
    }
  }

  /**
   * Every text written with acceptable terms, whatever the blanks and the wildcard letters, parses
   * into exactly the expansions of its terms, grouped as written.
   */
  lemma WrittenIsRead(s: string, rs: seq<seq<Term>>, lim: Limits)
    requires AcceptableSet(rs, lim) && SetWritten(s, 0, rs) && |s| <= MAX_INPUT_LENGTH
    ensures ParseRangeSet(s, lim) == Parsed(SetOf(rs, lim), |s|)
  {
    hide AlternativesAt, SetWritten, AcceptableSet, SkipSpaces;
    SetIsRead(s, 0, rs, lim, []);
    StartsInside(s, SkipSpaces(s, 0));
    SkippedIsSettled(s, 0);
    AlternativesAtSkips(s, 0, SkipSpaces(s, 0), lim, []);
    assert [] + SetOf(rs, lim) == SetOf(rs, lim);
  }

  lemma StartsInside(s: string, i: nat)
    requires CanStartTerm(s, i)
    ensures i < |s|
  {
  }

  // ---------- The plain way to write a set ----------

  lemma TermIsWritten(s: string, i: nat, t: Term)
    requires Writable(t.pv) && TextAt(s, i, TermText(t))
    ensures TermWritten(s, i, i + |TermText(t)|, t)
  {
    hide TextAt, Spelled, PartialText;
    var k := i + |KindText(t.kind)|;
    TextOfConcat(s, i, KindText(t.kind), PartialText(t.pv));
    TextIsSpelled(s, k, t.pv);
    TextFitsHere(s, i, KindText(t.kind));
    assert VersionWritten(s, i, k, i + |TermText(t)|, t);
  }

  lemma TextFitsHere(s: string, i: nat, t: string)
    requires TextAt(s, i, t)
    ensures i + |t| <= |s|
  {
  }

  lemma {:induction false} ConjunctionIsWritten(s: string, i: nat, ts: seq<Term>, lim: Limits)
    requires AcceptableTerms(ts, lim) && TextAt(s, i, ConjunctionText(ts))
    ensures ConjunctionWritten(s, i, i + |ConjunctionText(ts)|, ts)
    decreases |ts|
  {
    hide TextAt, TermText, TermWritten;
    var t := ts[0];
    assert Acceptable(t, lim);
    var j, k := i + |ConjunctionText(ts)|, i + |TermText(t)|;
    TextFitsHere(s, i, ConjunctionText(ts));
    if |ts| == 1 {
      TermIsWritten(s, i, t);
    } else {
      TextOfConcat(s, i, TermText(t) + " ", ConjunctionText(ts[1..]));
      TextOfConcat(s, i, TermText(t), " ");
      TextOfChar(s, k, ' ');
      TermIsWritten(s, i, t);
      ConjunctionIsWritten(s, k + 1, ts[1..], lim);
      BlanksMayLead(s, k, k + 1, j, ts[1..]);
    }
    assert Blank(s, i, i) && RestWritten(s, k, j, ts);
  }

  lemma BlanksMayLead(s: string, i: nat, first: nat, j: nat, ts: seq<Term>)
    requires Blank(s, i, first) && ConjunctionWritten(s, first, j, ts)
    ensures ConjunctionWritten(s, i, j, ts)
  {
    hide TermWritten, RestWritten;
    var a: nat, b: nat :| Blank(s, first, a) && TermWritten(s, a, b, ts[0]) && RestWritten(s, b, j, ts);
    assert Blank(s, i, a);
  }

  lemma {:induction false} BlanksMayFollow(s: string, i: nat, j: nat, end: nat, ts: seq<Term>)
    requires Blank(s, j, end) && ConjunctionWritten(s, i, j, ts)
    ensures ConjunctionWritten(s, i, end, ts)
    decreases |ts|
  {
    hide TermWritten;
    var a: nat, b: nat :| Blank(s, i, a) && TermWritten(s, a, b, ts[0]) && RestWritten(s, b, j, ts);
    if |ts| > 1 {
      BlanksMayFollow(s, b, j, end, ts[1..]);
    }
    assert RestWritten(s, b, end, ts);
  }

  lemma {:induction false} SetIsWritten(s: string, i: nat, rs: seq<seq<Term>>, lim: Limits)
    requires AcceptableSet(rs, lim) && TextAt(s, i, SetText(rs)) && i + |SetText(rs)| == |s|
    ensures SetWritten(s, i, rs)
    decreases |rs|
  {
    hide TextAt, ConjunctionText, ConjunctionWritten, AcceptableTerms;
    var ts := rs[0];
    assert AcceptableTerms(ts, lim);
    var j := i + |ConjunctionText(ts)|;
    if |rs| == 1 {
      ConjunctionIsWritten(s, i, ts, lim);
      assert AlternativesWritten(s, j, rs);
    } else {
      TextOfConcat(s, i, ConjunctionText(ts) + " || ", SetText(rs[1..]));
      TextOfConcat(s, i, ConjunctionText(ts), " || ");
      OrInText(s, j);
      ConjunctionIsWritten(s, i, ts, lim);
      BlanksMayFollow(s, i, j, j + 1, ts);
      SetIsWritten(s, j + 4, rs[1..], lim);
      BlanksMayLeadSet(s, j + 3, j + 4, rs[1..]);
      assert AlternativesWritten(s, j + 1, rs);
    }
  }

  lemma BlanksMayLeadSet(s: string, i: nat, first: nat, rs: seq<seq<Term>>)
    requires Blank(s, i, first) && SetWritten(s, first, rs)
    ensures SetWritten(s, i, rs)
  {
    hide ConjunctionWritten, AlternativesWritten;
    var j: nat :| ConjunctionWritten(s, first, j, rs[0]) && AlternativesWritten(s, j, rs);
    BlanksMayLead(s, i, first, j, rs[0]);
  }

  lemma OrInText(s: string, j: nat)
    requires TextAt(s, j, " || ")
    ensures Blank(s, j, j + 1) && OrAt(s, j + 1) && Blank(s, j + 3, j + 4)
  {
    assert s[j + 0] == CharAt(" || ", 0);
    assert s[j + 1] == CharAt(" || ", 1);
    assert s[j + 2] == CharAt(" || ", 2);
    assert s[j + 3] == CharAt(" || ", 3);
  }

  /** Every set of acceptable terms can be written so that it is read back. */
  lemma {:induction false} ParseOfSetText(rs: seq<seq<Term>>, lim: Limits)
    requires AcceptableSet(rs, lim) && |SetText(rs)| <= MAX_INPUT_LENGTH
    ensures ParseRangeSet(SetText(rs), lim) == Parsed(SetOf(rs, lim), |SetText(rs)|)
  {
    hide TextAt, ParseRangeSet, SetText, AcceptableSet, SetWritten;
    WholeStringAt(SetText(rs));
    SetIsWritten(SetText(rs), 0, rs, lim);
    WrittenIsRead(SetText(rs), rs, lim);
  }

  lemma WholeStringAt(s: string)
    ensures TextAt(s, 0, s)
  {
  }

  // ---------- Meaning ----------

  lemma AllContainConcat(a: Range, b: Range, w: Version, policy: Policy)
    ensures AllContain(a + b, w, policy) <==> AllContain(a, w, policy) && AllContain(b, w, policy)
  {
    hide ComparatorContains;
    var c := a + b;
    assert forall i :: 0 <= i < |a| ==> c[i] == a[i];
    assert forall i :: 0 <= i < |b| ==> c[|a| + i] == b[i];
    if AllContain(c, w, policy) {
      forall i | 0 <= i < |a| ensures ComparatorContains(a[i], w, policy) {
        assert ComparatorContains(c[i], w, policy);
      }
      forall i | 0 <= i < |b| ensures ComparatorContains(b[i], w, policy) {
        assert ComparatorContains(c[|a| + i], w, policy);
      }
    }
  }

  lemma {:induction false} ConjunctionMeaning(ts: seq<Term>, lim: Limits, w: Version, policy: Policy)
    ensures AllContain(ConjunctionOf(ts, lim), w, policy) <==>
      forall i :: 0 <= i < |ts| ==> AllContain(TermRange(ts[i], lim), w, policy)
    decreases |ts|
  {
    hide TermRange;
    if ts != [] {
      var first, rest := TermRange(ts[0], lim), ts[1..];
      hide AllContain;
      ConjunctionMeaning(rest, lim, w, policy);
      AllContainConcat(first, ConjunctionOf(rest, lim), w, policy);
      assert forall i :: 0 <= i < |rest| ==> rest[i] == ts[i + 1];
      assert forall i :: 0 < i < |ts| ==> ts[i] == rest[i - 1];
    }
  }

  lemma AllowsConcat(a: Range, b: Range, w: Version)
    ensures AllowsPrerelease(a + b, w) <==> AllowsPrerelease(a, w) || AllowsPrerelease(b, w)
  {
    hide Targets;
    var c := a + b;
    assert forall i :: 0 <= i < |a| ==> c[i] == a[i];
    assert forall i :: 0 <= i < |b| ==> c[|a| + i] == b[i];
    if IsPrerelease(w) && AllowsPrerelease(a, w) {
      var i :| 0 <= i < |a| && Targets(a[i], w);
      assert Targets(c[i], w);
    }
    if IsPrerelease(w) && AllowsPrerelease(b, w) {
      var i :| 0 <= i < |b| && Targets(b[i], w);
      assert Targets(c[|a| + i], w);
    }
  }

  /** One term that targets the core of a prerelease admits it to the whole conjunction. */
  lemma {:induction false} ConjunctionAllows(ts: seq<Term>, lim: Limits, w: Version)
    requires ts != []
    ensures AllowsPrerelease(ConjunctionOf(ts, lim), w) <==> SomeTermAllows(ts, lim, w)
    decreases |ts|
  {
    hide TermRange, AllowsPrerelease;
    var first, rest := TermRange(ts[0], lim), ts[1..];
    AllowsConcat(first, ConjunctionOf(rest, lim), w);
    if rest == [] {
      assert first + [] == first;
    } else {
      ConjunctionAllows(rest, lim, w);
      if SomeTermAllows(rest, lim, w) {
        var j :| 0 <= j < |rest| && AllowsPrerelease(TermRange(rest[j], lim), w);
        assert ts[j + 1] == rest[j];
      }
      if j :| 0 <= j < |ts| && AllowsPrerelease(TermRange(ts[j], lim), w) {
        assert j > 0 ==> rest[j - 1] == ts[j];
      }
    }
  }

  ghost predicate SomeTermAllows(ts: seq<Term>, lim: Limits, w: Version) {
    exists j :: 0 <= j < |ts| && AllowsPrerelease(TermRange(ts[j], lim), w)
  }

  ghost predicate AllTermsHold(ts: seq<Term>, lim: Limits, w: Version, policy: Policy) {
    forall j :: 0 <= j < |ts| ==> AllContain(TermRange(ts[j], lim), w, policy)
  }

  /** Every term holds of `w`, and under `exclude` some term admits it. */
  ghost predicate AlternativeHolds(ts: seq<Term>, lim: Limits, w: Version, policy: Policy) {
    AllTermsHold(ts, lim, w, policy) && (policy == Exclude ==> SomeTermAllows(ts, lim, w))
  }

  ghost predicate SomeAlternativeHolds(rs: seq<seq<Term>>, lim: Limits, w: Version, policy: Policy) {
    exists i :: 0 <= i < |rs| && AlternativeHolds(rs[i], lim, w, policy)
  }

  /** What a parsed set means, for every version and both policies. */
  lemma {:induction false} SetMeaning(rs: seq<seq<Term>>, lim: Limits, w: Version, policy: Policy)
    requires AcceptableSet(rs, lim)
    ensures Contains(SetOf(rs, lim), w, policy) <==> SomeAlternativeHolds(rs, lim, w, policy)
  {
    hide TermRange, AllContain, AllowsPrerelease, ConjunctionOf;
    var set' := SetOf(rs, lim);
    forall i | 0 <= i < |rs| ensures RangeContains(set'[i], w, policy) <==> AlternativeHolds(rs[i], lim, w, policy) {
      assert AcceptableTerms(rs[i], lim);
      ConjunctionMeaning(rs[i], lim, w, policy);
      ConjunctionAllows(rs[i], lim, w);
    }
    if Contains(set', w, policy) {
      var i :| 0 <= i < |set'| && RangeContains(set'[i], w, policy);
      assert AlternativeHolds(rs[i], lim, w, policy);
    }
    if SomeAlternativeHolds(rs, lim, w, policy) {
      var i :| 0 <= i < |rs| && AlternativeHolds(rs[i], lim, w, policy);
      assert RangeContains(set'[i], w, policy);
    }
  }

  /**
   * From text to meaning, for every version and both policies: the parsed set contains `w` exactly
   * when in some alternative every term holds of `w` and, under `exclude`, some term admits it.
   */
  lemma SetTextMeaning(rs: seq<seq<Term>>, lim: Limits, w: Version, policy: Policy)
    requires AcceptableSet(rs, lim) && |SetText(rs)| <= MAX_INPUT_LENGTH
    ensures ParseRangeSet(SetText(rs), lim).Parsed?
    ensures Contains(ParseRangeSet(SetText(rs), lim).value, w, policy) <==> SomeAlternativeHolds(rs, lim, w, policy)
  {
    hide ParseRangeSet, SetText;
    ParseOfSetText(rs, lim);
    SetMeaning(rs, lim, w, policy);
  }

  // ---------- What is read was written ----------

  lemma MarkIsWritten(s: string, i: nat)
    requires i <= |s|
    ensures var (kind, j) := MarkAt(s, i);
      TextAt(s, i, KindText(kind)) && j == i + |KindText(kind)|
  {
  }

  lemma SkippedIsBlank(s: string, i: nat)
    requires i <= |s|
    ensures Blank(s, i, SkipSpaces(s, i))
  {
  }

  lemma TermOfText(s: string, i: nat, lim: Limits) returns (t: Term)
    requires i <= |s| && TermAt(s, i, lim).Parsed?
    ensures Acceptable(t, lim) && TermRange(t, lim) == TermAt(s, i, lim).value
    ensures TermWritten(s, i, TermAt(s, i, lim).next, t)
  {
    hide PartialAt, Expand, Refused, MarkAt, SkipSpaces, Writable, Spelled, TextAt, Blank;
    var (kind, j) := MarkAt(s, i);
    var start := if kind != Bare then SkipSpaces(s, j) else j;
    ReadIsSpelled(s, start);
    MarkIsWritten(s, i);
    SkippedIsBlank(s, j);
    NoBlank(s, j);
    t := Term(kind, PartialAt(s, start).value);
    assert VersionWritten(s, i, start, PartialAt(s, start).next, t);
  }

  lemma NoBlank(s: string, i: nat)
    requires i <= |s|
    ensures Blank(s, i, i)
  {
  }

  lemma {:induction false} ConjunctionOfText(s: string, i: nat, lim: Limits, before: Range) returns (ts: seq<Term>)
    requires i <= |s| && RangeAt(s, i, lim, before).Parsed?
    ensures AcceptableTerms(ts, lim) && RangeAt(s, i, lim, before).value == before + ConjunctionOf(ts, lim)
    ensures ConjunctionWritten(s, i, RangeAt(s, i, lim, before).next, ts)
    decreases |s| - i
  {
    hide TermAt, SkipSpaces, CanStartTerm, Acceptable, TermRange, TermWritten, Blank;
    var first := SkipSpaces(s, i);
    var t := TermOfText(s, first, lim);
    var term := TermAt(s, first, lim);
    var next := SkipSpaces(s, term.next);
    var end := RangeAt(s, i, lim, before).next;
    SkippedIsBlank(s, i);
    SkippedIsBlank(s, term.next);
    ts := [t];
    assert ts[1..] == [];
    if CanStartTerm(s, next) {
      var rest := ConjunctionOfText(s, next, lim, before + term.value);
      ts := [t] + rest;
      assert ts[1..] == rest;
      assert before + (term.value + ConjunctionOf(rest, lim)) == before + term.value + ConjunctionOf(rest, lim);
      BlanksMayLead(s, term.next, next, end, rest);
      SkippedMeansSpace(s, term.next);
    } else {
      assert before + (term.value + ConjunctionOf([], lim)) == before + term.value;
    }
    assert RestWritten(s, term.next, end, ts);
  }

  lemma SkippedMeansSpace(s: string, i: nat)
    requires i <= |s| && SkipSpaces(s, i) != i
    ensures i < |s| && IsSpace(s[i])
  {
  }

  lemma SetBegins(s: string, i: nat, j: nat, ts: seq<Term>, rest: seq<seq<Term>>, lim: Limits)
    requires AcceptableTerms(ts, lim) && ConjunctionWritten(s, i, j, ts)
    requires if rest == [] then j == |s| else OrAt(s, j) && AcceptableSet(rest, lim) && SetWritten(s, j + 2, rest)
    ensures AcceptableSet([ts] + rest, lim) && SetWritten(s, i, [ts] + rest)
    ensures SetOf([ts] + rest, lim) == [ConjunctionOf(ts, lim)] + SetOf(rest, lim)
  {
    hide AcceptableTerms, ConjunctionWritten, ConjunctionOf;
    var rs := [ts] + rest;
    assert rs[0] == ts && rs[1..] == rest;
    assert AlternativesWritten(s, j, rs);
  }

  lemma {:induction false} SetOfText(s: string, i: nat, lim: Limits, before: RangeSet) returns (rs: seq<seq<Term>>)
    requires i <= |s| && AlternativesAt(s, i, lim, before).Parsed? && AlternativesAt(s, i, lim, before).next == |s|
    ensures AcceptableSet(rs, lim) && AlternativesAt(s, i, lim, before).value == before + SetOf(rs, lim)
    ensures SetWritten(s, i, rs)
    decreases |s| - i
  {
    hide RangeAt, SkipSpaces, AcceptableTerms, AcceptableSet, ConjunctionOf, ConjunctionWritten, SetWritten, SetOf, Blank;
    var ts := ConjunctionOfText(s, i, lim, []);
    var range := RangeAt(s, i, lim, []);
    assert [] + ConjunctionOf(ts, lim) == ConjunctionOf(ts, lim);
    var next := SkipSpaces(s, range.next);
    SkippedIsBlank(s, range.next);
    BlanksMayFollow(s, i, range.next, next, ts);
    if OrAt(s, next) {
      var rest := SetOfText(s, next + 2, lim, before + [range.value]);
      SetIsNotEmpty(rest, lim);
      SetBegins(s, i, next, ts, rest, lim);
      rs := [ts] + rest;
      assert before + ([range.value] + SetOf(rest, lim)) == before + [range.value] + SetOf(rest, lim);
    } else {
      SetBegins(s, i, next, ts, [], lim);
      rs := [ts] + [];
      assert SetOf([], lim) == [];
      assert before + ([range.value] + []) == before + [range.value];
    }
  }

  lemma SetIsNotEmpty(rs: seq<seq<Term>>, lim: Limits)
    requires AcceptableSet(rs, lim)
    ensures rs != []
  {
  }

  /**
   * Whatever text is accepted is written, with some blanks and wildcard letters, in acceptable terms;
   * it gives their expansions, and contains what they say.
   */
  lemma {:induction false} AcceptedTextMeaning(s: string, lim: Limits) returns (rs: seq<seq<Term>>)
    requires ParseRangeSet(s, lim).Parsed?
    ensures AcceptableSet(rs, lim) && SetWritten(s, 0, rs)
    ensures ParseRangeSet(s, lim).value == SetOf(rs, lim)
    ensures forall w, policy ::
      Contains(ParseRangeSet(s, lim).value, w, policy) <==> SomeAlternativeHolds(rs, lim, w, policy)
  {
    hide AlternativesAt, SkipSpaces, AcceptableSet, Contains, SomeAlternativeHolds, SetWritten;
    var first := SkipSpaces(s, 0);
    rs := SetOfText(s, first, lim, []);
    SkippedIsBlank(s, 0);
    BlanksMayLeadSet(s, 0, first, rs);
    assert [] + SetOf(rs, lim) == SetOf(rs, lim);
    forall w, policy ensures Contains(SetOf(rs, lim), w, policy) <==> SomeAlternativeHolds(rs, lim, w, policy) {
      SetMeaning(rs, lim, w, policy);
    }
  }

  /** The accepted texts are exactly those written in acceptable terms, up to the length limit. */
  lemma AcceptedIffWritten(s: string, lim: Limits)
    ensures ParseRangeSet(s, lim).Parsed? <==>
      |s| <= 512 && exists rs :: AcceptableSet(rs, lim) && SetWritten(s, 0, rs)
  {
    hide RangeSetAt, AcceptableSet, SetWritten;
    if ParseRangeSet(s, lim).Parsed? {
      var rs := AcceptedTextMeaning(s, lim);
    }
    if rs :| |s| <= MAX_INPUT_LENGTH && AcceptableSet(rs, lim) && SetWritten(s, 0, rs) {
      WrittenIsRead(s, rs, lim);
    }
  }

  // ---------- A text that the intersection shortcut gets wrong ----------

  function LastRelease(lim: Limits): Version {
    Version(lim.major, lim.minor, lim.patch, "", "")
  }

  lemma LongestNumber(n: nat)
    requires n <= U64_MAX
    ensures |Print(Decimal, n)| <= 20
  {
    hide Print;
    assert Pow(Decimal, 5) == 100000;
    assert Pow(Decimal, 10) == 10000000000;
    assert Pow(Decimal, 15) == 1000000000000000;
    assert Pow(Decimal, 20) == 100000000000000000000;
    PrintLength(Decimal, n, 20);
  }

  /**
   * `>` and the last release of the component types is accepted, and both sides of its comparison
   * with itself are without upper bound, so `intersects` answers true; but no representable version
   * is contained, and no visited candidate is shared.
   */
  lemma ShortcutCanExceedTheTypes(lim: Limits, policy: Policy)
    ensures var r := ParseRangeSet(">" + ToString(LastRelease(lim)), lim);
      && r.Parsed? && WellFormedSet(r.value, lim) && BothUnbounded(r.value, r.value)
      && !SetsShareCandidate(r.value, r.value, policy, lim)
      && forall v :: Representable(v, lim) ==> !Contains(r.value, v, policy)
  {
    hide Print, ParseRangeSet, SetsShareCandidate;
    var last := LastRelease(lim);
    var pv := Partial(Some(lim.major), Some(lim.minor), Some(lim.patch), "", false);
    LongestNumber(lim.major);
    LongestNumber(lim.minor);
    LongestNumber(lim.patch);
    assert ToString(last) == CoreText(last) == PartialText(pv) && |CoreText(last)| <= 62;
    SingleTermText(ByComparator(Greater), pv, lim);
    var rs: RangeSet := [[Comparator(last, Greater, false)]];
    assert ParseRangeSet(">" + ToString(last), lim).value == rs;
    ParsedSetsAreWellFormed(">" + ToString(last), lim);
    assert !HasUpperBound(rs[0]);
    forall v | Representable(v, lim) ensures !Contains(rs, v, policy) {
      assert !ComparatorContains(rs[0][0], v, policy);
    }
    ShortcutIsRight(rs, rs, policy, lim);
  }
}
