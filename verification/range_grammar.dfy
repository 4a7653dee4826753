/** The text of range sets, as a function from text to comparators. */
module RangeGrammar {
  import opened Numerals
  import opened Tags
  import opened Texts
  import opened Versions
  import opened VersionGrammar
  import opened Ranges
  import opened Desugaring
  import opened Wrappers

  predicate IsSpace(c: char) {
    c == ' ' || c == '\t' || c == '\n' || c == '\r' || c == '\U{0B}' || c == '\U{0C}'
  }

  function SkipSpaces(s: string, i: nat): (e: nat)
    requires i <= |s|
    ensures i <= e <= |s|
  {
    RunEnd(IsSpace, s, i)
  }

  predicate WildcardAt(s: string, i: nat) {
    HasAt(s, i, '*') || HasAt(s, i, 'x') || HasAt(s, i, 'X')
  }

  function PartialAt(s: string, i: nat): (r: Outcome<Partial>)
    requires i <= |s|
    ensures r.Parsed? ==> i < r.next <= |s|
  {
    if WildcardAt(s, i) then Parsed(Partial(None, None, None, "", true), i + 1)
    else
      var (major, p) :- NumberAt(s, i, U64_MAX);
      if !HasAt(s, p, '.') then Parsed(Partial(Some(major), None, None, "", false), p)
      else if WildcardAt(s, p + 1) then Parsed(Partial(Some(major), None, None, "", true), p + 2)
      else
        var (minor, q) :- NumberAt(s, p + 1, U64_MAX);
        if !HasAt(s, q, '.') then Parsed(Partial(Some(major), Some(minor), None, "", false), q)
        else if WildcardAt(s, q + 1) then Parsed(Partial(Some(major), Some(minor), None, "", true), q + 2)
        else PatchAt(s, q + 1, major, minor)
  }

  function PatchAt(s: string, i: nat, major: nat, minor: nat): (r: Outcome<Partial>)
    requires i <= |s|
    ensures r.Parsed? ==> i < r.next <= |s|
  {
    var (patch, p) :- NumberAt(s, i, U64_MAX);
    if HasAt(s, p, '-') then
      var (tag, next) :- TagAt(s, p + 1, true);
      Parsed(Partial(Some(major), Some(minor), Some(patch), tag, false), next)
    else Parsed(Partial(Some(major), Some(minor), Some(patch), "", false), p)
  }

  datatype TermKind = Bare | ByComparator(op: Operator) | Tilde | Caret

  /** The kind of the term at `i` and the position after its mark. */
  function MarkAt(s: string, i: nat): (r: (TermKind, nat))
    requires i <= |s|
    ensures i <= r.1 <= |s| && (r.0 == Bare ==> r.1 == i)
  {
    if HasAt(s, i, '~') then (Tilde, i + 1)
    else if HasAt(s, i, '^') then (Caret, i + 1)
    else if HasAt(s, i, '<') then
      (if HasAt(s, i + 1, '=') then (ByComparator(LessOrEqual), i + 2) else (ByComparator(Less), i + 1))
    else if HasAt(s, i, '>') then
      (if HasAt(s, i + 1, '=') then (ByComparator(GreaterOrEqual), i + 2) else (ByComparator(Greater), i + 1))
    else if HasAt(s, i, '=') then (ByComparator(Equal), i + 1)
    else if HasAt(s, i, '!') && HasAt(s, i + 1, '=') then (ByComparator(NotEqual), i + 2)
    else (Bare, i)
  }

  predicate CanStartTerm(s: string, i: nat) {
    && i < |s|
    && (s[i] in {'<', '>', '=', '!', '~', '^', '*', 'x', 'X'} || IsDecimalDigit(s[i]))
  }

  /** Whether the parser refuses this combination before expanding it. */
  predicate Refused(kind: TermKind, pv: Partial) {
    || (kind != Bare && (pv.major.None? || pv.wildcard))
    || (kind.ByComparator? && IsPartial(pv) && kind.op != GreaterOrEqual && kind.op != Less)
  }

  function Expand(kind: TermKind, pv: Partial, lim: Limits): Option<Range> {
    match kind
    case Bare => if IsPartial(pv) then ExpandToNextLine(pv, lim, true) else ExpandComparator(pv, Equal, lim)
    case Tilde => ExpandToNextLine(pv, lim, false)
    case Caret => ExpandCaret(pv, lim)
    case ByComparator(op) => ExpandComparator(pv, op, lim)
  }

  function TermAt(s: string, i: nat, lim: Limits): (r: Outcome<Range>)
    requires i <= |s|
    ensures r.Parsed? ==> i < r.next <= |s|
  {
    var (kind, j) := MarkAt(s, i);
    var start := if kind != Bare then SkipSpaces(s, j) else j;
    var (pv, next) :- PartialAt(s, start);
    if Refused(kind, pv) then Failed(start, InvalidArgument)
    else match Expand(kind, pv, lim)
      case None => Failed(i, ResultOutOfRange)
      case Some(r) => Parsed(r, next)
  }

  /** Space-separated terms, all of which must hold; `before` holds the terms already read. */
  function RangeAt(s: string, i: nat, lim: Limits, before: Range): (r: Outcome<Range>)
    requires i <= |s|
    ensures r.Parsed? ==> i < r.next <= |s|
    decreases |s| - i
  {
    var first := SkipSpaces(s, i);
    var (term, end) :- TermAt(s, first, lim);
    var next := SkipSpaces(s, end);
    if !CanStartTerm(s, next) then Parsed(before + term, next)
    else if next == end then Failed(next, InvalidArgument)
    else RangeAt(s, next, lim, before + term)
  }

  predicate OrAt(s: string, i: nat) {
    HasAt(s, i, '|') && HasAt(s, i + 1, '|')
  }

  /** Ranges joined by "||", one of which must hold. */
  function AlternativesAt(s: string, i: nat, lim: Limits, before: RangeSet): (r: Outcome<RangeSet>)
    requires i <= |s|
    ensures r.Parsed? ==> i < r.next <= |s|
    decreases |s| - i
  {
    var (range, end) :- RangeAt(s, i, lim, []);
    var next := SkipSpaces(s, end);
    if OrAt(s, next) then AlternativesAt(s, next + 2, lim, before + [range])
    else Parsed(before + [range], next)
  }

  function RangeSetAt(s: string, lim: Limits): (r: Outcome<RangeSet>)
    ensures r.Parsed? ==> r.next <= |s|
  {
    var first := SkipSpaces(s, 0);
    if first == |s| then Failed(first, InvalidArgument) else AlternativesAt(s, first, lim, [])
  }

  /** Strict full-input parse of a range set. */
  function ParseRangeSet(s: string, lim: Limits): Outcome<RangeSet> {
    if |s| > MAX_INPUT_LENGTH then Failed(0, ValueTooLarge)
    else
      var (rs, next) :- RangeSetAt(s, lim);
      if next != |s| then Failed(next, InvalidArgument) else Parsed(rs, next)
  }

  // ---------- What the parser establishes ----------

  /** A partial version as the parser produces it: no component above 64 bits, a wildcard only for a missing one. */
  ghost predicate Writable(pv: Partial) {
    && WellFormedPartial(pv) && (pv.major.None? ==> pv.wildcard) && (pv.wildcard ==> pv.patch.None?)
    && GetOr(pv.major, 0) <= U64_MAX && GetOr(pv.minor, 0) <= U64_MAX && GetOr(pv.patch, 0) <= U64_MAX
  }

  lemma PartialIsWritable(s: string, i: nat)
    requires i <= |s| && PartialAt(s, i).Parsed?
    ensures Writable(PartialAt(s, i).value)
  {
    hide NumberAt, PatchAt, ValidIds, TextAt, ComponentOk, DigitsEnd, Print;
    if !WildcardAt(s, i) {
      NumberSound(s, i, U64_MAX);
      var p := NumberAt(s, i, U64_MAX).next;
      if HasAt(s, p, '.') && !WildcardAt(s, p + 1) {
        NumberSound(s, p + 1, U64_MAX);
        var q := NumberAt(s, p + 1, U64_MAX).next;
        if HasAt(s, q, '.') && !WildcardAt(s, q + 1) {
          PatchIsWritable(s, q + 1, NumberAt(s, i, U64_MAX).value, NumberAt(s, p + 1, U64_MAX).value);
        }
      }
    }
  }

  lemma PatchIsWritable(s: string, i: nat, major: nat, minor: nat)
    requires i <= |s| && PatchAt(s, i, major, minor).Parsed? && major <= U64_MAX && minor <= U64_MAX
    ensures Writable(PatchAt(s, i, major, minor).value)
  {
    hide NumberAt, TagAt, ValidIds, TextAt, ComponentOk, DigitsEnd, Print;
    NumberSound(s, i, U64_MAX);
    var p := NumberAt(s, i, U64_MAX).next;
    if HasAt(s, p, '-') {
      TagSound(s, p + 1, true);
    }
  }

  lemma TermIsWellFormed(s: string, i: nat, lim: Limits)
    requires i <= |s| && TermAt(s, i, lim).Parsed?
    ensures WellFormedRange(TermAt(s, i, lim).value, lim)
  {
    hide PartialAt, WellFormedRange, ExpandCaret, ExpandToNextLine, ExpandComparator, WellFormedPartial;
    var (kind, j) := MarkAt(s, i);
    var start := if kind != Bare then SkipSpaces(s, j) else j;
    var pv := PartialAt(s, start).value;
    PartialIsWritable(s, start);
    var op := if kind.ByComparator? then kind.op else Equal;
    ExpansionsAreWellFormed(pv, op, lim, false);
    if IsPartial(pv) {
      ExpansionsAreWellFormed(pv, op, lim, true);
    }
  }

  lemma {:induction false} RangeIsWellFormed(s: string, i: nat, lim: Limits, before: Range)
    requires i <= |s| && RangeAt(s, i, lim, before).Parsed? && WellFormedRange(before, lim)
    ensures WellFormedRange(RangeAt(s, i, lim, before).value, lim)
    decreases |s| - i
  {
    hide TermAt, WellFormed;
    var first := SkipSpaces(s, i);
    var term := TermAt(s, first, lim);
    TermIsWellFormed(s, first, lim);
    var next := SkipSpaces(s, term.next);
    if CanStartTerm(s, next) {
      RangeIsWellFormed(s, next, lim, before + term.value);
    }
  }

  lemma {:induction false} AlternativesAreWellFormed(s: string, i: nat, lim: Limits, before: RangeSet)
    requires i <= |s| && AlternativesAt(s, i, lim, before).Parsed? && WellFormedSet(before, lim)
    ensures WellFormedSet(AlternativesAt(s, i, lim, before).value, lim)
    ensures AlternativesAt(s, i, lim, before).value != []
    decreases |s| - i
  {
    hide RangeAt, WellFormedRange;
    var range := RangeAt(s, i, lim, []);
    EmptyIsWellFormed(lim);
    RangeIsWellFormed(s, i, lim, []);
    var next := SkipSpaces(s, range.next);
    if OrAt(s, next) {
      AlternativesAreWellFormed(s, next + 2, lim, before + [range.value]);
    }
  }

  lemma EmptyIsWellFormed(lim: Limits)
    ensures WellFormedRange([], lim)
  {
  }

  /**
   * Every accepted text gives at least one range, and only comparators whose bounds are valid and
   * fit, with the from-zero flag only on `>=` and a release bound.
   */
  lemma ParsedSetsAreWellFormed(s: string, lim: Limits)
    requires ParseRangeSet(s, lim).Parsed?
    ensures ParseRangeSet(s, lim).value != [] && WellFormedSet(ParseRangeSet(s, lim).value, lim)
  {
    hide AlternativesAt;
    AlternativesAreWellFormed(s, SkipSpaces(s, 0), lim, []);
  }

  // ---------- From text to meaning ----------

  /** The components that are there, and the tag. */
  function PlainText(pv: Partial): string {
    if pv.major.None? then ""
    else if pv.minor.None? then Print(Decimal, pv.major.value)
    else if pv.patch.None? then Print(Decimal, pv.major.value) + "." + Print(Decimal, pv.minor.value)
    else CoreText(Floor(pv)) + Suffix('-', pv.prerelease)
  }

  /** What stands for the first missing component, if anything does. */
  function WildcardText(pv: Partial): string {
    if !pv.wildcard then "" else if pv.major.None? then "*" else ".*"
  }

  function PartialText(pv: Partial): string {
    PlainText(pv) + WildcardText(pv)
  }

  /** `s` spells `pv` from `i` to `j`, with any of the wildcard letters. */
  predicate Spelled(s: string, i: nat, j: nat, pv: Partial) {
    var p := i + |PlainText(pv)|;
    && TextAt(s, i, PlainText(pv))
    && (if !pv.wildcard then j == p
        else if pv.major.None? then WildcardAt(s, p) && j == p + 1
        else HasAt(s, p, '.') && WildcardAt(s, p + 1) && j == p + 2)
  }

  lemma PrintedDigitFirst(s: string, i: nat, n: nat)
    requires TextAt(s, i, Print(Decimal, n))
    ensures i < |s| && IsDecimalDigit(s[i]) && !WildcardAt(s, i)
  {
    PrintIsCanonical(Decimal, n);
    assert s[i + 0] == CharAt(Print(Decimal, n), 0);
    assert IsDigit(Decimal, Print(Decimal, n)[0]);
  }

  /** `i` begins the rest of `s`, which cannot continue a version. */
  predicate Boundary(s: string, i: nat) {
    i == |s| || (i < |s| && !IsTagChar(s[i]))
  }

  lemma PrintedPatch(s: string, i: nat, pv: Partial)
    requires Writable(pv) && pv.patch.Some?
    requires TextAt(s, i, Print(Decimal, pv.patch.value))
    requires TextAt(s, i + |Print(Decimal, pv.patch.value)|, Suffix('-', pv.prerelease))
    requires Boundary(s, i + |Print(Decimal, pv.patch.value)| + |Suffix('-', pv.prerelease)|)
    ensures PatchAt(s, i, pv.major.value, pv.minor.value)
      == Parsed(pv, i + |Print(Decimal, pv.patch.value)| + |Suffix('-', pv.prerelease)|)
  {
    hide NumberAt, TagAt, TextAt, ValidIds, ComponentOk, DigitsEnd;
    var p := i + |Print(Decimal, pv.patch.value)|;
    TextOfSuffix(s, p, '-', pv.prerelease);
    PrintedNumber(s, i, pv.patch.value, U64_MAX);
    if pv.prerelease != "" {
      PrintedTag(s, p + 1, pv.prerelease, true);
    }
  }

  /** A partial version that is spelled out is read back, whatever follows it that cannot continue it. */
  lemma SpelledIsRead(s: string, i: nat, j: nat, pv: Partial)
    requires Writable(pv) && Spelled(s, i, j, pv) && Boundary(s, j)
    ensures PartialAt(s, i) == Parsed(pv, j)
  {
    if pv.major.Some? {
      if pv.minor.None? {
        MajorIsRead(s, i, j, pv);
      } else if pv.patch.None? {
        MinorIsRead(s, i, j, pv);
      } else {
        FullIsRead(s, i, j, pv);
      }
    }
  }

  lemma MajorIsRead(s: string, i: nat, j: nat, pv: Partial)
    requires Writable(pv) && pv.major.Some? && pv.minor.None? && Spelled(s, i, j, pv) && Boundary(s, j)
    ensures PartialAt(s, i) == Parsed(pv, j)
  {
    hide NumberAt, TextAt, ComponentOk, DigitsEnd, Print;
    PrintedDigitFirst(s, i, pv.major.value);
    PrintedNumber(s, i, pv.major.value, U64_MAX);
  }

  lemma MinorPieces(s: string, i: nat, j: nat, pv: Partial)
    requires Writable(pv) && pv.minor.Some? && pv.patch.None? && Spelled(s, i, j, pv)
    ensures var a, b := Print(Decimal, pv.major.value), Print(Decimal, pv.minor.value);
      var p := i + |a| + 1 + |b|;
      && TextAt(s, i, a) && HasAt(s, i + |a|, '.') && TextAt(s, i + |a| + 1, b)
      && (if pv.wildcard then HasAt(s, p, '.') && WildcardAt(s, p + 1) && j == p + 2 else j == p)
  {
    hide TextAt, Print;
    TwoNumbers(s, i, Print(Decimal, pv.major.value), Print(Decimal, pv.minor.value));
  }

  lemma MinorIsRead(s: string, i: nat, j: nat, pv: Partial)
    requires Writable(pv) && pv.minor.Some? && pv.patch.None? && Spelled(s, i, j, pv) && Boundary(s, j)
    ensures PartialAt(s, i) == Parsed(pv, j)
  {
    hide NumberAt, TextAt, ComponentOk, DigitsEnd, Print, Spelled, PatchAt;
    var a := Print(Decimal, pv.major.value);
    MinorPieces(s, i, j, pv);
    PrintedDigitFirst(s, i, pv.major.value);
    PrintedNumber(s, i, pv.major.value, U64_MAX);
    PrintedDigitFirst(s, i + |a| + 1, pv.minor.value);
    PrintedNumber(s, i + |a| + 1, pv.minor.value, U64_MAX);
  }

  lemma TwoNumbers(s: string, i: nat, a: string, b: string)
    ensures TextAt(s, i, a + "." + b) <==>
      TextAt(s, i, a) && HasAt(s, i + |a|, '.') && TextAt(s, i + |a| + 1, b)
  {
    hide TextAt;
    TextOfConcat(s, i, a + ".", b);
    TextOfConcat(s, i, a, ".");
    TextOfChar(s, i + |a|, '.');
  }

  lemma ThreeNumbers(s: string, i: nat, a: string, b: string, c: string, d: string)
    ensures TextAt(s, i, a + "." + b + "." + c + d) <==>
      && TextAt(s, i, a) && HasAt(s, i + |a|, '.')
      && TextAt(s, i + |a| + 1, b) && HasAt(s, i + |a| + 1 + |b|, '.')
      && TextAt(s, i + |a| + |b| + 2, c) && TextAt(s, i + |a| + |b| + 2 + |c|, d)
  {
    hide TextAt;
    TextOfConcat(s, i, a + "." + b + "." + c, d);
    TwoNumbers(s, i, a + "." + b, c);
    TwoNumbers(s, i, a, b);
  }

  lemma FullPieces(s: string, i: nat, j: nat, pv: Partial)
    requires Writable(pv) && pv.patch.Some? && Spelled(s, i, j, pv)
    ensures var a, b := Print(Decimal, pv.major.value), Print(Decimal, pv.minor.value);
      var c, d := Print(Decimal, pv.patch.value), Suffix('-', pv.prerelease);
      && TextAt(s, i, a) && HasAt(s, i + |a|, '.')
      && TextAt(s, i + |a| + 1, b) && HasAt(s, i + |a| + 1 + |b|, '.')
      && TextAt(s, i + |a| + |b| + 2, c) && TextAt(s, i + |a| + |b| + 2 + |c|, d)
      && j == i + |a| + |b| + 2 + |c| + |d|
  {
    hide TextAt, Suffix, Print;
    var a, b, c := Print(Decimal, pv.major.value), Print(Decimal, pv.minor.value), Print(Decimal, pv.patch.value);
    ThreeNumbers(s, i, a, b, c, Suffix('-', pv.prerelease));
  }

  lemma FullIsRead(s: string, i: nat, j: nat, pv: Partial)
    requires Writable(pv) && pv.patch.Some? && Spelled(s, i, j, pv) && Boundary(s, j)
    ensures PartialAt(s, i) == Parsed(pv, j)
  {
    hide NumberAt, TextAt, ComponentOk, DigitsEnd, Suffix, PatchAt, Print, Spelled;
    var a, b := Print(Decimal, pv.major.value), Print(Decimal, pv.minor.value);
    FullPieces(s, i, j, pv);
    PrintedDigitFirst(s, i, pv.major.value);
    PrintedNumber(s, i, pv.major.value, U64_MAX);
    PrintedDigitFirst(s, i + |a| + 1, pv.minor.value);
    PrintedNumber(s, i + |a| + 1, pv.minor.value, U64_MAX);
    PrintedDigitFirst(s, i + |a| + |b| + 2, pv.patch.value);
    PrintedPatch(s, i + |a| + |b| + 2, pv);
  }

  lemma PlainParts(pv: Partial)
    requires Writable(pv)
    ensures pv.major.None? ==> PlainText(pv) == ""
    ensures pv.major.Some? && pv.minor.None? ==> PlainText(pv) == Print(Decimal, pv.major.value)
    ensures pv.minor.Some? && pv.patch.None? ==>
      PlainText(pv) == Print(Decimal, pv.major.value) + "." + Print(Decimal, pv.minor.value)
    ensures pv.patch.Some? ==>
      PlainText(pv) == Print(Decimal, pv.major.value) + "." + Print(Decimal, pv.minor.value) + "."
        + Print(Decimal, pv.patch.value) + Suffix('-', pv.prerelease)
  {
    hide Print, Suffix;
  }

  /** ... and whatever is read was spelled out: parsing a partial version loses only the wildcard letter. */
  lemma ReadIsSpelled(s: string, i: nat)
    requires i <= |s| && PartialAt(s, i).Parsed?
    ensures Writable(PartialAt(s, i).value) && Spelled(s, i, PartialAt(s, i).next, PartialAt(s, i).value)
  {
    hide NumberAt, TagAt, ValidIds, ComponentOk, DigitsEnd, Suffix, PatchAt, TextAt, Print;
    PartialIsWritable(s, i);
    PlainParts(PartialAt(s, i).value);
    hide PlainText, Writable;
    if WildcardAt(s, i) {
      EmptyText(s, i);
    } else {
      NumberSound(s, i, U64_MAX);
      var major := NumberAt(s, i, U64_MAX);
      if HasAt(s, major.next, '.') && !WildcardAt(s, major.next + 1) {
        NumberSound(s, major.next + 1, U64_MAX);
        var minor := NumberAt(s, major.next + 1, U64_MAX);
        var a, b := Print(Decimal, major.value), Print(Decimal, minor.value);
        if HasAt(s, minor.next, '.') && !WildcardAt(s, minor.next + 1) {
          PatchIsSpelled(s, minor.next + 1, major.value, minor.value);
          var patch := PatchAt(s, minor.next + 1, major.value, minor.value);
          ThreeNumbers(s, i, a, b, Print(Decimal, patch.value.patch.value), Suffix('-', patch.value.prerelease));
        } else {
          TwoNumbers(s, i, a, b);
        }
      }
    }
  }

  lemma EmptyText(s: string, i: nat)
    requires i <= |s|
    ensures TextAt(s, i, "")
  {
  }

  lemma PatchIsSpelled(s: string, i: nat, major: nat, minor: nat)
    requires i <= |s| && PatchAt(s, i, major, minor).Parsed?
    ensures var r := PatchAt(s, i, major, minor);
      && r.value == Partial(Some(major), Some(minor), r.value.patch, r.value.prerelease, false)
      && r.value.patch.Some?
      && TextAt(s, i, Print(Decimal, r.value.patch.value))
      && TextAt(s, i + |Print(Decimal, r.value.patch.value)|, Suffix('-', r.value.prerelease))
      && r.next == i + |Print(Decimal, r.value.patch.value)| + |Suffix('-', r.value.prerelease)|
  {
    hide NumberAt, TagAt, ValidIds, ComponentOk, DigitsEnd, TextAt, Print;
    NumberSound(s, i, U64_MAX);
    var p := NumberAt(s, i, U64_MAX).next;
    if HasAt(s, p, '-') {
      var tag := TagAt(s, p + 1, true);
      TextOfSlice(s, p + 1, tag.next);
      TextOfSuffix(s, p, '-', tag.value);
    } else {
      TextOfSuffix(s, p, '-', "");
    }
  }

  lemma TextIsSpelled(s: string, i: nat, pv: Partial)
    requires Writable(pv) && TextAt(s, i, PartialText(pv))
    ensures Spelled(s, i, i + |PartialText(pv)|, pv)
  {
    hide PlainText, TextAt;
    var p := i + |PlainText(pv)|;
    TextOfConcat(s, i, PlainText(pv), WildcardText(pv));
    if pv.wildcard {
      if pv.major.None? {
        TextOfChar(s, p, '*');
      } else {
        TextOfConcat(s, p, ".", "*");
        TextOfChar(s, p, '.');
        TextOfChar(s, p + 1, '*');
        assert "." + "*" == ".*";
      }
    }
  }

  /** A written partial version is read back, whatever follows it that cannot continue it. */
  lemma PartialOfText(s: string, i: nat, pv: Partial)
    requires Writable(pv) && TextAt(s, i, PartialText(pv))
    requires Boundary(s, i + |PartialText(pv)|)
    ensures PartialAt(s, i) == Parsed(pv, i + |PartialText(pv)|)
  {
    hide Spelled, PartialText, PartialAt;
    TextIsSpelled(s, i, pv);
    SpelledIsRead(s, i, i + |PartialText(pv)|, pv);
  }

  function KindText(kind: TermKind): string {
    match kind
    case Bare => ""
    case Tilde => "~"
    case Caret => "^"
    case ByComparator(Less) => "<"
    case ByComparator(LessOrEqual) => "<="
    case ByComparator(Greater) => ">"
    case ByComparator(GreaterOrEqual) => ">="
    case ByComparator(Equal) => "="
    case ByComparator(NotEqual) => "!="
  }

  /** What a version begins with. */
  predicate StartsVersion(c: char) {
    IsDecimalDigit(c) || c == '*' || c == 'x' || c == 'X'
  }

  lemma VersionStarts(s: string, i: nat, j: nat, pv: Partial)
    requires Writable(pv) && Spelled(s, i, j, pv)
    ensures i < |s| && StartsVersion(s[i])
  {
    if pv.major.Some? {
      hide TextAt, Suffix;
      var a := Print(Decimal, pv.major.value);
      var text := PlainText(pv);
      assert text == a + text[|a|..];
      TextOfConcat(s, i, a, text[|a|..]);
      PrintedDigitFirst(s, i, pv.major.value);
    }
  }

  lemma MarkOfText(s: string, kind: TermKind, t: string)
    requires s == KindText(kind) + t && t != "" && StartsVersion(t[0])
    ensures MarkAt(s, 0) == (kind, |KindText(kind)|) && SkipSpaces(s, |KindText(kind)|) == |KindText(kind)|
    ensures SkipSpaces(s, 0) == 0
  {
    assert s[|KindText(kind)|] == t[0];
  }

  /**
   * A one-term range text: it is accepted exactly when the combination is not refused and expands,
   * and then gives that one expansion.
   */
  lemma SingleTermText(kind: TermKind, pv: Partial, lim: Limits)
    requires Writable(pv) && |KindText(kind) + PartialText(pv)| <= MAX_INPUT_LENGTH
    ensures var s := KindText(kind) + PartialText(pv);
      if Refused(kind, pv) then ParseRangeSet(s, lim) == Failed(|KindText(kind)|, InvalidArgument)
      else if Expand(kind, pv, lim).None? then ParseRangeSet(s, lim) == Failed(0, ResultOutOfRange)
      else ParseRangeSet(s, lim) == Parsed([Expand(kind, pv, lim).value], |s|)
  {
    hide PartialText, Expand, Refused, PartialAt;
    var t := PartialText(pv);
    var s, k := KindText(kind) + t, |KindText(kind)|;
    assert TextAt(t, 0, t);
    TextIsSpelled(t, 0, pv);
    VersionStarts(t, 0, |t|, pv);
    MarkOfText(s, kind, t);
    assert TextAt(s, k, t) by {
      assert TextAt(s, 0, s);
      TextOfConcat(s, 0, KindText(kind), t);
    }
    PartialOfText(s, k, pv);
    assert TermAt(s, 0, lim) ==
      if Refused(kind, pv) then Failed(k, InvalidArgument)
      else if Expand(kind, pv, lim).None? then Failed(0, ResultOutOfRange)
      else Parsed(Expand(kind, pv, lim).value, |s|);
    hide TermAt;
    if TermAt(s, 0, lim).Parsed? {
      assert [] + TermAt(s, 0, lim).value == TermAt(s, 0, lim).value;
      var range := TermAt(s, 0, lim).value;
      assert RangeAt(s, 0, lim, []) == Parsed(range, |s|);
      assert [] + [range] == [range];
      assert AlternativesAt(s, 0, lim, []) == Parsed([range], |s|);
    }
  }
}
