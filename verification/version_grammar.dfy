/** The text of versions: printing, strict parsing, the syntax check, and how they undo each other. */
module VersionGrammar {
  import opened Numerals
  import opened Tags
  import opened Texts
  import opened Versions
  import opened Wrappers

  const MAX_INPUT_LENGTH: nat := 512

  datatype ErrorCode = InvalidArgument | ResultOutOfRange | ValueTooLarge

  /** A parsed value with the position after it, or the position and kind of the failure. */
  datatype Outcome<+T> = Parsed(value: T, next: nat) | Failed(at: nat, code: ErrorCode) {
    predicate IsFailure() {
      Failed?
    }

    function PropagateFailure<U>(): Outcome<U>
      requires Failed?
    {
      Failed(at, code)
    }

    function Extract(): (T, nat)
      requires Parsed?
    {
      (value, next)
    }
  }

  // ---------- Printing ----------

  function CoreText(v: Version): string {
    Print(Decimal, v.major) + "." + Print(Decimal, v.minor) + "." + Print(Decimal, v.patch)
  }

  function Suffix(mark: char, tag: string): string {
    if tag == "" then "" else [mark] + tag
  }

  function ToString(v: Version): string {
    CoreText(v) + Suffix('-', v.prerelease) + Suffix('+', v.build)
  }

  /** The text of a version field by field, as section 2, 9 and 10 of SemVer 2.0.0 write it. */
  lemma TextOfFields(v: Version)
    ensures ToString(v) ==
      Print(Decimal, v.major) + "." + Print(Decimal, v.minor) + "." + Print(Decimal, v.patch)
      + (if v.prerelease == "" then "" else "-" + v.prerelease)
      + (if v.build == "" then "" else "+" + v.build)
  {
  }

  // ---------- Scanning ----------

  function DigitsEnd(s: string, i: nat): nat
    requires i <= |s|
  {
    RunEnd(IsDecimalDigit, s, i)
  }

  lemma DigitRunIsNumeral(s: string, i: nat, e: nat)
    requires i <= |s| && i <= e <= DigitsEnd(s, i)
    ensures e <= |s| && IsNumeral(Decimal, s[i..e])
  {
    var end := DigitsEnd(s, i);
    assert forall k :: i <= k < end ==> IsDecimalDigit(s[k]);
  }

  /** One or more digits without a superfluous leading zero. */
  predicate ComponentOk(s: string, i: nat)
    requires i <= |s|
  {
    var e := DigitsEnd(s, i);
    e > i && (s[i] != '0' || e == i + 1)
  }

  /** The digit whose addition first exceeds 64 bits. */
  function OverflowAt(s: string, i: nat, k: nat, e: nat): nat
    requires i <= k <= e <= |s| && e == DigitsEnd(s, i)
    decreases e - k
  {
    if k == e then e
    else
      DigitRunIsNumeral(s, i, k + 1);
      if Value(Decimal, s[i..k + 1]) > U64_MAX then k else OverflowAt(s, i, k + 1, e)
  }

  function NumberAt(s: string, i: nat, max: nat): (r: Outcome<nat>)
    requires i <= |s|
    ensures r.Parsed? ==> i < r.next <= |s|
  {
    var e := DigitsEnd(s, i);
    if e == i then Failed(i, InvalidArgument)
    else if !ComponentOk(s, i) then Failed(i + 1, InvalidArgument)
    else
      DigitRunIsNumeral(s, i, e);
      var n := Value(Decimal, s[i..e]);
      if n > U64_MAX then Failed(OverflowAt(s, i, i, e), ResultOutOfRange)
      else if n > max then Failed(e - 1, ResultOutOfRange)
      else Parsed(n, e)
  }

  function IdentifierEnd(s: string, i: nat): nat
    requires i <= |s|
  {
    RunEnd(IsIdentifierChar, s, i)
  }

  /** Identifiers separated by dots, for as long as a dot follows. */
  function TagAt(s: string, i: nat, rejectLeadingZero: bool): (r: Outcome<string>)
    requires i <= |s|
    ensures r.Parsed? ==> i < r.next <= |s| && r.value == s[i..r.next]
    decreases |s| - i
  {
    var e := IdentifierEnd(s, i);
    if !ValidIdentifier(s[i..e], rejectLeadingZero) then Failed(i, InvalidArgument)
    else if HasAt(s, e, '.') then
      var (rest, next) :- TagAt(s, e + 1, rejectLeadingZero);
      Parsed(s[i..next], next)
    else Parsed(s[i..e], e)
  }

  function BuildAt(s: string, i: nat, v: Version): (r: Outcome<Version>)
    requires i <= |s|
    ensures r.Parsed? ==> i <= r.next <= |s|
  {
    if HasAt(s, i, '+') then
      var (tag, next) :- TagAt(s, i + 1, false);
      Parsed(v.(build := tag), next)
    else Parsed(v, i)
  }

  function QualifiersAt(s: string, i: nat, v: Version): (r: Outcome<Version>)
    requires i <= |s|
    ensures r.Parsed? ==> i <= r.next <= |s|
  {
    if HasAt(s, i, '-') then
      var (tag, next) :- TagAt(s, i + 1, true);
      BuildAt(s, next, v.(prerelease := tag))
    else BuildAt(s, i, v)
  }

  /** Parses a version from the start of `s`, as far as it goes. */
  function VersionAt(s: string, lim: Limits): (r: Outcome<Version>)
    ensures r.Parsed? ==> r.next <= |s|
  {
    var (major, p) :- NumberAt(s, 0, lim.major);
    if !HasAt(s, p, '.') then Failed(p, InvalidArgument)
    else
      var (minor, q) :- NumberAt(s, p + 1, lim.minor);
      if !HasAt(s, q, '.') then Failed(q, InvalidArgument)
      else
        var (patch, r) :- NumberAt(s, q + 1, lim.patch);
        QualifiersAt(s, r, Version(major, minor, patch, "", ""))
  }

  /** Strict full-input parse. */
  function ParseVersion(s: string, lim: Limits): Outcome<Version> {
    if |s| > MAX_INPUT_LENGTH then Failed(0, ValueTooLarge)
    else
      var (v, next) :- VersionAt(s, lim);
      if next != |s| then Failed(next, InvalidArgument) else Parsed(v, next)
  }

  // ---------- Printed pieces ----------

  lemma TextOfSuffix(s: string, i: nat, mark: char, tag: string)
    ensures TextAt(s, i, Suffix(mark, tag)) <==>
      if tag == "" then i <= |s| else HasAt(s, i, mark) && TextAt(s, i + 1, tag)
  {
    TextOfConcat(s, i, [mark], tag);
    TextOfChar(s, i, mark);
  }

  /** A printed core, piece by piece. */
  lemma TextOfCore(s: string, v: Version)
    ensures var a := |Print(Decimal, v.major)|;
      var b := a + 1 + |Print(Decimal, v.minor)|;
      && |CoreText(v)| == b + 1 + |Print(Decimal, v.patch)|
      && (TextAt(s, 0, CoreText(v)) <==>
        && TextAt(s, 0, Print(Decimal, v.major))
        && HasAt(s, a, '.')
        && TextAt(s, a + 1, Print(Decimal, v.minor))
        && HasAt(s, b, '.')
        && TextAt(s, b + 1, Print(Decimal, v.patch)))
  {
    var x, y, z := Print(Decimal, v.major), Print(Decimal, v.minor), Print(Decimal, v.patch);
    TextOfConcat(s, 0, x + "." + y + ".", z);
    TextOfConcat(s, 0, x + "." + y, ".");
    TextOfConcat(s, 0, x + ".", y);
    TextOfConcat(s, 0, x, ".");
    TextOfChar(s, |x|, '.');
    TextOfChar(s, |x| + 1 + |y|, '.');
  }

  /** A printed version, piece by piece. */
  lemma TextOfVersion(s: string, v: Version)
    ensures var k := |CoreText(v)|;
      var m := k + |Suffix('-', v.prerelease)|;
      && |ToString(v)| == m + |Suffix('+', v.build)|
      && (TextAt(s, 0, ToString(v)) <==>
        && TextAt(s, 0, CoreText(v))
        && TextAt(s, k, Suffix('-', v.prerelease))
        && TextAt(s, m, Suffix('+', v.build)))
  {
    TextOfConcat(s, 0, CoreText(v) + Suffix('-', v.prerelease), Suffix('+', v.build));
    TextOfConcat(s, 0, CoreText(v), Suffix('-', v.prerelease));
  }

  // ---------- What the scanners find ----------

  lemma NumberSound(s: string, i: nat, max: nat)
    requires i <= |s| && NumberAt(s, i, max).Parsed?
    ensures var r := NumberAt(s, i, max);
      && ComponentOk(s, i) && r.next == DigitsEnd(s, i)
      && r.value <= max
      && TextAt(s, i, Print(Decimal, r.value)) && r.next == i + |Print(Decimal, r.value)|
  {
    var e := DigitsEnd(s, i);
    DigitRunIsNumeral(s, i, e);
    PrintOfValue(Decimal, s[i..e]);
    TextOfSlice(s, i, e);
  }

  /**
   * Where and how a component fails: no digit at all, a digit behind a leading zero, or a value out
   * of range, at the digit with which it leaves 64 bits, or else at its last digit.
   */
  lemma NumberFailure(s: string, i: nat, max: nat)
    requires i <= |s| && NumberAt(s, i, max).Failed?
    ensures var r := NumberAt(s, i, max);
      match r.code
      case InvalidArgument =>
        if i == |s| || !IsDecimalDigit(s[i]) then r.at == i
        else r.at == i + 1 < |s| && s[i] == '0' && IsDecimalDigit(s[i + 1])
      case ResultOutOfRange =>
        && i <= r.at < DigitsEnd(s, i) && IsNumeral(Decimal, s[i..r.at]) && IsNumeral(Decimal, s[i..r.at + 1])
        && Value(Decimal, s[i..r.at]) <= U64_MAX
        && (Value(Decimal, s[i..r.at + 1]) > U64_MAX
            || (r.at + 1 == DigitsEnd(s, i) && max < Value(Decimal, s[i..r.at + 1])))
      case ValueTooLarge => false
  {
    if ComponentOk(s, i) {
      OutOfRangeFailure(s, i, max);
      hide NumberAt, OverflowAt, Value, IsNumeral;
    } else {
      hide OverflowAt, Value, IsNumeral;
    }
  }

  lemma OutOfRangeFailure(s: string, i: nat, max: nat)
    requires i <= |s| && ComponentOk(s, i) && NumberAt(s, i, max).Failed?
    ensures var at, e := NumberAt(s, i, max).at, DigitsEnd(s, i);
      && NumberAt(s, i, max).code == ResultOutOfRange
      && i <= at < e && IsNumeral(Decimal, s[i..at]) && IsNumeral(Decimal, s[i..at + 1])
      && Value(Decimal, s[i..at]) <= U64_MAX
      && (Value(Decimal, s[i..at + 1]) > U64_MAX || (at + 1 == e && max < Value(Decimal, s[i..at + 1])))
  {
    OutOfRangeAt(s, i, max);
    assert Value(Decimal, s[i..i]) == 0;
    hide Value, IsNumeral, DigitsEnd, NumberAt, OverflowAt;
    var e := DigitsEnd(s, i);
    if Value(Decimal, s[i..e]) > U64_MAX {
      DigitRunIsNumeral(s, i, i);
      OverflowIsFirst(s, i, i, e);
    } else {
      FrontIsSmaller(s, i, e);
    }
  }

  lemma OutOfRangeAt(s: string, i: nat, max: nat)
    requires i <= |s| && ComponentOk(s, i) && NumberAt(s, i, max).Failed?
    ensures var r, e := NumberAt(s, i, max), DigitsEnd(s, i);
      && i < e <= |s| && IsNumeral(Decimal, s[i..e])
      && r == Failed(if Value(Decimal, s[i..e]) > U64_MAX then OverflowAt(s, i, i, e) else e - 1, ResultOutOfRange)
      && (max < Value(Decimal, s[i..e]) || Value(Decimal, s[i..e]) > U64_MAX)
  {
    hide Value, IsNumeral, OverflowAt;
    DigitRunIsNumeral(s, i, DigitsEnd(s, i));
  }

  lemma FrontIsSmaller(s: string, i: nat, e: nat)
    requires i < e <= |s| && IsNumeral(Decimal, s[i..e])
    ensures IsNumeral(Decimal, s[i..e - 1]) && Value(Decimal, s[i..e - 1]) <= Value(Decimal, s[i..e])
  {
    var front, c := s[i..e - 1], s[e - 1];
    assert s[i..e] == front + [c];
    assert forall k :: 0 <= k < |front| ==> front[k] == s[i..e][k];
    assert IsDigit(Decimal, s[i..e][|front|]);
    ValueOfAppend(Decimal, front, c);
  }

  lemma {:induction false} OverflowIsFirst(s: string, i: nat, k: nat, e: nat)
    requires i <= k <= e <= |s| && e == DigitsEnd(s, i) && IsNumeral(Decimal, s[i..k])
    requires Value(Decimal, s[i..k]) <= U64_MAX && IsNumeral(Decimal, s[i..e])
    ensures var at := OverflowAt(s, i, k, e);
      && k <= at <= e && IsNumeral(Decimal, s[i..at]) && Value(Decimal, s[i..at]) <= U64_MAX
      && (at == e ==> Value(Decimal, s[i..e]) <= U64_MAX)
      && (at < e ==> IsNumeral(Decimal, s[i..at + 1]) && Value(Decimal, s[i..at + 1]) > U64_MAX)
    decreases e - k
  {
    hide Value, IsNumeral, DigitsEnd;
    if k < e {
      DigitRunIsNumeral(s, i, k + 1);
      if Value(Decimal, s[i..k + 1]) <= U64_MAX {
        OverflowIsFirst(s, i, k + 1, e);
      }
    }
  }

  lemma PrintedNumber(s: string, i: nat, n: nat, max: nat)
    requires TextAt(s, i, Print(Decimal, n))
    ensures var e := i + |Print(Decimal, n)|;
      && e > i && DigitsEnd(s, i) >= e
      && (e == |s| || !IsDecimalDigit(s[e]) ==>
        && DigitsEnd(s, i) == e && ComponentOk(s, i)
        && (n <= max <= U64_MAX ==> NumberAt(s, i, max) == Parsed(n, e)))
  {
    var d := Print(Decimal, n);
    var e := i + |d|;
    PrintIsCanonical(Decimal, n);
    forall k | i <= k < e ensures IsDecimalDigit(s[k]) {
      assert s[i + (k - i)] == CharAt(d, k - i);
      assert IsDigit(Decimal, d[k - i]);
    }
    RunEndSkip(IsDecimalDigit, s, i, e);
    assert s[i + 0] == CharAt(d, 0);
    SliceOfText(s, i, d);
  }

  lemma TagAtParsed(s: string, i: nat, rejectLeadingZero: bool)
    requires i <= |s| && TagAt(s, i, rejectLeadingZero).Parsed?
    ensures var e := IdentifierEnd(s, i);
      var r := TagAt(s, i, rejectLeadingZero);
      && ValidIdentifier(s[i..e], rejectLeadingZero)
      && (if HasAt(s, e, '.') then
            TagAt(s, e + 1, rejectLeadingZero).Parsed? && TagAt(s, e + 1, rejectLeadingZero).next == r.next
          else r.next == e)
  {
  }

  lemma IdentifierTagRun(s: string, i: nat)
    requires i <= |s|
    ensures var e := IdentifierEnd(s, i);
      && i <= e <= |s|
      && (HasAt(s, e, '.') ==> RunEnd(IsTagChar, s, i) == RunEnd(IsTagChar, s, e + 1))
      && (!HasAt(s, e, '.') ==> RunEnd(IsTagChar, s, i) == e)
  {
    var e := IdentifierEnd(s, i);
    RunEndSkip(IsTagChar, s, i, e);
    if HasAt(s, e, '.') {
      RunEndSkip(IsTagChar, s, e, e + 1);
    }
  }

  lemma {:induction false} TagSound(s: string, i: nat, rejectLeadingZero: bool)
    requires i <= |s| && TagAt(s, i, rejectLeadingZero).Parsed?
    ensures var r := TagAt(s, i, rejectLeadingZero);
      ValidIds(r.value, rejectLeadingZero) && r.next == RunEnd(IsTagChar, s, i)
    decreases |s| - i
  {
    hide TagAt, ValidIdentifier, ValidIds, RunEnd, IdentifierEnd;
    var r := TagAt(s, i, rejectLeadingZero);
    var e := IdentifierEnd(s, i);
    IdentifierTagRun(s, i);
    TagAtParsed(s, i, rejectLeadingZero);
    if HasAt(s, e, '.') {
      TagSound(s, e + 1, rejectLeadingZero);
      assert r.value == s[i..e] + "." + s[e + 1..r.next];
      JoinedIdsAreValid(s[i..e], s[e + 1..r.next], rejectLeadingZero);
    } else {
      SingleIdIsValid(s[i..e], rejectLeadingZero);
    }
  }

  lemma TagCharsRun(s: string, i: nat, t: string, rejectLeadingZero: bool)
    requires TextAt(s, i, t) && ValidIds(t, rejectLeadingZero)
    ensures RunEnd(IsTagChar, s, i) == RunEnd(IsTagChar, s, i + |t|) >= i + |t|
  {
    ValidIdsShape(t, rejectLeadingZero);
    forall k | i <= k < i + |t| ensures IsTagChar(s[k]) {
      assert s[i + (k - i)] == CharAt(t, k - i);
    }
    RunEndSkip(IsTagChar, s, i, i + |t|);
  }

  lemma IdentifierRun(s: string, i: nat, id: string, rejectLeadingZero: bool)
    requires TextAt(s, i, id) && ValidIdentifier(id, rejectLeadingZero)
    requires i + |id| == |s| || !IsIdentifierChar(s[i + |id|])
    ensures IdentifierEnd(s, i) == i + |id| && s[i..i + |id|] == id
  {
    forall k | i <= k < i + |id| ensures IsIdentifierChar(s[k]) {
      assert s[i + (k - i)] == CharAt(id, k - i);
    }
    RunEndSkip(IsIdentifierChar, s, i, i + |id|);
    SliceOfText(s, i, id);
  }

  lemma TagAtUnfolds(s: string, i: nat, e: nat, rejectLeadingZero: bool)
    requires i <= |s| && e == IdentifierEnd(s, i)
    requires ValidIdentifier(s[i..e], rejectLeadingZero)
    ensures !HasAt(s, e, '.') ==> TagAt(s, i, rejectLeadingZero) == Parsed(s[i..e], e)
    ensures HasAt(s, e, '.') && TagAt(s, e + 1, rejectLeadingZero).Parsed? ==>
      var next := TagAt(s, e + 1, rejectLeadingZero).next;
      TagAt(s, i, rejectLeadingZero) == Parsed(s[i..next], next)
  {
  }

  lemma TextOfIdentifierAndRest(s: string, i: nat, t: string, d: nat)
    requires d < |t| && t[d] == '.' && TextAt(s, i, t)
    ensures TextAt(s, i, t[..d]) && HasAt(s, i + d, '.') && TextAt(s, i + d + 1, t[d + 1..])
  {
    hide TextAt;
    var id, rest := t[..d], t[d + 1..];
    assert t == id + "." + rest;
    TextOfConcat(s, i, id + ".", rest);
    TextOfConcat(s, i, id, ".");
    TextOfChar(s, i + d, '.');
  }

  /** The first identifier of a tag that stands in `s` is what the scanner finds first. */
  lemma FirstIdentifierAt(s: string, i: nat, t: string, rejectLeadingZero: bool)
    requires TextAt(s, i, t) && ValidIds(t, rejectLeadingZero)
    requires i + |t| == |s| || !IsTagChar(s[i + |t|])
    ensures var d := FirstDot(t);
      && IdentifierEnd(s, i) == i + d && ValidIdentifier(s[i..i + d], rejectLeadingZero)
      && (d < |t| ==>
        && HasAt(s, i + d, '.') && TextAt(s, i + d + 1, t[d + 1..])
        && ValidIds(t[d + 1..], rejectLeadingZero))
      && (d == |t| ==> !HasAt(s, i + d, '.'))
  {
    hide TextAt, IdentifierEnd, FirstDot;
    var d := FirstDot(t);
    if d == |t| {
      assert t[..d] == t;
    } else {
      TextOfIdentifierAndRest(s, i, t, d);
    }
    IdentifierRun(s, i, t[..d], rejectLeadingZero);
  }

  lemma {:induction false} PrintedTag(s: string, i: nat, t: string, rejectLeadingZero: bool)
    requires TextAt(s, i, t) && ValidIds(t, rejectLeadingZero)
    requires i + |t| == |s| || !IsTagChar(s[i + |t|])
    ensures TagAt(s, i, rejectLeadingZero) == Parsed(t, i + |t|)
    decreases |t|
  {
    hide TagAt, TextAt, ValidIds, ValidIdentifier, IsTagChar;
    var d := FirstDot(t);
    FirstIdentifierAt(s, i, t, rejectLeadingZero);
    if d < |t| {
      PrintedTag(s, i + d + 1, t[d + 1..], rejectLeadingZero);
    }
    SliceOfText(s, i, t);
    TagAtUnfolds(s, i, i + d, rejectLeadingZero);
  }

  // ---------- Soundness of parsing ----------

  lemma BuildSound(s: string, i: nat, v: Version)
    requires i <= |s| && BuildAt(s, i, v).Parsed? && v.build == ""
    ensures var r := BuildAt(s, i, v);
      && r.value == v.(build := r.value.build) && ValidBuild(r.value.build)
      && TextAt(s, i, Suffix('+', r.value.build)) && r.next == i + |Suffix('+', r.value.build)|
  {
    var r := BuildAt(s, i, v);
    TextOfSuffix(s, i, '+', r.value.build);
    if HasAt(s, i, '+') {
      TagSound(s, i + 1, false);
      TextOfSlice(s, i + 1, r.next);
    }
  }

  lemma QualifiersSound(s: string, i: nat, v: Version)
    requires i <= |s| && QualifiersAt(s, i, v).Parsed? && v.prerelease == "" && v.build == ""
    ensures var r := QualifiersAt(s, i, v);
      var m := i + |Suffix('-', r.value.prerelease)|;
      && Valid(r.value)
      && r.value == v.(prerelease := r.value.prerelease, build := r.value.build)
      && TextAt(s, i, Suffix('-', r.value.prerelease))
      && TextAt(s, m, Suffix('+', r.value.build))
      && r.next == m + |Suffix('+', r.value.build)|
  {
    hide TagAt, ValidIds, TextAt, BuildAt;
    var r := QualifiersAt(s, i, v);
    TextOfSuffix(s, i, '-', r.value.prerelease);
    if HasAt(s, i, '-') {
      TagSound(s, i + 1, true);
      var t := TagAt(s, i + 1, true);
      TextOfSlice(s, i + 1, t.next);
      BuildSound(s, t.next, v.(prerelease := t.value));
    } else {
      BuildSound(s, i, v);
    }
  }

  /** What a parse consumed is exactly the text of the version it returned. */
  lemma VersionSound(s: string, lim: Limits)
    requires VersionAt(s, lim).Parsed?
    ensures var r := VersionAt(s, lim);
      Representable(r.value, lim) && ToString(r.value) == s[..r.next]
  {
    hide NumberAt, QualifiersAt, TextAt, CoreText, ComponentOk, DigitsEnd, Print;
    var r := VersionAt(s, lim);
    NumberSound(s, 0, lim.major);
    var a := NumberAt(s, 0, lim.major);
    NumberSound(s, a.next + 1, lim.minor);
    var b := NumberAt(s, a.next + 1, lim.minor);
    NumberSound(s, b.next + 1, lim.patch);
    var c := NumberAt(s, b.next + 1, lim.patch);
    QualifiersSound(s, c.next, Version(a.value, b.value, c.value, "", ""));
    TextOfCore(s, r.value);
    TextOfVersion(s, r.value);
    SliceOfText(s, 0, ToString(r.value));
  }

  // ---------- Completeness of parsing ----------

  lemma PrintedBuild(s: string, m: nat, build: string, core: Version)
    requires ValidBuild(build) && core.build == "" && TextAt(s, m, Suffix('+', build)) && |s| == m + |Suffix('+', build)|
    ensures BuildAt(s, m, core) == Parsed(core.(build := build), |s|)
  {
    hide TagAt, TextAt, ValidIds;
    TextOfSuffix(s, m, '+', build);
    if build != "" {
      PrintedTag(s, m + 1, build, false);
    }
  }

  lemma PrintedQualifiers(s: string, k: nat, v: Version, core: Version)
    requires Valid(v) && core == v.(prerelease := "", build := "")
    requires TextAt(s, k, Suffix('-', v.prerelease))
    requires TextAt(s, k + |Suffix('-', v.prerelease)|, Suffix('+', v.build))
    requires |s| == k + |Suffix('-', v.prerelease)| + |Suffix('+', v.build)|
    ensures QualifiersAt(s, k, core) == Parsed(v, |s|)
  {
    hide TagAt, TextAt, ValidIds, BuildAt;
    var m := k + |Suffix('-', v.prerelease)|;
    TextOfSuffix(s, k, '-', v.prerelease);
    TextOfSuffix(s, m, '+', v.build);
    PrintedBuild(s, m, v.build, core.(prerelease := v.prerelease));
    if v.prerelease != "" {
      PrintedTag(s, k + 1, v.prerelease, true);
    }
  }

  /** The positions in a printed version. */
  lemma PrintedPositions(v: Version)
    requires Valid(v)
    ensures var s := ToString(v);
      var a := |Print(Decimal, v.major)|;
      var b := a + 1 + |Print(Decimal, v.minor)|;
      var c := b + 1 + |Print(Decimal, v.patch)|;
      && TextAt(s, 0, Print(Decimal, v.major)) && HasAt(s, a, '.')
      && TextAt(s, a + 1, Print(Decimal, v.minor)) && HasAt(s, b, '.')
      && TextAt(s, b + 1, Print(Decimal, v.patch))
      && TextAt(s, c, Suffix('-', v.prerelease))
      && TextAt(s, c + |Suffix('-', v.prerelease)|, Suffix('+', v.build))
      && |s| == c + |Suffix('-', v.prerelease)| + |Suffix('+', v.build)|
      && (c < |s| ==> s[c] == '-' || s[c] == '+')
  {
    var s := ToString(v);
    TextOfVersion(s, v);
    TextOfCore(s, v);
    var c := |CoreText(v)|;
    TextOfSuffix(s, c, '-', v.prerelease);
    TextOfSuffix(s, c, '+', v.build);
  }

  /** Parsing a printed version gives it back, whatever its tags. */
  lemma ParseOfPrint(v: Version, lim: Limits)
    requires Representable(v, lim)
    ensures VersionAt(ToString(v), lim) == Parsed(v, |ToString(v)|)
  {
    hide NumberAt, QualifiersAt, TextAt, CoreText, ComponentOk, DigitsEnd, Suffix, ToString, Print;
    var s := ToString(v);
    var a := |Print(Decimal, v.major)|;
    var b := a + 1 + |Print(Decimal, v.minor)|;
    var c := b + 1 + |Print(Decimal, v.patch)|;
    PrintedPositions(v);
    PrintedNumber(s, 0, v.major, lim.major);
    PrintedNumber(s, a + 1, v.minor, lim.minor);
    PrintedNumber(s, b + 1, v.patch, lim.patch);
    PrintedQualifiers(s, c, v, Version(v.major, v.minor, v.patch, "", ""));
  }

  lemma ComponentFailsByRange(s: string, i: nat, max: nat)
    requires i <= |s| && ComponentOk(s, i)
    ensures var r := NumberAt(s, i, max);
      if r.Failed? then r.code == ResultOutOfRange
      else r.next == DigitsEnd(s, i)
  {
  }

  /** The text of a version fails to parse only because a component exceeds its type. */
  lemma PrintedFailsOnlyByRange(v: Version, lim: Limits)
    requires Valid(v) && VersionAt(ToString(v), lim).Failed?
    ensures VersionAt(ToString(v), lim).code == ResultOutOfRange
  {
    hide NumberAt, QualifiersAt, TextAt, CoreText, Suffix, ToString, ComponentOk, DigitsEnd, Print;
    var s := ToString(v);
    var a := |Print(Decimal, v.major)|;
    var b := a + 1 + |Print(Decimal, v.minor)|;
    var c := b + 1 + |Print(Decimal, v.patch)|;
    PrintedPositions(v);
    PrintedNumber(s, 0, v.major, lim.major);
    PrintedNumber(s, a + 1, v.minor, lim.minor);
    PrintedNumber(s, b + 1, v.patch, lim.patch);
    ComponentFailsByRange(s, 0, lim.major);
    ComponentFailsByRange(s, a + 1, lim.minor);
    ComponentFailsByRange(s, b + 1, lim.patch);
    var x, y, z := NumberAt(s, 0, lim.major), NumberAt(s, a + 1, lim.minor), NumberAt(s, b + 1, lim.patch);
    if x.Parsed? && y.Parsed? && z.Parsed? {
      PrintedQualifiers(s, c, Version(x.value, y.value, z.value, v.prerelease, v.build),
                        Version(x.value, y.value, z.value, "", ""));
    }
  }

  lemma BuildIsLongest(s: string, m: nat, tag: string, core: Version)
    requires ValidBuild(tag) && TextAt(s, m, Suffix('+', tag)) && BuildAt(s, m, core).Parsed?
    ensures BuildAt(s, m, core).next >= m + |Suffix('+', tag)|
  {
    TextOfSuffix(s, m, '+', tag);
    if tag != "" {
      TagSound(s, m + 1, false);
      TagCharsRun(s, m + 1, tag, false);
    }
  }

  lemma QualifiersAreLongest(s: string, k: nat, v: Version, core: Version)
    requires Valid(v)
    requires TextAt(s, k, Suffix('-', v.prerelease))
    requires TextAt(s, k + |Suffix('-', v.prerelease)|, Suffix('+', v.build))
    requires QualifiersAt(s, k, core).Parsed?
    ensures QualifiersAt(s, k, core).next >= k + |Suffix('-', v.prerelease)| + |Suffix('+', v.build)|
  {
    hide TextAt, TagAt, ValidIds, BuildAt;
    var m := k + |Suffix('-', v.prerelease)|;
    TextOfSuffix(s, k, '-', v.prerelease);
    TextOfSuffix(s, m, '+', v.build);
    if HasAt(s, k, '-') {
      TagSound(s, k + 1, true);
      var t := TagAt(s, k + 1, true);
      if v.prerelease != "" {
        TagCharsRun(s, k + 1, v.prerelease, true);
        if v.build != "" {
          assert t.next == m;
          BuildIsLongest(s, m, v.build, core.(prerelease := t.value));
        }
      }
    } else {
      BuildIsLongest(s, m, v.build, core);
    }
  }

  /** Parsing goes through a printed core component by component, and on from its end, or further. */
  lemma CoreIsRead(s: string, v: Version, lim: Limits) returns (core: Version)
    requires TextAt(s, 0, CoreText(v)) && VersionAt(s, lim).Parsed?
    ensures var k := |CoreText(v)|;
      && k <= |s| && VersionAt(s, lim).next >= k
      && (k < |s| && !IsDecimalDigit(s[k]) ==>
            core.prerelease == "" && core.build == "" && VersionAt(s, lim) == QualifiersAt(s, k, core))
  {
    hide NumberAt, QualifiersAt, TextAt, CoreText, ComponentOk, DigitsEnd, Print;
    TextOfCore(s, v);
    var a := |Print(Decimal, v.major)|;
    var b := a + 1 + |Print(Decimal, v.minor)|;
    PrintedNumber(s, 0, v.major, lim.major);
    PrintedNumber(s, a + 1, v.minor, lim.minor);
    PrintedNumber(s, b + 1, v.patch, lim.patch);
    NumberSound(s, 0, lim.major);
    NumberSound(s, a + 1, lim.minor);
    NumberSound(s, b + 1, lim.patch);
    var x, y := NumberAt(s, 0, lim.major), NumberAt(s, a + 1, lim.minor);
    var z := NumberAt(s, b + 1, lim.patch);
    core := Version(x.value, y.value, z.value, "", "");
    assert VersionAt(s, lim) == QualifiersAt(s, z.next, core);
  }

  lemma SuffixesStart(s: string, k: nat, v: Version)
    requires TextAt(s, k, Suffix('-', v.prerelease)) && TextAt(s, k + |Suffix('-', v.prerelease)|, Suffix('+', v.build))
    ensures v.prerelease != "" || v.build != "" ==> k < |s| && !IsDecimalDigit(s[k])
    ensures v.prerelease == "" && v.build == "" ==> |Suffix('-', v.prerelease)| == |Suffix('+', v.build)| == 0
  {
    hide TextAt;
    TextOfSuffix(s, k, '-', v.prerelease);
    TextOfSuffix(s, k, '+', v.build);
  }

  /** A successful parse is at least as long as any printed version the string begins with. */
  lemma ParseIsLongest(s: string, v: Version, lim: Limits)
    requires Valid(v) && TextAt(s, 0, ToString(v)) && VersionAt(s, lim).Parsed?
    ensures VersionAt(s, lim).next >= |ToString(v)|
  {
    hide VersionAt, QualifiersAt, TextAt, CoreText, ToString, Suffix;
    TextOfVersion(s, v);
    var core := CoreIsRead(s, v, lim);
    var k := |CoreText(v)|;
    SuffixesStart(s, k, v);
    if v.prerelease != "" || v.build != "" {
      QualifiersAreLongest(s, k, v, core);
    }
  }

  // ---------- Parse and print undo each other ----------

  /** The strings that are versions, with components of any size. */
  ghost predicate IsVersionText(s: string) {
    exists v :: Valid(v) && ToString(v) == s
  }

  /** `to_string(parse(s)) == s` for every accepted `s`, and accepted are exactly the printed versions that fit. */
  lemma ParseAcceptsPrinted(s: string, lim: Limits)
    ensures ParseVersion(s, lim).Parsed? ==>
      Representable(ParseVersion(s, lim).value, lim) && ToString(ParseVersion(s, lim).value) == s
    ensures ParseVersion(s, lim).Parsed? <==>
      |s| <= MAX_INPUT_LENGTH && exists v :: Representable(v, lim) && ToString(v) == s
  {
    if ParseVersion(s, lim).Parsed? {
      VersionSound(s, lim);
      assert s[..|s|] == s;
    }
    if v :| |s| <= MAX_INPUT_LENGTH && Representable(v, lim) && ToString(v) == s {
      ParseOfPrint(v, lim);
    }
  }

  /** `parse(to_string(v))` restores all five fields whenever the text is within the limit. */
  lemma PrintThenParse(v: Version, lim: Limits)
    requires Representable(v, lim) && |ToString(v)| <= MAX_INPUT_LENGTH
    ensures ParseVersion(ToString(v), lim) == Parsed(v, |ToString(v)|)
  {
    ParseOfPrint(v, lim);
  }

  // ---------- The syntax-only recogniser ----------

  /** The end of MAJOR.MINOR.PATCH at the start of `s`, of any size. */
  function CoreEnd(s: string): (r: Option<nat>)
    ensures r.Some? ==> r.value <= |s|
  {
    if !ComponentOk(s, 0) then None
    else
      var a := DigitsEnd(s, 0);
      if !HasAt(s, a, '.') || !ComponentOk(s, a + 1) then None
      else
        var b := DigitsEnd(s, a + 1);
        if !HasAt(s, b, '.') || !ComponentOk(s, b + 1) then None
        else Some(DigitsEnd(s, b + 1))
  }

  predicate NotPlus(c: char) {
    c != '+'
  }

  /** The end of the prerelease part: the first '+', when there is a '-'. */
  function PrereleaseEnd(s: string, p: nat): (q: nat)
    requires p <= |s|
    ensures p <= q <= |s|
  {
    if HasAt(s, p, '-') then RunEnd(NotPlus, s, p + 1) else p
  }

  predicate QualifiersOk(s: string, p: nat)
    requires p <= |s|
  {
    var q := PrereleaseEnd(s, p);
    && (HasAt(s, p, '-') ==> ValidIds(s[p + 1..q], true))
    && (q == |s| || (s[q] == '+' && ValidIds(s[q + 1..], false)))
  }

  predicate SyntaxOk(s: string) {
    CoreEnd(s).Some? && QualifiersOk(s, CoreEnd(s).value)
  }

  lemma ComponentText(s: string, i: nat) returns (n: nat)
    requires i <= |s| && ComponentOk(s, i)
    ensures TextAt(s, i, Print(Decimal, n)) && DigitsEnd(s, i) == i + |Print(Decimal, n)|
  {
    var e := DigitsEnd(s, i);
    DigitRunIsNumeral(s, i, e);
    n := Value(Decimal, s[i..e]);
    PrintOfValue(Decimal, s[i..e]);
    TextOfSlice(s, i, e);
  }

  lemma SuffixOfSlice(s: string, p: nat, q: nat, mark: char)
    requires p < q <= |s| && s[p] == mark && p + 1 < q
    ensures TextAt(s, p, Suffix(mark, s[p + 1..q])) && p + |Suffix(mark, s[p + 1..q])| == q
  {
    hide TextAt;
    TextOfSlice(s, p + 1, q);
    TextOfSuffix(s, p, mark, s[p + 1..q]);
  }

  lemma QualifierText(s: string, p: nat) returns (pre: string, build: string)
    requires p <= |s| && QualifiersOk(s, p)
    ensures ValidPrerelease(pre) && ValidBuild(build)
    ensures TextAt(s, p, Suffix('-', pre)) && TextAt(s, p + |Suffix('-', pre)|, Suffix('+', build))
    ensures |s| == p + |Suffix('-', pre)| + |Suffix('+', build)|
  {
    hide ValidIds;
    var q := PrereleaseEnd(s, p);
    pre, build := "", "";
    if q > p {
      pre := s[p + 1..q];
      ValidIdsShape(pre, true);
      SuffixOfSlice(s, p, q, '-');
    }
    if q < |s| {
      build := s[q + 1..|s|];
      assert build == s[q + 1..];
      ValidIdsShape(build, false);
      SuffixOfSlice(s, q, |s|, '+');
    }
  }

  lemma SyntaxIsText(s: string)
    requires SyntaxOk(s)
    ensures IsVersionText(s)
  {
    hide QualifiersOk, TextAt, CoreText, ComponentOk, DigitsEnd, Suffix;
    var a := DigitsEnd(s, 0);
    var b := DigitsEnd(s, a + 1);
    var c := DigitsEnd(s, b + 1);
    var major := ComponentText(s, 0);
    var minor := ComponentText(s, a + 1);
    var patch := ComponentText(s, b + 1);
    var pre, build := QualifierText(s, c);
    var v := Version(major, minor, patch, pre, build);
    TextOfCore(s, v);
    TextOfVersion(s, v);
    SliceOfText(s, 0, ToString(v));
    assert s[0..|s|] == s;
  }

  lemma TagHasNoPlus(s: string, i: nat, tag: string)
    requires ValidIds(tag, true) && TextAt(s, i, tag)
    ensures RunEnd(NotPlus, s, i) == RunEnd(NotPlus, s, i + |tag|)
  {
    ValidIdsShape(tag, true);
    forall j | i <= j < i + |tag| ensures NotPlus(s[j]) {
      assert s[i + (j - i)] == CharAt(tag, j - i);
    }
    RunEndSkip(NotPlus, s, i, i + |tag|);
  }

  lemma PrereleaseEndsAtPlus(s: string, k: nat, tag: string)
    requires ValidPrerelease(tag) && TextAt(s, k, Suffix('-', tag))
    requires var m := k + |Suffix('-', tag)|;
      m == |s| || s[m] == '+'
    ensures PrereleaseEnd(s, k) == k + |Suffix('-', tag)|
    ensures HasAt(s, k, '-') ==> ValidIds(s[k + 1..PrereleaseEnd(s, k)], true)
  {
    hide ValidIds, TextAt;
    TextOfSuffix(s, k, '-', tag);
    if tag != "" {
      TagHasNoPlus(s, k + 1, tag);
      SliceOfText(s, k + 1, tag);
    }
  }

  lemma PrintedQualifiersOk(s: string, k: nat, v: Version)
    requires Valid(v)
    requires TextAt(s, k, Suffix('-', v.prerelease))
    requires TextAt(s, k + |Suffix('-', v.prerelease)|, Suffix('+', v.build))
    requires |s| == k + |Suffix('-', v.prerelease)| + |Suffix('+', v.build)|
    ensures QualifiersOk(s, k)
  {
    hide ValidIds, TextAt;
    var m := k + |Suffix('-', v.prerelease)|;
    TextOfSuffix(s, m, '+', v.build);
    PrereleaseEndsAtPlus(s, k, v.prerelease);
    if v.build != "" {
      SliceOfText(s, m + 1, v.build);
      assert s[m + 1..|s|] == s[m + 1..];
    }
  }

  lemma TextIsSyntax(v: Version)
    requires Valid(v)
    ensures SyntaxOk(ToString(v))
  {
    hide NumberAt, QualifiersOk, TextAt, CoreText, ToString, ComponentOk, DigitsEnd, Suffix;
    var s := ToString(v);
    var a := |Print(Decimal, v.major)|;
    var b := a + 1 + |Print(Decimal, v.minor)|;
    var c := b + 1 + |Print(Decimal, v.patch)|;
    PrintedPositions(v);
    PrintedNumber(s, 0, v.major, 0);
    PrintedNumber(s, a + 1, v.minor, 0);
    PrintedNumber(s, b + 1, v.patch, 0);
    PrintedQualifiersOk(s, c, v);
  }

  /** The syntax check accepts exactly the printed versions. */
  lemma SyntaxIffText(s: string)
    ensures SyntaxOk(s) <==> IsVersionText(s)
  {
    if SyntaxOk(s) {
      SyntaxIsText(s);
    }
    if v :| Valid(v) && ToString(v) == s {
      TextIsSyntax(v);
    }
  }

  lemma SamePrintedNumber(s: string, i: nat, m: nat, n: nat)
    requires TextAt(s, i, Print(Decimal, m)) && TextAt(s, i, Print(Decimal, n))
    requires i + |Print(Decimal, m)| == |s| || !IsDecimalDigit(s[i + |Print(Decimal, m)|])
    requires i + |Print(Decimal, n)| == |s| || !IsDecimalDigit(s[i + |Print(Decimal, n)|])
    ensures m == n
  {
    hide Print, ComponentOk, NumberAt;
    PrintedNumber(s, i, m, 0);
    PrintedNumber(s, i, n, 0);
    SliceOfText(s, i, Print(Decimal, m));
    SliceOfText(s, i, Print(Decimal, n));
    PrintIsCanonical(Decimal, m);
    PrintIsCanonical(Decimal, n);
  }

  lemma SamePrintedQualifiers(s: string, c: nat, v: Version, w: Version)
    requires Valid(v) && Valid(w) && SameCore(v, w)
    requires forall u :: u == v || u == w ==>
      && TextAt(s, c, Suffix('-', u.prerelease))
      && TextAt(s, c + |Suffix('-', u.prerelease)|, Suffix('+', u.build))
      && |s| == c + |Suffix('-', u.prerelease)| + |Suffix('+', u.build)|
    ensures v == w
  {
    hide TextAt, Suffix, QualifiersAt;
    var core := Version(v.major, v.minor, v.patch, "", "");
    PrintedQualifiers(s, c, v, core);
    PrintedQualifiers(s, c, w, core);
  }

  /** Printing loses nothing: versions of unbounded components are determined by their text. */
  lemma PrintIsInjective(v: Version, w: Version)
    requires Valid(v) && Valid(w) && ToString(v) == ToString(w)
    ensures v == w
  {
    hide TextAt, Suffix, Print, ToString;
    var s := ToString(v);
    PrintedPositions(v);
    PrintedPositions(w);
    SamePrintedNumber(s, 0, v.major, w.major);
    var a := |Print(Decimal, v.major)|;
    SamePrintedNumber(s, a + 1, v.minor, w.minor);
    var b := a + 1 + |Print(Decimal, v.minor)|;
    SamePrintedNumber(s, b + 1, v.patch, w.patch);
    SamePrintedQualifiers(s, b + 1 + |Print(Decimal, v.patch)|, v, w);
  }

  /** The two recognisers agree: strict parsing is the syntax check, the component ranges and the length limit. */
  lemma RecognisersAgree(s: string, lim: Limits)
    ensures ParseVersion(s, lim).Parsed? <==>
      && |s| <= 512
      && SyntaxOk(s)
      && forall v :: Valid(v) && ToString(v) == s ==> Fits(v, lim)
  {
    ParseAcceptsPrinted(s, lim);
    SyntaxIffText(s);
    if ParseVersion(s, lim).Parsed? {
      var w := ParseVersion(s, lim).value;
      forall v | Valid(v) && ToString(v) == s ensures Fits(v, lim) {
        PrintIsInjective(v, w);
      }
    }
  }

  // ---------- Prefix parsing ----------

  /** The longest prefix that is a version, 0 when there is none. */
  ghost predicate IsLongestPrefix(s: string, n: nat) {
    && n <= |s|
    && (n > 0 ==> IsVersionText(s[..n]))
    && forall m :: n < m <= |s| ==> !IsVersionText(s[..m])
  }

  /** When the greedy parse succeeds, it has taken the longest version prefix. */
  lemma GreedyTakesLongest(s: string, lim: Limits)
    requires VersionAt(s, lim).Parsed?
    ensures VersionAt(s, lim).next > 0 && IsLongestPrefix(s, VersionAt(s, lim).next)
  {
    var n := VersionAt(s, lim).next;
    VersionSound(s, lim);
    assert ToString(VersionAt(s, lim).value) == s[..n];
    forall m | n < m <= |s| ensures !IsVersionText(s[..m]) {
      if v :| Valid(v) && ToString(v) == s[..m] {
        TextOfSlice(s, 0, m);
        assert s[0..m] == s[..m];
        ParseIsLongest(s, v, lim);
      }
    }
  }

  lemma LongestPrefixIsUnique(s: string, n: nat, m: nat)
    requires IsLongestPrefix(s, n) && IsLongestPrefix(s, m)
    ensures n == m
  {
  }
}
