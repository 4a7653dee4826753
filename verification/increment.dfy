/** Incrementing versions, and naming the difference between two. */
module Increment {
  import opened Orders
  import opened Numerals
  import opened Tags
  import opened Versions
  import opened Wrappers

  datatype Change = Nothing | Major | Minor | Patch | PreMajor | PreMinor | PrePatch | PreRelease

  /** Which component differs, and whether the newer version is a prerelease. */
  function Diff(v: Version, w: Version): Change {
    var cmp := Compare(v, w);
    if cmp == 0 then Nothing
    else
      var pre := if cmp > 0 then IsPrerelease(v) else IsPrerelease(w);
      if v.major != w.major then (if pre then PreMajor else Major)
      else if v.minor != w.minor then (if pre then PreMinor else Minor)
      else if v.patch != w.patch then (if pre then PrePatch else Patch)
      else PreRelease
  }

  // ---------- The next tag ----------

  /** Where the last identifier starts. */
  function LastStart(tag: string): (p: nat)
    ensures p <= |tag|
    ensures p > 0 ==> tag[p - 1] == '.'
    ensures forall i :: p <= i < |tag| ==> tag[i] != '.'
  {
    if tag == "" || tag[|tag| - 1] == '.' then |tag| else LastStart(tag[..|tag| - 1])
  }

  /** Decimal plus one on the digits: trailing nines become zeros, the digit before them grows. */
  function Succ(digits: string): string
    requires IsNumeral(Decimal, digits)
  {
    if digits == "" then "1"
    else
      var front, c := digits[..|digits| - 1], digits[|digits| - 1];
      if c == '9' then Succ(front) + "0"
      else front + [(c as int + 1) as char]
  }

  /** What a repeated prerelease increment makes of a tag. */
  function NextTag(tag: string): string {
    var p := LastStart(tag);
    if IsNumeric(tag[p..]) then
      NumericIsCanonical(tag[p..]);
      tag[..p] + Print(Decimal, Value(Decimal, tag[p..]) + 1)
    else tag + ".0"
  }

  lemma NumeralSplits(digits: string)
    requires IsNumeral(Decimal, digits) && digits != ""
    ensures var front, c := digits[..|digits| - 1], digits[|digits| - 1];
      && digits == front + [c] && IsNumeral(Decimal, front) && IsDigit(Decimal, c)
      && (front != "" ==> front[0] == digits[0])
      && Succ(digits) == (if c == '9' then Succ(front) + "0" else front + [(c as int + 1) as char])
  {
  }

  lemma {:induction false} SuccIsPlusOne(digits: string)
    requires IsNumeral(Decimal, digits)
    ensures IsNumeral(Decimal, Succ(digits)) && Succ(digits) != ""
    ensures Value(Decimal, Succ(digits)) == Value(Decimal, digits) + 1
    ensures digits != "" && digits[0] != '0' ==> Succ(digits)[0] != '0'
    ensures digits == "" ==> Succ(digits) == "1"
  {
    if digits == "" {
      ValueOfAppend(Decimal, "", '1');
      assert "" + ['1'] == "1";
    } else {
      hide Value, IsNumeral, Succ;
      NumeralSplits(digits);
      var front, c := digits[..|digits| - 1], digits[|digits| - 1];
      ValueOfAppend(Decimal, front, c);
      if c == '9' {
        SuccIsPlusOne(front);
        ValueOfAppend(Decimal, Succ(front), '0');
      } else {
        ValueOfAppend(Decimal, front, (c as int + 1) as char);
      }
    }
  }

  /** The digit-wise carry is integer increment, for numerals of any length. */
  lemma CarryIsIncrement(digits: string)
    requires IsCanonical(Decimal, digits)
    ensures Succ(digits) == Print(Decimal, Value(Decimal, digits) + 1)
  {
    SuccIsPlusOne(digits);
    if digits[0] == '0' {
      assert digits == "0" && digits[..0] == "";
      assert Succ(digits) == "1";
    }
    PrintOfValue(Decimal, Succ(digits));
  }

  /** From `p` on there is one identifier, and before the dot in front of it, if any, a tag. */
  ghost predicate SplitsAt(tag: string, p: nat, rejectLeadingZero: bool) {
    && p <= |tag| && ValidIdentifier(tag[p..], rejectLeadingZero)
    && (p > 0 ==> ValidIds(tag[..p - 1], rejectLeadingZero) && tag == tag[..p - 1] + "." + tag[p..])
  }

  lemma {:induction false} SplitAtLast(tag: string, rejectLeadingZero: bool)
    requires ValidIds(tag, rejectLeadingZero)
    ensures SplitsAt(tag, LastStart(tag), rejectLeadingZero)
    decreases |tag|
  {
    hide SplitsAt, ValidIds, ValidIdentifier, LastStart, FirstDot;
    var d := FirstDot(tag);
    FirstIdentifier(tag, rejectLeadingZero);
    if d == |tag| {
      SplitOfOne(tag, rejectLeadingZero);
    } else {
      SplitAtLast(tag[d + 1..], rejectLeadingZero);
      SplitOfMore(tag, d, LastStart(tag[d + 1..]), rejectLeadingZero);
      LastStartOf(tag, d + 1 + LastStart(tag[d + 1..]), tag[d + 1..], LastStart(tag[d + 1..]));
    }
  }

  lemma SplitOfOne(tag: string, rejectLeadingZero: bool)
    requires FirstDot(tag) == |tag| && ValidIdentifier(tag[..|tag|], rejectLeadingZero)
    ensures SplitsAt(tag, LastStart(tag), rejectLeadingZero)
  {
    hide FirstDot, LastStart, ValidIdentifier;
    assert tag[..|tag|] == tag[0..];
    assert LastStart(tag) == 0;
  }

  lemma SplitOfMore(tag: string, d: nat, q: nat, rejectLeadingZero: bool)
    requires d < |tag| && tag[d] == '.' && ValidIdentifier(tag[..d], rejectLeadingZero)
    requires SplitsAt(tag[d + 1..], q, rejectLeadingZero)
    requires q > 0 ==> tag[d + 1..][q - 1] == '.'
    ensures SplitsAt(tag, d + 1 + q, rejectLeadingZero)
  {
    hide ValidIds, ValidIdentifier;
    SplitsInTwo(tag, d, q);
    if q == 0 {
      SingleIdIsValid(tag[..d], rejectLeadingZero);
    } else {
      JoinedIdsAreValid(tag[..d], tag[d + 1..][..q - 1], rejectLeadingZero);
    }
  }

  /** A dot at `d` and, in what follows it, either nothing before `q` or a dot just before it. */
  lemma SplitsInTwo(tag: string, d: nat, q: nat)
    requires d < |tag| && tag[d] == '.' && q <= |tag| - d - 1
    requires q > 0 ==> tag[d + 1..][q - 1] == '.'
    ensures var rest, p := tag[d + 1..], d + 1 + q;
      && tag[p..] == rest[q..]
      && tag == tag[..p - 1] + "." + tag[p..]
      && tag[..p - 1] == if q == 0 then tag[..d] else tag[..d] + "." + rest[..q - 1]
  {
  }

  lemma LastStartOf(tag: string, p: nat, rest: string, q: nat)
    requires |rest| < |tag| && rest == tag[|tag| - |rest|..] && tag[|tag| - |rest| - 1] == '.'
    requires q == LastStart(rest) && p == |tag| - |rest| + q
    ensures LastStart(tag) == p
  {
    hide LastStart;
    var k := |tag| - |rest|;
    assert tag[p - 1] == '.' by {
      if q > 0 { assert rest[q - 1] == tag[k + q - 1]; }
    }
    forall i | p <= i < |tag| ensures tag[i] != '.' {
      assert tag[i] == rest[i - k];
    }
  }

  /** The next tag is valid and strictly above. */
  lemma NextTagIsAbove(tag: string)
    requires ValidIds(tag, true)
    ensures ValidIds(NextTag(tag), true) && CompareTags(tag, NextTag(tag)) < 0
  {
    hide ValidIds, ValidIdentifier, CompareTags, LastStart;
    var p := LastStart(tag);
    var last := tag[p..];
    SplitAtLast(tag, true);
    if !IsNumeric(last) {
      DotZeroIsSuccessor(tag, tag);
    } else {
      var next := NextNumeric(last);
      if p > 0 { ValidIdsShape(tag[..p - 1], true); }
      LastIdentifierDecides(if p == 0 then "" else tag[..p - 1], last, next);
      if p == 0 {
        assert tag == last && NextTag(tag) == "" + next == next;
      } else {
        assert tag[..p] == tag[..p - 1] + ".";
        assert NextTag(tag) == tag[..p - 1] + "." + next;
      }
    }
  }

  /** The printed successor of a numeric identifier is a numeric identifier above it. */
  lemma NextNumeric(id: string) returns (next: string)
    requires IsNumeric(id) && ValidIdentifier(id, true)
    ensures IsNumeral(Decimal, id) && next == Print(Decimal, Value(Decimal, id) + 1)
    ensures ValidIdentifier(next, true) && CompareIdentifiers(id, next) < 0
  {
    NumericIsCanonical(id);
    var n := Value(Decimal, id);
    next := Print(Decimal, n + 1);
    PrintIsCanonical(Decimal, n + 1);
    PrintedIsNumeric(next);
    NumericIdentifiersCompareAsIntegers(id, next);
  }

  lemma PrintedIsNumeric(s: string)
    requires IsCanonical(Decimal, s)
    ensures IsNumeric(s) && ValidIdentifier(s, true)
  {
    assert forall i :: 0 <= i < |s| ==> IsDigit(Decimal, s[i]);
  }

  /** Tags that differ in their last identifier compare by it. */
  lemma LastIdentifierDecides(head: string, x: string, y: string)
    requires head == "" || ValidIds(head, true)
    requires ValidIdentifier(x, true) && ValidIdentifier(y, true)
    ensures var a, b := (if head == "" then x else head + "." + x), (if head == "" then y else head + "." + y);
      && ValidIds(a, true) && ValidIds(b, true)
      && CompareTags(a, b) == CompareIdentifiers(x, y)
  {
    hide ValidIdentifier, CompareIdentifiers;
    NoDotInIdentifier(x, true);
    NoDotInIdentifier(y, true);
    IdentifiersAreTotallyOrdered();
    assert LexBy(CompareIdentifiers, [x], [y]) == CompareIdentifiers(x, y) by {
      assert [x][1..] == [] && [y][1..] == [];
      assert LexBy(CompareIdentifiers, [x][1..], [y][1..]) == 0;
    }
    if head == "" {
      SingleIdentifier(x);
      SingleIdentifier(y);
      assert x[..|x|] == x && y[..|y|] == y;
    } else {
      ValidIdsShape(head, true);
      ValidIdsOfAppend(head, x, true);
      ValidIdsOfAppend(head, y, true);
      IdsOfAppend(head, x);
      IdsOfAppend(head, y);
      LexCommonPrefix(CompareIdentifiers, Ids(head), [x], [y]);
    }
  }

  // ---------- inc ----------

  /** The release that carries the new tag, if the component to be bumped has room. */
  function Base(v: Version, change: Change, lim: Limits): Option<Version> {
    match change
    case Major => if v.major == lim.major then None else Some(BumpMajor(v))
    case PreMajor => if v.major == lim.major then None else Some(BumpMajor(v))
    case Minor => if v.minor == lim.minor then None else Some(BumpMinor(v))
    case PreMinor => if v.minor == lim.minor then None else Some(BumpMinor(v))
    case Patch => if v.patch == lim.patch then None else Some(BumpPatch(v))
    case PrePatch => if v.patch == lim.patch then None else Some(BumpPatch(v))
    case PreRelease =>
      if IsPrerelease(v) then Some(Release(v))
      else if v.patch == lim.patch then None else Some(BumpPatch(v))
    case Nothing => None
  }

  predicate IsPlain(change: Change) {
    change == Major || change == Minor || change == Patch
  }

  /** The tag of the result: given, fresh, or the next one. */
  function TagFor(v: Version, change: Change, pre: string): string {
    if IsPlain(change) then ""
    else if pre != "" then pre
    else if change == PreRelease && IsPrerelease(v) then NextTag(v.prerelease)
    else "0"
  }

  ghost predicate Incrementable(v: Version, change: Change, pre: string, lim: Limits) {
    && ValidPrerelease(pre)
    && (pre != "" ==> !IsPlain(change))
    && Base(v, change, lim).Some?
  }

  // ---------- What an increment is, field by field ----------

  /** The component has room, and a tag is given only where one is used, and is valid. */
  ghost predicate CanIncrement(v: Version, change: Change, pre: string, lim: Limits) {
    && change != Nothing
    && (change == Major || change == PreMajor ==> v.major < lim.major)
    && (change == Minor || change == PreMinor ==> v.minor < lim.minor)
    && (change == Patch || change == PrePatch || (change == PreRelease && v.prerelease == "") ==> v.patch < lim.patch)
    && (change == Major || change == Minor || change == Patch ==> pre == "")
    && (pre == "" || ValidIds(pre, true))
  }

  /** The core: the named component grows by one and the lower ones start again, or the core stays. */
  ghost predicate HasNextCore(v: Version, change: Change, w: Version) {
    match change
    case Major => w.major == v.major + 1 && w.minor == 0 && w.patch == 0
    case PreMajor => w.major == v.major + 1 && w.minor == 0 && w.patch == 0
    case Minor => w.major == v.major && w.minor == v.minor + 1 && w.patch == 0
    case PreMinor => w.major == v.major && w.minor == v.minor + 1 && w.patch == 0
    case Patch => w.major == v.major && w.minor == v.minor && w.patch == v.patch + 1
    case PrePatch => w.major == v.major && w.minor == v.minor && w.patch == v.patch + 1
    case PreRelease =>
      w.major == v.major && w.minor == v.minor && w.patch == v.patch + (if v.prerelease == "" then 1 else 0)
    case Nothing => false
  }

  /** The tag: none for a plain change, else the one given, else "0", or the old one carried on. */
  ghost predicate HasNextTag(v: Version, change: Change, pre: string, w: Version) {
    if change == Major || change == Minor || change == Patch then w.prerelease == ""
    else if pre != "" then w.prerelease == pre
    else if change == PreRelease && v.prerelease != "" then CarriesOn(v.prerelease, w.prerelease)
    else w.prerelease == "0"
  }

  /** A numeric last identifier counts one further; otherwise an identifier "0" is appended. */
  ghost predicate CarriesOn(tag: string, next: string) {
    && Ids(tag) != []
    && var init, last := Ids(tag)[..|Ids(tag)| - 1], Ids(tag)[|Ids(tag)| - 1];
      if IsNumeric(last) then
        exists id :: ValidIdentifier(id, true) && CountsOne(last, id) && Ids(next) == init + [id]
      else next == tag + ".0"
  }

  ghost predicate CountsOne(id: string, next: string) {
    && IsNumeral(Decimal, id) && IsNumeral(Decimal, next)
    && Value(Decimal, next) == Value(Decimal, id) + 1
  }

  lemma LastOfIds(tag: string)
    requires ValidIds(tag, true)
    ensures var p := LastStart(tag);
      && Ids(tag) == (if p == 0 then [] else Ids(tag[..p - 1])) + [tag[p..]]
      && (p > 0 ==> ValidIds(tag[..p - 1], true)) && ValidIdentifier(tag[p..], true)
  {
    hide ValidIds, ValidIdentifier, LastStart, Ids;
    var p := LastStart(tag);
    SplitAtLast(tag, true);
    NoDotInIdentifier(tag[p..], true);
    if p == 0 {
      assert tag[p..] == tag;
      SingleIdentifier(tag);
    } else {
      ValidIdsShape(tag[..p - 1], true);
      IdsOfAppend(tag[..p - 1], tag[p..]);
    }
  }

  /** Replacing the last identifier of a tag. */
  lemma IdsOfReplaced(tag: string, id: string)
    requires ValidIds(tag, true) && ValidIdentifier(id, true)
    ensures var p := LastStart(tag);
      Ids(tag[..p] + id) == (if p == 0 then [] else Ids(tag[..p - 1])) + [id]
  {
    hide ValidIds, ValidIdentifier, LastStart, Ids;
    var p := LastStart(tag);
    LastOfIds(tag);
    NoDotInIdentifier(id, true);
    if p == 0 {
      assert tag[..p] + id == id;
      SingleIdentifier(id);
    } else {
      ValidIdsShape(tag[..p - 1], true);
      assert tag[..p] == tag[..p - 1] + ".";
      IdsOfAppend(tag[..p - 1], id);
    }
  }

  lemma NextTagCarriesOn(tag: string)
    requires ValidIds(tag, true)
    ensures CarriesOn(tag, NextTag(tag))
  {
    hide ValidIds, ValidIdentifier, LastStart, Ids, Print, Value;
    var p := LastStart(tag);
    var last := tag[p..];
    LastOfIds(tag);
    var init := if p == 0 then [] else Ids(tag[..p - 1]);
    assert Ids(tag)[..|Ids(tag)| - 1] == init;
    if IsNumeric(last) {
      var id := NextNumeric(last);
      NumericIsCanonical(last);
      PrintIsCanonical(Decimal, Value(Decimal, last) + 1);
      IdsOfReplaced(tag, id);
      assert CountsOne(last, id) && Ids(NextTag(tag)) == init + [id];
    }
  }

  lemma BaseIsNextCore(v: Version, change: Change, pre: string, lim: Limits)
    requires Fits(v, lim)
    ensures Incrementable(v, change, pre, lim) <==> CanIncrement(v, change, pre, lim)
    ensures Incrementable(v, change, pre, lim) ==> HasNextCore(v, change, Base(v, change, lim).value)
  {
    hide ValidIds;
  }

  lemma TagForIsNextTag(v: Version, change: Change, pre: string)
    requires Valid(v)
    ensures HasNextTag(v, change, pre, Tagged(v, TagFor(v, change, pre)))
  {
    hide ValidIds, CarriesOn, NextTag;
    if v.prerelease != "" {
      NextTagCarriesOn(v.prerelease);
    }
  }

  /** When an increment exists, and all five of its fields. */
  lemma IncrementFields(v: Version, change: Change, pre: string, lim: Limits)
    requires Representable(v, lim)
    ensures Incrementable(v, change, pre, lim) <==> CanIncrement(v, change, pre, lim)
    ensures Incrementable(v, change, pre, lim) ==>
      var w := Tagged(Base(v, change, lim).value, TagFor(v, change, pre));
      w.build == "" && HasNextCore(v, change, w) && HasNextTag(v, change, pre, w)
  {
    hide ValidIds, CarriesOn, NextTag;
    BaseIsNextCore(v, change, pre, lim);
    TagForIsNextTag(v, change, pre);
  }

  /** `next` is `head`, digits still to be incremented, and zeros that used to be nines. */
  ghost predicate Carried(next: string, head: string, digits: string, kept: string, zeros: string) {
    && next == head + kept + zeros
    && IsNumeral(Decimal, digits) && IsNumeral(Decimal, kept) && Succ(digits) == Succ(kept) + zeros
  }

  lemma NothingCarried(tag: string, p: nat)
    requires p <= |tag| && IsNumeral(Decimal, tag[p..])
    ensures Carried(tag, tag[..p], tag[p..], tag[p..], "")
  {
    hide Succ, IsNumeral;
  }

  lemma LastKept(next: string, head: string, digits: string, kept: string, zeros: string)
    requires Carried(next, head, digits, kept, zeros)
    ensures |head| + |kept| <= |next|
    ensures kept != "" ==> next[|head| + |kept| - 1] == kept[|kept| - 1] && IsDigit(Decimal, kept[|kept| - 1])
  {
    hide Succ;
  }

  /** A nine becomes a zero behind what is still to be incremented. */
  lemma CarryMovesOn(next: string, head: string, digits: string, kept: string, zeros: string)
    requires Carried(next, head, digits, kept, zeros)
    requires kept != "" && kept[|kept| - 1] == '9'
    ensures |head| + |kept| <= |next|
    ensures Carried(next[|head| + |kept| - 1 := '0'], head, digits, kept[..|kept| - 1], "0" + zeros)
  {
    hide Succ, IsNumeral;
    NumeralSplits(kept);
    LastOfKept(head, kept, zeros, '0');
    var front := Succ(kept[..|kept| - 1]);
    assert (front + "0") + zeros == front + ("0" + zeros);
  }

  /** Where the carry stops: at a digit that grows, or in front of all digits. */
  lemma CarryEnds(next: string, head: string, digits: string, kept: string, zeros: string)
    requires Carried(next, head, digits, kept, zeros)
    requires kept != "" ==> kept[|kept| - 1] != '9'
    ensures |head| + |kept| <= |next|
    ensures kept == "" ==> next[..|head|] + "1" + next[|head|..] == head + Succ(digits)
    ensures kept != "" ==>
      && IsDigit(Decimal, kept[|kept| - 1])
      && next[|head| + |kept| - 1 := (kept[|kept| - 1] as int + 1) as char] == head + Succ(digits)
  {
    LastKept(next, head, digits, kept, zeros);
    hide Succ, IsNumeral;
    if kept == "" {
      SuccIsPlusOne(kept);
      assert next[..|head|] == head && next[|head|..] == zeros;
      assert head + ("1" + zeros) == head + "1" + zeros;
    } else {
      NumeralSplits(kept);
      var front, c := kept[..|kept| - 1], (kept[|kept| - 1] as int + 1) as char;
      LastOfKept(head, kept, zeros, c);
      assert head + ((front + [c]) + zeros) == head + front + ([c] + zeros);
    }
  }

  /** Overwriting the last kept digit. */
  lemma LastOfKept(head: string, kept: string, zeros: string, c: char)
    requires kept != ""
    ensures var s, p := head + kept + zeros, |head| + |kept| - 1;
      && s[p] == kept[|kept| - 1]
      && s[p := c] == head + kept[..|kept| - 1] + ([c] + zeros)
  {
  }

  /** The trailing-nines loop over the last identifier, in place. */
  method CarryLoop(tag: string, lastStart: nat) returns (next: string)
    requires lastStart < |tag| && IsNumeral(Decimal, tag[lastStart..])
    ensures next == tag[..lastStart] + Succ(tag[lastStart..])
  {
    hide IsNumeral, Succ, Carried;
    next := tag;
    ghost var head, digits := tag[..lastStart], tag[lastStart..];
    ghost var kept, zeros := digits, "";
    NothingCarried(tag, lastStart);
    var pos := |tag|;
    LastKept(next, head, digits, kept, zeros);
    while pos > lastStart && next[pos - 1] == '9'
      invariant pos == lastStart + |kept| <= |next| && lastStart == |head|
      invariant kept != "" ==> next[pos - 1] == kept[|kept| - 1]
      invariant Carried(next, head, digits, kept, zeros)
    {
      CarryMovesOn(next, head, digits, kept, zeros);
      next := next[pos - 1 := '0'];
      pos := pos - 1;
      kept := kept[..|kept| - 1];
      zeros := "0" + zeros;
      LastKept(next, head, digits, kept, zeros);
    }
    CarryEnds(next, head, digits, kept, zeros);
    if pos == lastStart {
      next := next[..lastStart] + "1" + next[lastStart..];
    } else {
      next := next[pos - 1 := (next[pos - 1] as int + 1) as char];
    }
  }

  /** Carries a tag on, in place of its last identifier. */
  method CarryTag(tag: string) returns (next: string)
    requires ValidIds(tag, true)
    ensures next == NextTag(tag)
  {
    hide ValidIds, LastStart, Value, Print, Succ, ValidIdentifier;
    var lastStart := LastStart(tag);
    SplitAtLast(tag, true);
    if IsNumeric(tag[lastStart..]) {
      NumericIsCanonical(tag[lastStart..]);
      CarryIsIncrement(tag[lastStart..]);
      next := CarryLoop(tag, lastStart);
    } else {
      next := tag + ".0";
    }
  }

  /** A result exactly for the incrementable inputs, and then the bumped release under its new tag. */
  method Inc(v: Version, change: Change, pre: string, lim: Limits) returns (r: Option<Version>)
    requires Representable(v, lim)
    ensures r.Some? <==> CanIncrement(v, change, pre, lim)
    ensures r.Some? ==> r.value.build == "" && HasNextCore(v, change, r.value) && HasNextTag(v, change, pre, r.value)
    ensures r.Some? <==> Incrementable(v, change, pre, lim)
    ensures r.Some? ==> r.value == Tagged(Base(v, change, lim).value, TagFor(v, change, pre))
  {
    IncrementFields(v, change, pre, lim);
    hide HasNextCore, HasNextTag, CanIncrement, ValidIds, NextTag, Representable;
    if pre != "" && IsPlain(change) {
      return None;
    }
    var base: Version;
    match change {
      case Major | PreMajor =>
        if v.major == lim.major { return None; }
        base := BumpMajor(v);
        if change == Major { return Some(base); }
      case Minor | PreMinor =>
        if v.minor == lim.minor { return None; }
        base := BumpMinor(v);
        if change == Minor { return Some(base); }
      case Patch | PrePatch =>
        if v.patch == lim.patch { return None; }
        base := BumpPatch(v);
        if change == Patch { return Some(base); }
      case PreRelease =>
        if v.prerelease == "" {
          if v.patch == lim.patch { return None; }
          base := BumpPatch(v);
        } else {
          base := Version(v.major, v.minor, v.patch, "", "");
        }
      case Nothing =>
        return None;
    }
    if pre != "" {
      var valid := ValidateIdentifiers(pre, true);
      if !valid {
        return None;
      }
      return Some(Tagged(base, pre));
    }
    if change != PreRelease || v.prerelease == "" {
      return Some(Tagged(base, "0"));
    }
    var tag := CarryTag(v.prerelease);
    return Some(Tagged(base, tag));
  }

  /**
   * An increment gives a representable version. It is strictly above its input, except that an
   * explicit tag on a prerelease increment of a prerelease must itself be above the old tag.
   */
  lemma IncIsAbove(v: Version, change: Change, pre: string, lim: Limits)
    requires Representable(v, lim) && Incrementable(v, change, pre, lim)
    ensures var w := Tagged(Base(v, change, lim).value, TagFor(v, change, pre));
      && Representable(w, lim)
      && (Compare(v, w) < 0 <==>
          (change == PreRelease && IsPrerelease(v) && pre != "" ==> CompareTags(v.prerelease, pre) < 0))
  {
    hide ValidIds, CompareTags, NextTag;
    ZeroTag();
    if change == PreRelease && IsPrerelease(v) {
      NextTagIsAbove(v.prerelease);
      var w := Tagged(Release(v), TagFor(v, change, pre));
      assert w.prerelease != "" by {
        if pre == "" { ValidIdsShape(w.prerelease, true); }
      }
    }
  }

  /** `diff` names the change that `inc` made; a prerelease increment of a release is a prepatch. */
  lemma DiffNamesInc(v: Version, change: Change, pre: string, lim: Limits)
    requires Representable(v, lim) && Incrementable(v, change, pre, lim)
    ensures var w := Tagged(Base(v, change, lim).value, TagFor(v, change, pre));
      Diff(v, w) ==
        if change != PreRelease then change
        else if !IsPrerelease(v) then PrePatch
        else if pre == v.prerelease then Nothing
        else PreRelease
  {
    hide ValidIds, CompareTags, NextTag;
    ZeroTag();
    if change == PreRelease && IsPrerelease(v) {
      var w := Tagged(Release(v), TagFor(v, change, pre));
      NextTagIsAbove(v.prerelease);
      if pre == "" { ValidIdsShape(w.prerelease, true); }
      TagsZeroIffEqual(v.prerelease, w.prerelease);
      TagsAntisymmetric(v.prerelease, w.prerelease);
    }
  }

  /** For any two versions: the first component that differs, and whether the newer one is a prerelease. */
  lemma DiffNamesFirstDifference(v: Version, w: Version)
    requires Valid(v) && Valid(w)
    ensures var newer := if Precedes(v, w) then w else v;
      Diff(v, w) ==
        if v.(build := "") == w.(build := "") then Nothing
        else if v.major != w.major then (if newer.prerelease != "" then PreMajor else Major)
        else if v.minor != w.minor then (if newer.prerelease != "" then PreMinor else Minor)
        else if v.patch != w.patch then (if newer.prerelease != "" then PrePatch else Patch)
        else PreRelease
  {
    hide Compare, Precedes;
    CompareMeansPrecedence(v, w);
    CompareIsTotal(v, w);
  }

  /** Swapping the operands keeps the difference. */
  lemma DiffIsSymmetric(v: Version, w: Version)
    ensures Diff(v, w) == Diff(w, v)
  {
    CompareIsTotal(v, w);
  }
}
