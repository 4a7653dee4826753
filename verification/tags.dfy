/** Dot-separated prerelease and build tags: their syntax and the prerelease precedence. */
module Tags {
  import opened Orders
  import opened Numerals

  predicate IsDecimalDigit(c: char) {
    '0' <= c <= '9'
  }

  predicate IsLetter(c: char) {
    'A' <= c <= 'Z' || 'a' <= c <= 'z'
  }

  predicate IsIdentifierChar(c: char) {
    IsDecimalDigit(c) || IsLetter(c) || c == '-'
  }

  /** The alphabet of section 9 of SemVer 2.0.0 by ASCII code: digits, letters of both cases, the hyphen. */
  lemma IdentifierAlphabet(c: char)
    ensures IsIdentifierChar(c) <==>
      var n := c as int;
      n == 45 || 48 <= n <= 57 || 65 <= n <= 90 || 97 <= n <= 122
    ensures IsDecimalDigit(c) <==> 48 <= c as int <= 57
  {
  }

  predicate IsTagChar(c: char) {
    IsIdentifierChar(c) || c == '.'
  }

  predicate IsNumeric(id: string) {
    id != "" && forall i :: 0 <= i < |id| ==> IsDecimalDigit(id[i])
  }

  predicate ValidIdentifier(id: string, rejectLeadingZero: bool) {
    && id != ""
    && (forall i :: 0 <= i < |id| ==> IsIdentifierChar(id[i]))
    && (!rejectLeadingZero || |id| == 1 || id[0] != '0' || !IsNumeric(id))
  }

  /** Position of the first dot, or the length when there is none. */
  function FirstDot(s: string): (d: nat)
    ensures d <= |s|
    ensures d < |s| ==> s[d] == '.'
    ensures forall i :: 0 <= i < d ==> s[i] != '.'
  {
    if s == "" || s[0] == '.' then 0 else 1 + FirstDot(s[1..])
  }

  function AfterDot(s: string, d: nat): (rest: string)
    requires d <= |s|
    ensures s != "" ==> |rest| < |s|
  {
    if d == |s| then "" else s[d + 1..]
  }

  /** The identifiers of a tag, from left to right. */
  function Ids(tag: string): seq<string>
    decreases |tag|
  {
    if tag == "" then []
    else [tag[..FirstDot(tag)]] + Ids(AfterDot(tag, FirstDot(tag)))
  }

  /** One or more valid identifiers, separated by single dots. */
  predicate ValidIds(tag: string, rejectLeadingZero: bool)
    decreases |tag|
  {
    var d := FirstDot(tag);
    && ValidIdentifier(tag[..d], rejectLeadingZero)
    && (d == |tag| || ValidIds(tag[d + 1..], rejectLeadingZero))
  }

  /** An absent tag is empty. */
  predicate ValidPrerelease(tag: string) {
    tag == "" || ValidIds(tag, true)
  }

  predicate ValidBuild(tag: string) {
    tag == "" || ValidIds(tag, false)
  }

  predicate Closed(tag: string) {
    tag == "" || tag[|tag| - 1] != '.'
  }

  lemma FirstDotOf(s: string, d: nat)
    requires d <= |s| && (d < |s| ==> s[d] == '.') && forall i :: 0 <= i < d ==> s[i] != '.'
    ensures FirstDot(s) == d
  {
  }

  /** What the first identifier and the rest decide. */
  lemma FirstIdentifier(tag: string, rejectLeadingZero: bool)
    ensures var d := FirstDot(tag);
      && (ValidIds(tag, rejectLeadingZero) <==>
        && ValidIdentifier(tag[..d], rejectLeadingZero)
        && (d == |tag| || ValidIds(tag[d + 1..], rejectLeadingZero)))
      && (d == 0 ==> !ValidIds(tag, rejectLeadingZero))
  {
  }

  lemma {:induction false} ValidIdsShape(tag: string, rejectLeadingZero: bool)
    requires ValidIds(tag, rejectLeadingZero)
    ensures tag != "" && Closed(tag)
    ensures forall i :: 0 <= i < |tag| ==> IsTagChar(tag[i])
    decreases |tag|
  {
    hide FirstDot;
    var d := FirstDot(tag);
    var id := tag[..d];
    forall i | 0 <= i < d ensures IsTagChar(tag[i]) {
      assert IsIdentifierChar(id[i]);
    }
    if d < |tag| {
      var rest := tag[d + 1..];
      ValidIdsShape(rest, rejectLeadingZero);
      forall i | d < i < |tag| ensures IsTagChar(tag[i]) {
        assert IsTagChar(rest[i - d - 1]);
      }
      assert rest[|rest| - 1] == tag[|tag| - 1];
    } else {
      assert IsIdentifierChar(id[d - 1]);
    }
  }

  lemma {:induction false} ValidIdsAreValid(tag: string, rejectLeadingZero: bool)
    requires ValidIds(tag, rejectLeadingZero)
    ensures Ids(tag) != []
    ensures forall i :: 0 <= i < |Ids(tag)| ==> ValidIdentifier(Ids(tag)[i], rejectLeadingZero)
    decreases |tag|
  {
    hide FirstDot, ValidIdentifier;
    ValidIdsShape(tag, rejectLeadingZero);
    var d := FirstDot(tag);
    if d < |tag| {
      ValidIdsAreValid(tag[d + 1..], rejectLeadingZero);
    } else {
      assert Ids(AfterDot(tag, d)) == [];
    }
  }

  lemma SplitFirst(tag: string)
    requires tag != "" && Closed(tag)
    ensures Closed(AfterDot(tag, FirstDot(tag)))
    ensures tag == Rejoin(tag[..FirstDot(tag)], AfterDot(tag, FirstDot(tag)))
  {
    var d := FirstDot(tag);
    var rest := AfterDot(tag, d);
    if d < |tag| {
      assert rest[|rest| - 1] == tag[|tag| - 1];
      assert tag == tag[..d] + "." + rest;
    }
  }

  ghost function Rejoin(first: string, rest: string): string {
    if rest == "" then first else first + "." + rest
  }

  /** A tag without a trailing dot is determined by its identifiers. */
  lemma {:induction false} IdsInjective(a: string, b: string)
    requires Closed(a) && Closed(b) && Ids(a) == Ids(b)
    ensures a == b
    decreases |a|
  {
    if a != "" && b != "" {
      var d, e := FirstDot(a), FirstDot(b);
      SplitFirst(a);
      SplitFirst(b);
      assert a[..d] == ([a[..d]] + Ids(AfterDot(a, d)))[0] == b[..e];
      assert Ids(AfterDot(a, d)) == ([a[..d]] + Ids(AfterDot(a, d)))[1..] == Ids(AfterDot(b, e));
      IdsInjective(AfterDot(a, d), AfterDot(b, e));
    }
  }

  lemma SingleIdentifier(id: string)
    requires id != "" && forall i :: 0 <= i < |id| ==> id[i] != '.'
    ensures FirstDot(id) == |id| && Ids(id) == [id]
  {
    FirstDotOf(id, |id|);
    assert id[..|id|] == id;
    assert Ids(AfterDot(id, |id|)) == [];
  }

  lemma IdsUnfold(tag: string)
    requires tag != ""
    ensures Ids(tag) == [tag[..FirstDot(tag)]] + Ids(AfterDot(tag, FirstDot(tag)))
  {
  }

  lemma FirstDotOfAppend(tag: string, id: string)
    ensures FirstDot(tag + "." + id) == FirstDot(tag)
  {
    FirstDotOf(tag + "." + id, FirstDot(tag));
  }

  lemma PartsOfAppend(tag: string, id: string, d: nat)
    requires d <= |tag|
    ensures (tag + "." + id)[..d] == tag[..d]
    ensures d == |tag| ==> AfterDot(tag + "." + id, d) == id
    ensures d < |tag| ==> AfterDot(tag + "." + id, d) == AfterDot(tag, d) + "." + id
  {
  }

  /** Appending an identifier to a tag appends it to the identifiers. */
  lemma {:induction false} IdsOfAppend(tag: string, id: string)
    requires tag != "" && Closed(tag)
    requires id != "" && forall i :: 0 <= i < |id| ==> id[i] != '.'
    ensures Ids(tag + "." + id) == Ids(tag) + [id]
    decreases |tag|
  {
    hide Ids, FirstDot;
    var d := FirstDot(tag);
    var first, rest := tag[..d], AfterDot(tag, d);
    IdsUnfold(tag);
    IdsUnfold(tag + "." + id);
    FirstDotOfAppend(tag, id);
    PartsOfAppend(tag, id, d);
    SplitFirst(tag);
    SingleIdentifier(id);
    if d < |tag| {
      IdsOfAppend(rest, id);
      assert [first] + (Ids(rest) + [id]) == ([first] + Ids(rest)) + [id];
    } else {
      NoIds();
      assert [first] + [] == [first];
    }
  }

  lemma NoIds()
    ensures Ids("") == []
  {
  }

  lemma {:induction false} ValidIdsOfAppend(tag: string, id: string, rejectLeadingZero: bool)
    requires ValidIds(tag, rejectLeadingZero) && ValidIdentifier(id, rejectLeadingZero)
    ensures ValidIds(tag + "." + id, rejectLeadingZero)
    decreases |tag|
  {
    var t, d := tag + "." + id, FirstDot(tag);
    FirstDotOf(t, d);
    assert t[..d] == tag[..d];
    if d == |tag| {
      assert t[d + 1..] == id;
      FirstDotOf(id, |id|);
      assert id[..|id|] == id;
    } else {
      assert t[d + 1..] == tag[d + 1..] + "." + id;
      ValidIdsOfAppend(tag[d + 1..], id, rejectLeadingZero);
    }
  }

  lemma JoinedIdsAreValid(id: string, rest: string, rejectLeadingZero: bool)
    requires ValidIdentifier(id, rejectLeadingZero) && ValidIds(rest, rejectLeadingZero)
    ensures ValidIds(id + "." + rest, rejectLeadingZero)
  {
    var t := id + "." + rest;
    FirstDotOf(t, |id|);
    assert t[..|id|] == id && t[|id| + 1..] == rest;
  }

  lemma SingleIdIsValid(id: string, rejectLeadingZero: bool)
    requires ValidIdentifier(id, rejectLeadingZero)
    ensures ValidIds(id, rejectLeadingZero)
  {
    SingleIdentifier(id);
    assert id[..|id|] == id;
  }

  // ---------- What the syntax of tags means ----------

  /** Allowed characters only; and a numeric identifier that may not have leading zeros is printed as its value is. */
  lemma IdentifierGrammar(id: string)
    ensures ValidIdentifier(id, false) <==> id != "" && forall i :: 0 <= i < |id| ==> IsIdentifierChar(id[i])
    ensures ValidIdentifier(id, true) <==>
      ValidIdentifier(id, false) && (IsNumeric(id) ==> IsNumeral(Decimal, id) && Print(Decimal, Value(Decimal, id)) == id)
  {
    if IsNumeric(id) {
      NumericIsCanonical(id);
      if ValidIdentifier(id, true) {
        PrintOfValue(Decimal, id);
      } else if ValidIdentifier(id, false) {
        PrintIsCanonical(Decimal, Value(Decimal, id));
      }
    }
  }

  /** Identifiers with single dots between them. */
  function Joined(ids: seq<string>): string {
    if ids == [] then "" else if |ids| == 1 then ids[0] else ids[0] + "." + Joined(ids[1..])
  }

  ghost predicate AllValid(ids: seq<string>, rejectLeadingZero: bool) {
    forall i :: 0 <= i < |ids| ==> ValidIdentifier(ids[i], rejectLeadingZero)
  }

  lemma {:induction false} JoinedOfIds(tag: string, rejectLeadingZero: bool)
    requires ValidIds(tag, rejectLeadingZero)
    ensures Joined(Ids(tag)) == tag && Ids(tag) != []
    decreases |tag|
  {
    hide FirstDot, ValidIdentifier, Ids;
    ValidIdsShape(tag, rejectLeadingZero);
    FirstIdentifier(tag, rejectLeadingZero);
    IdsUnfold(tag);
    SplitFirst(tag);
    var d := FirstDot(tag);
    var rest := AfterDot(tag, d);
    assert Ids(tag)[1..] == Ids(rest);
    if d == |tag| {
      NoIds();
      assert tag[..d] == tag;
    } else {
      JoinedOfIds(rest, rejectLeadingZero);
      assert tag == tag[..d] + "." + rest;
    }
  }

  lemma {:induction false} JoinedIsValid(ids: seq<string>, rejectLeadingZero: bool)
    requires ids != [] && AllValid(ids, rejectLeadingZero)
    ensures ValidIds(Joined(ids), rejectLeadingZero) && Ids(Joined(ids)) == ids
    decreases |ids|
  {
    hide ValidIdentifier, ValidIds, Ids, FirstDot;
    var id, rest := ids[0], ids[1..];
    assert ValidIdentifier(id, rejectLeadingZero);
    NoDotInIdentifier(id, rejectLeadingZero);
    if |ids| == 1 {
      SingleIdIsValid(id, rejectLeadingZero);
      SingleIdentifier(id);
    } else {
      JoinedIsValid(rest, rejectLeadingZero);
      JoinedIdsAreValid(id, Joined(rest), rejectLeadingZero);
      IdsOfJoin(id, Joined(rest));
      assert ids == [id] + rest;
    }
  }

  lemma NoDotInIdentifier(id: string, rejectLeadingZero: bool)
    requires ValidIdentifier(id, rejectLeadingZero)
    ensures id != "" && forall i :: 0 <= i < |id| ==> id[i] != '.'
  {
    assert forall i :: 0 <= i < |id| ==> IsIdentifierChar(id[i]);
  }

  lemma IdsOfJoin(id: string, rest: string)
    requires forall i :: 0 <= i < |id| ==> id[i] != '.'
    ensures Ids(id + "." + rest) == [id] + Ids(rest)
  {
    hide FirstDot, Ids;
    var t := id + "." + rest;
    FirstDotOf(t, |id|);
    IdsUnfold(t);
    assert t[..|id|] == id && t[|id| + 1..] == rest;
  }

  /** A tag is one or more valid identifiers with single dots between them, and they are its identifiers. */
  lemma TagGrammar(tag: string, rejectLeadingZero: bool)
    ensures ValidIds(tag, rejectLeadingZero) <==>
      exists ids :: ids != [] && AllValid(ids, rejectLeadingZero) && Joined(ids) == tag
    ensures forall ids :: ids != [] && AllValid(ids, rejectLeadingZero) && Joined(ids) == tag ==> Ids(tag) == ids
  {
    if ValidIds(tag, rejectLeadingZero) {
      JoinedOfIds(tag, rejectLeadingZero);
      ValidIdsAreValid(tag, rejectLeadingZero);
      assert AllValid(Ids(tag), rejectLeadingZero);
    }
    forall ids | ids != [] && AllValid(ids, rejectLeadingZero) && Joined(ids) == tag
      ensures ValidIds(tag, rejectLeadingZero) && Ids(tag) == ids
    {
      JoinedIsValid(ids, rejectLeadingZero);
    }
  }

  // ---------- Precedence ----------

  function CompareLexicographically(a: string, b: string): int {
    LexBy(CompareChars, a, b)
  }

  function CompareNumerically(a: string, b: string): int {
    if |a| != |b| then (if |a| < |b| then -1 else 1)
    else CompareLexicographically(a, b)
  }

  function CompareIdentifiers(a: string, b: string): int {
    if IsNumeric(a) && IsNumeric(b) then CompareNumerically(a, b)
    else if !IsNumeric(a) && !IsNumeric(b) then CompareLexicographically(a, b)
    else if IsNumeric(a) then -1
    else 1
  }

  function CompareTags(a: string, b: string): int {
    LexBy(CompareIdentifiers, Ids(a), Ids(b))
  }

  lemma CharsAreTotallyOrdered()
    ensures IsTotalOrder(CompareChars)
  {
  }

  lemma TextIsTotallyOrdered()
    ensures IsTotalOrder(CompareLexicographically)
  {
    CharsAreTotallyOrdered();
    LexIsTotalOrder(CompareChars);
    var lex := (a: string, b: string) => LexBy(CompareChars, a, b);
    assert forall a: string, b: string :: CompareLexicographically(a, b) == lex(a, b);
  }

  /** Section 11.4 of SemVer 2.0.0: identifiers of both kinds form one total order. */
  lemma IdentifiersAreTotallyOrdered()
    ensures IsTotalOrder(CompareIdentifiers)
  {
    TextIsTotallyOrdered();
    assert forall a: string, b: string :: -1 <= CompareLexicographically(a, b) <= 1;
    forall a: string, b: string, c: string | CompareIdentifiers(a, b) <= 0 && CompareIdentifiers(b, c) <= 0
      ensures CompareIdentifiers(a, c) <= 0
    {
      assert CompareLexicographically(a, b) <= 0 && CompareLexicographically(b, c) <= 0
        ==> CompareLexicographically(a, c) <= 0;
    }
  }

  /** Comparing by length and then by text is integer comparison, whatever the length. */
  lemma NumericIdentifiersCompareAsIntegers(a: string, b: string)
    requires IsNumeric(a) && IsNumeric(b) && ValidIdentifier(a, true) && ValidIdentifier(b, true)
    ensures IsCanonical(Decimal, a) && IsCanonical(Decimal, b)
    ensures CompareIdentifiers(a, b) == CompareInts(Value(Decimal, a), Value(Decimal, b))
  {
    NumericIsCanonical(a);
    NumericIsCanonical(b);
    if |a| < |b| {
      ShorterIsSmaller(Decimal, a, b);
    } else if |b| < |a| {
      ShorterIsSmaller(Decimal, b, a);
    } else {
      SameLengthLexIsNumeric(Decimal, a, b);
    }
  }

  lemma NumericIsCanonical(id: string)
    requires IsNumeric(id)
    ensures IsNumeral(Decimal, id)
    ensures ValidIdentifier(id, true) ==> IsCanonical(Decimal, id)
  {
    assert forall i :: 0 <= i < |id| ==> IsDecimalDigit(id[i]) && IsDigit(Decimal, id[i]);
  }

  /** A proper prefix, or the smaller character code at the first difference. */
  ghost predicate TextBelow(a: string, b: string) {
    || (|a| < |b| && a == b[..|a|])
    || exists k :: 0 <= k < |a| && k < |b| && a[..k] == b[..k] && a[k] as int < b[k] as int
  }

  lemma TextOrder(a: string, b: string)
    ensures CompareLexicographically(a, b) < 0 <==> TextBelow(a, b)
  {
    CharsAreTotallyOrdered();
    LexIsFirstDifference(CompareChars, a, b);
    assert forall x: char, y: char :: CompareChars(x, y) < 0 <==> x as int < y as int;
    if k :| 0 <= k < |a| && k < |b| && a[..k] == b[..k] && a[k] as int < b[k] as int {
      assert CompareChars(a[k], b[k]) < 0;
    }
  }

  /**
   * Section 11.4 of SemVer 2.0.0 on two identifiers: numbers by value, numbers below the rest, and
   * the rest by character code at the first difference.
   */
  ghost predicate IdentifierBelow(a: string, b: string)
    requires ValidIdentifier(a, true) && ValidIdentifier(b, true)
  {
    if IsNumeric(a) && IsNumeric(b) then
      NumericIsCanonical(a);
      NumericIsCanonical(b);
      Value(Decimal, a) < Value(Decimal, b)
    else if IsNumeric(a) || IsNumeric(b) then IsNumeric(a)
    else TextBelow(a, b)
  }

  lemma IdentifierOrder(a: string, b: string)
    requires ValidIdentifier(a, true) && ValidIdentifier(b, true)
    ensures CompareIdentifiers(a, b) < 0 <==> IdentifierBelow(a, b)
  {
    TextOrder(a, b);
    if IsNumeric(a) && IsNumeric(b) {
      NumericIdentifiersCompareAsIntegers(a, b);
    }
  }

  /** Every prefix of identifiers counts, and the first in which two tags differ decides. */
  ghost predicate TagBelow(a: string, b: string)
    requires ValidIds(a, true) && ValidIds(b, true)
  {
    || (|Ids(a)| < |Ids(b)| && Ids(a) == Ids(b)[..|Ids(a)|])
    || exists i :: 0 <= i < |Ids(a)| && i < |Ids(b)| && Ids(a)[..i] == Ids(b)[..i] && IdentifierAtBelow(a, b, i)
  }

  ghost predicate IdentifierAtBelow(a: string, b: string, i: nat)
    requires ValidIds(a, true) && ValidIds(b, true) && i < |Ids(a)| && i < |Ids(b)|
  {
    ValidIdsAreValid(a, true);
    ValidIdsAreValid(b, true);
    IdentifierBelow(Ids(a)[i], Ids(b)[i])
  }

  lemma TagOrder(a: string, b: string)
    requires ValidIds(a, true) && ValidIds(b, true)
    ensures CompareTags(a, b) < 0 <==> TagBelow(a, b)
  {
    hide Ids, CompareIdentifiers, IdentifierBelow;
    IdentifiersAreTotallyOrdered();
    ValidIdsAreValid(a, true);
    ValidIdsAreValid(b, true);
    LexIsFirstDifference(CompareIdentifiers, Ids(a), Ids(b));
    forall i | 0 <= i < |Ids(a)| && i < |Ids(b)|
      ensures CompareIdentifiers(Ids(a)[i], Ids(b)[i]) < 0 <==> IdentifierAtBelow(a, b, i)
    {
      IdentifierOrder(Ids(a)[i], Ids(b)[i]);
    }
  }

  lemma ZeroIsLeastIdentifier(id: string)
    requires ValidIdentifier(id, true)
    ensures CompareIdentifiers("0", id) <= 0
  {
    assert IsNumeric("0");
    if IsNumeric(id) && |id| == 1 {
      assert IsDecimalDigit(id[0]);
      assert "0"[1..] == id[1..] == "";
      assert CompareLexicographically("0", id) == LexBy(CompareChars, "0", id);
    }
  }

  lemma ZeroTag()
    ensures ValidIds("0", true) && Ids("0") == ["0"]
  {
    FirstDotOf("0", 1);
    assert "0"[..1] == "0";
    assert Ids(AfterDot("0", 1)) == [];
  }

  lemma TagsTransitive(a: string, b: string, c: string)
    requires CompareTags(a, b) <= 0 && CompareTags(b, c) <= 0
    ensures CompareTags(a, c) <= 0
  {
    IdentifiersAreTotallyOrdered();
    LexTransitive(CompareIdentifiers, Ids(a), Ids(b), Ids(c));
  }

  lemma TagsAntisymmetric(a: string, b: string)
    ensures CompareTags(a, b) == -CompareTags(b, a)
    ensures -1 <= CompareTags(a, b) <= 1
  {
    IdentifiersAreTotallyOrdered();
    LexAntisymmetric(CompareIdentifiers, Ids(a), Ids(b));
  }

  lemma TagsZeroIffEqual(a: string, b: string)
    requires ValidPrerelease(a) && ValidPrerelease(b)
    ensures CompareTags(a, b) == 0 <==> a == b
  {
    IdentifiersAreTotallyOrdered();
    LexZeroIffEqual(CompareIdentifiers, Ids(a), Ids(b));
    if Ids(a) == Ids(b) {
      if a != "" { ValidIdsShape(a, true); }
      if b != "" { ValidIdsShape(b, true); }
      IdsInjective(a, b);
    }
  }

  /** The tag "0" is at or below every prerelease tag. */
  lemma ZeroIsLeastTag(tag: string)
    requires ValidIds(tag, true)
    ensures CompareTags("0", tag) <= 0
  {
    ZeroTag();
    ValidIdsAreValid(tag, true);
    ZeroIsLeastIdentifier(Ids(tag)[0]);
    assert ["0"][1..] == [];
    assert LexBy(CompareIdentifiers, ["0"], Ids(tag)) <= 0;
  }

  /** `tag` followed by ".0" is the immediate successor of `tag` among prerelease tags. */
  lemma DotZeroIsSuccessor(tag: string, other: string)
    requires ValidIds(tag, true) && ValidIds(other, true)
    ensures ValidIds(tag + ".0", true)
    ensures CompareTags(tag, tag + ".0") < 0
    ensures CompareTags(tag, other) < 0 <==> CompareTags(tag + ".0", other) <= 0
  {
    ValidIdsShape(tag, true);
    ValidIdsAreValid(other, true);
    IdentifiersAreTotallyOrdered();
    forall i | 0 <= i < |Ids(other)| ensures CompareIdentifiers("0", Ids(other)[i]) <= 0 {
      ZeroIsLeastIdentifier(Ids(other)[i]);
    }
    assert tag + ".0" == tag + "." + "0";
    IdsOfAppend(tag, "0");
    ValidIdsOfAppend(tag, "0", true);
    LexSuccessor(CompareIdentifiers, Ids(tag), Ids(other), "0");
    if CompareTags(tag + ".0", other) <= 0 {
      TagsTransitive(tag, tag + ".0", other);
      if CompareTags(tag, other) == 0 {
        TagsZeroIffEqual(tag, other);
        TagsAntisymmetric(tag, tag + ".0");
      }
    }
  }

  // ---------- The loops over a tag ----------

  /** Splits the first identifier off a tag; a dot is dropped exactly when one follows it. */
  method NextIdentifier(tag: string) returns (id: string, rest: string)
    ensures forall i :: 0 <= i < |id| ==> id[i] != '.'
    ensures (id == tag && rest == "") || tag == id + "." + rest
    ensures tag != "" ==> Ids(tag) == [id] + Ids(rest) && |rest| < |tag|
  {
    var dot := FirstDot(tag);
    id := tag[..dot];
    rest := AfterDot(tag, dot);
  }

  method ComparePrereleaseTags(lhs: string, rhs: string) returns (c: int)
    ensures c == CompareTags(lhs, rhs)
  {
    var left, right := lhs, rhs;
    while left != "" && right != ""
      invariant CompareTags(lhs, rhs) == CompareTags(left, right)
      decreases |left|
    {
      var leftId, leftRest := NextIdentifier(left);
      var rightId, rightRest := NextIdentifier(right);
      assert Ids(left)[1..] == Ids(leftRest) && Ids(right)[1..] == Ids(rightRest);
      var leftNumeric, rightNumeric := IsNumeric(leftId), IsNumeric(rightId);
      c := 0;
      if leftNumeric && rightNumeric {
        c := CompareNumerically(leftId, rightId);
      } else if !leftNumeric && !rightNumeric {
        c := CompareLexicographically(leftId, rightId);
      } else {
        return if leftNumeric then -1 else 1;
      }
      if c != 0 {
        return;
      }
      left, right := leftRest, rightRest;
    }
    if left == "" && right == "" {
      return 0;
    }
    return if left == "" then -1 else 1;
  }

  /** The first dot from `start` on, or the end. */
  function DotFrom(tag: string, start: nat): (d: nat)
    requires start <= |tag|
    ensures start <= d <= |tag|
  {
    start + FirstDot(tag[start..])
  }

  ghost predicate ValidFrom(tag: string, start: nat, rejectLeadingZero: bool)
    requires start <= |tag|
  {
    ValidIds(tag[start..], rejectLeadingZero)
  }

  /** What the identifier at `start` and what follows it decide. */
  lemma IdentifierAt(tag: string, start: nat, rejectLeadingZero: bool)
    requires start <= |tag|
    ensures var d := DotFrom(tag, start);
      ValidFrom(tag, start, rejectLeadingZero) <==>
        && start < d && ValidIdentifier(tag[start..d], rejectLeadingZero)
        && (d == |tag| || ValidFrom(tag, d + 1, rejectLeadingZero))
  {
    hide ValidIds, ValidIdentifier, FirstDot;
    var here, len := tag[start..], FirstDot(tag[start..]);
    FirstIdentifier(here, rejectLeadingZero);
    assert here[..len] == tag[start..start + len];
    if start + len < |tag| {
      assert here[len + 1..] == tag[start + len + 1..];
    }
  }

  /** The scan used by the version constructor, by coercion and by the syntax check. */
  method ValidateIdentifiers(tag: string, rejectLeadingZero: bool) returns (ok: bool)
    ensures ok <==> tag == "" || ValidIds(tag, rejectLeadingZero)
  {
    if tag == "" {
      return true;
    }
    assert tag[0..] == tag;
    assert ValidFrom(tag, 0, rejectLeadingZero) == ValidIds(tag, rejectLeadingZero);
    hide ValidIds, ValidIdentifier, DotFrom, ValidFrom;
    var start := 0;
    while true
      invariant 0 <= start <= |tag|
      invariant ValidIds(tag, rejectLeadingZero) == ValidFrom(tag, start, rejectLeadingZero)
      decreases |tag| - start
    {
      var dot := DotFrom(tag, start);
      IdentifierAt(tag, start, rejectLeadingZero);
      if dot == start {
        return false;
      }
      if !ValidIdentifier(tag[start..dot], rejectLeadingZero) {
        return false;
      }
      if dot == |tag| {
        return true;
      }
      start := dot + 1;
    }
  }
}
