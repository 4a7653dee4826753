/** The cursor-driven parser, prefix parsing, the syntax scan and buffer output, against VersionGrammar. */
module VersionParsing {
  import opened Numerals
  import opened Tags
  import opened Texts
  import opened Versions
  import opened VersionGrammar
  import opened Desugaring
  import opened RangeGrammar
  import opened Wrappers

  class Cursor {
    const text: string
    var current: nat

    ghost predicate Valid()
      reads this
    {
      current <= |text|
    }

    constructor (text: string)
      ensures Valid() && this.text == text && current == 0
    {
      this.text := text;
      current := 0;
    }

    predicate AtEnd()
      reads this
    {
      current == |text|
    }

    predicate Has()
      reads this
    {
      current < |text|
    }

    function Peek(): char
      requires Has()
      reads this
    {
      text[current]
    }

    method Advance() returns (c: char)
      requires Has()
      modifies this
      ensures Valid() && current == old(current) + 1 && c == text[old(current)]
    {
      c := Peek();
      current := current + 1;
    }

    method Consume(c: char) returns (consumed: bool)
      requires Valid()
      modifies this
      ensures Valid()
      ensures consumed == HasAt(text, old(current), c)
      ensures current == if consumed then old(current) + 1 else old(current)
    {
      if !Has() || Peek() != c {
        return false;
      }
      current := current + 1;
      return true;
    }

    method ConsumeText(t: string) returns (consumed: bool)
      requires Valid()
      modifies this
      ensures Valid()
      ensures consumed == (t <= text[old(current)..])
      ensures current == if consumed then old(current) + |t| else old(current)
    {
      if |text| - current < |t| || text[current..current + |t|] != t {
        return false;
      }
      current := current + |t|;
      return true;
    }
  }

  /** The result of a parsing step: a success carries the position after it. */
  datatype Status = Success(next: nat) | Failure(at: nat, code: ErrorCode)

  ghost predicate Answers<T>(status: Status, value: T, outcome: Outcome<T>) {
    match outcome
    case Parsed(v, next) => status == Success(next) && value == v
    case Failed(at, code) => status == Failure(at, code)
  }

  class VersionParser {
    const stream: Cursor

    constructor (stream: Cursor)
      ensures this.stream == stream
    {
      this.stream := stream;
    }

    method ParseNumber(max: nat) returns (status: Status, out: nat)
      requires stream.Valid() && max <= U64_MAX
      modifies stream
      ensures stream.Valid()
      ensures Answers(status, out, NumberAt(stream.text, old(stream.current), max))
      ensures status.Success? ==> stream.current == status.next
    {
      hide DigitsRead, NumberAt, DigitsEnd;
      var s, i := stream.text, stream.current;
      out := 0;
      FirstDigit(s, i, max);
      if !stream.Has() || !IsDecimalDigit(stream.Peek()) {
        return Failure(stream.current, InvalidArgument), 0;
      }
      var lastDigit := stream.current;
      var c := stream.Advance();
      var first := DigitValue(c);
      if first == 0 {
        if stream.Has() && IsDecimalDigit(stream.Peek()) {
          return Failure(stream.current, InvalidArgument), 0;
        }
        return Success(stream.current), 0;
      }
      var result: nat := first;
      ghost var e := DigitsEnd(s, i);
      while stream.Has() && IsDecimalDigit(stream.Peek())
        invariant stream.Valid() && i < stream.current && lastDigit == stream.current - 1
        invariant DigitsRead(s, i, stream.current, e, result)
        decreases |s| - stream.current
      {
        lastDigit := stream.current;
        c := stream.Advance();
        var d := DigitValue(c);
        ReadDigit(s, i, lastDigit, e, result, max);
        if result > (U64_MAX - d) / 10 {
          return Failure(lastDigit, ResultOutOfRange), 0;
        }
        result := result * 10 + d;
      }
      AllDigitsRead(s, i, stream.current, e, result, max);
      if result <= max {
        return Success(stream.current), result;
      }
      return Failure(lastDigit, ResultOutOfRange), 0;
    }

    /** Appends one identifier to `out`; on failure `out` is unchanged. */
    method ParseIdentifier(prefix: string, rejectLeadingZero: bool) returns (status: Status, out: string)
      requires stream.Valid()
      modifies stream
      ensures stream.Valid() && old(stream.current) <= stream.current == IdentifierEnd(stream.text, old(stream.current))
      ensures var id := stream.text[old(stream.current)..stream.current];
        if ValidIdentifier(id, rejectLeadingZero)
        then status == Success(stream.current) && out == prefix + id
        else status == Failure(old(stream.current), InvalidArgument) && out == prefix
    {
      var first := stream.current;
      while stream.Has() && IsIdentifierChar(stream.Peek())
        invariant stream.Valid() && first <= stream.current
        invariant IdentifierEnd(stream.text, first) == IdentifierEnd(stream.text, stream.current)
        decreases |stream.text| - stream.current
      {
        var _ := stream.Advance();
      }
      var id := stream.text[first..stream.current];
      if !ValidIdentifier(id, rejectLeadingZero) {
        return Failure(first, InvalidArgument), prefix;
      }
      return Success(stream.current), prefix + id;
    }

    method ParseTag(rejectLeadingZero: bool) returns (status: Status, out: string)
      requires stream.Valid()
      modifies stream
      ensures stream.Valid()
      ensures Answers(status, out, TagAt(stream.text, old(stream.current), rejectLeadingZero))
      ensures status.Success? ==> stream.current == status.next
    {
      var s, start := stream.text, stream.current;
      hide TagAt, TagReadTo, ValidIdentifier;
      ghost var goal := TagAt(s, start, rejectLeadingZero);
      out := "";
      TagNotBegun(s, start, rejectLeadingZero);
      status := Success(start);
      var more := true;
      while more
        invariant stream.Valid() && start <= stream.current
        invariant more ==> TagReadTo(goal, s, start, stream.current, out, rejectLeadingZero)
        invariant !more ==> goal == Parsed(out, stream.current) && status == Success(stream.current)
        decreases |s| - stream.current, more
      {
        ghost var here, before := stream.current, out;
        ReadIdentifier(goal, s, start, here, before, rejectLeadingZero);
        if out != "" {
          out := out + ".";
        }
        var idStart := |out|;
        status, out := ParseIdentifier(out, rejectLeadingZero);
        if status.Failure? {
          if idStart > 0 {
            out := out[..idStart - 1];
          }
          return;
        }
        more := stream.Consume('.');
      }
    }

    method Parse(lim: Limits) returns (status: Status, out: Version)
      requires stream.Valid() && stream.current == 0
      modifies stream
      ensures stream.Valid()
      ensures Answers(status, out, VersionAt(stream.text, lim))
      ensures status.Success? ==> stream.current == status.next
    {
      hide NumberAt, TagAt, QualifiersAt;
      out := Version(0, 1, 0, "", "");
      var n: nat;
      var tag: string;
      var dot: bool;
      status, n := ParseNumber(lim.major);
      if status.Failure? { return; }
      out := out.(major := n);
      dot := stream.Consume('.');
      if !dot { return Failure(stream.current, InvalidArgument), out; }
      status, n := ParseNumber(lim.minor);
      if status.Failure? { return; }
      out := out.(minor := n);
      dot := stream.Consume('.');
      if !dot { return Failure(stream.current, InvalidArgument), out; }
      status, n := ParseNumber(lim.patch);
      if status.Failure? { return; }
      out := out.(patch := n);
      assert VersionAt(stream.text, lim) == QualifiersAt(stream.text, stream.current, out);
      status, out := ParseQualifiers(out);
    }

    method ParseQualifiers(core: Version) returns (status: Status, out: Version)
      requires stream.Valid()
      modifies stream
      ensures stream.Valid()
      ensures Answers(status, out, QualifiersAt(stream.text, old(stream.current), core))
      ensures status.Success? ==> stream.current == status.next
    {
      hide TagAt;
      var tag: string;
      out := core;
      status := Success(stream.current);
      var mark := stream.Consume('-');
      if mark {
        status, tag := ParseTag(true);
        if status.Failure? { return; }
        out := out.(prerelease := tag);
      }
      mark := stream.Consume('+');
      if mark {
        status, tag := ParseTag(false);
        if status.Failure? { return; }
        out := out.(build := tag);
      }
    }

    method ConsumeWildcard() returns (consumed: bool)
      requires stream.Valid()
      modifies stream
      ensures stream.Valid()
      ensures consumed == WildcardAt(stream.text, old(stream.current))
      ensures stream.current == if consumed then old(stream.current) + 1 else old(stream.current)
    {
      consumed := stream.Consume('*');
      if !consumed { consumed := stream.Consume('x'); }
      if !consumed { consumed := stream.Consume('X'); }
    }

    /** Components may be left out or replaced by a wildcard. */
    method ParsePartial() returns (status: Status, out: Partial)
      requires stream.Valid()
      modifies stream
      ensures stream.Valid()
      ensures Answers(status, out, PartialAt(stream.text, old(stream.current)))
      ensures status.Success? ==> stream.current == status.next
    {
      hide NumberAt, PatchAt, WildcardAt;
      out := Partial(None, None, None, "", false);
      var n: nat;
      var found := ConsumeWildcard();
      if found { return Success(stream.current), out.(wildcard := true); }
      status, n := ParseNumber(U64_MAX);
      if status.Failure? { return; }
      out := out.(major := Some(n));
      found := stream.Consume('.');
      if !found { return Success(stream.current), out; }
      found := ConsumeWildcard();
      if found { return Success(stream.current), out.(wildcard := true); }
      status, n := ParseNumber(U64_MAX);
      if status.Failure? { return; }
      out := out.(minor := Some(n));
      found := stream.Consume('.');
      if !found { return Success(stream.current), out; }
      found := ConsumeWildcard();
      if found { return Success(stream.current), out.(wildcard := true); }
      status, out := ParsePatch(out);
    }

    method ParsePatch(prefix: Partial) returns (status: Status, out: Partial)
      requires stream.Valid() && prefix.major.Some? && prefix.minor.Some?
      requires prefix.prerelease == "" && !prefix.wildcard
      modifies stream
      ensures stream.Valid()
      ensures Answers(status, out, PatchAt(stream.text, old(stream.current), prefix.major.value, prefix.minor.value))
      ensures status.Success? ==> stream.current == status.next
    {
      hide NumberAt, TagAt;
      out := prefix;
      var n: nat;
      var tag: string;
      status, n := ParseNumber(U64_MAX);
      if status.Failure? { return; }
      out := out.(patch := Some(n));
      var dash := stream.Consume('-');
      if dash {
        status, tag := ParseTag(true);
        if status.Failure? { return; }
        out := out.(prerelease := tag);
      }
      return Success(stream.current), out;
    }
  }

  /** `out` holds the tag from `start` up to the dot before `i`; how it goes on from `i` decides `goal`. */
  ghost predicate TagReadTo(goal: Outcome<string>, s: string, start: nat, i: nat, out: string, rejectLeadingZero: bool) {
    && start <= i <= |s|
    && (if i == start then out == ""
        else i - 1 > start && s[i - 1] == '.' && out == s[start..i - 1])
    && match TagAt(s, i, rejectLeadingZero)
       case Parsed(_, next) => goal == Parsed(s[start..next], next)
       case Failed(at, code) => goal == Failed(at, code)
  }

  lemma TagNotBegun(s: string, start: nat, rejectLeadingZero: bool)
    requires start <= |s|
    ensures TagReadTo(TagAt(s, start, rejectLeadingZero), s, start, start, "", rejectLeadingZero)
  {
  }

  lemma ReadIdentifier(goal: Outcome<string>, s: string, start: nat, i: nat, out: string, rejectLeadingZero: bool)
    requires TagReadTo(goal, s, start, i, out, rejectLeadingZero)
    ensures i <= |s|
    ensures var e := IdentifierEnd(s, i);
      var prefix := if out == "" then "" else out + ".";
      if !ValidIdentifier(s[i..e], rejectLeadingZero) then goal == Failed(i, InvalidArgument)
      else if HasAt(s, e, '.') then TagReadTo(goal, s, start, e + 1, prefix + s[i..e], rejectLeadingZero)
      else goal == Parsed(prefix + s[i..e], e)
  {
    var e := IdentifierEnd(s, i);
    assert ValidIdentifier(s[i..e], rejectLeadingZero) ==> s[i..e] != "";
    hide ValidIdentifier;
    if i > start {
      assert s[start..e] == s[start..i - 1] + [s[i - 1]] + s[i..e];
      assert s[start..e] == out + "." + s[i..e];
    } else {
      assert s[start..e] == "" + s[i..e];
    }
  }

  /** `result` is the value of the digits from `i` to `k`, which do not overflow; the run ends at `e`. */
  ghost predicate DigitsRead(s: string, i: nat, k: nat, e: nat, result: nat) {
    && i < k <= e <= |s| && s[i] != '0'
    && DigitsEnd(s, i) == DigitsEnd(s, k) == e
    && IsNumeral(Decimal, s[i..k])
    && result == Value(Decimal, s[i..k]) <= U64_MAX
    && OverflowAt(s, i, i, e) == OverflowAt(s, i, k, e)
  }

  lemma ReadDigit(s: string, i: nat, k: nat, e: nat, result: nat, max: nat)
    requires DigitsRead(s, i, k, e, result) && k < |s| && IsDecimalDigit(s[k])
    ensures var d := DigitValue(s[k]);
      if result > (U64_MAX - d) / 10 then NumberAt(s, i, max) == Failed(k, ResultOutOfRange)
      else DigitsRead(s, i, k + 1, e, result * 10 + d)
  {
    NextDigit(s, i, k, e);
    if result > (U64_MAX - DigitValue(s[k])) / 10 {
      OverflowMeansTooLarge(s, i, k, e, max);
    }
  }

  lemma AllDigitsRead(s: string, i: nat, k: nat, e: nat, result: nat, max: nat)
    requires DigitsRead(s, i, k, e, result) && (k == |s| || !IsDecimalDigit(s[k]))
    ensures k == e
    ensures max <= U64_MAX ==>
      NumberAt(s, i, max) == (if result <= max then Parsed(result, k) else Failed(k - 1, ResultOutOfRange))
  {
    NumberWithoutOverflow(s, i, e, U64_MAX);
  }

  /** What the first character of a component decides. */
  lemma FirstDigit(s: string, i: nat, max: nat)
    requires i <= |s|
    ensures i == |s| || !IsDecimalDigit(s[i]) ==> NumberAt(s, i, max) == Failed(i, InvalidArgument)
    ensures HasAt(s, i, '0') ==>
      NumberAt(s, i, max) == (if i + 1 < |s| && IsDecimalDigit(s[i + 1]) then Failed(i + 1, InvalidArgument)
                              else Parsed(0, i + 1))
    ensures i < |s| && IsDecimalDigit(s[i]) && s[i] != '0' ==>
      DigitsRead(s, i, i + 1, DigitsEnd(s, i), DigitValue(s[i]))
  {
    if i < |s| {
      var t := s[i..i + 1];
      assert t == [s[i]] && t[..0] == "";
      assert Value(Decimal, "") == 0;
    }
  }

  lemma NextDigit(s: string, i: nat, k: nat, e: nat)
    requires i <= k < |s| && IsNumeral(Decimal, s[i..k]) && IsDecimalDigit(s[k])
    requires DigitsEnd(s, i) == DigitsEnd(s, k) == e
    ensures IsNumeral(Decimal, s[i..k + 1])
    ensures Value(Decimal, s[i..k + 1]) == Value(Decimal, s[i..k]) * 10 + DigitValue(s[k])
    ensures DigitsEnd(s, k) == DigitsEnd(s, k + 1) >= k + 1
    ensures Value(Decimal, s[i..k + 1]) <= U64_MAX ==> OverflowAt(s, i, k, e) == OverflowAt(s, i, k + 1, e)
  {
    ValueOfAppend(Decimal, s[i..k], s[k]);
    assert s[i..k + 1] == s[i..k] + [s[k]];
  }

  lemma NumberWithoutOverflow(s: string, i: nat, e: nat, max: nat)
    requires i < e <= |s| && e == DigitsEnd(s, i) && s[i] != '0' && max <= U64_MAX
    requires IsNumeral(Decimal, s[i..e]) && Value(Decimal, s[i..e]) <= U64_MAX
    ensures NumberAt(s, i, max) ==
      if Value(Decimal, s[i..e]) <= max then Parsed(Value(Decimal, s[i..e]), e)
      else Failed(e - 1, ResultOutOfRange)
  {
  }

  lemma {:induction false} LongerIsLarger(s: string, i: nat, k: nat, e: nat)
    requires i <= k <= e <= |s| && IsNumeral(Decimal, s[i..e])
    ensures IsNumeral(Decimal, s[i..k]) && Value(Decimal, s[i..k]) <= Value(Decimal, s[i..e])
    decreases e - k
  {
    assert forall j :: 0 <= j < k - i ==> s[i..k][j] == s[i..e][j];
    if k < e {
      var t := s[i..e];
      assert t[..|t| - 1] == s[i..e - 1];
      assert IsNumeral(Decimal, s[i..e - 1]);
      LongerIsLarger(s, i, k, e - 1);
    }
  }

  lemma OverflowMeansTooLarge(s: string, i: nat, k: nat, e: nat, max: nat)
    requires i < k < e <= |s| && e == DigitsEnd(s, i) && s[i] != '0'
    requires IsNumeral(Decimal, s[i..k + 1]) && Value(Decimal, s[i..k + 1]) > U64_MAX
    requires OverflowAt(s, i, i, e) == OverflowAt(s, i, k, e)
    ensures NumberAt(s, i, max) == Failed(k, ResultOutOfRange)
  {
    DigitRunIsNumeral(s, i, e);
    LongerIsLarger(s, i, k + 1, e);
    assert OverflowAt(s, i, k, e) == k;
  }

  /** Answers as the strict grammar does, and hands back `prior` unless the whole input was a version. */
  method ParseFull(s: string, prior: Version, lim: Limits) returns (status: Status, output: Version)
    ensures Answers(status, output, ParseVersion(s, lim))
    ensures status.Failure? ==> output == prior
  {
    hide VersionAt;
    if |s| > MAX_INPUT_LENGTH {
      return Failure(0, ValueTooLarge), prior;
    }
    var input := new Cursor(s);
    var parser := new VersionParser(input);
    var tmp: Version;
    status, tmp := parser.Parse(lim);
    if status.Failure? {
      return status, prior;
    }
    if !input.AtEnd() {
      return Failure(input.current, InvalidArgument), prior;
    }
    return Success(input.current), tmp;
  }

  /** Decides whether `s` prints some version, however large its components. */
  method ValidateVersionSyntax(s: string) returns (ok: bool)
    ensures ok <==> IsVersionText(s)
  {
    SyntaxIffText(s);
    hide IsVersionText, QualifiersOk;
    var pos := 0;
    var good: bool;
    good, pos := ScanComponent(s, pos);
    if !good || !HasAt(s, pos, '.') { return false; }
    good, pos := ScanComponent(s, pos + 1);
    if !good || !HasAt(s, pos, '.') { return false; }
    good, pos := ScanComponent(s, pos + 1);
    if !good { return false; }
    ok := ScanQualifiers(s, pos);
  }

  method ScanComponent(s: string, start: nat) returns (ok: bool, pos: nat)
    requires start <= |s|
    ensures ok == ComponentOk(s, start)
    ensures pos <= |s| && (ok ==> pos == DigitsEnd(s, start))
  {
    pos := start;
    if pos >= |s| || !IsDecimalDigit(s[pos]) {
      return false, pos;
    }
    RunEndSkip(IsDecimalDigit, s, start, start + 1);
    if s[pos] == '0' && pos + 1 < |s| && IsDecimalDigit(s[pos + 1]) {
      return false, pos;
    }
    pos := pos + 1;
    while pos < |s| && IsDecimalDigit(s[pos])
      invariant start < pos <= |s| && DigitsEnd(s, start) == DigitsEnd(s, pos)
      invariant s[start] == '0' ==> pos == start + 1 && (pos == |s| || !IsDecimalDigit(s[pos]))
    {
      pos := pos + 1;
    }
    ok := true;
  }

  method ScanQualifiers(s: string, start: nat) returns (ok: bool)
    requires start <= |s|
    ensures ok == QualifiersOk(s, start)
  {
    hide ValidIds;
    var pos := start;
    if pos == |s| {
      return true;
    }
    if s[pos] == '-' {
      pos := pos + 1;
      while pos < |s| && s[pos] != '+'
        invariant start < pos <= |s|
        invariant PrereleaseEnd(s, start) == RunEnd(NotPlus, s, pos)
      {
        pos := pos + 1;
      }
      var valid := ValidateIdentifiers(s[start + 1..pos], true);
      if pos == start + 1 || !valid {
        if pos == start + 1 { EmptyIsNoTag(true); }
        return false;
      }
    }
    assert pos == PrereleaseEnd(s, start);
    if pos < |s| && s[pos] == '+' {
      var valid := ValidateIdentifiers(s[pos + 1..], false);
      if pos + 1 == |s| { EmptyIsNoTag(false); }
      return pos + 1 != |s| && valid;
    }
    ok := pos == |s|;
  }

  lemma EmptyIsNoTag(rejectLeadingZero: bool)
    ensures !ValidIds("", rejectLeadingZero)
  {
  }

  lemma LongestPrefixTooLarge(prefix: string, lim: Limits)
    requires IsVersionText(prefix) && |prefix| <= MAX_INPUT_LENGTH && ParseVersion(prefix, lim).Failed?
    ensures ParseVersion(prefix, lim).code == ResultOutOfRange
  {
    hide VersionAt, ToString;
    var v :| Versions.Valid(v) && ToString(v) == prefix;
    if VersionAt(prefix, lim).Failed? {
      PrintedFailsOnlyByRange(v, lim);
    } else {
      ParseIsLongest(prefix, v, lim);
    }
  }

  /**
   * Succeeds exactly when the input begins with a version and the components of the longest such
   * prefix fit; `prior` survives a failure.
   */
  method FromChars(s: string, prior: Version, lim: Limits) returns (status: Status, v: Version)
    ensures |s| > MAX_INPUT_LENGTH ==> status == Failure(0, ValueTooLarge)
    ensures status.Failure? ==> v == prior
    ensures status.Success? ==>
      && status.next > 0 && IsLongestPrefix(s, status.next)
      && Representable(v, lim) && ToString(v) == s[..status.next]
    ensures |s| <= MAX_INPUT_LENGTH && status.Failure? ==>
      && IsLongestPrefix(s, status.at)
      && status.code == (if status.at > 0 then ResultOutOfRange else InvalidArgument)
      && (status.at > 0 ==> forall w :: Valid(w) && ToString(w) == s[..status.at] ==> !Fits(w, lim))
  {
    if |s| > MAX_INPUT_LENGTH {
      return Failure(0, ValueTooLarge), prior;
    }
    var input := new Cursor(s);
    var parser := new VersionParser(input);
    var tmp: Version;
    status, tmp := parser.Parse(lim);
    if status.Success? {
      GreedyTakesLongest(s, lim);
      VersionSound(s, lim);
      return status, tmp;
    }
    hide IsVersionText, ToString, ParseVersion;
    var len := |s|;
    while len > 0
      invariant 0 <= len <= |s|
      invariant forall m :: len < m <= |s| ==> !IsVersionText(s[..m])
    {
      var prefix := s[..len];
      var syntactic := ValidateVersionSyntax(prefix);
      if syntactic {
        ParseAcceptsPrinted(prefix, lim);
        var parsed: Status;
        parsed, v := ParseFull(prefix, prior, lim);
        if parsed.Success? {
          return Success(len), v;
        }
        LongestPrefixTooLarge(prefix, lim);
        return Failure(len, parsed.code), prior;
      }
      len := len - 1;
    }
    return Failure(0, InvalidArgument), prior;
  }

  // ---------- Output ----------

  function SerializedLength(v: Version): nat {
    |Print(Decimal, v.major)| + |Print(Decimal, v.minor)| + |Print(Decimal, v.patch)| + 2
    + (if v.prerelease == "" then 0 else |v.prerelease| + 1)
    + (if v.build == "" then 0 else |v.build| + 1)
  }

  /** The number of decimal digits, counted by division. */
  method Length(n: nat) returns (digits: nat)
    ensures digits == |Print(Decimal, n)|
  {
    var un: nat := n / 10;
    digits := 1;
    while un != 0
      invariant digits + (if un == 0 then 0 else |Print(Decimal, un)|) == |Print(Decimal, n)|
      decreases un
    {
      digits := digits + 1;
      un := un / 10;
    }
  }

  /** Writes the digits of `n` so that they end just before `end`. */
  method WriteBackward(buffer: array<char>, end: nat, n: nat)
    requires |Print(Decimal, n)| <= end <= buffer.Length
    modifies buffer
    ensures buffer[..] == old(buffer[..end - |Print(Decimal, n)|]) + Print(Decimal, n) + old(buffer[end..])
  {
    hide Print, Filled;
    LeadingTextStep(n);
    ghost var was := buffer[..];
    var dest, un: nat := end - 1, n / 10;
    ghost var written := "";
    FillOne(was, was, end, written, end, DigitChar(n % 10));
    buffer[dest] := DigitChar(n % 10);
    assert buffer[..] == was[dest := DigitChar(n % 10)];
    written := [DigitChar(n % 10)] + written;
    while un != 0
      invariant LeadingText(un) + written == Print(Decimal, n)
      invariant written != "" && dest + |written| == end <= buffer.Length && |Print(Decimal, n)| <= end
      invariant Filled(buffer[..], was, dest, written, end)
      decreases un
    {
      var c := DigitChar(un % 10);
      LeadingTextStep(un);
      DigitMoves(LeadingText(un / 10), c, written);
      ghost var now := buffer[..];
      FillOne(now, was, dest, written, end, c);
      dest := dest - 1;
      buffer[dest] := c;
      assert buffer[..] == now[dest := c];
      written := [c] + written;
      un := un / 10;
    }
    AllFilled(buffer[..], was, dest, written, end);
  }

  /** `now` is `was` with `written` standing between `dest` and `end`. */
  ghost predicate Filled(now: string, was: string, dest: nat, written: string, end: nat) {
    dest + |written| == end <= |was| && now == was[..dest] + written + was[end..]
  }

  lemma FillOne(now: string, was: string, dest: nat, written: string, end: nat, c: char)
    requires 0 < dest <= end <= |was|
    requires if dest == end then now == was && written == "" else Filled(now, was, dest, written, end)
    ensures |now| == |was| && Filled(now[dest - 1 := c], was, dest - 1, [c] + written, end)
  {
  }

  lemma AllFilled(now: string, was: string, dest: nat, written: string, end: nat)
    requires Filled(now, was, dest, written, end)
    ensures dest <= end <= |was| && now == was[..dest] + written + was[end..]
  {
  }

  lemma DigitMoves(front: string, c: char, written: string)
    ensures (front + [c]) + written == front + ([c] + written)
  {
  }

  /** The digits still to be written: none for zero. */
  ghost function LeadingText(n: nat): string {
    if n == 0 then "" else Print(Decimal, n)
  }

  lemma LeadingTextStep(n: nat)
    ensures Print(Decimal, n) == LeadingText(n / 10) + [DigitChar(n % 10)]
  {
  }

  /** Copies text into the buffer at `p`. */
  method WriteText(buffer: array<char>, p: nat, t: string)
    requires p + |t| <= buffer.Length
    modifies buffer
    ensures buffer[..] == old(buffer[..p]) + t + old(buffer[p + |t|..])
  {
    ghost var was := buffer[..];
    for i := 0 to |t|
      invariant buffer[..] == was[..p] + t[..i] + was[p + i..]
    {
      buffer[p + i] := t[i];
    }
  }

  method WriteNumber(buffer: array<char>, p: nat, n: nat) returns (next: nat)
    requires p + |Print(Decimal, n)| <= buffer.Length
    modifies buffer
    ensures next == p + |Print(Decimal, n)|
    ensures buffer[..] == old(buffer[..p]) + Print(Decimal, n) + old(buffer[next..])
  {
    var len := Length(n);
    WriteBackward(buffer, p + len, n);
    next := p + len;
  }

  lemma SerializedLengthIsExact(v: Version)
    ensures SerializedLength(v) == |ToString(v)|
  {
  }

  /** `buffer` holds `text` from `first`, and its old contents elsewhere. */
  ghost predicate Holds(now: string, was: string, first: nat, text: string) {
    first + |text| <= |was| && now == was[..first] + text + was[first + |text|..]
  }

  lemma HoldsExtended(was: string, first: nat, text: string, mid: string, more: string, now: string)
    requires Holds(mid, was, first, text)
    requires first + |text| + |more| <= |mid|
    requires now == mid[..first + |text|] + more + mid[first + |text| + |more|..]
    ensures Holds(now, was, first, text + more)
  {
    var p := first + |text|;
    assert mid[..p] == was[..first] + text;
    assert mid[p + |more|..] == was[p + |more|..];
    assert now == was[..first] + (text + more) + was[first + |text + more|..];
  }

  method Append(buffer: array<char>, ghost was: string, first: nat, ghost text: string, p: nat, more: string)
    requires p == first + |text| && p + |more| <= buffer.Length
    requires Holds(buffer[..], was, first, text)
    modifies buffer
    ensures Holds(buffer[..], was, first, text + more)
  {
    ghost var mid := buffer[..];
    WriteText(buffer, p, more);
    HoldsExtended(was, first, text, mid, more, buffer[..]);
  }

  method AppendNumber(buffer: array<char>, ghost was: string, first: nat, ghost text: string, p: nat, n: nat)
    returns (next: nat)
    requires p == first + |text| && p + |Print(Decimal, n)| <= buffer.Length
    requires Holds(buffer[..], was, first, text)
    modifies buffer
    ensures Holds(buffer[..], was, first, text + Print(Decimal, n)) && next == p + |Print(Decimal, n)|
  {
    ghost var mid := buffer[..];
    next := WriteNumber(buffer, p, n);
    HoldsExtended(was, first, text, mid, Print(Decimal, n), buffer[..]);
  }

  method AppendSuffix(buffer: array<char>, ghost was: string, first: nat, ghost text: string, p: nat, mark: char, tag: string)
    returns (next: nat)
    requires p == first + |text| && p + |Suffix(mark, tag)| <= buffer.Length
    requires Holds(buffer[..], was, first, text)
    modifies buffer
    ensures Holds(buffer[..], was, first, text + Suffix(mark, tag)) && next == p + |Suffix(mark, tag)|
  {
    hide Holds;
    if tag == "" {
      assert text + "" == text;
      return p;
    }
    Append(buffer, was, first, text, p, [mark]);
    Append(buffer, was, first, text + [mark], p + 1, tag);
    assert text + [mark] + tag == text + ([mark] + tag);
    return p + 1 + |tag|;
  }

  method AppendCore(buffer: array<char>, ghost was: string, first: nat, v: Version) returns (next: nat)
    requires first + |CoreText(v)| <= buffer.Length && buffer[..] == was
    modifies buffer
    ensures Holds(buffer[..], was, first, CoreText(v)) && next == first + |CoreText(v)|
  {
    ghost var a, b, c := Print(Decimal, v.major), Print(Decimal, v.minor), Print(Decimal, v.patch);
    assert Holds(buffer[..], was, first, "");
    assert "" + a == a;
    hide Print, Holds;
    var p := AppendNumber(buffer, was, first, "", first, v.major);
    Append(buffer, was, first, a, p, ".");
    p := AppendNumber(buffer, was, first, a + ".", p + 1, v.minor);
    Append(buffer, was, first, a + "." + b, p, ".");
    next := AppendNumber(buffer, was, first, a + "." + b + ".", p + 1, v.patch);
  }

  /**
   * Writes the text of `v` to buffer[first..last). It fails, touching nothing, exactly when the
   * text is longer than that; otherwise it writes exactly the text and nothing beyond it.
   */
  method ToChars(buffer: array<char>, first: nat, last: nat, v: Version) returns (ok: bool, end: nat)
    requires first <= last <= buffer.Length
    modifies buffer
    ensures ok <==> last - first >= |ToString(v)|
    ensures !ok ==> buffer[..] == old(buffer[..]) && end == last
    ensures ok ==> end == first + |ToString(v)| && Holds(buffer[..], old(buffer[..]), first, ToString(v))
  {
    var needed := SerializedLength(v);
    SerializedLengthIsExact(v);
    if last - first < needed {
      return false, last;
    }
    hide SerializedLength, CoreText, Holds, Suffix;
    ghost var was := buffer[..];
    var p := AppendCore(buffer, was, first, v);
    p := AppendSuffix(buffer, was, first, CoreText(v), p, '-', v.prerelease);
    p := AppendSuffix(buffer, was, first, CoreText(v) + Suffix('-', v.prerelease), p, '+', v.build);
    return true, p;
  }
}
