/** The cursor-driven range parser, against RangeGrammar. */
module RangeParsing {
  import opened Texts
  import opened Versions
  import opened VersionGrammar
  import opened Ranges
  import opened Desugaring
  import opened RangeGrammar
  import opened VersionParsing

  class RangeParser {
    const stream: Cursor

    constructor (stream: Cursor)
      ensures this.stream == stream
    {
      this.stream := stream;
    }

    method SkipWhitespaces() returns (skipped: bool)
      requires stream.Valid()
      modifies stream
      ensures stream.Valid() && stream.current == SkipSpaces(stream.text, old(stream.current))
      ensures skipped <==> stream.current > old(stream.current)
    {
      skipped := false;
      while stream.Has() && IsSpace(stream.Peek())
        invariant stream.Valid() && old(stream.current) <= stream.current
        invariant SkipSpaces(stream.text, old(stream.current)) == SkipSpaces(stream.text, stream.current)
        invariant skipped <==> stream.current > old(stream.current)
        decreases |stream.text| - stream.current
      {
        var _ := stream.Advance();
        skipped := true;
      }
    }

    method ConsumeOperator() returns (found: bool, op: Operator)
      requires stream.Valid()
      modifies stream
      ensures stream.Valid()
      ensures !HasAt(stream.text, old(stream.current), '~') && !HasAt(stream.text, old(stream.current), '^') ==>
        MarkAt(stream.text, old(stream.current)) == (if found then ByComparator(op) else Bare, stream.current)
    {
      op := Equal;
      if !stream.Has() {
        return false, op;
      }
      var c := stream.Peek();
      var orEqual: bool;
      if c == '<' {
        var _ := stream.Advance();
        orEqual := stream.Consume('=');
        return true, if orEqual then LessOrEqual else Less;
      } else if c == '>' {
        var _ := stream.Advance();
        orEqual := stream.Consume('=');
        return true, if orEqual then GreaterOrEqual else Greater;
      } else if c == '=' {
        var _ := stream.Advance();
        return true, Equal;
      } else if c == '!' {
        var both := stream.ConsumeText("!=");
        if !both {
          return false, op;
        }
        return true, NotEqual;
      }
      return false, op;
    }

    method ConsumeMark() returns (kind: TermKind)
      requires stream.Valid()
      modifies stream
      ensures stream.Valid() && MarkAt(stream.text, old(stream.current)) == (kind, stream.current)
    {
      var found := stream.Consume('~');
      if found {
        return Tilde;
      }
      found := stream.Consume('^');
      if found {
        return Caret;
      }
      var op: Operator;
      found, op := ConsumeOperator();
      return if found then ByComparator(op) else Bare;
    }

    method ParseTerm(lim: Limits) returns (status: Status, out: Range)
      requires stream.Valid()
      modifies stream
      ensures stream.Valid()
      ensures Answers(status, out, TermAt(stream.text, old(stream.current), lim))
      ensures status.Success? ==> stream.current == status.next
    {
      hide MarkAt, PartialAt, SkipSpaces, Expand, Refused;
      out := [];
      var first := stream.current;
      var kind := ConsumeMark();
      if kind != Bare {
        var _ := SkipWhitespaces();
      }
      var start := stream.current;
      var parser := new VersionParser(stream);
      var pv: Partial;
      status, pv := parser.ParsePartial();
      if status.Failure? {
        return;
      }
      if Refused(kind, pv) {
        return Failure(start, InvalidArgument), [];
      }
      var expanded := Expand(kind, pv, lim);
      if expanded.None? {
        return Failure(first, ResultOutOfRange), [];
      }
      return Success(stream.current), expanded.value;
    }

    method ParseRange(lim: Limits) returns (status: Status, out: Range)
      requires stream.Valid()
      modifies stream
      ensures stream.Valid()
      ensures Answers(status, out, RangeAt(stream.text, old(stream.current), lim, []))
      ensures status.Success? ==> stream.current == status.next
    {
      hide TermAt, SkipSpaces, CanStartTerm;
      ghost var goal := RangeAt(stream.text, stream.current, lim, []);
      out := [];
      var more := true;
      status := Success(stream.current);
      while more
        invariant stream.Valid()
        invariant more ==> goal == RangeAt(stream.text, stream.current, lim, out)
        invariant !more ==> goal == Parsed(out, stream.current) && status == Success(stream.current)
        decreases |stream.text| - stream.current, more
      {
        var _ := SkipWhitespaces();
        var term: Range;
        status, term := ParseTerm(lim);
        if status.Failure? {
          return;
        }
        out := out + term;
        var separated := SkipWhitespaces();
        if CanStartTerm(stream.text, stream.current) && !separated {
          return Failure(stream.current, InvalidArgument), out;
        }
        more := CanStartTerm(stream.text, stream.current);
        status := Success(stream.current);
      }
    }

    method Parse(lim: Limits) returns (status: Status, out: RangeSet)
      requires stream.Valid() && stream.current == 0
      modifies stream
      ensures stream.Valid()
      ensures Answers(status, out, RangeSetAt(stream.text, lim))
      ensures status.Success? ==> stream.current == status.next
    {
      hide RangeAt, SkipSpaces;
      out := [];
      var _ := SkipWhitespaces();
      if stream.AtEnd() {
        return Failure(stream.current, InvalidArgument), out;
      }
      ghost var goal := AlternativesAt(stream.text, stream.current, lim, []);
      var more := true;
      status := Success(stream.current);
      while more
        invariant stream.Valid()
        invariant more ==> goal == AlternativesAt(stream.text, stream.current, lim, out)
        invariant !more ==> goal == Parsed(out, stream.current) && status == Success(stream.current)
        decreases |stream.text| - stream.current, more
      {
        var range: Range;
        status, range := ParseRange(lim);
        if status.Failure? {
          return;
        }
        out := out + [range];
        var _ := SkipWhitespaces();
        more := stream.ConsumeText("||");
        status := Success(stream.current);
      }
    }
  }

  /** Answers as the strict grammar does; what it accepts meets the requirements of the candidate search. */
  method ParseFull(s: string, prior: RangeSet, lim: Limits) returns (status: Status, output: RangeSet)
    ensures Answers(status, output, ParseRangeSet(s, lim))
    ensures status.Failure? ==> output == prior
    ensures status.Success? ==> output != [] && WellFormedSet(output, lim)
  {
    if |s| > MAX_INPUT_LENGTH {
      return Failure(0, ValueTooLarge), prior;
    }
    hide RangeSetAt;
    var input := new Cursor(s);
    var parser := new RangeParser(input);
    var tmp: RangeSet;
    status, tmp := parser.Parse(lim);
    if status.Failure? {
      return status, prior;
    }
    if !input.AtEnd() {
      return Failure(input.current, InvalidArgument), prior;
    }
    ParsedSetsAreWellFormed(s, lim);
    return Success(input.current), tmp;
  }

  /** Parses a range text and checks containment; an unreadable text contains nothing. */
  method Satisfies(v: Version, s: string, policy: Policy, lim: Limits) returns (found: bool)
    ensures found <==> ParseRangeSet(s, lim).Parsed? && Contains(ParseRangeSet(s, lim).value, v, policy)
  {
    var status, rs := ParseFull(s, [], lim);
    if status.Failure? {
      return false;
    }
    return Contains(rs, v, policy);
  }
}
