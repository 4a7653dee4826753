/** The 512-byte record header: octal fields, checksum, and the conversions of both directions. */
module TarFormat {
  import opened Numerals
  import opened Texts

  /** A byte, as the character of its unsigned code. */
  type Byte = c: char | c as int < 256 witness '\0'

  predicate AreBytes(s: string) {
    forall i :: 0 <= i < |s| ==> s[i] as int < 256
  }

  const RECORD: nat := 512
  const U32: nat := 0x1_0000_0000
  const TREG: nat := 48
  const TDIR: nat := 53

  datatype Header = Header(
    mode: nat, owner: nat, size: nat, mtime: nat, kind: nat, name: string, linkname: string)

  datatype Error = ReadFail | BadChecksum | NullRecord | NotFound | OpenFail

  datatype HeaderResult = Loaded(header: Header) | Refused(error: Error)

  function Zeros(n: nat): (z: string)
    ensures |z| == n
    ensures forall i :: 0 <= i < n ==> z[i] == '\0'
  {
    seq(n, _ => '\0')
  }

  function Padded(t: string, width: nat): (p: string)
    requires |t| <= width
    ensures |p| == width
  {
    t + Zeros(width - |t|)
  }

  // ---------- Checksum ----------

  function Sum(s: string): nat {
    if s == "" then 0 else Sum(s[..|s| - 1]) + s[|s| - 1] as int
  }

  /** The checksum field counts as eight spaces, whatever it holds. */
  function ChecksumOf(raw: string): nat
    requires |raw| == RECORD
  {
    256 + Sum(raw[..148]) + Sum(raw[156..])
  }

  method Checksum(raw: array<char>) returns (res: nat)
    requires raw.Length == RECORD && AreBytes(raw[..])
    ensures res == ChecksumOf(raw[..]) < U32
  {
    ghost var s := raw[..];
    res := 256;
    for i := 0 to 148
      invariant res == 256 + Sum(s[..i])
    {
      assert s[..i + 1][..i] == s[..i];
      res := res + raw[i] as int;
    }
    ghost var tail := s[156..];
    assert tail[..0] == "";
    for i := 156 to RECORD
      invariant res == 256 + Sum(s[..148]) + Sum(tail[..i - 156])
    {
      assert tail[..i + 1 - 156][..i - 156] == tail[..i - 156];
      res := res + raw[i] as int;
    }
    assert tail[..RECORD - 156] == tail;
    SumIsBounded(s[..148]);
    SumIsBounded(tail);
  }

  lemma {:induction false} SumIsBounded(s: string)
    requires AreBytes(s)
    ensures Sum(s) <= 255 * |s|
  {
    if s != "" {
      SumIsBounded(s[..|s| - 1]);
    }
  }

  lemma {:induction false} SumOfConcat(a: string, b: string)
    ensures Sum(a + b) == Sum(a) + Sum(b)
    decreases |b|
  {
    if b == "" {
      assert a + b == a;
    } else {
      var front, c := b[..|b| - 1], b[|b| - 1];
      SumOfConcat(a, front);
      assert (a + b)[..|a + b| - 1] == a + front;
    }
  }

  /** The checksum is the byte sum of the record with eight spaces in place of its checksum. */
  lemma ChecksumCountsSpaces(raw: string)
    requires |raw| == RECORD
    ensures ChecksumOf(raw) == Sum(raw[..148] + [' ', ' ', ' ', ' ', ' ', ' ', ' ', ' '] + raw[156..])
  {
    var spaces := seq(8, _ => ' ');
    assert spaces == [' ', ' ', ' ', ' ', ' ', ' ', ' ', ' '];
    SumOfSpaces(8);
    SumOfConcat(raw[..148], spaces);
    SumOfConcat(raw[..148] + spaces, raw[156..]);
  }

  lemma {:induction false} SumOfSpaces(n: nat)
    ensures Sum(seq(n, _ => ' ')) == 32 * n
  {
    if n > 0 {
      SumOfSpaces(n - 1);
      assert seq(n, _ => ' ')[..n - 1] == seq(n - 1, _ => ' ');
    }
  }

  // ---------- Octal fields ----------

  predicate IsOctalDigit(c: char) {
    '0' <= c <= '7'
  }

  predicate IsBlank(c: char) {
    c == ' ' || c == '\t' || c == '\n' || c == '\r' || c == '\U{0B}' || c == '\U{0C}'
  }

  /** `sscanf(.., "%o", ..)`: blanks, a sign, octal digits; without digits the target keeps its value. */
  function ScanOctal(s: string, i: nat, unset: nat): nat
    requires i <= |s|
  {
    var b := RunEnd(IsBlank, s, i);
    var negative := HasAt(s, b, '-');
    var d := if negative || HasAt(s, b, '+') then b + 1 else b;
    var e := RunEnd(IsOctalDigit, s, d);
    if e == d then unset
    else
      OctalRun(s, d, e);
      var n := Value(Octal, s[d..e]) % U32;
      if negative then (U32 - n) % U32 else n
  }

  lemma OctalRun(s: string, d: nat, e: nat)
    requires d <= e <= |s| && forall k :: d <= k < e ==> IsOctalDigit(s[k])
    ensures IsNumeral(Octal, s[d..e])
  {
  }

  function Octal6(n: nat): string
    requires |Print(Octal, n)| <= 6
  {
    seq(6 - |Print(Octal, n)|, _ => '0') + Print(Octal, n)
  }

  /** Leading zeros change nothing. */
  lemma {:induction false} LeadingZeros(zeros: string, s: string)
    requires IsNumeral(Octal, zeros) && Value(Octal, zeros) == 0 && IsNumeral(Octal, s)
    ensures IsNumeral(Octal, zeros + s) && Value(Octal, zeros + s) == Value(Octal, s)
    decreases |s|
  {
    if s == "" {
      assert zeros + s == zeros;
    } else {
      var front, c := s[..|s| - 1], s[|s| - 1];
      assert s == front + [c] && zeros + s == (zeros + front) + [c];
      assert IsNumeral(Octal, front) && IsDigit(Octal, c);
      hide Value, IsNumeral;
      LeadingZeros(zeros, front);
      ValueOfAppend(Octal, front, c);
      ValueOfAppend(Octal, zeros + front, c);
    }
  }

  lemma {:induction false} ZerosAreZero(k: nat)
    ensures IsNumeral(Octal, seq(k, _ => '0')) && Value(Octal, seq(k, _ => '0')) == 0
  {
    if k > 0 {
      ZerosAreZero(k - 1);
      ValueOfAppend(Octal, seq(k - 1, _ => '0'), '0');
      assert seq(k, _ => '0') == seq(k - 1, _ => '0') + ['0'];
    }
  }

  /** Octal digits standing in a field and followed by something else, or by nothing, are read back modulo 2^32. */
  lemma ScanDigits(s: string, i: nat, digits: string, unset: nat)
    requires TextAt(s, i, digits) && digits != "" && IsNumeral(Octal, digits)
    requires i + |digits| == |s| || !IsOctalDigit(s[i + |digits|])
    ensures ScanOctal(s, i, unset) == Value(Octal, digits) % U32
  {
    var e := i + |digits|;
    DigitsRun(s, i, digits);
    NoBlankAtDigit(s, i);
    SliceOfText(s, i, digits);
    hide TextAt, RunEnd, Value;
  }

  lemma DigitsRun(s: string, i: nat, digits: string)
    requires TextAt(s, i, digits) && digits != "" && IsNumeral(Octal, digits)
    requires i + |digits| == |s| || !IsOctalDigit(s[i + |digits|])
    ensures i < |s| && IsOctalDigit(s[i]) && RunEnd(IsOctalDigit, s, i) == i + |digits|
  {
    var e := i + |digits|;
    forall k | i <= k < e ensures IsOctalDigit(s[k]) {
      assert s[i + (k - i)] == CharAt(digits, k - i);
      assert IsDigit(Octal, digits[k - i]);
    }
    assert IsOctalDigit(s[i]);
    RunEndSkip(IsOctalDigit, s, i, e);
  }

  lemma NoBlankAtDigit(s: string, i: nat)
    requires i < |s| && IsOctalDigit(s[i])
    ensures RunEnd(IsBlank, s, i) == i && !HasAt(s, i, '-') && !HasAt(s, i, '+')
  {
  }

  /** Blanks up to `d`, a sign if `b` is beyond it, and digits: the number modulo 2^32, or its negative. */
  lemma ScanField(s: string, i: nat, d: nat, b: nat, digits: string, unset: nat)
    requires i <= d <= |s| && forall k :: i <= k < d ==> s[k] == ' '
    requires b == d || (b == d + 1 && (HasAt(s, d, '+') || HasAt(s, d, '-')))
    requires TextAt(s, b, digits) && digits != "" && IsNumeral(Octal, digits)
    requires b + |digits| == |s| || !IsOctalDigit(s[b + |digits|])
    ensures ScanOctal(s, i, unset) ==
      if HasAt(s, d, '-') then (U32 - Value(Octal, digits) % U32) % U32 else Value(Octal, digits) % U32
  {
    hide Value, RunEnd, ScanOctal;
    DigitsRun(s, b, digits);
    NoBlankAtDigit(s, b);
    BlanksRun(s, i, d);
    SliceOfText(s, b, digits);
    hide TextAt, IsNumeral;
    ScanFrom(s, i, d, b, b + |digits|, unset);
  }

  lemma ScanFrom(s: string, i: nat, d: nat, b: nat, e: nat, unset: nat)
    requires i <= |s| && d == RunEnd(IsBlank, s, i)
    requires b == if HasAt(s, d, '-') || HasAt(s, d, '+') then d + 1 else d
    requires b < e && e == RunEnd(IsOctalDigit, s, b)
    ensures IsNumeral(Octal, s[b..e])
    ensures ScanOctal(s, i, unset) ==
      if HasAt(s, d, '-') then (U32 - Value(Octal, s[b..e]) % U32) % U32 else Value(Octal, s[b..e]) % U32
  {
    hide RunEnd, Value;
    OctalRun(s, b, e);
  }

  lemma BlanksRun(s: string, i: nat, d: nat)
    requires i <= d < |s| && (forall k :: i <= k < d ==> s[k] == ' ') && !IsBlank(s[d])
    ensures RunEnd(IsBlank, s, i) == d
  {
    RunEndSkip(IsBlank, s, i, d);
  }

  // ---------- Writing ----------

  /** Field values that fit the fixed-width fields of the record. */
  ghost predicate Storable(h: Header) {
    && h.mode < Pow(Octal, 7) && h.owner < Pow(Octal, 7)
    && h.size < U32 && h.mtime < U32 && h.kind < U32
    && IsName(h.name) && IsName(h.linkname)
  }

  /** At most 99 bytes, none of them NUL. */
  predicate IsName(name: string) {
    |name| < 100 && forall i :: 0 <= i < |name| ==> 0 < name[i] as int < 256
  }

  /** An unset type is a regular file; any other is cut down to one byte. */
  function KindChar(kind: nat): Byte {
    if kind == 0 then TREG as char else (kind % 256) as char
  }

  /** A signed `char` widened to unsigned: codes from 128 up get their high bits set. */
  function KindOf(c: char): nat {
    if c as int < 128 then c as int else U32 - 256 + c as int
  }

  lemma FieldsFit(h: Header)
    requires Storable(h)
    ensures 1 <= |Print(Octal, h.mode)| <= 7 && 1 <= |Print(Octal, h.owner)| <= 7
    ensures 1 <= |Print(Octal, h.size)| <= 11 && 1 <= |Print(Octal, h.mtime)| <= 11
  {
    hide Print;
    ElevenDigits();
    PrintLength(Octal, h.mode, 7);
    PrintLength(Octal, h.owner, 7);
    PrintLength(Octal, h.size, 11);
    PrintLength(Octal, h.mtime, 11);
  }

  lemma ElevenDigits()
    ensures Pow(Octal, 6) == 262144 && Pow(Octal, 11) >= U32
  {
    assert Pow(Octal, 2) == 64;
    assert Pow(Octal, 4) == 4096;
    assert Pow(Octal, 6) == 262144;
    assert Pow(Octal, 8) == 16777216;
    assert Pow(Octal, 10) == 1073741824;
  }

  /** The record up to the checksum field. */
  ghost function FrontOf(h: Header): (f: string)
    requires Storable(h)
    ensures |f| == 148
  {
    FieldsFit(h);
    Padded(h.name, 100) + Padded(Print(Octal, h.mode), 8) + Padded(Print(Octal, h.owner), 8) + Zeros(8)
    + Padded(Print(Octal, h.size), 12) + Padded(Print(Octal, h.mtime), 12)
  }

  /** The record after the checksum field. */
  ghost function BackOf(h: Header): (b: string)
    requires Storable(h)
    ensures |b| == 356
  {
    [KindChar(h.kind)] + Padded(h.linkname, 100) + Zeros(255)
  }

  ghost function ChecksumField(h: Header): (c: string)
    requires Storable(h)
    ensures |c| == 8
  {
    var sum := 256 + Sum(FrontOf(h)) + Sum(BackOf(h));
    SumFitsSixDigits(h);
    Octal6(sum) + ['\0', ' ']
  }

  ghost function RawOf(h: Header): (raw: string)
    requires Storable(h)
    ensures |raw| == RECORD
  {
    FrontOf(h) + ChecksumField(h) + BackOf(h)
  }

  lemma PrintedBytes(n: nat)
    ensures AreBytes(Print(Octal, n))
  {
    PrintIsCanonical(Octal, n);
    assert forall i :: 0 <= i < |Print(Octal, n)| ==> IsDigit(Octal, Print(Octal, n)[i]);
  }

  lemma BytesOfConcat(a: string, b: string)
    requires AreBytes(a) && AreBytes(b)
    ensures AreBytes(a + b)
  {
  }

  lemma FrontIsBytes(h: Header)
    requires Storable(h)
    ensures AreBytes(FrontOf(h)) && AreBytes(BackOf(h))
  {
    FieldsFit(h);
    PrintedBytes(h.mode);
    PrintedBytes(h.owner);
    PrintedBytes(h.size);
    PrintedBytes(h.mtime);
    hide Print, AreBytes;
    assert AreBytes(Padded(h.name, 100)) && AreBytes(Padded(h.linkname, 100)) by {
      NameIsBytes(h.name);
      NameIsBytes(h.linkname);
    }
    PaddedBytes(Print(Octal, h.mode), 8);
    PaddedBytes(Print(Octal, h.owner), 8);
    PaddedBytes(Print(Octal, h.size), 12);
    PaddedBytes(Print(Octal, h.mtime), 12);
    ZeroBytes(8);
    ZeroBytes(255);
    KindByte(h.kind);
    var a := Padded(h.name, 100) + Padded(Print(Octal, h.mode), 8);
    BytesOfConcat(Padded(h.name, 100), Padded(Print(Octal, h.mode), 8));
    BytesOfConcat(a, Padded(Print(Octal, h.owner), 8));
    BytesOfConcat(a + Padded(Print(Octal, h.owner), 8), Zeros(8));
    var b := a + Padded(Print(Octal, h.owner), 8) + Zeros(8);
    BytesOfConcat(b, Padded(Print(Octal, h.size), 12));
    BytesOfConcat(b + Padded(Print(Octal, h.size), 12), Padded(Print(Octal, h.mtime), 12));
    BytesOfConcat([KindChar(h.kind)], Padded(h.linkname, 100));
    BytesOfConcat([KindChar(h.kind)] + Padded(h.linkname, 100), Zeros(255));
  }

  lemma NameIsBytes(name: string)
    requires IsName(name)
    ensures AreBytes(Padded(name, 100))
  {
  }

  lemma PaddedBytes(t: string, width: nat)
    requires AreBytes(t) && |t| <= width
    ensures AreBytes(Padded(t, width))
  {
  }

  lemma ZeroBytes(n: nat)
    ensures AreBytes(Zeros(n))
  {
  }

  lemma KindByte(kind: nat)
    ensures AreBytes([KindChar(kind)])
  {
  }

  /** The stored checksum always has at most six octal digits. */
  lemma SumFitsSixDigits(h: Header)
    requires Storable(h)
    ensures var sum := 256 + Sum(FrontOf(h)) + Sum(BackOf(h));
      sum < Pow(Octal, 6) < U32 && 1 <= |Print(Octal, sum)| <= 6
  {
    hide Print, FrontOf, BackOf, Sum;
    FrontIsBytes(h);
    SumIsBounded(FrontOf(h));
    SumIsBounded(BackOf(h));
    ElevenDigits();
    PrintLength(Octal, 256 + Sum(FrontOf(h)) + Sum(BackOf(h)), 6);
  }

  // ---------- Reading ----------

  predicate NotNul(c: char) {
    c != '\0'
  }

  /** The C string that starts at `i`. */
  function CString(s: string, i: nat): string
    requires i <= |s|
  {
    s[i..RunEnd(NotNul, s, i)]
  }

  /** `prior` is what the target held: fields without digits keep it. */
  function RawToHeader(raw: string, prior: Header): HeaderResult
    requires |raw| == RECORD
  {
    if raw[148] == '\0' then Refused(NullRecord)
    else if ChecksumOf(raw) != ScanOctal(raw, 148, 0) then Refused(BadChecksum)
    else Loaded(Header(
      ScanOctal(raw, 100, prior.mode),
      ScanOctal(raw, 108, prior.owner),
      ScanOctal(raw, 124, prior.size),
      ScanOctal(raw, 136, prior.mtime),
      KindOf(raw[156]),
      CString(raw, 0),
      CString(raw, 157)))
  }

  lemma TextOfPadded(s: string, i: nat, t: string, width: nat)
    requires |t| <= width && TextAt(s, i, Padded(t, width))
    ensures TextAt(s, i, t) && TextAt(s, i + |t|, Zeros(width - |t|))
    ensures |t| < width ==> HasAt(s, i + |t|, '\0')
  {
    TextOfConcat(s, i, t, Zeros(width - |t|));
    if |t| < width {
      assert s[i + |t| + 0] == CharAt(Zeros(width - |t|), 0);
    }
  }

  /** Where the fields stand in a stored record. */
  lemma RawLayout(h: Header)
    requires Storable(h)
    ensures var raw := RawOf(h);
      && TextAt(raw, 0, Padded(h.name, 100))
      && |Print(Octal, h.mode)| <= 7 && TextAt(raw, 100, Padded(Print(Octal, h.mode), 8))
      && |Print(Octal, h.owner)| <= 7 && TextAt(raw, 108, Padded(Print(Octal, h.owner), 8))
      && |Print(Octal, h.size)| <= 11 && TextAt(raw, 124, Padded(Print(Octal, h.size), 12))
      && |Print(Octal, h.mtime)| <= 11 && TextAt(raw, 136, Padded(Print(Octal, h.mtime), 12))
      && TextAt(raw, 148, ChecksumField(h))
      && HasAt(raw, 156, KindChar(h.kind))
      && TextAt(raw, 157, Padded(h.linkname, 100))
  {
    FieldsFit(h);
    hide Print, TextAt, Padded, ChecksumField;
    var raw := RawOf(h);
    assert TextAt(raw, 0, raw) by { WholeText(raw); }
    TextOfConcat(raw, 0, FrontOf(h) + ChecksumField(h), BackOf(h));
    TextOfConcat(raw, 0, FrontOf(h), ChecksumField(h));
    var a, b := Padded(h.name, 100), Padded(Print(Octal, h.mode), 8);
    var c, d := Padded(Print(Octal, h.owner), 8), Padded(Print(Octal, h.size), 12);
    var e := Padded(Print(Octal, h.mtime), 12);
    TextOfConcat(raw, 0, a + b + c + Zeros(8) + d, e);
    TextOfConcat(raw, 0, a + b + c + Zeros(8), d);
    TextOfConcat(raw, 0, a + b + c, Zeros(8));
    TextOfConcat(raw, 0, a + b, c);
    TextOfConcat(raw, 0, a, b);
    var k, l := [KindChar(h.kind)], Padded(h.linkname, 100);
    TextOfConcat(raw, 156, k + l, Zeros(255));
    TextOfConcat(raw, 156, k, l);
    TextOfChar(raw, 156, KindChar(h.kind));
  }

  lemma WholeText(s: string)
    ensures TextAt(s, 0, s)
  {
  }

  lemma FieldReadsBack(raw: string, i: nat, n: nat, width: nat, unset: nat)
    requires n < U32 && |Print(Octal, n)| < width && TextAt(raw, i, Padded(Print(Octal, n), width))
    ensures ScanOctal(raw, i, unset) == n
  {
    hide Print, TextAt, IsNumeral, Value, Padded;
    var t := Print(Octal, n);
    PrintIsCanonical(Octal, n);
    TextOfPadded(raw, i, t, width);
    ScanDigits(raw, i, t, unset);
  }

  lemma NameReadsBack(raw: string, i: nat, name: string)
    requires IsName(name) && TextAt(raw, i, Padded(name, 100))
    ensures CString(raw, i) == name
  {
    TextOfPadded(raw, i, name, 100);
    forall k | i <= k < i + |name| ensures NotNul(raw[k]) {
      assert raw[i + (k - i)] == CharAt(name, k - i);
    }
    RunEndSkip(NotNul, raw, i, i + |name|);
    SliceOfText(raw, i, name);
  }

  lemma EndsWithNul(raw: string, i: nat, digits: string)
    requires TextAt(raw, i, digits + ['\0', ' '])
    ensures TextAt(raw, i, digits) && HasAt(raw, i + |digits|, '\0')
  {
    hide TextAt;
    TextOfConcat(raw, i, digits, ['\0', ' ']);
    assert ['\0', ' '] == ['\0'] + [' '];
    TextOfConcat(raw, i + |digits|, ['\0'], [' ']);
    TextOfChar(raw, i + |digits|, '\0');
  }

  lemma SixDigits(n: nat)
    requires |Print(Octal, n)| <= 6
    ensures |Octal6(n)| == 6 && IsNumeral(Octal, Octal6(n)) && Value(Octal, Octal6(n)) == n
  {
    hide Print, IsNumeral, Value;
    PrintIsCanonical(Octal, n);
    ZerosAreZero(6 - |Print(Octal, n)|);
    LeadingZeros(seq(6 - |Print(Octal, n)|, _ => '0'), Print(Octal, n));
  }

  /** A record that holds the checksum field of `h` is not null and scans to the checksum of `h`. */
  lemma ChecksumScans(raw: string, h: Header)
    requires Storable(h) && |raw| == RECORD && TextAt(raw, 148, ChecksumField(h))
    ensures raw[148] != '\0' && ScanOctal(raw, 148, 0) == 256 + Sum(FrontOf(h)) + Sum(BackOf(h))
  {
    var sum := 256 + Sum(FrontOf(h)) + Sum(BackOf(h));
    SumFitsSixDigits(h);
    var digits := Octal6(sum);
    SixDigits(sum);
    assert ChecksumField(h) == digits + ['\0', ' '];
    hide FrontOf, BackOf, Print, TextAt, IsNumeral, Value, Sum, ScanOctal, ChecksumField, Octal6;
    EndsWithNul(raw, 148, digits);
    ScanDigits(raw, 148, digits, 0);
    NumeralStartsWithDigit(raw, 148, digits);
  }

  lemma RawChecksum(h: Header)
    requires Storable(h)
    ensures ChecksumOf(RawOf(h)) == 256 + Sum(FrontOf(h)) + Sum(BackOf(h))
  {
    hide FrontOf, BackOf, Sum;
    assert RawOf(h)[..148] == FrontOf(h) && RawOf(h)[156..] == BackOf(h);
  }

  /** The stored checksum is read back as the recomputed one, and never as a null record. */
  lemma ChecksumReadsBack(h: Header)
    requires Storable(h)
    ensures var raw := RawOf(h);
      raw[148] != '\0' && ScanOctal(raw, 148, 0) == ChecksumOf(raw)
  {
    hide FrontOf, BackOf, Print, TextAt, Sum, ChecksumOf, RawOf, ScanOctal, ChecksumField;
    RawLayout(h);
    RawChecksum(h);
    ChecksumScans(RawOf(h), h);
  }

  lemma {:induction false} SumOfUpdate(s: string, i: nat, c: char)
    requires i < |s|
    ensures Sum(s[i := c]) == Sum(s) - s[i] as int + c as int
  {
    var n := |s| - 1;
    if i == n {
      assert s[i := c][..n] == s[..n];
    } else {
      SumOfUpdate(s[..n], i, c);
      assert s[i := c][..n] == s[..n][i := c];
    }
  }

  /** Changing any one byte of a stored record outside the checksum field is noticed. */
  lemma DamageIsNoticed(h: Header, i: nat, c: char, prior: Header)
    requires Storable(h) && i < RECORD && !(148 <= i < 156) && c != RawOf(h)[i]
    ensures RawToHeader(RawOf(h)[i := c], prior) == Refused(BadChecksum)
  {
    hide FrontOf, BackOf, Print, TextAt, Sum, ScanOctal, ChecksumField, RawOf;
    var raw, bad := RawOf(h), RawOf(h)[i := c];
    RawLayout(h);
    RawChecksum(h);
    SliceOfText(raw, 148, ChecksumField(h));
    assert bad[148..156] == raw[148..156];
    TextOfSlice(bad, 148, 156);
    ChecksumScans(bad, h);
    if i < 148 {
      SumOfUpdate(raw[..148], i, c);
      assert bad[..148] == raw[..148][i := c] && bad[156..] == raw[156..];
    } else {
      SumOfUpdate(raw[156..], i - 156, c);
      assert bad[156..] == raw[156..][i - 156 := c] && bad[..148] == raw[..148];
    }
  }

  lemma NumeralStartsWithDigit(s: string, i: nat, digits: string)
    requires TextAt(s, i, digits) && digits != "" && IsNumeral(Octal, digits)
    ensures i < |s| && s[i] != '\0'
  {
    assert s[i + 0] == CharAt(digits, 0);
    assert IsDigit(Octal, digits[0]);
  }

  function Normalised(h: Header): Header {
    h.(kind := KindOf(KindChar(h.kind)))
  }

  /** The type survives exactly when it is a set one in the range of a signed byte. */
  lemma TypeSurvives(h: Header)
    requires Storable(h)
    ensures Normalised(h) == h <==> 0 < h.kind < 128 || U32 - 128 <= h.kind
    ensures h.kind == 0 ==> Normalised(h) == h.(kind := TREG)
  {
  }

  /** Loading a stored record gives the header back, with its type normalised. */
  lemma LoadOfStore(h: Header, prior: Header)
    requires Storable(h)
    ensures RawToHeader(RawOf(h), prior) == Loaded(Normalised(h))
  {
    hide Print, TextAt, RawOf, ChecksumOf, ScanOctal, CString, Pow;
    var raw := RawOf(h);
    ChecksumReadsBack(h);
    RawLayout(h);
    SevenDigits();
    FieldReadsBack(raw, 100, h.mode, 8, prior.mode);
    FieldReadsBack(raw, 108, h.owner, 8, prior.owner);
    FieldReadsBack(raw, 124, h.size, 12, prior.size);
    FieldReadsBack(raw, 136, h.mtime, 12, prior.mtime);
    NameReadsBack(raw, 0, h.name);
    NameReadsBack(raw, 157, h.linkname);
  }

  lemma SevenDigits()
    ensures Pow(Octal, 7) < U32
  {
    ElevenDigits();
    assert Pow(Octal, 7) == Scale(Octal, Pow(Octal, 6));
  }

  /** Different headers are stored differently. */
  lemma StoreIsInjective(h: Header, k: Header)
    requires Storable(h) && Storable(k) && RawOf(h) == RawOf(k)
    ensures Normalised(h) == Normalised(k)
  {
    LoadOfStore(h, h);
    LoadOfStore(k, h);
  }
}
