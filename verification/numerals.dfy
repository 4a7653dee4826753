/** Octal and decimal numerals, most significant digit first. */
module Numerals {
  import opened Orders

  datatype Base = Octal | Decimal

  function Radix(base: Base): nat {
    if base.Octal? then 8 else 10
  }

  /** `q` times the radix, kept linear for each base. */
  function Scale(base: Base, q: int): int {
    if base.Octal? then 8 * q else 10 * q
  }

  function Quotient(base: Base, n: nat): nat {
    if base.Octal? then n / 8 else n / 10
  }

  function Remainder(base: Base, n: nat): (d: nat)
    ensures d < Radix(base)
    ensures n == Scale(base, Quotient(base, n)) + d
  {
    if base.Octal? then n % 8 else n % 10
  }

  predicate IsDigit(base: Base, c: char) {
    '0' <= c && (c as int) < '0' as int + Radix(base)
  }

  predicate IsNumeral(base: Base, s: string) {
    forall i :: 0 <= i < |s| ==> IsDigit(base, s[i])
  }

  /** A numeral as it is printed: not empty, and no leading zero unless it is "0". */
  predicate IsCanonical(base: Base, s: string) {
    s != "" && IsNumeral(base, s) && (|s| == 1 || s[0] != '0')
  }

  function DigitValue(c: char): nat
    requires '0' <= c
  {
    c as int - '0' as int
  }

  function DigitChar(d: nat): char
    requires d < 10
  {
    (d + '0' as int) as char
  }

  function Value(base: Base, s: string): nat
    requires IsNumeral(base, s)
  {
    if s == "" then 0
    else Scale(base, Value(base, s[..|s| - 1])) + DigitValue(s[|s| - 1])
  }

  function Print(base: Base, n: nat): string
    decreases n
  {
    if n < Radix(base) then [DigitChar(n)]
    else Print(base, Quotient(base, n)) + [DigitChar(Remainder(base, n))]
  }

  lemma ValueOfAppend(base: Base, s: string, c: char)
    requires IsNumeral(base, s) && IsDigit(base, c)
    ensures IsNumeral(base, s + [c])
    ensures Value(base, s + [c]) == Scale(base, Value(base, s)) + DigitValue(c)
  {
    var t := s + [c];
    assert t[..|t| - 1] == s;
  }

  lemma QuotientOfSum(base: Base, q: nat, d: nat)
    requires d < Radix(base)
    ensures Quotient(base, Scale(base, q) + d) == q && Remainder(base, Scale(base, q) + d) == d
  {
  }

  lemma {:induction false} PrintIsCanonical(base: Base, n: nat)
    ensures IsCanonical(base, Print(base, n))
    ensures n > 0 ==> Print(base, n)[0] != '0'
    ensures Value(base, Print(base, n)) == n
    decreases n
  {
    if n < Radix(base) {
      ValueOfAppend(base, "", DigitChar(n));
      assert "" + [DigitChar(n)] == [DigitChar(n)];
    } else {
      var q := Print(base, Quotient(base, n));
      PrintIsCanonical(base, Quotient(base, n));
      ValueOfAppend(base, q, DigitChar(Remainder(base, n)));
    }
  }

  lemma PrintOfAppend(base: Base, q: nat, d: nat)
    requires 0 < q && d < Radix(base)
    ensures Print(base, Scale(base, q) + d) == Print(base, q) + [DigitChar(d)]
  {
    QuotientOfSum(base, q, d);
  }

  lemma CanonicalFront(base: Base, s: string)
    requires IsCanonical(base, s) && |s| > 1
    ensures IsCanonical(base, s[..|s| - 1]) && s[..|s| - 1][0] == s[0] != '0'
  {
  }

  lemma {:induction false} PrintOfValue(base: Base, s: string)
    requires IsCanonical(base, s)
    ensures Print(base, Value(base, s)) == s
    ensures s[0] != '0' ==> Value(base, s) > 0
  {
    var front, c := s[..|s| - 1], s[|s| - 1];
    assert s == front + [c];
    ValueOfAppend(base, front, c);
    if front == "" {
      assert Value(base, front) == 0;
    } else {
      CanonicalFront(base, s);
      hide Print, Value, IsNumeral;
      PrintOfValue(base, front);
      PrintOfAppend(base, Value(base, front), DigitValue(c));
    }
  }

  function Pow(base: Base, k: nat): (p: nat)
    ensures p >= 1
  {
    if k == 0 then 1 else Scale(base, Pow(base, k - 1))
  }

  lemma {:induction false} PowMonotone(base: Base, j: nat, k: nat)
    requires j <= k
    ensures Pow(base, j) <= Pow(base, k)
    decreases k
  {
    if j < k {
      PowMonotone(base, j, k - 1);
    }
  }

  lemma {:induction false} ValueBounds(base: Base, s: string)
    requires IsNumeral(base, s)
    ensures Value(base, s) < Pow(base, |s|)
    ensures s != "" && s[0] != '0' ==> Pow(base, |s| - 1) <= Value(base, s)
  {
    if s != "" {
      var front, c := s[..|s| - 1], s[|s| - 1];
      ValueBounds(base, front);
      if front != "" {
        assert front[0] == s[0];
      }
    }
  }

  /** A numeral below radix^k is printed with at most k digits. */
  lemma PrintLength(base: Base, n: nat, k: nat)
    requires 0 < k && n < Pow(base, k)
    ensures 1 <= |Print(base, n)| <= k
  {
    PrintIsCanonical(base, n);
    var s := Print(base, n);
    if n >= Radix(base) && |s| > k {
      ValueBounds(base, s);
      PowMonotone(base, k, |s| - 1);
    }
  }

  /** The leading digit weighs radix^(length - 1). */
  lemma {:induction false} ValueFromFront(base: Base, s: string)
    requires IsNumeral(base, s) && s != ""
    ensures Value(base, s) == DigitValue(s[0]) * Pow(base, |s| - 1) + Value(base, s[1..])
  {
    var front, c := s[..|s| - 1], s[|s| - 1];
    if front == "" {
      assert Value(base, front) == 0 && s[1..] == "";
    } else {
      ValueFromFront(base, front);
      var tail := s[1..];
      assert tail == front[1..] + [c] && front[0] == s[0];
      ValueOfAppend(base, front[1..], c);
      ScaleDistributes(base, DigitValue(s[0]), Pow(base, |front| - 1), Value(base, front[1..]));
    }
  }

  lemma ScaleDistributes(base: Base, h: int, p: int, w: int)
    ensures Scale(base, h * p + w) == h * Scale(base, p) + Scale(base, w)
  {
  }

  lemma {:induction false} LeadingDigitDecides(p: nat, x: nat, y: nat, a: nat, b: nat)
    requires x < y && a < p
    ensures x * p + a < y * p + b
    decreases y
  {
    if x + 1 < y {
      LeadingDigitDecides(p, x, y - 1, a, b);
    }
    assert y * p == (y - 1) * p + p;
  }

  /** Among numerals of one length the lexicographic order is the numeric order. */
  lemma {:induction false} SameLengthLexIsNumeric(base: Base, a: string, b: string)
    requires IsNumeral(base, a) && IsNumeral(base, b) && |a| == |b|
    ensures LexBy(CompareChars, a, b) == CompareInts(Value(base, a), Value(base, b))
  {
    if a != "" {
      ValueFromFront(base, a);
      ValueFromFront(base, b);
      ValueBounds(base, a[1..]);
      ValueBounds(base, b[1..]);
      var p, x, y := Pow(base, |a| - 1), DigitValue(a[0]), DigitValue(b[0]);
      if x < y {
        LeadingDigitDecides(p, x, y, Value(base, a[1..]), Value(base, b[1..]));
      } else if y < x {
        LeadingDigitDecides(p, y, x, Value(base, b[1..]), Value(base, a[1..]));
      } else {
        SameLengthLexIsNumeric(base, a[1..], b[1..]);
      }
    }
  }

  /** Shorter canonical numerals denote smaller numbers. */
  lemma ShorterIsSmaller(base: Base, a: string, b: string)
    requires IsCanonical(base, a) && IsCanonical(base, b) && |a| < |b|
    ensures Value(base, a) < Value(base, b)
  {
    ValueBounds(base, a);
    ValueBounds(base, b);
    PowMonotone(base, |a|, |b| - 1);
  }
}
