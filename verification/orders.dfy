/** Three-way comparisons and the lexicographic order they induce on sequences. */
module Orders {

  /** `cmp` answers -1, 0 or 1, answers 0 only for equal arguments, and is a total order. */
  ghost predicate IsTotalOrder<T(!new)>(cmp: (T, T) -> int) {
    && (forall x, y :: -1 <= cmp(x, y) <= 1)
    && (forall x, y :: cmp(x, y) == 0 <==> x == y)
    && (forall x, y :: cmp(x, y) == -cmp(y, x))
    && (forall x, y, z :: cmp(x, y) <= 0 && cmp(y, z) <= 0 ==> cmp(x, z) <= 0)
  }

  function CompareInts(a: int, b: int): int {
    if a < b then -1 else if b < a then 1 else 0
  }

  function CompareChars(a: char, b: char): int {
    if a < b then -1 else if b < a then 1 else 0
  }

  /** First difference decides; a proper prefix is smaller. */
  function LexBy<T>(cmp: (T, T) -> int, a: seq<T>, b: seq<T>): int {
    if a == [] && b == [] then 0
    else if a == [] then -1
    else if b == [] then 1
    else if cmp(a[0], b[0]) != 0 then cmp(a[0], b[0])
    else LexBy(cmp, a[1..], b[1..])
  }

  lemma {:induction false} LexZeroIffEqual<T(!new)>(cmp: (T, T) -> int, a: seq<T>, b: seq<T>)
    requires IsTotalOrder(cmp)
    ensures LexBy(cmp, a, b) == 0 <==> a == b
  {
    if a != [] && b != [] {
      LexZeroIffEqual(cmp, a[1..], b[1..]);
      assert a == [a[0]] + a[1..] && b == [b[0]] + b[1..];
    }
  }

  lemma {:induction false} LexAntisymmetric<T(!new)>(cmp: (T, T) -> int, a: seq<T>, b: seq<T>)
    requires IsTotalOrder(cmp)
    ensures LexBy(cmp, a, b) == -LexBy(cmp, b, a)
    ensures -1 <= LexBy(cmp, a, b) <= 1
  {
    if a != [] && b != [] {
      LexAntisymmetric(cmp, a[1..], b[1..]);
      assert cmp(a[0], b[0]) == -cmp(b[0], a[0]);
    }
  }

  lemma {:induction false} LexTransitive<T(!new)>(cmp: (T, T) -> int, a: seq<T>, b: seq<T>, c: seq<T>)
    requires IsTotalOrder(cmp)
    requires LexBy(cmp, a, b) <= 0 && LexBy(cmp, b, c) <= 0
    ensures LexBy(cmp, a, c) <= 0
  {
    if a != [] && b != [] && c != [] {
      var ab, bc, ac := cmp(a[0], b[0]), cmp(b[0], c[0]), cmp(a[0], c[0]);
      assert ac <= 0;
      if ac == 0 {
        assert cmp(b[0], a[0]) == -ab;
        assert ab == 0 && bc == 0;
        LexTransitive(cmp, a[1..], b[1..], c[1..]);
      }
    }
  }

  /** A total order on elements induces a total order on sequences. */
  lemma LexIsTotalOrder<T(!new)>(cmp: (T, T) -> int)
    requires IsTotalOrder(cmp)
    ensures IsTotalOrder((a: seq<T>, b: seq<T>) => LexBy(cmp, a, b))
  {
    forall a: seq<T>, b: seq<T> ensures
        && -1 <= LexBy(cmp, a, b) <= 1
        && (LexBy(cmp, a, b) == 0 <==> a == b)
        && LexBy(cmp, a, b) == -LexBy(cmp, b, a)
    {
      LexZeroIffEqual(cmp, a, b);
      LexAntisymmetric(cmp, a, b);
    }
    forall a: seq<T>, b: seq<T>, c: seq<T> | LexBy(cmp, a, b) <= 0 && LexBy(cmp, b, c) <= 0
      ensures LexBy(cmp, a, c) <= 0
    {
      LexTransitive(cmp, a, b, c);
    }
  }

  /**
   * Appending an element that is least among the elements of `b` gives the immediate
   * successor of `a`: above `a`, and at or below every `b` that is above `a`.
   */
  lemma {:induction false} LexSuccessor<T(!new)>(cmp: (T, T) -> int, a: seq<T>, b: seq<T>, least: T)
    requires IsTotalOrder(cmp)
    requires forall i :: 0 <= i < |b| ==> cmp(least, b[i]) <= 0
    ensures LexBy(cmp, a, a + [least]) < 0
    ensures LexBy(cmp, a, b) < 0 ==> LexBy(cmp, a + [least], b) <= 0
  {
    if a == [] {
      assert (a + [least])[1..] == [];
    } else {
      assert (a + [least])[1..] == a[1..] + [least];
      LexSuccessor(cmp, a[1..], if b == [] then [] else b[1..], least);
    }
  }

  /** A common prefix does not influence the comparison. */
  lemma {:induction false} LexCommonPrefix<T(!new)>(cmp: (T, T) -> int, p: seq<T>, a: seq<T>, b: seq<T>)
    requires IsTotalOrder(cmp)
    ensures LexBy(cmp, p + a, p + b) == LexBy(cmp, a, b)
  {
    if p == [] {
      assert p + a == a && p + b == b;
    } else {
      assert (p + a)[1..] == p[1..] + a && (p + b)[1..] == p[1..] + b;
      LexCommonPrefix(cmp, p[1..], a, b);
    }
  }

  /** `a` is a proper prefix of `b`, or below it at the first element in which they differ. */
  ghost predicate FirstDifferenceBelow<T(!new)>(cmp: (T, T) -> int, a: seq<T>, b: seq<T>) {
    || (|a| < |b| && a == b[..|a|])
    || exists k :: 0 <= k < |a| && k < |b| && a[..k] == b[..k] && cmp(a[k], b[k]) < 0
  }

  lemma SameFirstElement<T(!new)>(cmp: (T, T) -> int, a: seq<T>, b: seq<T>)
    requires a != [] && b != [] && a[0] == b[0]
    ensures FirstDifferenceBelow(cmp, a[1..], b[1..]) ==> FirstDifferenceBelow(cmp, a, b)
  {
    var x, y := a[1..], b[1..];
    assert a == [a[0]] + x && b == [b[0]] + y;
    if |x| < |y| && x == y[..|x|] {
      assert b[..|a|] == [b[0]] + y[..|x|];
    } else if k :| 0 <= k < |x| && k < |y| && x[..k] == y[..k] && cmp(x[k], y[k]) < 0 {
      assert a[..k + 1] == [a[0]] + x[..k] && b[..k + 1] == [b[0]] + y[..k];
      assert cmp(a[k + 1], b[k + 1]) < 0;
    }
  }

  lemma WithoutFirstElement<T(!new)>(cmp: (T, T) -> int, a: seq<T>, b: seq<T>)
    requires a != [] && b != [] && a[0] == b[0] && cmp(a[0], b[0]) == 0
    ensures FirstDifferenceBelow(cmp, a, b) ==> FirstDifferenceBelow(cmp, a[1..], b[1..])
  {
    var x, y := a[1..], b[1..];
    if |a| < |b| && a == b[..|a|] {
      assert x == b[..|a|][1..] == y[..|x|];
    } else if k :| 0 <= k < |a| && k < |b| && a[..k] == b[..k] && cmp(a[k], b[k]) < 0 {
      assert k > 0;
      assert x[..k - 1] == a[..k][1..] == b[..k][1..] == y[..k - 1];
      assert cmp(x[k - 1], y[k - 1]) < 0;
    }
  }

  lemma FirstElementsDiffer<T(!new)>(cmp: (T, T) -> int, a: seq<T>, b: seq<T>)
    requires a != [] && b != [] && a[0] != b[0]
    ensures FirstDifferenceBelow(cmp, a, b) <==> cmp(a[0], b[0]) < 0
  {
    if cmp(a[0], b[0]) < 0 {
      assert a[..0] == b[..0];
    }
  }

  lemma {:induction false} LexIsFirstDifference<T(!new)>(cmp: (T, T) -> int, a: seq<T>, b: seq<T>)
    requires IsTotalOrder(cmp)
    ensures LexBy(cmp, a, b) < 0 <==> FirstDifferenceBelow(cmp, a, b)
  {
    if a != [] && b != [] {
      assert cmp(a[0], b[0]) == 0 <==> a[0] == b[0];
      hide FirstDifferenceBelow;
      if a[0] == b[0] {
        LexIsFirstDifference(cmp, a[1..], b[1..]);
        SameFirstElement(cmp, a, b);
        WithoutFirstElement(cmp, a, b);
      } else {
        FirstElementsDiffer(cmp, a, b);
      }
    } else if a == [] && b != [] {
      assert b[..0] == a;
    }
  }
}
