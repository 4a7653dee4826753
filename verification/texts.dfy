/** Scanning runs of characters, and texts that stand inside a string. */
module Texts {

  /** The end of the longest run of characters satisfying `p` that starts at `i`. */
  function RunEnd(p: char -> bool, s: string, i: nat): (e: nat)
    requires i <= |s|
    ensures i <= e <= |s|
    ensures forall k :: i <= k < e ==> p(s[k])
    ensures e < |s| ==> !p(s[e])
    decreases |s| - i
  {
    if i < |s| && p(s[i]) then RunEnd(p, s, i + 1) else i
  }

  predicate HasAt(s: string, i: nat, c: char) {
    i < |s| && s[i] == c
  }

  lemma {:induction false} RunEndSkip(p: char -> bool, s: string, i: nat, j: nat)
    requires i <= j <= |s|
    requires forall k :: i <= k < j ==> p(s[k])
    ensures RunEnd(p, s, i) == RunEnd(p, s, j) >= j
    decreases j - i
  {
    if i < j {
      RunEndSkip(p, s, i + 1, j);
    }
  }

  /** Names a character, so that texts are compared only where a proof asks for it. */
  function CharAt(t: string, k: nat): char
    requires k < |t|
  {
    t[k]
  }

  /** `t` stands in `s` at position `i`. */
  predicate TextAt(s: string, i: nat, t: string) {
    i + |t| <= |s| && forall k {:trigger CharAt(t, k)} :: 0 <= k < |t| ==> s[i + k] == CharAt(t, k)
  }

  lemma TextOfSlice(s: string, i: nat, j: nat)
    requires i <= j <= |s|
    ensures TextAt(s, i, s[i..j])
  {
  }

  lemma SliceOfText(s: string, i: nat, t: string)
    requires TextAt(s, i, t)
    ensures s[i..i + |t|] == t
  {
    forall k | 0 <= k < |t| ensures s[i..i + |t|][k] == t[k] {
      assert s[i + k] == CharAt(t, k);
    }
  }

  lemma TextOfConcat(s: string, i: nat, a: string, b: string)
    ensures TextAt(s, i, a + b) <==> TextAt(s, i, a) && TextAt(s, i + |a|, b)
  {
    var t := a + b;
    if TextAt(s, i, t) {
      forall k | 0 <= k < |a| ensures s[i + k] == CharAt(a, k) {
        assert CharAt(t, k) == a[k];
      }
      forall k | 0 <= k < |b| ensures s[i + |a| + k] == CharAt(b, k) {
        assert CharAt(t, |a| + k) == b[k];
      }
    }
    if TextAt(s, i, a) && TextAt(s, i + |a|, b) {
      forall k | 0 <= k < |t| ensures s[i + k] == CharAt(t, k) {
        assert t[k] == if k < |a| then CharAt(a, k) else CharAt(b, k - |a|);
      }
    }
  }

  lemma TextOfChar(s: string, i: nat, c: char)
    ensures TextAt(s, i, [c]) <==> HasAt(s, i, c)
  {
    if TextAt(s, i, [c]) {
      assert s[i + 0] == CharAt([c], 0);
    }
  }
}
