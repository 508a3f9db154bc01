/** Case-insensitive comparison of paths, as `String.equalsIgnoreCase`
    performs it, restricted to ASCII letters: two strings match when they
    have the same length and agree character by character once upper-case
    ASCII letters are folded to lower case. */
module CaseFold {

  /** Folds an upper-case ASCII letter to lower case; every other character is kept. */
  function Fold(c: char): char {
    if 'A' <= c <= 'Z' then (c as int + 32) as char else c
  }

  predicate EqualsIgnoreCase(a: string, b: string) {
    |a| == |b| && (|a| == 0 || (Fold(a[0]) == Fold(b[0]) && EqualsIgnoreCase(a[1..], b[1..])))
  }

  /** The recursive definition compares every position. */
  lemma {:induction false} EqualsIgnoreCasePointwise(a: string, b: string)
    ensures EqualsIgnoreCase(a, b) <==> |a| == |b| && forall i :: 0 <= i < |a| ==> Fold(a[i]) == Fold(b[i])
  {
    if |a| > 0 && |a| == |b| {
      EqualsIgnoreCasePointwise(a[1..], b[1..]);
      assert forall i :: 1 <= i < |a| ==> a[i] == a[1..][i - 1] && b[i] == b[1..][i - 1];
    }
  }

  /** Matching is an equivalence: reflexive, symmetric and transitive. */
  lemma EqualsIgnoreCaseIsEquivalence(a: string, b: string, c: string)
    ensures EqualsIgnoreCase(a, a)
    ensures EqualsIgnoreCase(a, b) ==> EqualsIgnoreCase(b, a)
    ensures EqualsIgnoreCase(a, b) && EqualsIgnoreCase(b, c) ==> EqualsIgnoreCase(a, c)
  {
    EqualsIgnoreCasePointwise(a, a);
    EqualsIgnoreCasePointwise(a, b);
    EqualsIgnoreCasePointwise(b, a);
    EqualsIgnoreCasePointwise(b, c);
    EqualsIgnoreCasePointwise(a, c);
  }
}
