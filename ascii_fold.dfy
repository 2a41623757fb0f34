/**
  StringComparison.OrdinalIgnoreCase, restricted to ASCII: two strings are
  equal ignoring case when they agree after mapping 'a'..'z' to 'A'..'Z'.
  Characters outside ASCII compare exactly.
*/
module AsciiFold {

  function UpperAscii(c: char): (u: char)
    ensures 'a' <= c <= 'z' ==> u as int == c as int - 32
    ensures !('a' <= c <= 'z') ==> u == c
    ensures !('a' <= u <= 'z')
  {
    if 'a' <= c <= 'z' then (c as int - 32) as char else c
  }

  function Fold(s: string): (f: string)
    ensures |f| == |s|
    ensures forall i :: 0 <= i < |s| ==> f[i] == UpperAscii(s[i])
    ensures forall i :: 0 <= i < |f| ==> !('a' <= f[i] <= 'z') && UpperAscii(f[i]) == f[i]
  {
    seq(|s|, i requires 0 <= i < |s| => UpperAscii(s[i]))
  }

  /** a.Equals(b, StringComparison.OrdinalIgnoreCase) */
  predicate EqualsIgnoreCase(a: string, b: string) {
    Fold(a) == Fold(b)
  }

  /** s.StartsWith(prefix, StringComparison.OrdinalIgnoreCase) */
  predicate StartsWithIgnoreCase(s: string, prefix: string) {
    |prefix| <= |s| && EqualsIgnoreCase(s[..|prefix|], prefix)
  }

  lemma FoldIdempotent(s: string)
    ensures Fold(Fold(s)) == Fold(s)
  {
  }

  lemma FoldPrefix(s: string, n: nat)
    requires n <= |s|
    ensures Fold(s[..n]) == Fold(s)[..n]
  {
  }

  /** Equality ignoring case is an equivalence relation. */
  lemma EqualsIgnoreCaseEquivalence(a: string, b: string, c: string)
    ensures EqualsIgnoreCase(a, a)
    ensures EqualsIgnoreCase(a, b) ==> EqualsIgnoreCase(b, a)
    ensures EqualsIgnoreCase(a, b) && EqualsIgnoreCase(b, c) ==> EqualsIgnoreCase(a, c)
  {
  }

  /** Strings equal ignoring case have the same length and the same prefixes ignoring case. */
  lemma {:induction false} StartsWithRespectsCase(a: string, b: string, prefix: string)
    requires EqualsIgnoreCase(a, b)
    ensures StartsWithIgnoreCase(a, prefix) <==> StartsWithIgnoreCase(b, prefix)
  {
    assert |a| == |Fold(a)| == |Fold(b)| == |b|;
    if |prefix| <= |a| {
      FoldPrefix(a, |prefix|);
      FoldPrefix(b, |prefix|);
    }
  }
}
