/** Comparing strings without regard to case, as strcasecmp and strncasecmp do in the C
    locale. */
module CaseFold {

  function Fold(c: char): char {
    if 'A' <= c <= 'Z' then (c as int + 32) as char else c
  }

  /** `u` and `l` are the same letter in upper and lower case. */
  predicate Cases(u: char, l: char) {
    'A' <= u <= 'Z' && 'a' <= l <= 'z' && u as int - 'A' as int == l as int - 'a' as int
  }

  /** Two characters are taken for the same exactly if they are, or are the two cases of a letter. */
  lemma FoldIff(a: char, b: char)
    ensures Fold(a) == Fold(b) <==> a == b || Cases(a, b) || Cases(b, a)
  {
  }

  predicate EqualFold(a: string, b: string) {
    |a| == |b| && forall i :: 0 <= i < |a| ==> Fold(a[i]) == Fold(b[i])
  }

  /** Two strings are taken for the same exactly if their characters are, one by one. */
  lemma EqualFoldIff(a: string, b: string)
    ensures EqualFold(a, b) <==>
            |a| == |b| && forall i :: 0 <= i < |a| ==> a[i] == b[i] || Cases(a[i], b[i]) || Cases(b[i], a[i])
  {
    hide Fold, Cases;
    forall i | 0 <= i < |a| && i < |b|
      ensures Fold(a[i]) == Fold(b[i]) <==> a[i] == b[i] || Cases(a[i], b[i]) || Cases(b[i], a[i])
    {
      FoldIff(a[i], b[i]);
    }
  }

  lemma FoldSame(s: string)
    ensures EqualFold(s, s)
  {
  }

  lemma FoldJoins(a: string, b: string, c: string)
    requires EqualFold(a, b)
    ensures EqualFold(b, a) && (EqualFold(a, c) <==> EqualFold(b, c))
  {
    hide Fold;
  }
}
