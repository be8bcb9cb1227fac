/** Step 3 of `text_clean`: `text.lower()`, over the ASCII letters. */
module Casing {

  predicate IsUpper(c: char) {
    'A' <= c <= 'Z'
  }

  function LowerChar(c: char): char {
    if IsUpper(c) then (c as int + 32) as char else c
  }

  /** `s.lower()`: every letter `A`-`Z` becomes its `a`-`z` counterpart and
      every other character is left as it is. */
  function Lower(s: string): (r: string)
    ensures |r| == |s|
    ensures forall i :: 0 <= i < |s| ==> !IsUpper(r[i])
    ensures forall i :: 0 <= i < |s| && !IsUpper(s[i]) ==> r[i] == s[i]
    ensures forall i :: 0 <= i < |s| && IsUpper(s[i]) ==>
      'a' <= r[i] <= 'z' && r[i] as int - 'a' as int == s[i] as int - 'A' as int
  {
    seq(|s|, i requires 0 <= i < |s| => LowerChar(s[i]))
  }

  /** Lowercasing changes a string exactly when it holds an upper-case
      letter. */
  lemma LowerUnchangedIff(s: string)
    ensures Lower(s) == s <==> forall i :: 0 <= i < |s| ==> !IsUpper(s[i])
  {
    if Lower(s) == s {
      assert forall i :: 0 <= i < |s| ==> !IsUpper(Lower(s)[i]);
    }
  }

  /** Lowercasing an already lower-cased string changes nothing. */
  lemma LowerIdempotent(s: string)
    ensures Lower(Lower(s)) == Lower(s)
  {
    LowerUnchangedIff(Lower(s));
  }

  /** Lowercasing only produces lower-case letters, so it brings in no
      character of a set that holds none of them. */
  lemma LowerAddsNothingFrom(s: string, cs: string)
    requires forall i :: 0 <= i < |s| ==> s[i] !in cs
    requires forall c :: 'a' <= c <= 'z' ==> c !in cs
    ensures forall i :: 0 <= i < |s| ==> Lower(s)[i] !in cs
  {
  }
}
