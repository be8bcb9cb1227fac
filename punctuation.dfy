/** Step 2 of `text_clean`: for each character of Python's
    `string.punctuation`, `text.replace(punct, '')`. */
module PunctuationRemoval {
  import opened Sequences
  import opened Links

  /** Python's `string.punctuation`, in its own order. */
  const Punctuation: string := "!\"#$%&'()*+,-./:;<=>?@[\\]^_`{|}~"

  /** Printable ASCII that is neither a letter, a digit nor the space. */
  predicate IsAsciiSymbol(c: char) {
    '!' <= c <= '/' || ':' <= c <= '@' || '[' <= c <= '`' || '{' <= c <= '~'
  }

  lemma PunctuationIsAsciiSymbols()
    ensures |Punctuation| == 32
    ensures forall c :: c in Punctuation ==> IsAsciiSymbol(c)
  {
    assert forall i :: 0 <= i < |Punctuation| ==> IsAsciiSymbol(Punctuation[i]);
  }

  /** A text without ASCII symbols has nothing to delete when only ASCII
      symbols are deleted, as in the punctuation loop. */
  lemma NoSymbolsNothingDeleted(s: string, drop: string)
    requires forall c :: c in drop ==> IsAsciiSymbol(c)
    requires forall i :: 0 <= i < |s| ==> !IsAsciiSymbol(s[i])
    ensures Without(s, drop) == s
  {
    WithoutUnchangedIff(s, drop);
  }

  /** The full stop is a punctuation character. */
  lemma FullStopIsPunctuation()
    ensures '.' in Punctuation
  {
  }

  /** Deleting only ASCII symbols glues two symbol-free pieces that one
      deleted symbol separates. */
  lemma GlueAcrossSymbol(left: string, p: char, right: string, drop: string)
    requires forall c :: c in drop ==> IsAsciiSymbol(c)
    requires p in drop
    requires forall i :: 0 <= i < |left| ==> !IsAsciiSymbol(left[i])
    requires forall i :: 0 <= i < |right| ==> !IsAsciiSymbol(right[i])
    ensures Without(left + ([p] + right), drop) == left + right
  {
    WithoutAround(left, p, right, drop);
  }

  /** No punctuation character is whitespace, a digit or a letter. */
  lemma PunctuationIsNotAlphanumeric(c: char)
    requires c in Punctuation
    ensures !IsSpace(c) && !('0' <= c <= '9') && !('A' <= c <= 'Z') && !('a' <= c <= 'z')
  {
    PunctuationIsAsciiSymbols();
  }

  /** `for p in ps: s = s.replace(p, '')`: each character of `ps` in turn
      has all its occurrences deleted (nothing is put in their place). This
      is the recursive form of the loop in `TextCleaning.TextClean`, whose
      invariant keeps the text equal to `Without` of the characters visited
      so far; `DeleteEachIsWithout` ties the two forms together. */
  function DeleteEach(s: string, ps: string): (r: string)
    decreases |ps|
  {
    if ps == [] then s else DeleteEach(Without(s, [ps[0]]), ps[1..])
  }

  /** Deleting the characters one at a time is one filter that keeps every
      character outside `ps`, in order. */
  lemma {:induction false} DeleteEachIsWithout(s: string, ps: string)
    ensures DeleteEach(s, ps) == Without(s, ps)
    decreases |ps|
  {
    if ps == [] {
      WithoutUnchangedIff(s, []);
    } else {
      DeleteEachIsWithout(Without(s, [ps[0]]), ps[1..]);
      WithoutTwice(s, [ps[0]], ps[1..]);
      assert [ps[0]] + ps[1..] == ps;
    }
  }

  /** The order in which the loop visits the punctuation characters does
      not matter: any permutation of them deletes the same characters. */
  lemma DeleteOrderIrrelevant(s: string, ps: string, qs: string)
    requires multiset(ps) == multiset(qs)
    ensures DeleteEach(s, ps) == DeleteEach(s, qs)
  {
    DeleteEachIsWithout(s, ps);
    DeleteEachIsWithout(s, qs);
    forall c
      ensures c in ps <==> c in qs
    {
      assert c in ps <==> c in multiset(ps);
      assert c in qs <==> c in multiset(qs);
    }
    WithoutSameMembers(s, ps, qs);
  }

  /** Deletion puts nothing where the punctuation was: two pieces of text
      separated only by punctuation are glued together, as `word,word`
      becomes `wordword`. */
  lemma {:induction false} PunctuationGluesNeighbours(left: string, p: char, right: string)
    requires p in Punctuation
    requires forall i :: 0 <= i < |left| ==> left[i] !in Punctuation
    requires forall i :: 0 <= i < |right| ==> right[i] !in Punctuation
    ensures Without(left + ([p] + right), Punctuation) == left + right
  {
    WithoutAround(left, p, right, Punctuation);
  }

  /** A contraction becomes one word. */
  lemma ContractionBecomesOneWord()
    ensures Without("don't stop", Punctuation) == "dont stop"
  {
    PunctuationIsAsciiSymbols();
    var left, right := "don", "t stop";
    assert "don't stop" == left + (['\''] + right);
    assert left + right == "dont stop";
    PunctuationGluesNeighbours(left, '\'', right);
  }
}
