/** Steps 5 and 6 of `text_clean`: the comprehension
    `[lemmatize(w) for w in tokens if w not in stop_words]` and
    `' '.join(...)`. The lemmatizer and the stop-word list are supplied from
    outside and are parameters here. */
module Tokens {
  import opened Sequences

  /** The list comprehension: every token that is not a stop word, in
      order, replaced by its lemma. */
  function FilterLemmatize(tokens: seq<string>, lem: string -> string, stops: seq<string>): (r: seq<string>)
    ensures |r| <= |tokens|
    ensures (forall w :: w in tokens ==> w in stops) ==> r == []
    decreases |tokens|
  {
    if tokens == [] then []
    else
      (if tokens[0] in stops then [] else [lem(tokens[0])])
      + FilterLemmatize(tokens[1..], lem, stops)
  }

  /** The comprehension first keeps the tokens that are not stop words, in
      order, and only then lemmatizes each survivor. */
  lemma {:induction false} FilterLemmatizeMapsSurvivors(tokens: seq<string>, lem: string -> string, stops: seq<string>)
    ensures var kept := Without(tokens, stops);
      && |FilterLemmatize(tokens, lem, stops)| == |kept|
      && forall i :: 0 <= i < |kept| ==> FilterLemmatize(tokens, lem, stops)[i] == lem(kept[i])
    decreases |tokens|
  {
    if tokens != [] {
      FilterLemmatizeMapsSurvivors(tokens[1..], lem, stops);
      var rest := FilterLemmatize(tokens[1..], lem, stops);
      var kept := Without(tokens[1..], stops);
      if tokens[0] !in stops {
        assert FilterLemmatize(tokens, lem, stops) == [lem(tokens[0])] + rest;
        assert Without(tokens, stops) == [tokens[0]] + kept;
      }
    }
  }

  /** The lemmatizer is never applied to a stop word: two lemmatizers that
      agree on every other word give the same list. */
  lemma {:induction false} LemmatizerSeesOnlySurvivors(tokens: seq<string>, lem1: string -> string, lem2: string -> string, stops: seq<string>)
    requires forall w :: w !in stops ==> lem1(w) == lem2(w)
    ensures FilterLemmatize(tokens, lem1, stops) == FilterLemmatize(tokens, lem2, stops)
    decreases |tokens|
  {
    if tokens != [] {
      LemmatizerSeesOnlySurvivors(tokens[1..], lem1, lem2, stops);
    }
  }

  /** The stop-word test depends only on the token: tokens processed in
      two batches give the two results one after the other. */
  lemma {:induction false} FilterLemmatizeConcat(a: seq<string>, b: seq<string>, lem: string -> string, stops: seq<string>)
    ensures FilterLemmatize(a + b, lem, stops) == FilterLemmatize(a, lem, stops) + FilterLemmatize(b, lem, stops)
    decreases |a|
  {
    if a == [] {
      assert a + b == b;
    } else {
      var head := if a[0] in stops then [] else [lem(a[0])];
      var x, y := FilterLemmatize(a[1..], lem, stops), FilterLemmatize(b, lem, stops);
      assert FilterLemmatize(a + b, lem, stops) == head + (x + y) by {
        assert (a + b)[0] == a[0] && (a + b)[1..] == a[1..] + b;
        FilterLemmatizeConcat(a[1..], b, lem, stops);
      }
      assert head + (x + y) == (head + x) + y;
    }
  }

  /** `' '.join(words)`. */
  function Join(words: seq<string>): (r: string)
    ensures words == [] ==> r == ""
    ensures |words| == 1 ==> r == words[0]
    decreases |words|
  {
    if words == [] then ""
    else if |words| == 1 then words[0]
    else words[0] + " " + Join(words[1..])
  }

  /** Words without spaces are separated by exactly one space each: the
      join of n such words holds n - 1 spaces. */
  lemma {:induction false} JoinSpaceCount(words: seq<string>)
    requires forall w :: w in words ==> ' ' !in w
    ensures multiset(Join(words))[' '] == if words == [] then 0 else |words| - 1
    decreases |words|
  {
    if words != [] {
      var w := words[0];
      assert w in words;
      assert ' ' !in multiset(w);
      if |words| > 1 {
        var rest := words[1..];
        assert forall v :: v in rest ==> v in words;
        JoinSpaceCount(rest);
        assert Join(words) == w + " " + Join(rest);
        assert multiset(Join(words)) == multiset(w) + multiset(" ") + multiset(Join(rest));
      }
    }
  }

  /** `s.split(' ')`: the pieces between single spaces, with an empty piece
      wherever two spaces meet or a space starts or ends `s`. */
  function Split(s: string): (r: seq<string>)
    ensures |r| >= 1
    ensures forall w :: w in r ==> ' ' !in w
    decreases |s|
  {
    if s == [] then [""]
    else
      var rest := Split(s[1..]);
      if s[0] == ' ' then [""] + rest
      else [[s[0]] + rest[0]] + rest[1..]
  }

  /** A word without spaces in front of ` ` and more text splits into that
      word and the pieces of the text. */
  lemma {:induction false} SplitWordThenSpace(w: string, tail: string)
    requires ' ' !in w
    ensures Split(w + " " + tail) == [w] + Split(tail)
    decreases |w|
  {
    if w == [] {
      assert w + " " + tail == [' '] + tail;
      assert ([' '] + tail)[1..] == tail;
    } else {
      SplitWordThenSpace(w[1..], tail);
      var s := w + " " + tail;
      assert s[0] == w[0] && s[1..] == w[1..] + " " + tail;
      var rest := Split(s[1..]);
      assert rest == [w[1..]] + Split(tail);
      assert Split(s) == [[w[0]] + w[1..]] + Split(tail);
      assert [w[0]] + w[1..] == w;
    }
  }

  /** A word without spaces is one piece. */
  lemma {:induction false} SplitWord(w: string)
    requires ' ' !in w
    ensures Split(w) == [w]
    decreases |w|
  {
    if w != [] {
      SplitWord(w[1..]);
      assert [w[0]] + w[1..] == w;
    }
  }

  /** Joining words that hold no space and splitting the result on spaces
      gives back the words; the join of no words is `""`, which splits
      into one empty word, so at least one word is needed. */
  lemma {:induction false} SplitJoin(words: seq<string>)
    requires |words| >= 1
    requires forall w :: w in words ==> ' ' !in w
    ensures Split(Join(words)) == words
    decreases |words|
  {
    if |words| == 1 {
      SplitWord(words[0]);
    } else {
      assert forall w :: w in words[1..] ==> w in words;
      SplitJoin(words[1..]);
      SplitWordThenSpace(words[0], Join(words[1..]));
      assert [words[0]] + words[1..] == words;
    }
  }

  /** Splitting on spaces and joining with spaces gives back the text. */
  lemma {:induction false} JoinSplit(s: string)
    ensures Join(Split(s)) == s
    decreases |s|
  {
    if s != [] {
      JoinSplit(s[1..]);
      var rest := Split(s[1..]);
      if s[0] == ' ' {
        JoinConsEmpty(rest);
      } else {
        JoinConsChar(s[0], rest[0], rest[1..]);
        assert [rest[0]] + rest[1..] == rest;
      }
      assert [s[0]] + s[1..] == s;
    }
  }

  /** The join of a first word and more words: the first word, then a
      space and the join of the others, if there are any. */
  lemma JoinCons(w: string, words: seq<string>)
    ensures Join([w] + words) == if words == [] then w else w + " " + Join(words)
  {
    var v := [w] + words;
    assert v[0] == w && v[1..] == words;
  }

  /** An empty first word puts a single space in front of the join. */
  lemma JoinConsEmpty(words: seq<string>)
    requires |words| >= 1
    ensures Join([""] + words) == [' '] + Join(words)
  {
    JoinCons("", words);
    assert "" + " " + Join(words) == [' '] + Join(words);
  }

  /** Prepending a character to the first word prepends it to the join. */
  lemma JoinConsChar(c: char, w: string, rest: seq<string>)
    ensures Join([[c] + w] + rest) == [c] + Join([w] + rest)
  {
    JoinCons([c] + w, rest);
    JoinCons(w, rest);
    if rest != [] {
      var tail := " " + Join(rest);
      assert ([c] + w) + tail == [c] + (w + tail);
    }
  }
}
