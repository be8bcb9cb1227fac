/** `text_clean` and `transform_func` of
    NLP/001_DisasterTweets/modules/text_cleaning.py. The word tokenizer, the
    lemmatizer and the English stop-word list come from NLTK; here they are
    parameters: `tok`, `lem` and `stops`. */
module TextCleaning {
  import opened Sequences
  import opened Links
  import opened PunctuationRemoval
  import opened Casing
  import opened Tokens

  /** The text handed to the tokenizer: links removed, then punctuation
      removed, then lower-cased. */
  function Normalize(text: string): (r: string)
    ensures |r| <= |text|
  {
    Lower(Without(StripLinks(text), Punctuation))
  }

  /** The text handed to the tokenizer holds no punctuation and no
      upper-case letter. */
  lemma NormalizeRemovesAll(text: string)
    ensures var r := Normalize(text);
      forall i :: 0 <= i < |r| ==> r[i] !in Punctuation && !IsUpper(r[i])
  {
    var unpunctuated := Without(StripLinks(text), Punctuation);
    PunctuationIsAsciiSymbols();
    LowerAddsNothingFrom(unpunctuated, Punctuation);
  }

  /** What `text_clean` returns: the lemmas of the tokens of the normalized
      text that are not stop words, joined by single spaces. */
  function Clean(tok: string -> seq<string>, lem: string -> string, stops: seq<string>, text: string): string {
    Join(FilterLemmatize(tok(Normalize(text)), lem, stops))
  }

  /** `text_clean(text)`, statement by statement: `out` is reassigned by
      each step, and the punctuation loop deletes one character of
      `string.punctuation` per iteration. */
  method TextClean(tok: string -> seq<string>, lem: string -> string, stops: seq<string>, text: string)
    returns (out: string)
    ensures out == Clean(tok, lem, stops, text)
  {
    out := text;
    out := StripLinks(out);
    ghost var linkFree := out;
    WithoutUnchangedIff(linkFree, []);
    for i := 0 to |Punctuation|
      invariant out == Without(linkFree, Punctuation[..i])
    {
      WithoutTwice(linkFree, Punctuation[..i], [Punctuation[i]]);
      assert Punctuation[..i] + [Punctuation[i]] == Punctuation[..i + 1];
      out := Without(out, [Punctuation[i]]);
    }
    assert Punctuation[..|Punctuation|] == Punctuation;
    out := Lower(out);
    var tokens := tok(out);
    tokens := FilterLemmatize(tokens, lem, stops);
    out := Join(tokens);
  }

  /** The empty string is cleaned to the empty string, given a tokenizer
      that finds no token in it (as `word_tokenize("")` does). */
  lemma CleanEmpty(tok: string -> seq<string>, lem: string -> string, stops: seq<string>)
    requires tok("") == []
    ensures Clean(tok, lem, stops, "") == ""
  {
    assert Normalize("") == "";
  }

  /** When every token is a stop word the result is the empty string. */
  lemma CleanAllStopWords(tok: string -> seq<string>, lem: string -> string, stops: seq<string>, text: string)
    requires forall w :: w in tok(Normalize(text)) ==> w in stops
    ensures Clean(tok, lem, stops, text) == ""
  {
  }

  /** When no surviving token's lemma holds a space and some token survives, splitting the
      result on spaces gives exactly the lemmas of the surviving tokens, in
      the tokenizer's order. */
  lemma CleanSplitsIntoLemmas(tok: string -> seq<string>, lem: string -> string, stops: seq<string>, text: string)
    requires forall w :: w in Without(tok(Normalize(text)), stops) ==> ' ' !in lem(w)
    requires Without(tok(Normalize(text)), stops) != []
    ensures var kept := Without(tok(Normalize(text)), stops);
      var words := Split(Clean(tok, lem, stops, text));
      && |words| == |kept|
      && forall i :: 0 <= i < |kept| ==> words[i] == lem(kept[i])
  {
    var tokens := tok(Normalize(text));
    var lemmas := FilterLemmatize(tokens, lem, stops);
    FilterLemmatizeMapsSurvivors(tokens, lem, stops);
    forall w | w in lemmas
      ensures ' ' !in w
    {
      var i :| 0 <= i < |lemmas| && lemmas[i] == w;
      assert w == lem(Without(tokens, stops)[i]);
      assert Without(tokens, stops)[i] in Without(tokens, stops);
    }
    SplitJoin(lemmas);
  }

  /** Links are matched before lower-casing, and the pattern is
      case-sensitive: an upper-case word such as `HTTPSTCO` is not removed,
      and reaches the tokenizer lower-cased, as a `http...` word that the
      link pattern would have matched. */
  lemma UpperCaseLinkSurvives(text: string)
    requires forall i :: 0 <= i < |text| ==> IsUpper(text[i])
    requires |text| >= 5 && text[0] == 'H' && text[1] == 'T' && text[2] == 'T' && text[3] == 'P'
    ensures Normalize(text) == Lower(text)
    ensures LinkAt(Normalize(text), 0)
  {
    CapitalsHaveNoLink(text);
    CapitalsKeptByPunctuationLoop(text);
    var low := Lower(text);
    assert low[0] == 'h' && low[1] == 't' && low[2] == 't' && low[3] == 'p';
    assert 'a' <= low[4] <= 'z';
  }

  /** A text of capital letters holds no punctuation, so the punctuation
      loop leaves it as it is. */
  lemma CapitalsKeptByPunctuationLoop(text: string)
    requires forall i :: 0 <= i < |text| ==> IsUpper(text[i])
    ensures Without(text, Punctuation) == text
  {
    CapitalsAreNotSymbols(text);
    PunctuationIsAsciiSymbols();
    NoSymbolsNothingDeleted(text, Punctuation);
  }

  /** Capital letters are not ASCII symbols, so none is punctuation. */
  lemma CapitalsAreNotSymbols(text: string)
    requires forall i :: 0 <= i < |text| ==> IsUpper(text[i])
    ensures forall i :: 0 <= i < |text| ==> !IsAsciiSymbol(text[i])
  {
  }

  /** The link pattern is case-sensitive: a text of capital letters holds
      no link. */
  lemma CapitalsHaveNoLink(text: string)
    requires forall i :: 0 <= i < |text| ==> IsUpper(text[i])
    ensures StripLinks(text) == text
  {
    assert forall i :: 0 <= i < |text| ==> text[i] != 'h';
    StripLinksIdentity(text);
  }

  /** Punctuation is deleted after links are, so deleting it can put a
      link together: `h.ttpx` holds no link, passes the link step as it is,
      and reaches the tokenizer as the link `httpx`. */
  lemma PunctuationFormsLink(rest: string)
    requires |rest| >= 4 && rest[0] == 't' && rest[1] == 't' && rest[2] == 'p'
    requires forall i :: 0 <= i < |rest| ==> 'a' <= rest[i] <= 'z'
    requires NoLink(rest)
    ensures StripLinks(['h'] + (['.'] + rest)) == ['h'] + (['.'] + rest)
    ensures Normalize(['h'] + (['.'] + rest)) == ['h'] + rest
    ensures LinkAt(Normalize(['h'] + (['.'] + rest)), 0)
  {
    BrokenHttpNoLink('.', rest);
    FullStopAfterHDeleted(rest);
    LetterTextKeptByLower(['h'] + rest);
  }

  /** The punctuation loop deletes the full stop of `h.` followed by
      lower-case letters, and nothing else. */
  lemma FullStopAfterHDeleted(rest: string)
    requires forall i :: 0 <= i < |rest| ==> 'a' <= rest[i] <= 'z'
    ensures Without(['h'] + (['.'] + rest), Punctuation) == ['h'] + rest
  {
    FullStopIsPunctuation();
    PunctuationIsAsciiSymbols();
    SymbolAfterHDeleted('.', rest, Punctuation);
  }

  /** A deleted symbol between `h` and a run of lower-case letters is
      removed, and nothing else is, when only ASCII symbols are deleted. */
  lemma SymbolAfterHDeleted(p: char, rest: string, drop: string)
    requires forall c :: c in drop ==> IsAsciiSymbol(c)
    requires p in drop
    requires forall i :: 0 <= i < |rest| ==> 'a' <= rest[i] <= 'z'
    ensures Without(['h'] + ([p] + rest), drop) == ['h'] + rest
  {
    var left := ['h'];
    LettersAreNotSymbols(left);
    LettersAreNotSymbols(rest);
    GlueAcrossSymbol(left, p, rest, drop);
  }

  /** Lower-case letters are not ASCII symbols. */
  lemma LettersAreNotSymbols(s: string)
    requires forall i :: 0 <= i < |s| ==> 'a' <= s[i] <= 'z'
    ensures forall i :: 0 <= i < |s| ==> !IsAsciiSymbol(s[i])
  {
  }

  /** Lower-casing leaves a run of lower-case letters as it is. */
  lemma LetterTextKeptByLower(s: string)
    requires forall i :: 0 <= i < |s| ==> 'a' <= s[i] <= 'z'
    ensures Lower(s) == s
  {
    LowerUnchangedIff(s);
  }

  /** `h`, then a character that is not a letter, then a text without
      links holds no link. */
  lemma BrokenHttpNoLink(p: char, rest: string)
    requires !('a' <= p <= 'z')
    requires NoLink(rest)
    ensures NoLink(['h'] + ([p] + rest))
    ensures StripLinks(['h'] + ([p] + rest)) == ['h'] + ([p] + rest)
  {
    var text := ['h'] + ([p] + rest);
    assert text[1] == p;
    forall i | 0 <= i < |text|
      ensures !LinkAt(text, i)
    {
      if i >= 2 {
        LinkAtCons('h', [p] + rest, i - 1);
        LinkAtCons(p, rest, i - 2);
      }
    }
    StripLinksIdentity(text);
  }

  /** The first three steps are not idempotent: the lower-cased word left
      by an upper-case link is a link the second time round, and is
      deleted. */
  lemma NormalizeNotIdempotent(text: string)
    requires forall i :: 0 <= i < |text| ==> IsUpper(text[i])
    requires |text| >= 5 && text[0] == 'H' && text[1] == 'T' && text[2] == 'T' && text[3] == 'P'
    ensures Normalize(text) != []
    ensures Normalize(Normalize(text)) == []
  {
    UpperCaseLinkSurvives(text);
    var once := Normalize(text);
    assert forall i :: 0 <= i < |once| ==> !IsSpace(once[i]);
    assert LinkLength(once) == |once|;
    assert StripLinks(once) == StripLinks([]);
  }

  /** A table: its columns by name, each a list of cell texts. */
  datatype Frame = Frame(columns: map<string, seq<string>>)

  /** What `transform_func` gives back: the cleaned column, or the lookup
      error of a table without a `text` column. */
  datatype Transformed = Cleaned(values: seq<string>) | KeyError(column: string)

  /** `transform_func(feature_data)`: `feature_data['text'].apply(text_clean)`.
      Indexing a missing column raises `KeyError`, which is returned here. */
  function TransformFunc(tok: string -> seq<string>, lem: string -> string, stops: seq<string>, frame: Frame): (r: Transformed)
    ensures r.Cleaned? <==> "text" in frame.columns
    ensures r.KeyError? ==> r.column == "text"
    ensures r.Cleaned? ==>
      && |r.values| == |frame.columns["text"]|
      && forall i :: 0 <= i < |r.values| ==> r.values[i] == Clean(tok, lem, stops, frame.columns["text"][i])
  {
    if "text" in frame.columns then Cleaned(Apply(text => Clean(tok, lem, stops, text), frame.columns["text"]))
    else KeyError("text")
  }
}
