# Text cleaning for the disaster-tweets classifier

A Dafny model of `text_clean` and `transform_func` from
`NLP/001_DisasterTweets/modules/text_cleaning.py`. `text_clean` turns a raw
tweet into a space-separated string of lemmas. It runs six fixed steps:

1. It deletes every `http` followed by a run of non-whitespace (`re.sub(r'http\S+', '', text)`).
2. It deletes each character of `string.punctuation`, one character per loop iteration.
3. It lower-cases the text.
4. It tokenizes the text.
5. It drops stop words and lemmatizes the other tokens.
6. It joins the result with single spaces.

`transform_func` applies `text_clean` to the `text` column of a table.

NLTK supplies the tokenizer, the WordNet lemmatizer and the English stop-word
list. The model takes them as parameters: `tok: string -> seq<string>`,
`lem: string -> string` and `stops: seq<string>`. Every property below
therefore holds for any tokenizer, lemmatizer and stop-word list that meets
the hypotheses its lemma states.

Modules, one per step:

- `Sequences`: dropping the elements that occur in a list (used for punctuation and for stop words), the subsequence relation, and `Apply` (pandas' `Series.apply`).
- `Links`: the `http\S+` substitution as a left-to-right scan. `\s` is the whitespace set of Python's `str.isspace`.
- `PunctuationRemoval`: `string.punctuation` and the deletion loop.
- `Casing`: lower-casing of `A`-`Z`.
- `Tokens`: the stop-word filter with lemmatization, `' '.join`, and `str.split(' ')` as the join's inverse.
- `TextCleaning`: the method `TextClean` follows `text_clean` statement by statement, including the punctuation loop with its invariant. It is proved equal to the specification function `Clean`. `TransformFunc` models the column adapter.

The code does not keep three promises that a plain reading of its purpose
suggests, and the model states all three:

- The link pattern is case-sensitive and runs before lower-casing. So an upper-case word such as `HTTPSTCO` reaches the tokenizer as `httpstco` (`UpperCaseLinkSurvives`).
- A bare `http` before whitespace or at the end of the text is kept (`BareHttpSurvives`).
- Punctuation is deleted after links, so deleting it can form a link. For example, `h.ttpx` holds no link and passes the link step unchanged, but reaches the tokenizer as `httpx` (`PunctuationFormsLink`).

## Model

| member | source | states |
|---|---|---|
| `Links.IsSpace` | NLP/001_DisasterTweets/modules/text_cleaning.py:29 | no contract of its own: the whitespace set that `\s` matches, which is the set of Python's `str.isspace`; the lemmas on `StripLinks` use it |
| `Links.NonSpaceRun` | NLP/001_DisasterTweets/modules/text_cleaning.py:29 | the greedy `\S+` run: every character in it is non-whitespace, and it stops at the first whitespace or at the end |
| `Links.LinkLength` | NLP/001_DisasterTweets/modules/text_cleaning.py:29 | a link match is at least 5 characters long, holds no whitespace, and ends at whitespace or at the end of the text |
| `Links.StripLinks` | NLP/001_DisasterTweets/modules/text_cleaning.py:29 | the result is no longer than the input; what it removes and keeps is stated by `StripLinksRemovesAll`, `StripLinksIdentity`, `StripLinksIsSubseq` and `StripLinksKeepsWhitespace` |
| `Links.StripLinksRemovesAll` | NLP/001_DisasterTweets/modules/text_cleaning.py:29 | after the substitution, no `http` followed by a non-whitespace character remains anywhere |
| `Links.StripLinksIdentity` | NLP/001_DisasterTweets/modules/text_cleaning.py:29 | a text with no `http` followed by a non-whitespace character is returned unchanged |
| `Links.StripLinksIsSubseq` | NLP/001_DisasterTweets/modules/text_cleaning.py:29 | the substitution only deletes: its result is a subsequence of the input |
| `Links.StripLinksKeepsWhitespace` | NLP/001_DisasterTweets/modules/text_cleaning.py:29 | every whitespace character survives as often as it occurs, so link removal never glues two words |
| `Links.StripLinksIdempotent` | NLP/001_DisasterTweets/modules/text_cleaning.py:29 | applying the substitution twice gives the same result as applying it once |
| `Links.BareHttpSurvives` | NLP/001_DisasterTweets/modules/text_cleaning.py:29 | `http` followed by whitespace or by nothing is kept, because `\S+` needs at least one character |
| `Links.StripLinksAfterLink` | NLP/001_DisasterTweets/modules/text_cleaning.py:29 | a link is deleted up to the next whitespace character, so what follows it in the result is empty or starts with whitespace |
| `Links.StripLinksNonSpacePrefix` | NLP/001_DisasterTweets/modules/text_cleaning.py:29 | a run of non-whitespace characters at the head of the result was copied unchanged from the head of the input |
| `Links.StripLinksKeptHead` | NLP/001_DisasterTweets/modules/text_cleaning.py:29 | a character kept at the head of the input does not start a link in the result |
| `Links.StripLinksHead` | NLP/001_DisasterTweets/modules/text_cleaning.py:29 | a non-whitespace first character of the result was copied from the head of the input, and the input does not start with a link |
| `PunctuationRemoval.Punctuation` | NLP/001_DisasterTweets/modules/text_cleaning.py:10 | no contract of its own: the 32 characters of `string.punctuation` in their order; `PunctuationIsAsciiSymbols` states what they are |
| `PunctuationRemoval.FullStopIsPunctuation` | NLP/001_DisasterTweets/modules/text_cleaning.py:10 | the full stop is one of the punctuation characters |
| `PunctuationRemoval.PunctuationIsAsciiSymbols` | NLP/001_DisasterTweets/modules/text_cleaning.py:10 | `string.punctuation` has 32 characters, all printable ASCII that is not a letter, a digit or the space |
| `PunctuationRemoval.PunctuationIsNotAlphanumeric` | NLP/001_DisasterTweets/modules/text_cleaning.py:10 | no punctuation character is whitespace, a digit or a letter |
| `PunctuationRemoval.NoSymbolsNothingDeleted` | NLP/001_DisasterTweets/modules/text_cleaning.py:32-33 | a text without ASCII symbols is left unchanged when only ASCII symbols are deleted |
| `PunctuationRemoval.DeleteEach` | NLP/001_DisasterTweets/modules/text_cleaning.py:32-33 | no contract of its own: the loop written as recursion, one `replace(p, '')` per character; `DeleteEachIsWithout` and `DeleteOrderIrrelevant` state its result |
| `PunctuationRemoval.DeleteEachIsWithout` | NLP/001_DisasterTweets/modules/text_cleaning.py:32-33 | deleting the characters one at a time with `replace(p, '')` equals a single filter that keeps every other character in order |
| `PunctuationRemoval.DeleteOrderIrrelevant` | NLP/001_DisasterTweets/modules/text_cleaning.py:32-33 | the loop gives the same text whatever order it visits the punctuation characters in |
| `PunctuationRemoval.PunctuationGluesNeighbours` | NLP/001_DisasterTweets/modules/text_cleaning.py:33 | a punctuation character is deleted without putting a space in its place, so its two neighbours are joined |
| `PunctuationRemoval.GlueAcrossSymbol` | NLP/001_DisasterTweets/modules/text_cleaning.py:33 | when only ASCII symbols are deleted, a deleted symbol between two symbol-free pieces leaves the two pieces joined |
| `PunctuationRemoval.ContractionBecomesOneWord` | NLP/001_DisasterTweets/modules/text_cleaning.py:32-33 | `don't stop` becomes `dont stop` |
| `Sequences.Without` | NLP/001_DisasterTweets/modules/text_cleaning.py:33 | the kept elements come from the input, none of them is in the dropped list, and the result is no longer than the input |
| `Sequences.WithoutKeepsOthers` | NLP/001_DisasterTweets/modules/text_cleaning.py:33 | every element that is not dropped is kept as often as it occurs |
| `Sequences.WithoutIsSubseq` | NLP/001_DisasterTweets/modules/text_cleaning.py:33 | the kept elements stay in their original order |
| `Sequences.WithoutTwice` | NLP/001_DisasterTweets/modules/text_cleaning.py:32-33 | dropping one list and then another is the same as dropping both lists together |
| `Sequences.WithoutSameMembers` | NLP/001_DisasterTweets/modules/text_cleaning.py:32-33 | only which characters are deleted matters, not their order or repetitions in the list |
| `Sequences.WithoutConcat` | NLP/001_DisasterTweets/modules/text_cleaning.py:33 | deletion works character by character, so it distributes over concatenation |
| `Sequences.WithoutAround` | NLP/001_DisasterTweets/modules/text_cleaning.py:33 | a deleted element between two pieces that keep everything leaves the two pieces joined |
| `Sequences.WithoutAllDropped` | NLP/001_DisasterTweets/modules/text_cleaning.py:33 | a text made only of deleted characters becomes empty |
| `Sequences.WithoutUnchangedIff` | NLP/001_DisasterTweets/modules/text_cleaning.py:33 | dropping changes the text if and only if some element of it is in the dropped list |
| `Casing.Lower` | NLP/001_DisasterTweets/modules/text_cleaning.py:36 | the length is unchanged, no `A`-`Z` remains, every other character is untouched, and each upper-case letter becomes the same letter in lower case |
| `Casing.LowerUnchangedIff` | NLP/001_DisasterTweets/modules/text_cleaning.py:36 | lower-casing changes the text if and only if it contains an upper-case letter |
| `Casing.LowerIdempotent` | NLP/001_DisasterTweets/modules/text_cleaning.py:36 | lower-casing twice gives the same result as lower-casing once |
| `Casing.LowerAddsNothingFrom` | NLP/001_DisasterTweets/modules/text_cleaning.py:36 | lower-casing adds no character from a set that contains no lower-case letter (for example, punctuation) |
| `Tokens.FilterLemmatize` | NLP/001_DisasterTweets/modules/text_cleaning.py:40 | the comprehension yields at most as many words as there are tokens, and nothing when every token is a stop word |
| `Tokens.FilterLemmatizeMapsSurvivors` | NLP/001_DisasterTweets/modules/text_cleaning.py:40 | the result is exactly `[lem(w) for w in kept]`, where `kept` is the non-stop-word tokens in their original order |
| `Tokens.LemmatizerSeesOnlySurvivors` | NLP/001_DisasterTweets/modules/text_cleaning.py:40 | the lemmatizer is never applied to a stop word: lemmatizers that agree on all other words give the same list |
| `Tokens.FilterLemmatizeConcat` | NLP/001_DisasterTweets/modules/text_cleaning.py:40 | each token is filtered and lemmatized on its own, so the comprehension distributes over concatenation |
| `Tokens.Join` | NLP/001_DisasterTweets/modules/text_cleaning.py:44 | joining no words gives `""`, and joining one word gives that word unchanged |
| `Tokens.JoinSpaceCount` | NLP/001_DisasterTweets/modules/text_cleaning.py:44 | the join of n words without spaces holds exactly n-1 spaces, one between each two neighbouring words |
| `Tokens.JoinCons` | NLP/001_DisasterTweets/modules/text_cleaning.py:44 | the join of a first word and more words is the first word, then a space and the join of the others if there are any (a helper for the lemmas on the join) |
| `Tokens.SplitJoin` | NLP/001_DisasterTweets/modules/text_cleaning.py:44 | splitting the join of one or more space-free words on `' '` gives the words back |
| `Tokens.JoinSplit` | NLP/001_DisasterTweets/modules/text_cleaning.py:44 | joining the pieces of `s.split(' ')` with `' '` gives back `s` |
| `TextCleaning.Normalize` | NLP/001_DisasterTweets/modules/text_cleaning.py:29-36 | the text given to the tokenizer is no longer than the input, because the first three steps only delete or replace characters |
| `TextCleaning.NormalizeRemovesAll` | NLP/001_DisasterTweets/modules/text_cleaning.py:29-36 | the text given to the tokenizer contains no punctuation and no upper-case letter |
| `TextCleaning.Clean` | NLP/001_DisasterTweets/modules/text_cleaning.py:21-46 | no contract of its own: the specification of `text_clean`; `TextClean`, `CleanEmpty`, `CleanAllStopWords`, `CleanSplitsIntoLemmas` and `TransformFunc` state its properties |
| `TextCleaning.TextClean` | NLP/001_DisasterTweets/modules/text_cleaning.py:21-46 | the step-by-step procedure, including the punctuation loop, returns `Clean(text)` |
| `TextCleaning.CleanEmpty` | NLP/001_DisasterTweets/modules/text_cleaning.py:21-46 | the empty text is cleaned to `""` when the tokenizer finds no token in `""` |
| `TextCleaning.CleanAllStopWords` | NLP/001_DisasterTweets/modules/text_cleaning.py:39-44 | the result is `""` when every token is a stop word |
| `TextCleaning.CleanSplitsIntoLemmas` | NLP/001_DisasterTweets/modules/text_cleaning.py:39-44 | if the lemma of no surviving token contains a space and at least one token survives, splitting the result on spaces gives the lemmas of the surviving tokens in order |
| `TextCleaning.UpperCaseLinkSurvives` | NLP/001_DisasterTweets/modules/text_cleaning.py:29-36 | an all-capitals word that starts with `HTTP` is not removed, and reaches the tokenizer as a lower-case word that starts a link |
| `TextCleaning.CapitalsHaveNoLink` | NLP/001_DisasterTweets/modules/text_cleaning.py:29 | the link pattern is case-sensitive, so a text of capital letters passes the substitution unchanged |
| `TextCleaning.CapitalsKeptByPunctuationLoop` | NLP/001_DisasterTweets/modules/text_cleaning.py:32-33 | a text of capital letters passes the punctuation loop unchanged |
| `TextCleaning.PunctuationFormsLink` | NLP/001_DisasterTweets/modules/text_cleaning.py:29-36 | `h.` followed by a link-free lower-case word that starts with `ttp` passes the link step unchanged, but the punctuation loop turns it into a link that reaches the tokenizer |
| `TextCleaning.BrokenHttpNoLink` | NLP/001_DisasterTweets/modules/text_cleaning.py:29 | `h`, then a character that is not a letter, then a link-free text holds no link and passes the substitution unchanged |
| `TextCleaning.FullStopAfterHDeleted` | NLP/001_DisasterTweets/modules/text_cleaning.py:32-33 | the punctuation loop deletes the full stop of `h.` followed by lower-case letters, and nothing else |
| `TextCleaning.SymbolAfterHDeleted` | NLP/001_DisasterTweets/modules/text_cleaning.py:32-33 | when only ASCII symbols are deleted, a deleted symbol between `h` and lower-case letters is removed, and nothing else is |
| `TextCleaning.NormalizeNotIdempotent` | NLP/001_DisasterTweets/modules/text_cleaning.py:29-36 | for such a word, the first three steps give a non-empty text, and applying them again deletes it |
| `Sequences.Apply` | NLP/001_DisasterTweets/modules/text_cleaning.py:50 | `.apply` returns exactly one result per row, and row i of the result is the function applied to row i |
| `Sequences.ApplyConcat` | NLP/001_DisasterTweets/modules/text_cleaning.py:50 | rows are mapped independently, so `.apply` distributes over concatenation |
| `TextCleaning.TransformFunc` | NLP/001_DisasterTweets/modules/text_cleaning.py:48-50 | with a `text` column, the result has the same length and row i is `Clean` of row i; without one, the result is a `KeyError` for `text` |

## Left out

- The `nltk.download` calls at import time (text_cleaning.py:6-8) are left out: they are network and file I/O.
- The internals of `word_tokenize`, of the WordNet lemma lookup and of the English stop-word corpus are left out. They are foreign library code, so the model takes them as parameters.
- `FunctionTransformer(transform_func)` (line 52) and the pandas `Series` index are left out. They are framework plumbing, so `TransformFunc` returns the cleaned values in row order.
- A table is modelled as a map from column names to columns of strings. The other columns are never read, so their cell types are not modelled.
- The unused `numpy` import (line 2) is left out.
- Casing.Lower: maps only `A`-`Z`. Python's `str.lower` also maps non-ASCII letters, including some whose lower-case form is longer than one character. That needs Unicode case tables, which the model does not include.
- `clean(clean(x)) == clean(x)` is not stated. It depends on the tokenizer and the lemmatizer, which are parameters here, and the code does not promise it. `NormalizeNotIdempotent` shows that the first three steps alone are not idempotent.
