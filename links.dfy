/** Step 1 of `text_clean`: `re.sub(r'http\S+', '', text)`, written as the
    left-to-right scan the regular-expression engine performs. */
module Links {
  import opened Sequences

  /** The characters Python's `\s` matches in a `str` pattern (those for
      which `str.isspace()` holds); `\S` is every other character. */
  predicate IsSpace(c: char) {
    || '\U{9}' <= c <= '\U{D}'
    || '\U{1C}' <= c <= '\U{20}'
    || c == '\U{85}' || c == '\U{A0}' || c == '\U{1680}'
    || '\U{2000}' <= c <= '\U{200A}'
    || c == '\U{2028}' || c == '\U{2029}' || c == '\U{202F}'
    || c == '\U{205F}' || c == '\U{3000}'
  }

  /** The pattern `http\S` matches at position `i` of `s`. */
  predicate LinkAt(s: string, i: nat) {
    && i + 4 < |s|
    && s[i] == 'h' && s[i + 1] == 't' && s[i + 2] == 't' && s[i + 3] == 'p'
    && !IsSpace(s[i + 4])
  }

  /** No position of `s` starts a link. */
  predicate NoLink(s: string) {
    forall i :: 0 <= i < |s| ==> !LinkAt(s, i)
  }

  /** The length of the longest run of non-whitespace characters that `s`
      starts with: how far the greedy `\S+` extends. */
  function NonSpaceRun(s: string): (n: nat)
    ensures n <= |s|
    ensures forall j :: 0 <= j < n ==> !IsSpace(s[j])
    ensures n == |s| || IsSpace(s[n])
    decreases |s|
  {
    if s == [] || IsSpace(s[0]) then 0 else 1 + NonSpaceRun(s[1..])
  }

  /** The length of the link that starts `s`: `http`, then the whole run of
      non-whitespace characters after it. */
  function LinkLength(s: string): (n: nat)
    requires LinkAt(s, 0)
    ensures 5 <= n <= |s|
    ensures forall j :: 0 <= j < n ==> !IsSpace(s[j])
    ensures n == |s| || IsSpace(s[n])
  {
    4 + NonSpaceRun(s[4..])
  }

  /** `re.sub(r'http\S+', '', s)`: scanning from the left, every link is
      deleted up to the next whitespace character or the end of the string,
      and the scan resumes after it; every other character is kept. */
  function StripLinks(s: string): (r: string)
    ensures |r| <= |s|
    decreases |s|
  {
    if s == [] then []
    else if LinkAt(s, 0) then StripLinks(s[LinkLength(s)..])
    else [s[0]] + StripLinks(s[1..])
  }

  /** A link is deleted up to (not including) the next whitespace
      character, so what follows it is empty or starts with whitespace. */
  lemma StripLinksAfterLink(s: string)
    ensures LinkAt(s, 0) ==> StripLinks(s) == [] || IsSpace(StripLinks(s)[0])
  {
    if LinkAt(s, 0) {
      var u := s[LinkLength(s)..];
      if u != [] {
        assert !LinkAt(u, 0);
        assert StripLinks(u) == [u[0]] + StripLinks(u[1..]);
      }
    }
  }

  /** If the result of the scan starts with a non-whitespace character, that
      character was kept from the head of the input, which starts no link. */
  lemma StripLinksHead(s: string)
    requires StripLinks(s) != [] && !IsSpace(StripLinks(s)[0])
    ensures s != [] && !LinkAt(s, 0)
    ensures StripLinks(s) == [s[0]] + StripLinks(s[1..])
  {
    StripLinksAfterLink(s);
  }

  /** A run of non-whitespace characters at the head of the result was
      copied from the head of the input. */
  lemma {:induction false} StripLinksNonSpacePrefix(s: string, k: nat)
    requires k <= |StripLinks(s)|
    requires forall j :: 0 <= j < k ==> !IsSpace(StripLinks(s)[j])
    ensures k <= |s| && s[..k] == StripLinks(s)[..k]
    decreases k
  {
    if k > 0 {
      StripLinksHead(s);
      var r := StripLinks(s);
      assert forall j :: 0 <= j < k - 1 ==> StripLinks(s[1..])[j] == r[j + 1];
      StripLinksNonSpacePrefix(s[1..], k - 1);
    }
  }

  /** After the substitution no `http` followed by a non-whitespace
      character remains; a bare `http` before whitespace or at the end may. */
  lemma {:induction false} StripLinksRemovesAll(s: string)
    ensures NoLink(StripLinks(s))
    decreases |s|
  {
    if s == [] {
    } else if LinkAt(s, 0) {
      StripLinksRemovesAll(s[LinkLength(s)..]);
    } else {
      StripLinksRemovesAll(s[1..]);
      var rest := StripLinks(s[1..]);
      var r := [s[0]] + rest;
      assert StripLinks(s) == r;
      StripLinksKeptHead(s);
      forall i | 1 <= i < |r|
        ensures !LinkAt(r, i)
      {
        LinkAtCons(s[0], rest, i - 1);
      }
    }
  }

  /** A link position in a string with one more character in front is a
      link position one further on. */
  lemma LinkAtCons(c: char, t: string, i: nat)
    ensures LinkAt([c] + t, i + 1) == LinkAt(t, i)
  {
    var u := [c] + t;
    assert forall j :: 0 <= j < |t| ==> u[j + 1] == t[j];
  }

  /** A character kept at the head of the input does not start a link in
      the result, because the characters after it in the result are the
      ones after it in the input up to the first whitespace. */
  lemma StripLinksKeptHead(s: string)
    requires s != [] && !LinkAt(s, 0)
    ensures !LinkAt([s[0]] + StripLinks(s[1..]), 0)
  {
    var rest := StripLinks(s[1..]);
    var r := [s[0]] + rest;
    if |rest| >= 4 && forall j :: 0 <= j < 4 ==> !IsSpace(rest[j]) {
      StripLinksNonSpacePrefix(s[1..], 4);
      assert r[..5] == s[..5];
    }
  }

  /** A string without links passes through unchanged. */
  lemma {:induction false} StripLinksIdentity(s: string)
    requires NoLink(s)
    ensures StripLinks(s) == s
    decreases |s|
  {
    if s != [] {
      assert !LinkAt(s, 0);
      forall i | 0 <= i < |s| - 1
        ensures !LinkAt(s[1..], i)
      {
        assert !LinkAt(s, i + 1);
      }
      StripLinksIdentity(s[1..]);
    }
  }

  /** The substitution only deletes characters: the result is a
      subsequence of the input. */
  lemma {:induction false} StripLinksIsSubseq(s: string)
    ensures IsSubseq(StripLinks(s), s)
    decreases |s|
  {
    if s == [] {
    } else if LinkAt(s, 0) {
      StripLinksIsSubseq(s[LinkLength(s)..]);
      IsSubseqOfSuffix(StripLinks(s), s, LinkLength(s));
    } else {
      StripLinksIsSubseq(s[1..]);
      var r := StripLinks(s);
      assert r == [s[0]] + StripLinks(s[1..]);
      assert r[1..] == StripLinks(s[1..]);
    }
  }

  /** Only characters inside links are deleted, and links hold no
      whitespace, so every whitespace character of the input survives: words
      separated by whitespace are never glued together by this step. */
  lemma {:induction false} StripLinksKeepsWhitespace(s: string, c: char)
    requires IsSpace(c)
    ensures multiset(StripLinks(s))[c] == multiset(s)[c]
    decreases |s|
  {
    if s == [] {
    } else if LinkAt(s, 0) {
      var n := LinkLength(s);
      StripLinksKeepsWhitespace(s[n..], c);
      assert s == s[..n] + s[n..];
      assert c !in s[..n];
    } else {
      StripLinksKeepsWhitespace(s[1..], c);
      assert s == [s[0]] + s[1..];
    }
  }

  /** `\S+` needs at least one character, so a bare `http` followed by
      whitespace or by nothing is kept. */
  lemma BareHttpSurvives(rest: string)
    requires rest == [] || IsSpace(rest[0])
    ensures StripLinks("http" + rest) == "http" + StripLinks(rest)
  {
    var s := "http" + rest;
    assert !LinkAt(s, 0) && !LinkAt(s[1..], 0) && !LinkAt(s[2..], 0) && !LinkAt(s[3..], 0);
    assert s[1..][1..] == s[2..] && s[2..][1..] == s[3..] && s[3..][1..] == rest;
    assert StripLinks(s[3..]) == ['p'] + StripLinks(rest);
    assert StripLinks(s[2..]) == ['t'] + StripLinks(s[3..]);
    assert StripLinks(s[1..]) == ['t'] + StripLinks(s[2..]);
  }

  /** Running the substitution twice is the same as running it once. */
  lemma StripLinksIdempotent(s: string)
    ensures StripLinks(StripLinks(s)) == StripLinks(s)
  {
    StripLinksRemovesAll(s);
    StripLinksIdentity(StripLinks(s));
  }
}
