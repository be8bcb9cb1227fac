/** Generic sequence operations shared by the cleaning steps: dropping every
    element that occurs in a list (used for punctuation and for stop words)
    and the subsequence relation that states "only deletes, never inserts". */
module Sequences {

  /** The elements of `s` that do not occur in `drop`, in their original
      order. */
  function Without<T(==,!new)>(s: seq<T>, drop: seq<T>): (r: seq<T>)
    ensures |r| <= |s|
    ensures forall x :: x in r ==> x in s && x !in drop
    decreases |s|
  {
    if s == [] then []
    else (if s[0] in drop then [] else [s[0]]) + Without(s[1..], drop)
  }

  /** Every element outside `drop` is kept as often as it occurs. */
  lemma {:induction false} WithoutKeepsOthers<T(!new)>(s: seq<T>, drop: seq<T>, x: T)
    requires x !in drop
    ensures multiset(Without(s, drop))[x] == multiset(s)[x]
    decreases |s|
  {
    if s != [] {
      WithoutKeepsOthers(s[1..], drop, x);
      assert s == [s[0]] + s[1..];
    }
  }

  /** `a` is obtained from `b` by deleting some elements. */
  predicate IsSubseq<T(==,!new)>(a: seq<T>, b: seq<T>)
    decreases |b|
  {
    if b == [] then a == []
    else (a != [] && a[0] == b[0] && IsSubseq(a[1..], b[1..])) || IsSubseq(a, b[1..])
  }

  /** Deleting a prefix of the larger sequence keeps the relation. */
  lemma {:induction false} IsSubseqOfSuffix<T(!new)>(a: seq<T>, b: seq<T>, k: nat)
    requires k <= |b|
    requires IsSubseq(a, b[k..])
    ensures IsSubseq(a, b)
    decreases k
  {
    if k > 0 {
      assert b[k..] == b[1..][k - 1..];
      IsSubseqOfSuffix(a, b[1..], k - 1);
    }
  }

  /** Removing elements keeps the survivors in their original order. */
  lemma {:induction false} WithoutIsSubseq<T(!new)>(s: seq<T>, drop: seq<T>)
    ensures IsSubseq(Without(s, drop), s)
    decreases |s|
  {
    if s != [] {
      WithoutIsSubseq(s[1..], drop);
      var rest := Without(s[1..], drop);
      if s[0] !in drop {
        assert Without(s, drop) == [s[0]] + rest;
        assert Without(s, drop)[1..] == rest;
      } else {
        assert Without(s, drop) == rest;
      }
    }
  }

  /** Removing two lists one after the other is removing their
      concatenation once. */
  lemma {:induction false} WithoutTwice<T(!new)>(s: seq<T>, a: seq<T>, b: seq<T>)
    ensures Without(Without(s, a), b) == Without(s, a + b)
    decreases |s|
  {
    if s != [] {
      WithoutTwice(s[1..], a, b);
      var rest := Without(s[1..], a);
      if s[0] !in a {
        assert Without(s, a) == [s[0]] + rest;
        assert Without(s, a)[1..] == rest;
      } else {
        assert Without(s, a) == rest;
      }
    }
  }

  /** Only membership in the list of dropped elements matters, not the
      list's order or repetitions. */
  lemma {:induction false} WithoutSameMembers<T(!new)>(s: seq<T>, a: seq<T>, b: seq<T>)
    requires forall x :: x in a <==> x in b
    ensures Without(s, a) == Without(s, b)
    decreases |s|
  {
    if s != [] {
      WithoutSameMembers(s[1..], a, b);
    }
  }

  /** Removing elements from a concatenation removes them from each part. */
  lemma {:induction false} WithoutConcat<T(!new)>(a: seq<T>, b: seq<T>, drop: seq<T>)
    ensures Without(a + b, drop) == Without(a, drop) + Without(b, drop)
    decreases |a|
  {
    if a != [] {
      var head := if a[0] in drop then [] else [a[0]];
      var x, y := Without(a[1..], drop), Without(b, drop);
      assert Without(a + b, drop) == head + (x + y) by {
        assert (a + b)[0] == a[0] && (a + b)[1..] == a[1..] + b;
        WithoutConcat(a[1..], b, drop);
      }
      assert head + (x + y) == (head + x) + y;
    } else {
      assert a + b == b;
    }
  }

  /** A dropped element between two pieces that keep everything leaves
      just the two pieces, joined. */
  lemma WithoutAround<T(!new)>(left: seq<T>, x: T, right: seq<T>, drop: seq<T>)
    requires x in drop
    requires forall i :: 0 <= i < |left| ==> left[i] !in drop
    requires forall i :: 0 <= i < |right| ==> right[i] !in drop
    ensures Without(left + ([x] + right), drop) == left + right
  {
    var tail := [x] + right;
    assert Without(tail, drop) == right by {
      assert tail[0] == x && tail[1..] == right;
      WithoutUnchangedIff(right, drop);
    }
    assert Without(left, drop) == left by {
      WithoutUnchangedIff(left, drop);
    }
    WithoutConcat(left, tail, drop);
  }

  /** A sequence made only of dropped elements leaves nothing. */
  lemma {:induction false} WithoutAllDropped<T(!new)>(s: seq<T>, drop: seq<T>)
    requires forall i :: 0 <= i < |s| ==> s[i] in drop
    ensures Without(s, drop) == []
    decreases |s|
  {
    if s != [] {
      WithoutAllDropped(s[1..], drop);
    }
  }

  /** `Without` changes nothing exactly when no element is to be dropped. */
  lemma {:induction false} WithoutUnchangedIff<T(!new)>(s: seq<T>, drop: seq<T>)
    ensures Without(s, drop) == s <==> forall i :: 0 <= i < |s| ==> s[i] !in drop
    decreases |s|
  {
    if s != [] {
      WithoutUnchangedIff(s[1..], drop);
      if s[0] in drop {
        assert Without(s, drop) == Without(s[1..], drop);
      } else {
        assert Without(s, drop) == [s[0]] + Without(s[1..], drop);
        assert forall i :: 1 <= i < |s| ==> s[i] == s[1..][i - 1];
      }
    }
  }

  /** `series.apply(f)`: `f` applied to every element, in order. */
  function Apply<T, U>(f: T -> U, s: seq<T>): (r: seq<U>)
    ensures |r| == |s|
    ensures forall i :: 0 <= i < |s| ==> r[i] == f(s[i])
    decreases |s|
  {
    if s == [] then [] else [f(s[0])] + Apply(f, s[1..])
  }

  /** Elements are mapped independently: mapping two blocks and putting
      the results together is mapping the blocks put together. */
  lemma ApplyConcat<T, U>(f: T -> U, a: seq<T>, b: seq<T>)
    ensures Apply(f, a + b) == Apply(f, a) + Apply(f, b)
  {
    var whole, left, right := Apply(f, a + b), Apply(f, a), Apply(f, b);
    assert forall i :: 0 <= i < |a| ==> whole[i] == f(a[i]) == left[i];
    assert forall i :: |a| <= i < |a| + |b| ==> whole[i] == f(b[i - |a|]) == right[i - |a|];
  }
}
