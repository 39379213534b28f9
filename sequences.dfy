/** Order-preserving filtering of sequences: the shape of every query the backend runs. */
module Sequences {

  /** `r` is obtained from `s` by dropping some elements and keeping the rest in order. */
  ghost predicate Subsequence<T>(r: seq<T>, s: seq<T>)
    decreases |s|
  {
    r == [] || (s != [] && ((r[0] == s[0] && Subsequence(r[1..], s[1..])) || Subsequence(r, s[1..])))
  }

  /** The elements of `s` that satisfy `keep`, in the order they have in `s`. */
  function Where<T(==,!new)>(s: seq<T>, keep: T -> bool): (r: seq<T>)
    ensures |r| <= |s|
    ensures forall x :: x in r <==> x in s && keep(x)
  {
    if s == [] then []
    else
      var rest := Where(s[1..], keep);
      if keep(s[0]) then [s[0]] + rest else rest
  }

  /** The filter keeps the elements of `s` in the order they have in `s`. */
  lemma {:induction false} WhereKeepsOrder<T(!new)>(s: seq<T>, keep: T -> bool)
    ensures Subsequence(Where(s, keep), s)
  {
    if s != [] {
      WhereKeepsOrder(s[1..], keep);
    }
  }

  /** The filter keeps every occurrence of a kept element: nothing kept is dropped or
      duplicated. */
  lemma {:induction false} WhereKeepsCounts<T(!new)>(s: seq<T>, keep: T -> bool)
    ensures forall x :: keep(x) ==> multiset(Where(s, keep))[x] == multiset(s)[x]
  {
    if s != [] {
      WhereKeepsCounts(s[1..], keep);
      assert s == [s[0]] + s[1..];
    }
  }

  lemma {:induction false} WhereAppend<T(!new)>(a: seq<T>, b: seq<T>, keep: T -> bool)
    ensures Where(a + b, keep) == Where(a, keep) + Where(b, keep)
  {
    if a == [] {
      assert a + b == b;
    } else {
      assert (a + b)[1..] == a[1..] + b;
      WhereAppend(a[1..], b, keep);
    }
  }

  /** Filtering a sequence extended by one element extends the result by that element
      exactly when it is kept. */
  lemma WhereSnoc<T(!new)>(s: seq<T>, x: T, keep: T -> bool)
    ensures Where(s + [x], keep) == Where(s, keep) + (if keep(x) then [x] else [])
  {
    WhereAppend(s, [x], keep);
    assert [x][1..] == [];
  }

  /** Filtering with a predicate every element satisfies changes nothing. */
  lemma {:induction false} WhereKeepsAll<T(!new)>(s: seq<T>, keep: T -> bool)
    requires forall x :: x in s ==> keep(x)
    ensures Where(s, keep) == s
  {
    if s != [] {
      WhereKeepsAll(s[1..], keep);
    }
  }

  /** Two predicates that agree on the elements of `s` select the same subsequence. */
  lemma {:induction false} WhereCongruent<T(!new)>(s: seq<T>, f: T -> bool, g: T -> bool)
    requires forall x :: x in s ==> f(x) == g(x)
    ensures Where(s, f) == Where(s, g)
  {
    if s != [] {
      WhereCongruent(s[1..], f, g);
    }
  }

  /** A predicate that keeps fewer elements selects a shorter subsequence, strictly shorter
      when it rejects an element of `s` that the wider one keeps. */
  lemma {:induction false} WhereNarrower<T(!new)>(s: seq<T>, wide: T -> bool, narrow: T -> bool)
    requires forall x :: x in s && narrow(x) ==> wide(x)
    ensures |Where(s, narrow)| <= |Where(s, wide)|
    ensures (exists x :: x in s && wide(x) && !narrow(x)) ==> |Where(s, narrow)| < |Where(s, wide)|
  {
    if s != [] {
      WhereNarrower(s[1..], wide, narrow);
      if exists x :: x in s && wide(x) && !narrow(x) {
        var x :| x in s && wide(x) && !narrow(x);
        if x != s[0] {
          assert x in s[1..];
        }
      }
    }
  }
}
