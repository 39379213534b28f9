/** The two query filters: text search and exact category. */
module Filters {
  import opened Trivia
  import opened Sequences
  import opened Text

  /** The search's `question ILIKE '%' + term + '%'`: both sides are case-folded, and the
      term is passed unescaped, so `%` and `_` inside it act as wildcards. */
  predicate Matches(q: Question, term: string)
  {
    Like(Lower(q.question), Lower([AnyRun] + term + [AnyRun]))
  }

  /** The questions whose text matches the search term, in store order. */
  function Matching(qs: seq<Question>, term: string): (r: seq<Question>)
    ensures forall q :: q in r <==> q in qs && Matches(q, term)
    ensures forall q :: Matches(q, term) ==> multiset(r)[q] == multiset(qs)[q]
    ensures Subsequence(r, qs)
  {
    WhereKeepsOrder(qs, q => Matches(q, term));
    WhereKeepsCounts(qs, q => Matches(q, term));
    Where(qs, q => Matches(q, term))
  }

  /** The questions of category `id`, compared as integers, in store order. */
  function InCategory(qs: seq<Question>, id: int): (r: seq<Question>)
    ensures forall q :: q in r <==> q in qs && q.category == id
    ensures forall q: Question :: q.category == id ==> multiset(r)[q] == multiset(qs)[q]
    ensures Subsequence(r, qs)
  {
    WhereKeepsOrder(qs, (q: Question) => q.category == id);
    WhereKeepsCounts(qs, (q: Question) => q.category == id);
    Where(qs, (q: Question) => q.category == id)
  }

  /** For a term without wildcards, a question matches exactly when its text contains
      the term, ignoring case; the answer text plays no part. */
  lemma MatchesIsCaselessSubstring(q: Question, term: string)
    requires Literal(term)
    ensures Matches(q, term) <==> Contains(Lower(q.question), Lower(term))
  {
    LowerAppend([AnyRun] + term, [AnyRun]);
    LowerAppend([AnyRun], term);
    assert Lower([AnyRun]) == [AnyRun];
    LowerKeepsLiteral(term);
    LikeFindsSubstring(Lower(q.question), Lower(term));
  }

  /** Two terms that differ only in letter case find the same questions. */
  lemma SearchIgnoresCase(qs: seq<Question>, t1: string, t2: string)
    requires Lower(t1) == Lower(t2)
    ensures Matching(qs, t1) == Matching(qs, t2)
  {
    LowerAppend([AnyRun] + t1, [AnyRun]);
    LowerAppend([AnyRun], t1);
    LowerAppend([AnyRun] + t2, [AnyRun]);
    LowerAppend([AnyRun], t2);
    WhereCongruent(qs, q => Matches(q, t1), q => Matches(q, t2));
  }

  /** Searching for "TITLE" and for "title" gives the same questions. */
  lemma TitleSearchIgnoresCase(qs: seq<Question>)
    ensures Matching(qs, "TITLE") == Matching(qs, "title")
  {
    assert Lower("TITLE") == "title";
    SearchIgnoresCase(qs, "TITLE", "title");
  }

  /** An empty term matches every question. */
  lemma EmptyTermMatchesAll(qs: seq<Question>)
    ensures Matching(qs, "") == qs
  {
    assert Lower([AnyRun] + "" + [AnyRun]) == [AnyRun, AnyRun];
    forall q | q in qs
      ensures Matches(q, "")
    {
      assert [AnyRun, AnyRun][1..] == [AnyRun];
      LikeAnyRun(Lower(q.question));
    }
    WhereKeepsAll(qs, q => Matches(q, ""));
  }

  /** The term `_` matches every question with non-empty text. */
  lemma UnderscoreTermMatchesNonEmpty(q: Question)
    requires q.question != []
    ensures Matches(q, [AnyChar])
  {
    assert Lower([AnyRun] + [AnyChar] + [AnyRun]) == [AnyRun, AnyChar, AnyRun];
    UnderscoreMatchesAnyNonEmpty(Lower(q.question));
  }
}
