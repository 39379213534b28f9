/** Fixed-size pages over an ordered selection, with Python's slice semantics. */
module Pager {

  /** Questions per page; fixed for the deployment, never chosen per request. */
  const QuestionsPerPage: nat := 10

  function Min(a: int, b: int): int { if a < b then a else b }
  function Max(a: int, b: int): int { if a < b then b else a }

  /** Where a Python slice bound `i` lands in a sequence of length `len`: a negative
      bound counts from the end, and the result is clipped to `0..len`. */
  function SliceBound(i: int, len: nat): (k: nat)
    ensures k <= len
    ensures 0 <= i ==> k == Min(i, len)
    ensures i < 0 ==> k == Max(len + i, 0)
  {
    if i < 0 then (if len + i < 0 then 0 else len + i)
    else if i < len then i else len
  }

  /** Python's `s[start:end]`: empty when the normalised bounds cross. */
  function Slice<T>(s: seq<T>, start: int, end: int): seq<T>
  {
    var lo, hi := SliceBound(start, |s|), SliceBound(end, |s|);
    if lo < hi then s[lo..hi] else []
  }

  /** The questions shown on 1-based page `page` of `selection`. The page number is
      whatever integer the request carried, so zero and negative pages reach the slice. */
  function Paginate<T>(selection: seq<T>, page: int): (r: seq<T>)
    ensures |r| <= QuestionsPerPage
  {
    var start := (page - 1) * QuestionsPerPage;
    Slice(selection, start, start + QuestionsPerPage)
  }

  /** The number of pages needed to show `n` questions. */
  function PageCount(n: nat): nat
  {
    (n + QuestionsPerPage - 1) / QuestionsPerPage
  }

  /** For a page p >= 1 the result is the window starting at (p-1)*10, clipped to the selection. */
  lemma PageIsWindow<T>(selection: seq<T>, page: int)
    requires page >= 1
    ensures var start := Min((page - 1) * QuestionsPerPage, |selection|);
            var end := Min((page - 1) * QuestionsPerPage + QuestionsPerPage, |selection|);
            Paginate(selection, page) == selection[start..end]
  {
  }

  /** Element k of page p is element (p-1)*10 + k of the selection. */
  lemma PageElement<T>(selection: seq<T>, page: int, k: nat)
    requires page >= 1 && k < |Paginate(selection, page)|
    ensures (page - 1) * QuestionsPerPage + k < |selection|
    ensures Paginate(selection, page)[k] == selection[(page - 1) * QuestionsPerPage + k]
  {
  }

  /** Pages 1..n of `selection`, concatenated. */
  function Pages<T>(selection: seq<T>, n: nat): seq<T>
  {
    if n == 0 then [] else Pages(selection, n - 1) + Paginate(selection, n)
  }

  /** Pages 1..n together are exactly the first 10n questions of the selection. */
  lemma {:induction false} PagesArePrefix<T>(selection: seq<T>, n: nat)
    ensures Pages(selection, n) == selection[..Min(n * QuestionsPerPage, |selection|)]
  {
    if n > 0 {
      PagesArePrefix(selection, n - 1);
      PageIsWindow(selection, n);
      var a := Min((n - 1) * QuestionsPerPage, |selection|);
      var b := Min(n * QuestionsPerPage, |selection|);
      assert selection[..a] + selection[a..b] == selection[..b];
    }
  }

  /** Pages 1..PageCount(L) partition the selection: concatenated they give it back,
      with no question duplicated or omitted. */
  lemma PagesPartitionSelection<T>(selection: seq<T>)
    ensures Pages(selection, PageCount(|selection|)) == selection
  {
    PagesArePrefix(selection, PageCount(|selection|));
  }

  /** A page p >= 1 is empty exactly when it lies past the last page. */
  lemma PageEmptyIff<T>(selection: seq<T>, page: int)
    requires page >= 1
    ensures Paginate(selection, page) == [] <==> page > PageCount(|selection|)
  {
    PageIsWindow(selection, page);
  }

  /** Page 0 is always empty; a negative page p reads Python's negative slice bounds,
      counting from the end of the selection, and is non-empty exactly when the
      selection holds more than -10p questions. */
  lemma NonPositivePage<T>(selection: seq<T>, page: int)
    requires page <= 0
    ensures page == 0 ==> Paginate(selection, page) == []
    ensures page < 0 ==>
      var start := Max(|selection| + (page - 1) * QuestionsPerPage, 0);
      var end := Max(|selection| + page * QuestionsPerPage, 0);
      Paginate(selection, page) == selection[start..end]
    ensures page < 0 ==> (Paginate(selection, page) != [] <==> |selection| > -page * QuestionsPerPage)
  {
  }
}
