/** The read-only handlers: question listing, search and listing by category. The page
    number and the request body's fields arrive as plain parameters. */
module Endpoints {
  import opened Trivia
  import opened Results
  import opened Pager
  import opened Categories
  import opened Filters

  /** What the question listing returns: one page, the size of the whole store, and the
      category dictionary. */
  datatype QuestionList = QuestionList(questions: seq<Question>, total: nat, categories: map<int, string>)

  /** One page of a filtered selection and the size of the whole selection. */
  datatype SearchPage = SearchPage(questions: seq<Question>, total: nat)

  /** One page of a category's questions, their number, and the category's kind. */
  datatype CategoryPage = CategoryPage(questions: seq<Question>, total: nat, currentCategory: string)

  /** The question listing: not-found exactly when the requested page is empty. */
  method ListQuestions(qs: seq<Question>, cats: seq<Category>, page: int) returns (r: Result<QuestionList>)
    ensures r.Err? <==> Paginate(qs, page) == []
    ensures page >= 1 ==> (r.Err? <==> page > PageCount(|qs|))
    ensures r.Err? ==> r.status == NotFound
    ensures r.Ok? ==> r.value.questions == Paginate(qs, page) && r.value.total == |qs|
    ensures r.Ok? ==> IsCategoryMap(cats, r.value.categories)
  {
    var total := |qs|;
    var current := Paginate(qs, page);
    var categories := CategoryMap(cats);
    if |current| == 0 {
      if page >= 1 {
        PageEmptyIff(qs, page);
      }
      return Err(NotFound);
    }
    if page >= 1 {
      PageEmptyIff(qs, page);
    }
    return Ok(QuestionList(current, total, categories));
  }

  /** The search: not-found when no question matches; otherwise the requested page of the
      matches (possibly empty, past the last page) and the number of matches. */
  function SearchQuestions(qs: seq<Question>, term: string, page: int): (r: Result<SearchPage>)
    ensures r.Err? <==> forall q :: q in qs ==> !Matches(q, term)
    ensures r.Err? ==> r.status == NotFound
    ensures r.Ok? ==> r.value.total == |Matching(qs, term)| > 0
    ensures r.Ok? ==> r.value.questions == Paginate(Matching(qs, term), page)
  {
    var found := Matching(qs, term);
    if found != [] then
      assert found[0] in found;
      Ok(SearchPage(Paginate(found, page), |found|))
    else
      Err(NotFound)
  }

  /** The listing by category: not-found when no category has that id; otherwise the
      requested page of its questions (possibly empty), their number and its kind. */
  function QuestionsInCategory(qs: seq<Question>, cats: seq<Category>, id: int, page: int): (r: Result<CategoryPage>)
    requires DistinctCategoryIds(cats)
    ensures r.Err? <==> id !in CategoryIds(cats)
    ensures r.Err? ==> r.status == NotFound
    ensures r.Ok? ==> exists c :: c in cats && c.id == id && r.value.currentCategory == c.kind
    ensures r.Ok? ==> r.value.questions == Paginate(InCategory(qs, id), page)
    ensures r.Ok? ==> r.value.total == |InCategory(qs, id)|
  {
    match FindCategory(cats, id)
    case Some(category) =>
      var inCat := InCategory(qs, id);
      Ok(CategoryPage(Paginate(inCat, page), |inCat|, category.kind))
    case None => Err(NotFound)
  }
}
