/** The two stored entities: questions and the fixed table of categories. */
module Trivia {

  /** A stored question; `category` is the id of a category, held as an integer. */
  datatype Question = Question(id: int, question: string, answer: string, category: int, difficulty: int)

  /** A row of the category table; `kind` is the table's `type` column. */
  datatype Category = Category(id: int, kind: string)

  /** No two questions share an id (the table's primary key). */
  ghost predicate DistinctIds(qs: seq<Question>)
  {
    forall i, j :: 0 <= i < j < |qs| ==> qs[i].id != qs[j].id
  }

  predicate HasId(qs: seq<Question>, id: int)
  {
    exists q :: q in qs && q.id == id
  }

  /** No two categories share an id (the table's primary key). */
  ghost predicate DistinctCategoryIds(cats: seq<Category>)
  {
    forall i, j :: 0 <= i < j < |cats| ==> cats[i].id != cats[j].id
  }

  /** The ids present in a category list. */
  function CategoryIds(cats: seq<Category>): set<int>
  {
    set c | c in cats :: c.id
  }
}
