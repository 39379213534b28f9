/** The id-to-label dictionary the category and question listings return. */
module Categories {
  import opened Trivia
  import opened Results

  /** `m` is what inserting every category of `cats` into an empty dictionary, in order,
      leaves behind: one key per distinct id, and for each id the kind of the last
      category that carries it. */
  ghost predicate IsCategoryMap(cats: seq<Category>, m: map<int, string>)
  {
    && m.Keys == CategoryIds(cats)
    && forall k :: 0 <= k < |cats| && (forall j :: k < j < |cats| ==> cats[j].id != cats[k].id) ==>
         m[cats[k].id] == cats[k].kind
  }

  /** Builds the dictionary with a loop that inserts one category at a time. */
  method CategoryMap(cats: seq<Category>) returns (m: map<int, string>)
    ensures IsCategoryMap(cats, m)
  {
    m := map[];
    for i := 0 to |cats|
      invariant m.Keys == CategoryIds(cats[..i])
      invariant forall k :: 0 <= k < i && (forall j :: k < j < i ==> cats[j].id != cats[k].id) ==>
                  m[cats[k].id] == cats[k].kind
    {
      assert cats[..i + 1] == cats[..i] + [cats[i]];
      m := m[cats[i].id := cats[i].kind];
    }
    assert cats[..|cats|] == cats;
  }

  /** When ids are unique (the table's primary key) every category maps to its own kind. */
  lemma CategoryMapOfDistinct(cats: seq<Category>, m: map<int, string>)
    requires DistinctCategoryIds(cats)
    requires IsCategoryMap(cats, m)
    ensures forall c :: c in cats ==> c.id in m && m[c.id] == c.kind
  {
  }

  /** `one_or_none()` on the category table: the category with id `id`, or None. Ids in
      the table are unique, so there is never more than one. */
  function FindCategory(cats: seq<Category>, id: int): (r: Option<Category>)
    requires DistinctCategoryIds(cats)
    ensures r.Some? ==> r.value in cats && r.value.id == id
    ensures r.Some? ==> forall c :: c in cats && c.id == id ==> c == r.value
    ensures r.None? <==> id !in CategoryIds(cats)
  {
    if cats == [] then None
    else if cats[0].id == id then Some(cats[0])
    else
      assert CategoryIds(cats) == {cats[0].id} + CategoryIds(cats[1..]);
      FindCategory(cats[1..], id)
  }

  /** The category listing: the dictionary, or not-found when the table is empty. */
  method ListCategories(cats: seq<Category>) returns (r: Result<map<int, string>>)
    ensures r.Err? <==> cats == []
    ensures r.Err? ==> r.status == NotFound
    ensures r.Ok? ==> IsCategoryMap(cats, r.value)
  {
    var categories := CategoryMap(cats);
    if |cats| == 0 {
      return Err(NotFound);
    }
    return Ok(categories);
  }
}
