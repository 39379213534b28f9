/** The question table as a mutable store: the create and delete handlers. */
module Store {
  import opened Trivia
  import opened Results
  import opened Sequences
  import opened Pager

  /** What a successful create returns: the new id, the requested page of the whole
      store, and the store's new size. */
  datatype Created = Created(id: int, questions: seq<Question>, total: nat)

  /** The questions left once the one with id `id` is removed. */
  function Without(qs: seq<Question>, id: int): (r: seq<Question>)
    ensures forall q :: q in r <==> q in qs && q.id != id
  {
    Where(qs, (q: Question) => q.id != id)
  }

  /** With unique ids, removing the question at index k leaves every other question
      where it was, in the same order. */
  lemma WithoutRemovesExactlyOne(qs: seq<Question>, k: nat)
    requires DistinctIds(qs) && k < |qs|
    ensures Without(qs, qs[k].id) == qs[..k] + qs[k + 1..]
    ensures |Without(qs, qs[k].id)| == |qs| - 1
    ensures DistinctIds(Without(qs, qs[k].id))
  {
    var id := qs[k].id;
    var keep := (q: Question) => q.id != id;
    assert qs == qs[..k] + ([qs[k]] + qs[k + 1..]);
    WhereAppend(qs[..k], [qs[k]] + qs[k + 1..], keep);
    WhereAppend([qs[k]], qs[k + 1..], keep);
    WhereKeepsAll(qs[..k], keep);
    WhereKeepsAll(qs[k + 1..], keep);
    DistinctWithoutIndex(qs, k);
  }

  lemma DistinctWithoutIndex(qs: seq<Question>, k: nat)
    requires DistinctIds(qs) && k < |qs|
    ensures DistinctIds(qs[..k] + qs[k + 1..])
  {
    var r := qs[..k] + qs[k + 1..];
    forall i, j | 0 <= i < j < |r|
      ensures r[i].id != r[j].id
    {
      var i', j' := if i < k then i else i + 1, if j < k then j else j + 1;
      assert r[i] == qs[i'] && r[j] == qs[j'];
    }
  }

  /** Removing an id that no question has changes nothing. */
  lemma WithoutAbsent(qs: seq<Question>, id: int)
    requires !HasId(qs, id)
    ensures Without(qs, id) == qs
  {
    WhereKeepsAll(qs, (q: Question) => q.id != id);
  }

  /** A question appended to the store is the last entry of the last page. */
  lemma AppendedIsLastOnLastPage(qs: seq<Question>, q: Question)
    ensures var last := Paginate(qs + [q], PageCount(|qs| + 1));
            last != [] && last[|last| - 1] == q
  {
  }

  class QuestionStore {
    var questions: seq<Question>
    /** The id the table's sequence hands to the next inserted row. */
    var nextId: int

    ghost predicate Valid()
      reads this
    {
      DistinctIds(questions) && forall q :: q in questions ==> q.id < nextId
    }

    constructor (seed: seq<Question>, nextId: int)
      requires DistinctIds(seed) && forall q :: q in seed ==> q.id < nextId
      ensures Valid() && questions == seed && this.nextId == nextId
    {
      questions := seed;
      this.nextId := nextId;
    }

    /** Inserts a question after checking that its text and answer are non-empty; the
        category and the difficulty are stored unchecked. */
    method Create(question: string, answer: string, category: int, difficulty: int, page: int)
      returns (r: Result<Created>)
      requires Valid()
      modifies this
      ensures Valid()
      ensures question == [] || answer == [] ==>
        r == Err(Unprocessable) && questions == old(questions) && nextId == old(nextId)
      ensures question != [] && answer != [] ==>
        && !HasId(old(questions), old(nextId))
        && questions == old(questions) + [Question(old(nextId), question, answer, category, difficulty)]
        && nextId == old(nextId) + 1
        && r == Ok(Created(old(nextId), Paginate(questions, page), |questions|))
    {
      if |question| == 0 || |answer| == 0 {
        return Err(Unprocessable);
      }
      var q := Question(nextId, question, answer, category, difficulty);
      questions := questions + [q];
      nextId := nextId + 1;
      return Ok(Created(q.id, Paginate(questions, page), |questions|));
    }

    /** Deletes the question with id `id`. A missing id aborts with not-found inside a
        catch-all handler, which turns it into unprocessable. */
    method Delete(id: int) returns (r: Result<int>)
      requires Valid()
      modifies this
      ensures Valid() && nextId == old(nextId)
      ensures HasId(old(questions), id) ==>
        r == Ok(id) && questions == Without(old(questions), id) && |questions| == |old(questions)| - 1
      ensures !HasId(old(questions), id) ==>
        r == Err(Unprocessable) && questions == old(questions)
    {
      if !HasId(questions, id) {
        return Err(Unprocessable);
      }
      var q :| q in questions && q.id == id;
      var k :| 0 <= k < |questions| && questions[k] == q;
      WithoutRemovesExactlyOne(questions, k);
      questions := Without(questions, id);
      return Ok(id);
    }
  }
}
