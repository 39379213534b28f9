/** The quiz handler: one question per request, never one the player has already seen. */
module Quiz {
  import opened Trivia
  import opened Results
  import opened Sequences
  import opened Filters

  /** The outcome of a corrected draw. */
  datatype Draw = Found(question: Question) | Exhausted

  /** The quiz's category scope: id 0 stands for every category. */
  predicate InScope(q: Question, scope: int)
  {
    scope == 0 || q.category == scope
  }

  /** The questions the quiz draws from, in store order. */
  function Pool(qs: seq<Question>, scope: int): (r: seq<Question>)
    ensures forall q :: q in r <==> q in qs && InScope(q, scope)
  {
    if scope == 0 then qs else InCategory(qs, scope)
  }

  /** Holds of the questions whose ids are not among the previous questions. */
  function NotAsked(previous: seq<int>): Question -> bool
  {
    (q: Question) => q.id !in previous
  }

  /** The questions in scope whose ids are not among the previous questions. */
  function Eligible(qs: seq<Question>, scope: int, previous: seq<int>): (r: seq<Question>)
    ensures forall q :: q in r <==> q in qs && InScope(q, scope) && q.id !in previous
  {
    Where(Pool(qs, scope), NotAsked(previous))
  }

  /** The draw as the handler writes it. `randomId` stands for `randint(0, len(pool) - 1)`.
      An empty pool makes that call raise, which the handler turns into not-found. The
      drawn question is returned only when its id is unseen; otherwise the loop body never
      runs, the handler returns nothing, and the framework answers with a server error. */
  method PlayQuizAsWritten(qs: seq<Question>, scope: int, previous: seq<int>, randomId: int)
    returns (r: Result<Question>)
    requires Pool(qs, scope) != [] ==> 0 <= randomId < |Pool(qs, scope)|
    ensures Pool(qs, scope) == [] ==> r == Err(NotFound)
    ensures Pool(qs, scope) != [] && Pool(qs, scope)[randomId].id !in previous ==>
      r == Ok(Pool(qs, scope)[randomId])
    ensures Pool(qs, scope) != [] && Pool(qs, scope)[randomId].id in previous ==>
      r == Err(ServerError)
  {
    var pool := Pool(qs, scope);
    if |pool| == 0 {
      return Err(NotFound);
    }
    var nextQuestion := pool[randomId];
    // The source's `while` returns from inside its body, so it runs at most once.
    if nextQuestion.id !in previous {
      nextQuestion := pool[randomId];
      return Ok(nextQuestion);
    }
    return Err(ServerError);
  }

  /** One pass over the pool that keeps the questions not yet asked, in pool order. */
  method DropAsked(pool: seq<Question>, previous: seq<int>) returns (eligible: seq<Question>)
    ensures eligible == Where(pool, NotAsked(previous))
  {
    eligible := [];
    for i := 0 to |pool|
      invariant eligible == Where(pool[..i], NotAsked(previous))
    {
      assert Where(pool[..i + 1], NotAsked(previous)) ==
             Where(pool[..i], NotAsked(previous)) + if pool[i].id !in previous then [pool[i]] else [] by {
        assert pool[..i + 1] == pool[..i] + [pool[i]];
        WhereSnoc(pool[..i], pool[i], NotAsked(previous));
      }
      if pool[i].id !in previous {
        eligible := eligible + [pool[i]];
      }
    }
    assert pool[..|pool|] == pool;
  }

  /** The corrected draw: drop the previous questions from the pool first, report
      exhaustion when nothing is left, and otherwise return the eligible question at
      index `pick`, which stands for the random choice. */
  method PlayQuiz(qs: seq<Question>, scope: int, previous: seq<int>, pick: nat) returns (r: Draw)
    requires Eligible(qs, scope, previous) != [] ==> pick < |Eligible(qs, scope, previous)|
    ensures r.Exhausted? <==> forall q :: q in qs && InScope(q, scope) ==> q.id in previous
    ensures r.Found? ==> r.question in qs && InScope(r.question, scope) && r.question.id !in previous
    ensures r.Found? ==> r.question == Eligible(qs, scope, previous)[pick]
  {
    var pool := Pool(qs, scope);
    var eligible := DropAsked(pool, previous);
    assert eligible == Eligible(qs, scope, previous);
    if eligible == [] {
      return Exhausted;
    }
    assert eligible[0] in eligible && eligible[pick] in eligible;
    return Found(eligible[pick]);
  }

  /** Adding the drawn question's id to the previous questions shrinks the eligible pool
      by at least one, so repeated draws reach exhaustion after at most |qs| requests. */
  lemma DrawShrinksEligible(qs: seq<Question>, scope: int, previous: seq<int>, drawn: Question)
    requires drawn in qs && InScope(drawn, scope) && drawn.id !in previous
    ensures |Eligible(qs, scope, previous + [drawn.id])| < |Eligible(qs, scope, previous)|
  {
    assert drawn in Pool(qs, scope) && NotAsked(previous)(drawn) && !NotAsked(previous + [drawn.id])(drawn);
    WhereNarrower(Pool(qs, scope), NotAsked(previous), NotAsked(previous + [drawn.id]));
  }

  /** Two questions of category 1; the player has seen the first. */
  const Seen := Question(1, "Whose autobiography is entitled 'I Know Why the Caged Bird Sings'?", "Maya Angelou", 1, 2)
  const Unseen := Question(2, "What boxer's original name is Cassius Clay?", "Muhammad Ali", 1, 1)

  /** On that store, `randint` may draw index 0, the seen question: the handler as
      written then answers with a server error although an unseen question remains,
      and the corrected draw finds that question. */
  lemma AsWrittenMissesUnseenQuestion()
    ensures Pool([Seen, Unseen], 0)[0].id in [1]
    ensures Eligible([Seen, Unseen], 0, [1]) == [Unseen]
  {
  }
}
