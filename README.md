# Trivia question bank: question-selection core in Dafny

This project models the question-selection logic of a Flask trivia backend
(`backend/flaskr/__init__.py`). It covers the pager, the id-to-kind category
dictionary, the case-insensitive text search, the category filter, the create and
delete handlers, and the quiz draw. The question table is an in-memory `seq<Question>`
held by a class (`Store.QuestionStore`) that the create and delete handlers update in
place. Every other handler takes the questions, the categories, the page number and the
request-body fields as plain parameters. The handlers return a `Result` (`Ok` or `Err`
with `NotFound` = 404, `Unprocessable` = 422 or `ServerError` = 500); the corrected quiz
draw returns a `Draw` (`Found` or `Exhausted`).

Modules:
- `Results`: the status codes and the `Result`/`Option` types.
- `Trivia`: the `Question` and `Category` records. The category table's `type` column is the field `kind`.
- `Sequences`: `Where`, an order-preserving filter, with its lemmas. Every filtering query in the source (`.all()` and `.filter(...).all()`) is one; the single-row lookup `one_or_none()` is `Categories.FindCategory`.
- `Pager`: `Paginate` with Python's slice semantics, and the partition lemmas.
- `Text`: ASCII case folding and the SQL `LIKE` matcher (`%` matches any run, `_` any single character).
- `Filters`: the search predicate (`ILIKE '%' + term + '%'`) and the category filter.
- `Categories`: the dictionary-building loop and the category listing.
- `Endpoints`: the question listing, the search and the listing by category.
- `Store`: the question store class with create and delete.
- `Quiz`: the quiz draw, both as the handler writes it and corrected.

Behaviour the model keeps exactly as the code has it, though a reader might expect otherwise:
- Page numbers below 1 are not rejected. Page 0 is empty. A negative page reads Python's negative slice bounds, so page -1 of 25 questions shows questions 5 to 14 (`Pager.NonPositivePage`).
- The search term goes into `ILIKE` unescaped. `%` and `_` in the term are wildcards, and the empty term matches every question (`Filters.EmptyTermMatchesAll`). Plain substring search is proved only for terms without wildcards (`Filters.MatchesIsCaselessSubstring`). This holds up to two simplifications listed under "## Left out": case folding covers ASCII letters only, and the `LIKE` escape character is not modelled.
- A search with matches but a page past the last one succeeds with an empty page. Only zero matches is not-found.
- Deleting a missing id ends in 422, not 404. The handler's `abort(404)` raises inside a bare `try`, and its `except` turns it into `abort(422)`.
- Create checks only that the question and the answer are non-empty. The source tests the answer three times and never tests the category or the difficulty.

One deliberate departure: the category filter compares integer ids, while the source compares the column against `str(id)` (see "## Left out").

## Model

| member | source | states |
|---|---|---|
| `Pager.Paginate` | backend/flaskr/__init__.py:11-18 | a page never holds more than `QUESTIONS_PER_PAGE` = 10 questions, for any page number |
| `Pager.PageIsWindow` | backend/flaskr/__init__.py:12-17 | for page p >= 1 the page is `selection[(p-1)*10 .. (p-1)*10+10]` clipped to the selection's length |
| `Pager.PageElement` | backend/flaskr/__init__.py:14-17 | element k of page p >= 1 is element (p-1)*10+k of the selection |
| `Pager.PagesArePrefix` | backend/flaskr/__init__.py:14-17 | pages 1..n concatenated are exactly the first min(10n, L) questions of the selection |
| `Pager.PagesPartitionSelection` | backend/flaskr/__init__.py:11-17 | pages 1..ceil(L/10) concatenated give back the whole selection: nothing duplicated, nothing omitted |
| `Pager.PageEmptyIff` | backend/flaskr/__init__.py:14-17 | a page p >= 1 is empty exactly when p is past the last page ceil(L/10) |
| `Pager.NonPositivePage` | backend/flaskr/__init__.py:13-17 | page 0 is empty; a negative page p is the window Python's negative slice bounds select, non-empty exactly when L > -10p |
| `Text.LikeFindsSubstring` | backend/flaskr/__init__.py:176-177 | the pattern `%t%` with a wildcard-free t matches a string exactly when t occurs in it |
| `Text.LikePrefix` | backend/flaskr/__init__.py:177 | a wildcard-free t followed by `%` matches exactly the strings t begins |
| `Text.LikeLeadingRun` | backend/flaskr/__init__.py:177 | a leading `%` lets the rest of the pattern match any suffix of the string |
| `Filters.Matching` | backend/flaskr/__init__.py:176-177 | the search result is, in store order, exactly the questions whose text matches the term, each as often as it occurs in the store |
| `Filters.MatchesIsCaselessSubstring` | backend/flaskr/__init__.py:176-177 | for a wildcard-free term a question matches exactly when its case-folded text contains the case-folded term; the answer plays no part |
| `Filters.SearchIgnoresCase` | backend/flaskr/__init__.py:176-177 | two terms equal up to letter case find the same questions |
| `Filters.TitleSearchIgnoresCase` | backend/flaskr/__init__.py:176-177 | searching "TITLE" and "title" gives the same questions |
| `Filters.EmptyTermMatchesAll` | backend/flaskr/__init__.py:175-177 | the empty search term finds every question |
| `Filters.UnderscoreTermMatchesNonEmpty` | backend/flaskr/__init__.py:176-177 | the term `_` matches every question with non-empty text |
| `Filters.InCategory` | backend/flaskr/__init__.py:205 | the category filter is, in store order, exactly the questions whose category equals the id, each as often as it occurs in the store |
| `Categories.CategoryMap` | backend/flaskr/__init__.py:47-49 | the loop leaves one key per distinct category id, each mapped to the kind of the last category with that id |
| `Categories.CategoryMapOfDistinct` | backend/flaskr/__init__.py:79-81 | with unique category ids every category maps to its own kind |
| `Categories.ListCategories` | backend/flaskr/__init__.py:45-57 | not-found exactly when the category table is empty; otherwise the dictionary |
| `Categories.FindCategory` | backend/flaskr/__init__.py:202 | with unique category ids (the primary key), finds the one category with the id, and finds none exactly when no category has it |
| `Endpoints.ListQuestions` | backend/flaskr/__init__.py:72-93 | not-found exactly when the page is empty (for p >= 1, when p > ceil(L/10)); otherwise that page, the total of the whole store and the dictionary |
| `Endpoints.SearchQuestions` | backend/flaskr/__init__.py:173-187 | not-found exactly when no question matches; otherwise the page of matches and the number of matches |
| `Endpoints.QuestionsInCategory` | backend/flaskr/__init__.py:200-216 | not-found exactly when no category has the id; otherwise the page of its questions, their number and that category's kind |
| `Store.Without` | backend/flaskr/__init__.py:112 | deleting keeps exactly the questions whose id differs |
| `Store.WithoutRemovesExactlyOne` | backend/flaskr/__init__.py:106-112 | with unique ids, deleting an existing id removes that one question and keeps all others in order, ids still unique |
| `Store.WithoutAbsent` | backend/flaskr/__init__.py:107-110 | deleting an absent id leaves the questions unchanged |
| `Store.AppendedIsLastOnLastPage` | backend/flaskr/__init__.py:126-128 | an inserted question is the last entry of the last page |
| `Store.QuestionStore.Create` | backend/flaskr/__init__.py:131-160 | 422 and no change when the question or answer is empty; otherwise the store grows by one question with a fresh id, and the reply carries that id, the page and the new store size |
| `Store.QuestionStore.Delete` | backend/flaskr/__init__.py:103-119 | an existing id is removed and echoed back; an absent id gives 422 and no change |
| `Quiz.Pool` | backend/flaskr/__init__.py:244-248 | scope 0 draws from every question, any other scope only from that category |
| `Quiz.Eligible` | backend/flaskr/__init__.py:250-255 | the eligible questions are exactly those in scope whose id is not among the previous questions |
| `Quiz.PlayQuizAsWritten` | backend/flaskr/__init__.py:237-270 | empty pool: 404; drawn question unseen: that question; drawn question already asked: 500 |
| `Quiz.DropAsked` | backend/flaskr/__init__.py:250-255 | one pass over the pool keeps exactly the questions not yet asked, in pool order |
| `Quiz.PlayQuiz` | backend/flaskr/__init__.py:244-256 | exhausted exactly when every question in scope was asked; otherwise the eligible question at the chosen index, never one already asked |
| `Quiz.DrawShrinksEligible` | backend/flaskr/__init__.py:253-254 | adding the drawn id to the previous questions shrinks the eligible pool, so repeated draws end in exhaustion |
| `Quiz.AsWrittenMissesUnseenQuestion` | backend/flaskr/__init__.py:250-255 | on a store with one asked and one unasked question, the first draw index hits an asked id while an eligible question remains |

## Findings

| source | as written | input that shows it | evidently intended | confidence | as-written member | corrected member |
|---|---|---|---|---|---|---|
| backend/flaskr/__init__.py:250-255 | one random index is drawn; the question is returned only if its id is unseen, otherwise the `while` never runs and the handler returns nothing (a 500), even when unseen questions remain; an empty pool makes `randint(0, -1)` raise (a 404) | two questions of category 1 with ids 1 and 2, scope 0, previous questions [1], `randint` gives 0 | draw only among the questions not yet asked, and report exhaustion when none remains | high, assuming the quiz's `cat` column is the `category` column the other handlers use; not executed | `Quiz.PlayQuizAsWritten`, `Quiz.AsWrittenMissesUnseenQuestion` | `Quiz.PlayQuiz`, `Quiz.DrawShrinksEligible` |

## Left out

- HTTP routing, `request.args`/`request.get_json` parsing and `jsonify` responses: page numbers and body fields are parameters, and replies are datatypes.
- Missing or mistyped body fields in create and search (a missing `question` key, a `None` search term): they raise outside any `try` and end in a 500, which is not modelled.
- A missing `quiz_category` or `previous_questions`: the handler raises inside its `try` (`None['id']`, or `in None`) and answers 404. The model takes the scope and the previous ids as parameters, so this 404 is not modelled.
- CORS setup and the `after_request` header hook: middleware with no logic.
- SQLAlchemy queries, `setup_db` and `insert()`/`delete()`: the table is an in-memory sequence. Ids come from a counter (`nextId`) standing for the table's autoincrement sequence.
- Database failures during insert or delete are not modelled.
- The column type behind the source's `category=str(id)` comparison is defined in `models.py`, which is not part of this model. The model stores and compares category ids as integers.
- `random.randint`: the draw index is a parameter that must be in range. The uniform distribution is not modelled.
- Error-handler bodies and messages, `print(e)` and `Question.format()`: replies carry `Question` values.
- Case folding covers ASCII letters only. The database's locale-aware folding of other letters is not modelled.
- The `LIKE` escape character is not modelled. `%` and `_` are always wildcards.
- `Quiz.PlayQuizAsWritten`, `Quiz.Pool`: the quiz filters on a column named `cat` and reads `nextQuestion.cat`, while create and the category listing use `category`. The `Question` class is in `models.py`, which is not part of this model. The model assumes `cat` and `category` name the same column. If `Question` has no `cat` attribute, every non-zero scope and every unseen draw would raise inside the `try` and end in a 404, and the handler would never return a question.
- `Quiz.PlayQuizAsWritten`: the source's `while` loop is written as an `if`. Its body returns unconditionally, so it runs at most once.
