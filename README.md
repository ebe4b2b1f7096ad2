# Trivia API — a Dafny model of its request handlers

This project models the request-handling core of a small trivia web API
(`backend/flaskr/__init__.py`). The API lists categories, pages through
questions ten at a time, deletes and creates questions, searches question text
with a case-insensitive `ILIKE`, lists the questions of one category, and draws
a random quiz question that was not asked before. The relational store is
modelled as two sequences of records:
- `Records.Question`: id, question, answer, category and difficulty. These are the keys of a formatted question.
- `Records.Category`: id and type. The type field is called `kind` here.

Modules:
- `Records`: the row types, the unique-key invariant, `Filter` (a `query.filter(...).all()`) and deletion by key.
- `Pagination`: `paginate_questions`, with Python's slice semantics, including negative bounds.
- `Ordering`: `order_by(Question.id)` as an insertion sort on id.
- `Like`: SQL `LIKE` with PostgreSQL's default escape character `\`, case-folded for `ILIKE`.
- `Responses`: the JSON envelopes, including the fixed error envelope for each status 400, 404, 405, 422 and 500.
- `Endpoints`: the read-only handlers:
  - the for-loop that builds the category dictionary is a method with a loop invariant;
  - the filters and the quiz draw are functions.
- `Store`: the class `TriviaStore`. It holds the question and category sequences and the id sequence counter. Its methods `DeleteQuestion` and `NewQuestion` change the store in place.

Behaviours the model keeps from the code:
- A missing id on delete is answered with 422 "unprocessable", not 404. A create with a missing field is answered with 422, not 400. In both handlers, the `abort` raised inside the `try` block is caught by the bare `except`, which calls `abort(422)`.
- The evident intent of those `abort` calls is a 404 and a 400. The model follows the code, as does the repository's own test of a missing id.
- Page 0 is always empty. A negative page is a window counted back from the end of the list, so it can be non-empty.
- The quiz treats a category id of 0, a missing id and a `null` id alike as "any category". A `null` category object raises `AttributeError`, which answers with the 500 envelope. A missing, `null` or empty `previous_question` excludes nothing.
- A `null` search term reaches the f-string as Python's `None`, so the text "None" is searched for. A missing term is "", and "" matches every question.
- The quiz answer's `total_question` is `len()` of the formatted question dictionary. That is its number of keys (5), not a count of questions.
- `random.choice` is modelled as a caller-supplied number `pick`. The chosen question is the eligible question at position `pick` modulo the number of eligible questions.
- New ids come from the store's id sequence (`TriviaStore.nextId`). Every id it issues is larger than every stored id.

## Model

| member | source | states |
|---|---|---|
| Pagination.SliceBound | backend/flaskr/__init__.py:21 | a slice bound, after Python's normalisation, lies within the list |
| Pagination.PySlice | backend/flaskr/__init__.py:21 | a Python slice is never longer than the list it is cut from |
| Pagination.Paginate | backend/flaskr/__init__.py:15-23 | a page holds at most ten questions, all taken from the list |
| Pagination.PageNumber | backend/flaskr/__init__.py:16 | the page number: the argument when it parses as an integer, otherwise 1. DefaultPageIsFirst states what that default lists |
| Pagination.DefaultPageIsFirst | backend/flaskr/__init__.py:16-21 | without a usable page argument, the first min(10, n) questions are listed |
| Pagination.PageWindow | backend/flaskr/__init__.py:15-23 | page p ≥ 1 is exactly the questions at positions [(p-1)*10, min(p*10, n)) |
| Pagination.FullPage | backend/flaskr/__init__.py:17-21 | page p ≥ 1 with p*10 ≤ n holds exactly ten questions |
| Pagination.PageEmptyIff | backend/flaskr/__init__.py:17-21 | page p ≥ 1 is empty iff (p-1)*10 ≥ n |
| Pagination.PageZeroEmpty | backend/flaskr/__init__.py:17-21 | page 0 is empty for every list |
| Pagination.NegativePageIsTailWindow | backend/flaskr/__init__.py:17-21 | a negative page p is the window [max(n+(p-1)*10, 0), max(n+p*10, 0)) counted from the end |
| Pagination.PageMinusOneNotEmpty | backend/flaskr/__init__.py:17-21 | with more than ten questions, page -1 is the non-empty window that ends ten before the end |
| Pagination.EveryQuestionOnItsPage | backend/flaskr/__init__.py:15-23 | the question at position i is on page i/10+1, at offset i%10 |
| Pagination.PagesDisjoint | backend/flaskr/__init__.py:15-23 | with unique ids, no question is on two different pages numbered from 1 |
| Records.Filter | backend/flaskr/__init__.py:214 | a filter query keeps exactly the rows satisfying the predicate and is no longer than the table |
| Records.FilterKeepsUniqueIds | backend/flaskr/__init__.py:214 | a filtered list of rows with unique ids has unique ids |
| Records.RemoveId | backend/flaskr/__init__.py:119 | after deleting key id, the table holds exactly the old rows whose id differs |
| Records.RemoveAtIsRemoveId | backend/flaskr/__init__.py:114-119 | with unique ids, deleting the row found by its key removes that one position and keeps the order of the rest |
| Records.RemoveIdLength | backend/flaskr/__init__.py:128 | with unique ids, deleting a present key leaves one row fewer |
| Records.RemoveIdKeepsUniqueIds | backend/flaskr/__init__.py:119 | deleting a key keeps ids unique |
| Ordering.InsertById | backend/flaskr/__init__.py:120 | one insertion step of the id ordering adds the row and no other |
| Ordering.InsertKeepsSorted | backend/flaskr/__init__.py:120 | inserting into an id-sorted list keeps it sorted |
| Ordering.SortById | backend/flaskr/__init__.py:120 | the id-ordered listing is a permutation of the table, sorted by ascending id |
| Ordering.SortAppendLargest | backend/flaskr/__init__.py:160-163 | a row whose id exceeds every stored id is listed last in id order |
| Ordering.SortedUniqueIsStrict | backend/flaskr/__init__.py:120 | with unique ids, the id-ordered listing has strictly ascending ids |
| Like.LowerFolds | backend/flaskr/__init__.py:190 | folded text holds no upper-case ASCII letter, keeps every other character, and folding twice equals folding once |
| Like.LikeMatch | backend/flaskr/__init__.py:190 | the meaning of `LIKE`, with `%`, `_` and the `\` escape. It has no contract of its own; PercentMatchesAll, PlainPatternIsEquality, WildcardAndEscape, PlainPrefixMatch and PlainContainsMatch pin it down |
| Like.PlainPatternIsEquality | backend/flaskr/__init__.py:190 | a pattern with no special character matches exactly the text equal to it |
| Like.WildcardAndEscape | backend/flaskr/__init__.py:190 | `_` matches exactly the one-character texts, and `\%` matches only the text `%` |
| Like.ILike | backend/flaskr/__init__.py:190 | `ILIKE` is `LIKE` on case-folded pattern and text. PlainSearchIsSubstring and EmptyTermMatchesAll pin it down for the search pattern |
| Like.PercentMatchesAll | backend/flaskr/__init__.py:190 | the pattern `%` matches every text |
| Like.PlainPrefixMatch | backend/flaskr/__init__.py:190 | for a term without `%`, `_` or `\`, `term%` matches exactly the texts that start with the term |
| Like.PlainContainsMatch | backend/flaskr/__init__.py:190 | for such a term, `%term%` matches exactly the texts that contain it |
| Like.LowerContainsPattern | backend/flaskr/__init__.py:190 | case folding commutes with wrapping the term in `%` and keeps a term free of special characters |
| Like.PlainSearchIsSubstring | backend/flaskr/__init__.py:190 | for such a term, the ILIKE filter is a case-insensitive substring test |
| Like.EmptyTermMatchesAll | backend/flaskr/__init__.py:189-190 | the empty term matches every question text |
| Responses.ErrorResponse | backend/flaskr/__init__.py:279-317 | every error envelope has success false and an `error` field equal to its 4xx/5xx status |
| Responses.ErrorEnvelopeFixedPerStatus | backend/flaskr/__init__.py:279-317 | one envelope per status: equal statuses give equal responses, and different statuses give different messages |
| Endpoints.BuildCategoryMap | backend/flaskr/__init__.py:55-58 | the loop builds the id→type dictionary, with a repeated id keeping its last type |
| Endpoints.CategoryMapKeys | backend/flaskr/__init__.py:56-58 | the dictionary's keys are exactly the category ids |
| Endpoints.CategoryMapValues | backend/flaskr/__init__.py:56-58 | with unique ids, every category id maps to that category's type |
| Endpoints.CategoryMapSize | backend/flaskr/__init__.py:63 | with unique ids, the dictionary has one entry per category |
| Endpoints.AllAvailableCategory | backend/flaskr/__init__.py:53-64 | GET /categories: always 200, and the map holds every id with its type. `total_category` is the map's size, which is the number of categories when ids are unique |
| Endpoints.GetQuestions | backend/flaskr/__init__.py:78-102 | GET /questions: 404 iff the page is empty (for p ≥ 1, iff (p-1)*10 ≥ n). Otherwise 200 with that page, `totalQuestions` the full count whatever the page, and every category id in the map |
| Endpoints.SearchQuestion | backend/flaskr/__init__.py:187-201 | search: 404 iff no question matches. Otherwise 200 with a page of the matches (all of them in the store and matching) and `total_questions` the unpaginated match count |
| Like.ContainsPattern | backend/flaskr/__init__.py:190 | the f-string `f"%{search_term}%"`. LowerContainsPattern, PlainContainsMatch and EmptyTermMatchesAll state what it matches |
| Endpoints.MatchesTerm | backend/flaskr/__init__.py:190 | one question passes the search filter: its text is `ILIKE` the pattern `%term%` |
| Endpoints.SearchMatches | backend/flaskr/__init__.py:190 | the ILIKE filter over `%term%`, in store order. SearchIsCaseInsensitiveSubstring, NullTermSearchesNone and MissingTermMatchesAll pin it down |
| Endpoints.SearchTerm | backend/flaskr/__init__.py:189 | the term searched for: "" when `searchTerm` is missing and "None" when it is `null`. MissingTermMatchesAll and NullTermSearchesNone state what those give |
| Endpoints.NullTermSearchesNone | backend/flaskr/__init__.py:189-190 | a `null` term finds exactly the questions whose text contains "none" in any case |
| Endpoints.SearchIsCaseInsensitiveSubstring | backend/flaskr/__init__.py:190 | for a term without `%`, `_` or `\`, the matches are exactly the questions whose text contains the term, ignoring case |
| Endpoints.MissingTermMatchesAll | backend/flaskr/__init__.py:189-190 | a missing search term matches every question, in store order |
| Endpoints.QuestionsByCategory | backend/flaskr/__init__.py:212-225 | by category: always 200, never 404. The result is exactly the questions of that category, unpaginated, and `total_questions` is its length |
| Endpoints.QuizCategory | backend/flaskr/__init__.py:241-247 | the category filter: present only for a present, non-zero id. TruthyCategoryFilters and QuizDefaults state its effect |
| Endpoints.PreviousIds | backend/flaskr/__init__.py:242-250 | the ids to exclude: the list when present, otherwise none. QuizDefaults states its effect |
| Endpoints.Eligible | backend/flaskr/__init__.py:247-253 | one question passes the quiz filter: not previously asked, and in the category when one is given |
| Endpoints.EligibleQuestions | backend/flaskr/__init__.py:247-253 | the matching questions are exactly those in the store that were not asked before and are in the given category (if any). Unique ids stay unique |
| Endpoints.PlayQuiz | backend/flaskr/__init__.py:238-269 | quiz: success iff some question is eligible (not previously asked, and in the category when the id is truthy). The chosen question is eligible and `total_question` is 5. Otherwise 200 with success false and the fixed message. A `null` category object gives 500 |
| Endpoints.QuizCanChooseEveryEligible | backend/flaskr/__init__.py:255-257 | every eligible question is the answer to some draw |
| Endpoints.TruthyCategoryFilters | backend/flaskr/__init__.py:241-257 | a non-zero category id: success iff a question of that category was not asked before, and the chosen question is of that category and not asked before |
| Endpoints.QuizDefaults | backend/flaskr/__init__.py:241-250 | a category id that is missing, `null` or 0 answers as if no category were sent. A `previous_question` that is missing, `null` or empty answers as if none were sent |
| Store.TriviaStore.DeleteQuestion | backend/flaskr/__init__.py:111-133 | for a missing id: 422 "unprocessable", never 404, and the store unchanged. Otherwise exactly that question is removed and all others kept. The response has `deleted` equal to the id, a page of the remaining questions sorted by id, and `total_question` equal to the old count − 1 |
| Store.TriviaStore.NewQuestion | backend/flaskr/__init__.py:145-175 | if any field is missing: 422 (the 400 is unreachable) and the store unchanged. Otherwise exactly one question with the given fields and a fresh id is appended, and it is listed last in id order. `total_questions` is the old count + 1, and ids stay unique |

## Left out

- Flask routing, `jsonify`, CORS setup and the `after_request` header injection (lines 27-44) are framework glue. Status 405 is decided by Flask's router, so only its envelope is modelled.
- The path converter `<int:...>` accepts only non-negative integers. It is modelled by typing path ids as `nat`; other paths are the router's concern.
- `jsonify` turns the integer keys of the category dictionary into strings. The model keeps them as integers.
- SQLAlchemy, `setup_db` and the `models` module are not part of this model:
  - the tables are sequences;
  - `format()` is the record itself;
  - `Question.query.all()` (line 82) and the `filter(...).all()` queries (lines 190, 214 and 253) have no `order_by`. The model lists their rows in the order of the sequence (`Records.Filter` keeps that order), and that order decides which search match lands on which page.
- Store-level failures are not modelled: a failed commit, a rollback, a wrong field type such as a non-integer difficulty, and the 500 they may cause. Neither is a request body that is not a JSON object (`get_json()` returning `None` raises outside any `try`).
- Request fields are modelled only at their expected JSON types: integer ids, text, and a list of integer ids for `previous_question`. Other types behave differently in Python and are not modelled. For example, a category id `"0"` is truthy and filters by category. A numeric `searchTerm` is searched as its decimal text. A `previous_question` that is not a list is also not modelled.
- Case folding depends on the database collation. The model folds ASCII letters only.
- A `LIKE` pattern that ends in a lone `\` is an error in PostgreSQL. The model matches nothing there instead. The search pattern always ends in `%`, so this case never arises from the endpoint.
- The randomness of `random.choice` is left out. The draw is the caller's `pick`, so uniformity is not modelled; only which questions can be drawn.
- The 500 answer to a `null` quiz category assumes Flask's production setting, where an unhandled exception is turned into a 500 response rather than re-raised.
