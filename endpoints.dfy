/** The read-only request handlers of the trivia API. Each takes what it reads
    from the store as arguments (`Question.query.all()` is `qs`,
    `Category.query.all()` is `cats`) and returns the response it sends. */
module Endpoints {
  import opened Wrappers
  import opened Records
  import opened Pagination
  import opened Like
  import opened Responses

  // ---------------------------------------------------------------- categories

  /** The dictionary `{c.id: c.type}` filled in store order; a repeated id
      keeps the last type written. */
  ghost function CategoryMapOf(cats: seq<Category>): map<int, string> {
    if cats == [] then map[]
    else
      var last := cats[|cats| - 1];
      CategoryMapOf(cats[..|cats| - 1])[last.id := last.kind]
  }

  ghost function CategoryIds(cats: seq<Category>): set<int> {
    set c | c in cats :: c.id
  }

  /** The for-loop that builds the category dictionary. */
  method BuildCategoryMap(cats: seq<Category>) returns (m: map<int, string>)
    ensures m == CategoryMapOf(cats)
  {
    m := map[];
    for i := 0 to |cats|
      invariant m == CategoryMapOf(cats[..i])
    {
      assert cats[..i + 1][..i] == cats[..i];
      m := m[cats[i].id := cats[i].kind];
    }
    assert cats[..|cats|] == cats;
  }

  /** The dictionary has one key per distinct category id. */
  lemma {:induction false} CategoryMapKeys(cats: seq<Category>)
    ensures CategoryMapOf(cats).Keys == CategoryIds(cats)
  {
    if cats != [] {
      var init, last := cats[..|cats| - 1], cats[|cats| - 1];
      CategoryMapKeys(init);
      assert cats == init + [last];
      assert CategoryIds(cats) == CategoryIds(init) + {last.id};
    }
  }

  /** With unique ids, every category's id maps to its own type. */
  lemma {:induction false} CategoryMapValues(cats: seq<Category>)
    requires UniqueCategoryIds(cats)
    ensures forall c :: c in cats ==> c.id in CategoryMapOf(cats) && CategoryMapOf(cats)[c.id] == c.kind
  {
    if cats != [] {
      var init, last := cats[..|cats| - 1], cats[|cats| - 1];
      assert UniqueCategoryIds(init) by {
        forall i, j | 0 <= i < j < |init| ensures init[i].id != init[j].id {
          assert init[i] == cats[i] && init[j] == cats[j];
        }
      }
      CategoryMapValues(init);
      var m := CategoryMapOf(cats);
      assert m == CategoryMapOf(init)[last.id := last.kind];
      forall c | c in cats ensures c.id in m && m[c.id] == c.kind {
        var k :| 0 <= k < |cats| && cats[k] == c;
        if k < |cats| - 1 {
          assert init[k] == c;
          assert c.id != last.id;
        }
      }
    }
  }

  /** With unique ids, `len(cat)` is the number of categories. */
  lemma {:induction false} CategoryMapSize(cats: seq<Category>)
    requires UniqueCategoryIds(cats)
    ensures |CategoryMapOf(cats)| == |cats|
  {
    if cats != [] {
      var init, last := cats[..|cats| - 1], cats[|cats| - 1];
      CategoryMapSize(init);
      CategoryMapKeys(init);
      assert last.id !in CategoryIds(init) by {
        forall c | c in init ensures c.id != last.id {
          var k :| 0 <= k < |init| && init[k] == c;
          assert cats[k] == c;
        }
      }
    }
  }

  /** GET /categories. */
  method AllAvailableCategory(cats: seq<Category>) returns (r: Response)
    ensures r.status == 200 && r.success && r.body.CategoryList?
    ensures r.body.categories == CategoryMapOf(cats)
    ensures r.body.categories.Keys == CategoryIds(cats)
    ensures r.body.totalCategory == |r.body.categories|
    ensures UniqueCategoryIds(cats) ==>
              r.body.totalCategory == |cats| &&
              forall c :: c in cats ==> r.body.categories[c.id] == c.kind
  {
    var cat := BuildCategoryMap(cats);
    CategoryMapKeys(cats);
    if UniqueCategoryIds(cats) {
      CategoryMapValues(cats);
      CategoryMapSize(cats);
    }
    r := Ok(CategoryList(cat, |cat|));
  }

  // ----------------------------------------------------------------- questions

  /** GET /questions?page=N. */
  method GetQuestions(qs: seq<Question>, cats: seq<Category>, page: Option<int>) returns (r: Response)
    ensures Paginate(qs, PageNumber(page)) == [] ==> r == ErrorResponse(NotFound)
    ensures Paginate(qs, PageNumber(page)) != [] ==>
              r.status == 200 && r.success &&
              r.body == QuestionPage(Paginate(qs, PageNumber(page)), |qs|, CategoryMapOf(cats))
    ensures PageNumber(page) >= 1 ==>
              (r.status == 404 <==> (PageNumber(page) - 1) * QuestionsPerPage >= |qs|)
    ensures r.success ==>
              0 < |r.body.questions| <= QuestionsPerPage &&
              r.body.categories.Keys == CategoryIds(cats)
  {
    var current := Paginate(qs, PageNumber(page));
    if PageNumber(page) >= 1 {
      PageEmptyIff(qs, PageNumber(page));
    }
    if |current| == 0 {
      return ErrorResponse(NotFound);
    }
    var cat := BuildCategoryMap(cats);
    CategoryMapKeys(cats);
    r := Ok(QuestionPage(current, |qs|, cat));
  }

  // -------------------------------------------------------------------- search

  /** `request.json.get("searchTerm", "")`: a JSON `null` reaches the f-string
      as Python's `None` and is searched for as the text "None". */
  function SearchTerm(field: JsonField<string>): string {
    match field
    case Absent => ""
    case Null => "None"
    case Present(t) => t
  }

  predicate MatchesTerm(q: Question, term: string) {
    ILike(q.question, ContainsPattern(term))
  }

  /** `Question.query.filter(Question.question.ilike(f"%{term}%")).all()`. */
  function SearchMatches(qs: seq<Question>, term: string): seq<Question> {
    Filter((q: Question) => MatchesTerm(q, term), qs)
  }

  /** POST /questions/search. */
  function SearchQuestion(qs: seq<Question>, searchTerm: JsonField<string>, page: Option<int>): (r: Response)
    ensures r.status == 404 <==> forall q :: q in qs ==> !MatchesTerm(q, SearchTerm(searchTerm))
    ensures r.status == 404 ==> r == ErrorResponse(NotFound)
    ensures r.status != 404 ==>
              r.status == 200 && r.success && r.body.QuestionList? &&
              r.body.questions == Paginate(SearchMatches(qs, SearchTerm(searchTerm)), PageNumber(page)) &&
              r.body.totalQuestions == |SearchMatches(qs, SearchTerm(searchTerm))| > 0
    ensures r.success ==> forall q :: q in r.body.questions ==> q in qs && MatchesTerm(q, SearchTerm(searchTerm))
  {
    var matching := SearchMatches(qs, SearchTerm(searchTerm));
    if |matching| == 0 then
      ErrorResponse(NotFound)
    else
      assert matching[0] in matching;
      Ok(QuestionList(Paginate(matching, PageNumber(page)), |matching|))
  }

  /** A `null` term finds exactly the questions whose text contains "none" in
      any case. */
  lemma NullTermSearchesNone(qs: seq<Question>)
    ensures forall q :: q in SearchMatches(qs, SearchTerm(Null)) <==>
              q in qs && IsSubstring("none", Lower(q.question))
  {
    assert IsPlain("None");
    assert Lower("None") == "none";
    SearchIsCaseInsensitiveSubstring(qs, "None");
  }

  /** For a term free of `%`, `_` and `\`, the matches are exactly the
      questions whose text contains the term, ignoring case. */
  lemma SearchIsCaseInsensitiveSubstring(qs: seq<Question>, term: string)
    requires IsPlain(term)
    ensures forall q :: q in SearchMatches(qs, term) <==>
              q in qs && IsSubstring(Lower(term), Lower(q.question))
  {
    forall q | q in qs {
      PlainSearchIsSubstring(q.question, term);
    }
  }

  /** A missing search term lists every question, in store order. */
  lemma MissingTermMatchesAll(qs: seq<Question>)
    ensures SearchMatches(qs, SearchTerm(Absent)) == qs
  {
    forall q | q in qs ensures MatchesTerm(q, "") {
      EmptyTermMatchesAll(q.question);
    }
    FilterAllKept((q: Question) => MatchesTerm(q, ""), qs);
  }

  // --------------------------------------------------------------- by category

  /** GET /categories/{id}/questions: never 404, since a filter query gives a
      list, never `None`. */
  function QuestionsByCategory(qs: seq<Question>, categoryId: nat): (r: Response)
    ensures r.status == 200 && r.success && r.body.QuestionList?
    ensures forall q :: q in r.body.questions <==> q in qs && q.category == categoryId
    ensures r.body.totalQuestions == |r.body.questions| <= |qs|
    ensures UniqueIds(qs) ==> UniqueIds(r.body.questions)
  {
    var question := Filter((q: Question) => q.category == categoryId, qs);
    assert UniqueIds(qs) ==> UniqueIds(question) by {
      if UniqueIds(qs) {
        FilterKeepsUniqueIds((q: Question) => q.category == categoryId, qs);
      }
    }
    Ok(QuestionList(question, |question|))
  }

  // ---------------------------------------------------------------------- quiz

  /** `data.get("category", {}).get("id")` tested for truthiness: `None` means
      any category, and so do a missing or `null` id and the id 0. The
      category object must not be `null` (that is the 500 path). */
  function QuizCategory(category: JsonField<JsonField<int>>): Option<int>
    requires !category.Null?
  {
    match category
    case Absent => None
    case Present(id) => if id.Present? && id.value != 0 then Some(id.value) else None
  }

  /** `data.get("previous_question", [])`; `null` is falsy and excludes nothing. */
  function PreviousIds(previous: JsonField<seq<int>>): seq<int> {
    match previous
    case Present(ids) => ids
    case _ => []
  }

  /** The quiz filter: in the chosen category (if any) and not asked before. */
  predicate Eligible(q: Question, category: Option<int>, previous: seq<int>) {
    (category.Some? ==> q.category == category.value) && q.id !in previous
  }

  function EligibleQuestions(qs: seq<Question>, category: Option<int>, previous: seq<int>): (r: seq<Question>)
    ensures forall q :: q in r <==>
              q in qs && q.id !in previous && (category.Some? ==> q.category == category.value)
    ensures UniqueIds(qs) ==> UniqueIds(r)
  {
    var r := Filter((q: Question) => Eligible(q, category, previous), qs);
    assert UniqueIds(qs) ==> UniqueIds(r) by {
      if UniqueIds(qs) {
        FilterKeepsUniqueIds((q: Question) => Eligible(q, category, previous), qs);
      }
    }
    r
  }

  /** POST /quizzes. `random.choice` is the caller-supplied `pick`, reduced
      modulo the number of eligible questions. */
  function PlayQuiz(qs: seq<Question>, category: JsonField<JsonField<int>>,
                    previous: JsonField<seq<int>>, pick: nat): (r: Response)
    ensures category.Null? ==> r == ErrorResponse(InternalServerError)
    ensures !category.Null? ==> r.status == 200
    ensures !category.Null? ==>
              (r.success <==> exists q :: q in qs && Eligible(q, QuizCategory(category), PreviousIds(previous)))
    ensures !category.Null? && r.success ==>
              r.body.QuizQuestion? && r.body.chosen in qs &&
              Eligible(r.body.chosen, QuizCategory(category), PreviousIds(previous)) &&
              r.body.totalQuestion == FormattedFieldCount
    ensures !category.Null? && !r.success ==> r.body == QuizMessage("No matching questions found.")
  {
    if category.Null? then
      ErrorResponse(InternalServerError)
    else
      var matching := EligibleQuestions(qs, QuizCategory(category), PreviousIds(previous));
      if |matching| > 0 then
        var selected := matching[pick % |matching|];
        assert selected in matching;
        Ok(QuizQuestion(selected, FormattedFieldCount))
      else
        Response(200, false, QuizMessage("No matching questions found."))
  }

  /** The draw `pick` answers with the eligible question at `pick` modulo their number. */
  lemma QuizDraw(qs: seq<Question>, category: JsonField<JsonField<int>>,
                 previous: JsonField<seq<int>>, pick: nat)
    requires !category.Null?
    requires |EligibleQuestions(qs, QuizCategory(category), PreviousIds(previous))| > 0
    ensures var matching := EligibleQuestions(qs, QuizCategory(category), PreviousIds(previous));
            PlayQuiz(qs, category, previous, pick) == Ok(QuizQuestion(matching[pick % |matching|], FormattedFieldCount))
  {
  }

  /** Every eligible question is the answer for some draw, so repeated draws can
      reach every eligible question and no other. */
  lemma QuizCanChooseEveryEligible(qs: seq<Question>, category: JsonField<JsonField<int>>,
                                   previous: JsonField<seq<int>>, q: Question)
    requires !category.Null?
    requires q in qs && Eligible(q, QuizCategory(category), PreviousIds(previous))
    ensures exists pick: nat :: PlayQuiz(qs, category, previous, pick) == Ok(QuizQuestion(q, FormattedFieldCount))
  {
    var k := EligiblePosition(qs, QuizCategory(category), PreviousIds(previous), q);
    ModOfSmaller(k, |EligibleQuestions(qs, QuizCategory(category), PreviousIds(previous))|);
    QuizDraw(qs, category, previous, k);
  }

  /** An eligible question has a position in the eligible list. */
  lemma EligiblePosition(qs: seq<Question>, category: Option<int>, previous: seq<int>, q: Question)
    returns (k: nat)
    requires q in qs && Eligible(q, category, previous)
    ensures k < |EligibleQuestions(qs, category, previous)|
    ensures EligibleQuestions(qs, category, previous)[k] == q
  {
    var matching := EligibleQuestions(qs, category, previous);
    assert q in matching;
    k :| 0 <= k < |matching| && matching[k] == q;
  }

  lemma ModOfSmaller(k: nat, n: nat)
    requires k < n
    ensures k % n == k
  {
  }

  /** A non-zero category id restricts the quiz to that category: it succeeds
      iff a question of that category was not asked before, and the question
      it gives is of that category. */
  lemma TruthyCategoryFilters(qs: seq<Question>, k: int, previous: JsonField<seq<int>>, pick: nat)
    requires k != 0
    ensures var r := PlayQuiz(qs, Present(Present(k)), previous, pick);
            (r.success <==> exists q :: q in qs && q.category == k && q.id !in PreviousIds(previous)) &&
            (r.success ==> r.body.chosen.category == k && r.body.chosen.id !in PreviousIds(previous))
  {
    assert QuizCategory(Present(Present(k))) == Some(k);
  }

  /** The falsy forms of the request agree: a missing, `null` or 0 category id
      means any category, and a missing, `null` or empty exclusion list
      excludes nothing. */
  lemma QuizDefaults(qs: seq<Question>, pick: nat, id: JsonField<int>, previous: JsonField<seq<int>>)
    requires id.Absent? || id.Null? || id == Present(0)
    requires previous.Absent? || previous.Null? || previous == Present([])
    ensures PlayQuiz(qs, Present(id), previous, pick) == PlayQuiz(qs, Absent, Absent, pick)
  {
  }
}
