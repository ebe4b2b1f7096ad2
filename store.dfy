/** The question and category tables as one mutable store, and the two handlers
    that change it. Both handlers wrap their work in a bare `try/except` that
    turns every failure, including an `abort(404)` or `abort(400)` raised
    inside it, into `abort(422)`. */
module Store {
  import opened Wrappers
  import opened Records
  import opened Pagination
  import opened Ordering
  import opened Responses

  class TriviaStore {
    /** The question table, in the order `Question.query.all()` lists it. */
    var questions: seq<Question>
    /** The category table. No handler changes it; the read handlers in
        `Endpoints` receive it as their `cats` argument. */
    var categories: seq<Category>
    /** The next value of the id sequence, larger than every id it has issued. */
    var nextId: int

    ghost predicate Valid()
      reads this
    {
      UniqueIds(questions) && forall q :: q in questions ==> q.id < nextId
    }

    constructor (questions: seq<Question>, categories: seq<Category>, nextId: int)
      requires UniqueIds(questions) && forall q :: q in questions ==> q.id < nextId
      ensures Valid()
      ensures this.questions == questions && this.categories == categories && this.nextId == nextId
    {
      this.questions := questions;
      this.categories := categories;
      this.nextId := nextId;
    }

    /** DELETE /questions/{question_id}. A missing id is reported as 422, not
        404, and leaves the store as it was. */
    method DeleteQuestion(questionId: nat, page: Option<int>) returns (r: Response)
      requires Valid()
      modifies this`questions
      ensures Valid()
      ensures !HasId(old(questions), questionId) ==>
                questions == old(questions) && r == ErrorResponse(Unprocessable)
      ensures HasId(old(questions), questionId) ==>
                questions == RemoveId(old(questions), questionId) &&
                |questions| == |old(questions)| - 1 &&
                r == Ok(Deleted(questionId, Paginate(SortById(questions), PageNumber(page)), |questions|))
      ensures forall q :: q in questions <==> q in old(questions) && q.id != questionId
    {
      if !HasId(questions, questionId) {
        // the abort(404) is caught by the handler's own except clause
        return ErrorResponse(Unprocessable);
      }
      RemoveIdLength(questions, questionId);
      RemoveIdKeepsUniqueIds(questions, questionId);
      questions := RemoveId(questions, questionId);
      var selection := SortById(questions);
      r := Ok(Deleted(questionId, Paginate(selection, PageNumber(page)), |questions|));
    }

    /** POST /questions. A missing or `null` field is reported as 422 (the
        `abort(400)` is caught like any other failure) and inserts nothing;
        otherwise the store gains one row under a fresh id, listed last. */
    method NewQuestion(question: JsonField<string>, answer: JsonField<string>,
                       category: JsonField<int>, difficulty: JsonField<int>,
                       page: Option<int>) returns (r: Response)
      requires Valid()
      modifies this`questions, this`nextId
      ensures Valid()
      ensures !(question.Present? && answer.Present? && category.Present? && difficulty.Present?) ==>
                questions == old(questions) && nextId == old(nextId) &&
                r == ErrorResponse(Unprocessable)
      ensures question.Present? && answer.Present? && category.Present? && difficulty.Present? ==>
                var created := Question(old(nextId), question.value, answer.value, category.value, difficulty.value);
                !HasId(old(questions), created.id) &&
                questions == old(questions) + [created] &&
                nextId == old(nextId) + 1 &&
                SortById(questions) == SortById(old(questions)) + [created] &&
                r == Ok(Created(created.id, Paginate(SortById(questions), PageNumber(page)), |questions|))
    {
      if !(question.Present? && answer.Present? && category.Present? && difficulty.Present?) {
        // the abort(400) is caught by the handler's own except clause
        return ErrorResponse(Unprocessable);
      }
      var created := Question(nextId, question.value, answer.value, category.value, difficulty.value);
      SortAppendLargest(questions, created);
      assert UniqueIds(questions + [created]) by {
        var s := questions + [created];
        forall i, j | 0 <= i < j < |s| ensures s[i].id != s[j].id {
          if j == |questions| {
            assert s[i] in questions;
          } else {
            assert s[i] == questions[i] && s[j] == questions[j];
          }
        }
      }
      questions := questions + [created];
      nextId := nextId + 1;
      var selection := SortById(questions);
      r := Ok(Created(created.id, Paginate(selection, PageNumber(page)), |questions|));
    }
  }
}
