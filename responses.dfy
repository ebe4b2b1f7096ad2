/** The JSON envelopes the API answers with: one success shape per endpoint and
    one fixed error envelope per HTTP status the application handles. */
module Responses {
  import opened Records

  /** The keys of each success body (the JSON key `question` of a quiz answer
      is `chosen` here, because `question` already names the page of a delete
      answer). */
  datatype Body =
    | CategoryList(categories: map<int, string>, totalCategory: int)
    | QuestionPage(questions: seq<Question>, totalQuestions: int, categories: map<int, string>)
    | Deleted(deleted: int, question: seq<Question>, totalQuestion: int)
    | Created(created: int, questions: seq<Question>, totalQuestions: int)
    | QuestionList(questions: seq<Question>, totalQuestions: int)
    | QuizQuestion(chosen: Question, totalQuestion: int)
    | QuizMessage(message: string)
    | ErrorBody(error: int, message: string)

  /** HTTP status, the body's `success` flag, and the rest of the body. */
  datatype Response = Response(status: int, success: bool, body: Body)

  /** The statuses that have a registered error handler. */
  datatype ErrorKind = BadRequest | NotFound | MethodNotAllowed | Unprocessable | InternalServerError {

    function Code(): int {
      match this
      case BadRequest => 400
      case NotFound => 404
      case MethodNotAllowed => 405
      case Unprocessable => 422
      case InternalServerError => 500
    }

    function Message(): string {
      match this
      case BadRequest => "bad request"
      case NotFound => "resource not found"
      case MethodNotAllowed => "method not allowed"
      case Unprocessable => "unprocessable"
      case InternalServerError => "Internal Server Error"
    }
  }

  /** The envelope an `abort(code)` turns into. */
  function ErrorResponse(e: ErrorKind): (r: Response)
    ensures !r.success && r.body.ErrorBody?
    ensures r.status == r.body.error && 400 <= r.status < 600
  {
    Response(e.Code(), false, ErrorBody(e.Code(), e.Message()))
  }

  function Ok(body: Body): Response {
    Response(200, true, body)
  }

  /** The envelope is fixed per status: two errors with the same status are the
      same response, and different statuses carry different messages. */
  lemma ErrorEnvelopeFixedPerStatus(e: ErrorKind, e': ErrorKind)
    ensures ErrorResponse(e).status == ErrorResponse(e').status <==> ErrorResponse(e) == ErrorResponse(e')
    ensures e != e' ==> ErrorResponse(e).body.message != ErrorResponse(e').body.message
  {
  }
}
