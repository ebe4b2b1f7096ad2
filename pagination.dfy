/** `paginate_questions`: a fixed-size window cut from the formatted question
    list with a Python slice, so out-of-range and negative bounds behave as
    Python's slicing does. */
module Pagination {
  import opened Wrappers
  import opened Records

  const QuestionsPerPage: nat := 10

  /** Python's normalisation of one bound of a step-1 slice over a sequence of
      length `n`: a negative bound counts from the end, then the bound is
      clamped into [0, n]. */
  function SliceBound(i: int, n: nat): (k: nat)
    ensures k <= n
  {
    if i < 0 then (if i + n < 0 then 0 else i + n)
    else if i < n then i
    else n
  }

  /** `s[i:j]` in Python. */
  function PySlice<T>(s: seq<T>, i: int, j: int): (r: seq<T>)
    ensures |r| <= |s|
  {
    var lo := SliceBound(i, |s|);
    var hi := SliceBound(j, |s|);
    if lo < hi then s[lo..hi] else []
  }

  /** `request.args.get('page', 1, type=int)`: `None` stands for a query
      argument that is missing or does not parse as an integer. */
  function PageNumber(arg: Option<int>): int {
    match arg
    case Some(p) => p
    case None => 1
  }

  /** The page `page` of `qs`: `qs[start:start + 10]` with `start = (page - 1) * 10`. */
  function Paginate(qs: seq<Question>, page: int): (r: seq<Question>)
    ensures |r| <= QuestionsPerPage
    ensures forall q :: q in r ==> q in qs
  {
    var start := (page - 1) * QuestionsPerPage;
    PySlice(qs, start, start + QuestionsPerPage)
  }

  function Min(a: int, b: int): int { if a <= b then a else b }
  function Max(a: int, b: int): int { if a <= b then b else a }

  /** A page numbered from 1 is the window [(page-1)*10, min(page*10, n)). */
  lemma PageWindow(qs: seq<Question>, page: int)
    requires page >= 1
    ensures Min((page - 1) * QuestionsPerPage, |qs|) <= Min(page * QuestionsPerPage, |qs|)
    ensures Paginate(qs, page) == qs[Min((page - 1) * QuestionsPerPage, |qs|)..Min(page * QuestionsPerPage, |qs|)]
  {
  }

  /** Without a usable page argument the first ten questions are listed. */
  lemma DefaultPageIsFirst(qs: seq<Question>)
    ensures Paginate(qs, PageNumber(None)) == qs[..Min(QuestionsPerPage, |qs|)]
  {
    PageWindow(qs, 1);
  }

  /** A page that lies wholly inside the list holds exactly ten questions. */
  lemma FullPage(qs: seq<Question>, page: int)
    requires page >= 1 && page * QuestionsPerPage <= |qs|
    ensures |Paginate(qs, page)| == QuestionsPerPage
  {
    PageWindow(qs, page);
  }

  /** A page numbered from 1 is empty exactly when it starts at or past the end. */
  lemma PageEmptyIff(qs: seq<Question>, page: int)
    requires page >= 1
    ensures Paginate(qs, page) == [] <==> (page - 1) * QuestionsPerPage >= |qs|
  {
    PageWindow(qs, page);
  }

  /** Page 0 is always empty: its slice is `[-10:0]`, and the bound 0 is not
      counted from the end. */
  lemma PageZeroEmpty(qs: seq<Question>)
    ensures Paginate(qs, 0) == []
  {
  }

  /** A negative page is a window counted back from the end of the list. */
  lemma NegativePageIsTailWindow(qs: seq<Question>, page: int)
    requires page < 0
    ensures Max(|qs| + (page - 1) * QuestionsPerPage, 0) <= Max(|qs| + page * QuestionsPerPage, 0) <= |qs|
    ensures Paginate(qs, page)
            == qs[Max(|qs| + (page - 1) * QuestionsPerPage, 0)..Max(|qs| + page * QuestionsPerPage, 0)]
  {
  }

  /** So a negative page is not always empty: page -1 of more than ten
      questions is the ten-wide window that ends ten before the end. */
  lemma PageMinusOneNotEmpty(qs: seq<Question>)
    requires |qs| > QuestionsPerPage
    ensures Paginate(qs, -1) == qs[Max(|qs| - 20, 0)..|qs| - 10]
    ensures Paginate(qs, -1) != []
  {
    NegativePageIsTailWindow(qs, -1);
  }

  /** Every question is on exactly the page its position says, at the offset
      its position says. */
  lemma EveryQuestionOnItsPage(qs: seq<Question>, i: nat)
    requires i < |qs|
    ensures var page := i / QuestionsPerPage + 1;
            i % QuestionsPerPage < |Paginate(qs, page)| &&
            Paginate(qs, page)[i % QuestionsPerPage] == qs[i]
  {
    var page := i / QuestionsPerPage + 1;
    PageWindow(qs, page);
  }

  /** When question ids are unique, no question is on two different pages
      numbered from 1. */
  lemma PagesDisjoint(qs: seq<Question>, p: int, p': int)
    requires UniqueIds(qs)
    requires p >= 1 && p' >= 1 && p != p'
    ensures forall q :: q in Paginate(qs, p) ==> q !in Paginate(qs, p')
  {
    PageWindow(qs, p);
    PageWindow(qs, p');
    var lo, hi := Min((p - 1) * QuestionsPerPage, |qs|), Min(p * QuestionsPerPage, |qs|);
    var lo', hi' := Min((p' - 1) * QuestionsPerPage, |qs|), Min(p' * QuestionsPerPage, |qs|);
    assert hi <= lo' || hi' <= lo;
    forall q | q in Paginate(qs, p) ensures q !in Paginate(qs, p') {
      var a :| lo <= a < hi && qs[a] == q by {
        var k :| 0 <= k < hi - lo && qs[lo..hi][k] == q;
        assert qs[lo + k] == q;
      }
      forall b | lo' <= b < hi' ensures qs[b] != q {
        assert a != b;
      }
    }
  }
}
