/** `Question.query.order_by(Question.id).all()`: the store's questions listed
    in ascending id order. */
module Ordering {
  import opened Records

  predicate SortedById(s: seq<Question>) {
    forall i, j :: 0 <= i < j < |s| ==> s[i].id <= s[j].id
  }

  /** Places `x` before the first row of `s` whose id is not smaller. */
  function InsertById(x: Question, s: seq<Question>): (r: seq<Question>)
    ensures multiset(r) == multiset(s) + multiset{x}
  {
    if s == [] then [x]
    else if x.id <= s[0].id then [x] + s
    else
      assert s == [s[0]] + s[1..];
      [s[0]] + InsertById(x, s[1..])
  }

  /** Inserting adds `x` and nothing else. */
  lemma InsertMembers(x: Question, s: seq<Question>)
    ensures forall y :: y in InsertById(x, s) ==> y == x || y in s
  {
    forall y | y in InsertById(x, s) ensures y == x || y in s {
      assert y in multiset(InsertById(x, s));
    }
  }

  /** A head no larger than any element of a sorted tail gives a sorted list. */
  lemma SortedCons(h: Question, t: seq<Question>)
    requires SortedById(t)
    requires forall y :: y in t ==> h.id <= y.id
    ensures SortedById([h] + t)
  {
    var r := [h] + t;
    forall i, j | 0 <= i < j < |r| ensures r[i].id <= r[j].id {
      if i == 0 {
        assert r[j] == t[j - 1];
      } else {
        assert r[i] == t[i - 1] && r[j] == t[j - 1];
      }
    }
  }

  /** Inserting into a sorted list keeps it sorted. */
  lemma {:induction false} InsertKeepsSorted(x: Question, s: seq<Question>)
    requires SortedById(s)
    ensures SortedById(InsertById(x, s))
  {
    if s == [] {
    } else if x.id <= s[0].id {
      SortedCons(x, s);
    } else {
      var rest := s[1..];
      assert SortedById(rest) by {
        forall i, j | 0 <= i < j < |rest| ensures rest[i].id <= rest[j].id {
          assert rest[i] == s[i + 1] && rest[j] == s[j + 1];
        }
      }
      InsertKeepsSorted(x, rest);
      InsertMembers(x, rest);
      forall y | y in rest ensures s[0].id <= y.id {
        var k :| 0 <= k < |rest| && rest[k] == y;
        assert s[k + 1] == y;
      }
      SortedCons(s[0], InsertById(x, rest));
    }
  }

  /** Insertion sort on id: the rows of `s` reordered so that ids ascend. */
  function SortById(s: seq<Question>): (r: seq<Question>)
    ensures multiset(r) == multiset(s)
    ensures SortedById(r)
  {
    if s == [] then []
    else
      assert s == s[..|s| - 1] + [s[|s| - 1]];
      var sorted := SortById(s[..|s| - 1]);
      InsertKeepsSorted(s[|s| - 1], sorted);
      InsertById(s[|s| - 1], sorted)
  }

  /** A row whose id exceeds every id of a sorted list goes to its end. */
  lemma {:induction false} InsertLargestAppends(x: Question, s: seq<Question>)
    requires forall y :: y in s ==> y.id < x.id
    ensures InsertById(x, s) == s + [x]
  {
    if s != [] {
      assert forall y :: y in s[1..] ==> y in s;
      InsertLargestAppends(x, s[1..]);
      assert s == [s[0]] + s[1..];
    }
  }

  /** A question created with an id larger than every stored id is listed
      last: it appears at the end of the last page. */
  lemma SortAppendLargest(s: seq<Question>, x: Question)
    requires forall y :: y in s ==> y.id < x.id
    ensures SortById(s + [x]) == SortById(s) + [x]
  {
    assert (s + [x])[..|s|] == s;
    forall y | y in SortById(s) ensures y.id < x.id {
      assert y in multiset(SortById(s));
    }
    InsertLargestAppends(x, SortById(s));
  }

  /** With unique ids the order is strict, so each id is listed once. */
  lemma SortedUniqueIsStrict(s: seq<Question>)
    requires UniqueIds(s)
    ensures forall i, j :: 0 <= i < j < |SortById(s)| ==> SortById(s)[i].id < SortById(s)[j].id
  {
    var r := SortById(s);
    forall i, j | 0 <= i < j < |r| ensures r[i].id < r[j].id {
      if r[i].id == r[j].id {
        assert r[i] in multiset(s) && r[j] in multiset(s);
        var a :| 0 <= a < |s| && s[a] == r[i];
        var b :| 0 <= b < |s| && s[b] == r[j];
        if r[i] == r[j] {
          MultisetTwoPositions(r, i, j);
          assert multiset(s)[r[i]] >= 2;
          OneRowPerId(s, a);
        }
      }
    }
  }

  /** A value at two positions occurs at least twice. */
  lemma MultisetTwoPositions(r: seq<Question>, i: nat, j: nat)
    requires i < j < |r| && r[i] == r[j]
    ensures multiset(r)[r[i]] >= 2
  {
    assert r == r[..i] + [r[i]] + r[i + 1..j] + [r[j]] + r[j + 1..];
  }

  /** With unique ids, the row at position `a` occurs once. */
  lemma {:induction false} OneRowPerId(s: seq<Question>, a: nat)
    requires UniqueIds(s) && a < |s|
    ensures multiset(s)[s[a]] == 1
  {
    assert s == s[..a] + [s[a]] + s[a + 1..];
    assert s[a] !in s[..a] by {
      forall k | 0 <= k < a ensures s[k] != s[a] { assert s[k].id != s[a].id; }
    }
    assert s[a] !in s[a + 1..] by {
      forall k | a < k < |s| ensures s[k] != s[a] { assert s[a].id != s[k].id; }
    }
    assert multiset(s[..a])[s[a]] == 0;
    assert multiset(s[a + 1..])[s[a]] == 0;
  }
}
