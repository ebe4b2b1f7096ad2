/** The two tables of the trivia store, as their rows are formatted for JSON. */
module Records {

  /** A question row; the fields are exactly the keys of its formatted form. */
  datatype Question = Question(id: int, question: string, answer: string, category: int, difficulty: int)

  /** A category row; `kind` holds the column the store calls `type`. */
  datatype Category = Category(id: int, kind: string)

  /** Number of keys in a formatted question (id, question, answer, category, difficulty). */
  const FormattedFieldCount: nat := 5

  /** The store's primary-key invariant for questions. */
  predicate UniqueIds(qs: seq<Question>) {
    forall i, j :: 0 <= i < j < |qs| ==> qs[i].id != qs[j].id
  }

  /** The primary-key invariant for categories. */
  predicate UniqueCategoryIds(cs: seq<Category>) {
    forall i, j :: 0 <= i < j < |cs| ==> cs[i].id != cs[j].id
  }

  predicate HasId(qs: seq<Question>, id: int) {
    exists q :: q in qs && q.id == id
  }

  /** The rows of `s` that satisfy `p`, in store order: a `query.filter(...).all()`. */
  function Filter<T(!new)>(p: T -> bool, s: seq<T>): (r: seq<T>)
    ensures |r| <= |s|
    ensures forall x :: x in r <==> x in s && p(x)
  {
    if s == [] then []
    else if p(s[0]) then [s[0]] + Filter(p, s[1..])
    else Filter(p, s[1..])
  }

  /** Filtering keeps the primary-key invariant. */
  lemma {:induction false} FilterKeepsUniqueIds(p: Question -> bool, qs: seq<Question>)
    requires UniqueIds(qs)
    ensures UniqueIds(Filter(p, qs))
  {
    if qs != [] {
      var rest := qs[1..];
      assert UniqueIds(rest) by {
        forall i, j | 0 <= i < j < |rest| ensures rest[i].id != rest[j].id {
          assert rest[i] == qs[i + 1] && rest[j] == qs[j + 1];
        }
      }
      FilterKeepsUniqueIds(p, rest);
      if p(qs[0]) {
        var r := Filter(p, qs);
        var f := Filter(p, rest);
        assert r == [qs[0]] + f;
        forall i, j | 0 <= i < j < |r| ensures r[i].id != r[j].id {
          if i == 0 {
            assert r[j] == f[j - 1];
            assert r[j] in rest;
            var k :| 0 <= k < |rest| && rest[k] == r[j];
            assert qs[k + 1] == r[j];
          } else {
            assert r[i] == f[i - 1] && r[j] == f[j - 1];
          }
        }
      }
    }
  }

  /** The questions left after deleting the row with key `id`. */
  function RemoveId(qs: seq<Question>, id: int): (r: seq<Question>)
    ensures forall q :: q in r <==> q in qs && q.id != id
  {
    Filter((q: Question) => q.id != id, qs)
  }

  /** With unique keys, removing the row at position `i` is deleting its key. */
  lemma {:induction false} RemoveAtIsRemoveId(qs: seq<Question>, i: nat)
    requires UniqueIds(qs) && i < |qs|
    ensures qs[..i] + qs[i + 1..] == RemoveId(qs, qs[i].id)
  {
    var id := qs[i].id;
    var rest := qs[1..];
    assert UniqueIds(rest) by {
      forall a, b | 0 <= a < b < |rest| ensures rest[a].id != rest[b].id {
        assert rest[a] == qs[a + 1] && rest[b] == qs[b + 1];
      }
    }
    if i == 0 {
      assert forall q :: q in rest ==> q.id != id by {
        forall q | q in rest ensures q.id != id {
          var k :| 0 <= k < |rest| && rest[k] == q;
          assert qs[k + 1] == q;
        }
      }
      FilterAllKept((q: Question) => q.id != id, rest);
    } else {
      RemoveAtIsRemoveId(rest, i - 1);
      assert rest[i - 1] == qs[i];
      assert qs[0].id != id;
      assert qs[..i] + qs[i + 1..] == [qs[0]] + (rest[..i - 1] + rest[i..]);
    }
  }

  /** Filtering with a predicate every row satisfies changes nothing. */
  lemma {:induction false} FilterAllKept<T(!new)>(p: T -> bool, s: seq<T>)
    requires forall x :: x in s ==> p(x)
    ensures Filter(p, s) == s
  {
    if s != [] {
      assert forall x :: x in s[1..] ==> x in s;
      FilterAllKept(p, s[1..]);
      assert s == [s[0]] + s[1..];
    }
  }

  /** With unique keys, deleting a key that is present removes exactly one row. */
  lemma RemoveIdLength(qs: seq<Question>, id: int)
    requires UniqueIds(qs) && HasId(qs, id)
    ensures |RemoveId(qs, id)| == |qs| - 1
  {
    var q :| q in qs && q.id == id;
    var i :| 0 <= i < |qs| && qs[i] == q;
    RemoveAtIsRemoveId(qs, i);
  }

  /** Deleting a key keeps the primary-key invariant. */
  lemma RemoveIdKeepsUniqueIds(qs: seq<Question>, id: int)
    requires UniqueIds(qs)
    ensures UniqueIds(RemoveId(qs, id))
  {
    FilterKeepsUniqueIds((q: Question) => q.id != id, qs);
  }
}
