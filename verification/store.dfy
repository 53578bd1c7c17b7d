/** The persistence collaborator, reduced to what the services rely on.

    The `books` table is a map from id to row, plus the order in which a query
    without `ORDER BY` lists the rows (insertion order here; the database
    promises no particular one) and the next identity value. Writing a row
    whose non-null columns are missing fails, as the column constraints make
    the database (or Bean Validation before it) reject it; no other storage
    failure is modelled. Transactions, `flush` and the entity manager are
    left to the database.
 */
module BookStore {
  import opened Wrappers
  import opened Numbers
  import opened Books

  datatype Store = Store(rows: map<int, Book>, order: seq<int>, nextId: int)

  /** A stored row and the store after writing it. */
  datatype Saved = Saved(store: Store, book: Book)

  ghost predicate Distinct(xs: seq<int>) {
    forall i, j :: 0 <= i < j < |xs| ==> xs[i] != xs[j]
  }

  /** The table's invariant: ids come from the identity counter and stay in
      the 64-bit range, each row knows its own id, every row satisfies the
      non-null constraints, and the listing order names each row once. */
  ghost predicate Valid(s: Store) {
    && 1 <= s.nextId <= MaxLong + 1
    && Distinct(s.order)
    && (forall k :: k in s.rows <==> k in s.order)
    && (forall k :: k in s.rows ==> 1 <= k < s.nextId && s.rows[k].id == Some(k) && Storable(s.rows[k]))
  }

  const Empty: Store := Store(map[], [], 1)

  lemma EmptyIsValid()
    ensures Valid(Empty)
  {
  }

  /** `find.byId(id)` / `em.find(Book.class, id)`: the row or null. */
  function Find(s: Store, id: int): (r: Option<Book>)
    ensures r.Some? <==> id in s.rows
    ensures r.Some? ==> r.value == s.rows[id]
  {
    if id in s.rows then Some(s.rows[id]) else None
  }

  /** Every row, in the store's listing order. */
  function Rows(s: Store): (r: seq<Book>)
    requires Valid(s)
    ensures |r| == |s.order|
    ensures forall i :: 0 <= i < |r| ==> s.order[i] in s.rows && r[i] == s.rows[s.order[i]]
    ensures forall i :: 0 <= i < |r| ==> Storable(r[i])
  {
    assert forall i :: 0 <= i < |s.order| ==> s.order[i] in s.order && s.order[i] in s.rows;
    seq(|s.order|, i requires 0 <= i < |s.order| && s.order[i] in s.rows => s.rows[s.order[i]])
  }

  /** No row is listed twice: listed rows carry distinct ids. */
  lemma RowsDistinct(s: Store)
    requires Valid(s)
    ensures forall i, j :: 0 <= i < j < |Rows(s)| ==> Rows(s)[i] != Rows(s)[j]
  {
    var r := Rows(s);
    forall i, j | 0 <= i < j < |r| ensures r[i] != r[j] {
      assert s.order[i] in s.order && s.order[j] in s.order;
      assert r[i].id == Some(s.order[i]) && r[j].id == Some(s.order[j]);
    }
  }

  /** A sequence of distinct ids has as many elements as its set. */
  lemma {:induction false} DistinctCardinality(xs: seq<int>)
    requires Distinct(xs)
    ensures |set x | x in xs| == |xs|
  {
    if |xs| > 0 {
      var tail := xs[1..];
      assert Distinct(tail) by {
        forall i, j | 0 <= i < j < |tail| ensures tail[i] != tail[j] {
          assert tail[i] == xs[i + 1] && tail[j] == xs[j + 1];
        }
      }
      DistinctCardinality(tail);
      assert (set x | x in xs) == (set x | x in tail) + {xs[0]};
      assert xs[0] !in tail by {
        forall j | 0 <= j < |tail| ensures tail[j] != xs[0] {
          assert tail[j] == xs[j + 1];
        }
      }
    }
  }

  /** The listing holds exactly one entry per stored row. */
  lemma RowsCount(s: Store)
    requires Valid(s)
    ensures |Rows(s)| == |s.rows|
  {
    DistinctCardinality(s.order);
    assert (set x | x in s.order) == s.rows.Keys;
  }

  /** Every stored row appears in the listing. */
  lemma RowsListEveryRow(s: Store, k: int)
    requires Valid(s)
    requires k in s.rows
    ensures s.rows[k] in Rows(s)
  {
    var i :| 0 <= i < |s.order| && s.order[i] == k;
    assert Rows(s)[i] == s.rows[k];
  }

  /** `save()` / `persist` of a new row: the store assigns the next id and
      both timestamps. Fails when a non-null column is missing or the
      identity counter has run past the 64-bit range. */
  function Insert(s: Store, b: Book, now: Instant): (r: Outcome<Saved>)
    requires Valid(s)
    ensures r.Ok? || r.Failure?
    ensures r.Ok? <==> Storable(b) && s.nextId <= MaxLong
    ensures r.Ok? ==> Valid(r.value.store)
    ensures r.Ok? ==> s.nextId !in s.rows && r.value.book.id == Some(s.nextId)
    ensures r.Ok? ==> r.value.store.rows == s.rows[s.nextId := r.value.book]
    ensures r.Ok? ==> r.value.store.order == s.order + [s.nextId]
    ensures r.Ok? ==> SameContent(r.value.book, b)
    ensures r.Ok? ==> r.value.book.createdAt == Some(now) && r.value.book.updatedAt == Some(now)
  {
    if !Storable(b) || s.nextId > MaxLong then Failure
    else
      var id := s.nextId;
      var saved := b.(id := Some(id), createdAt := Some(now), updatedAt := Some(now));
      var s' := Store(s.rows[id := saved], s.order + [id], id + 1);
      assert Distinct(s'.order) by {
        assert id !in s.order;
      }
      Ok(Saved(s', saved))
  }

  /** `save()` / `merge` of an existing row: the row is overwritten and its
      modification time refreshed. Fails when a non-null column is missing. */
  function Replace(s: Store, b: Book, now: Instant): (r: Outcome<Saved>)
    requires Valid(s)
    requires b.id.Some? && b.id.value in s.rows
    ensures r.Ok? || r.Failure?
    ensures r.Ok? <==> Storable(b)
    ensures r.Ok? ==> Valid(r.value.store)
    ensures r.Ok? ==> r.value.book == b.(updatedAt := Some(now))
    ensures r.Ok? ==> r.value.store.rows == s.rows[b.id.value := r.value.book]
    ensures r.Ok? ==> r.value.store.order == s.order && r.value.store.nextId == s.nextId
  {
    if !Storable(b) then Failure
    else
      var saved := b.(updatedAt := Some(now));
      Ok(Saved(Store(s.rows[b.id.value := saved], s.order, s.nextId), saved))
  }

  /** `xs` without the entries equal to `k`, others kept in order. */
  function Without(xs: seq<int>, k: int): (r: seq<int>)
    ensures forall x :: x in r <==> x in xs && x != k
    ensures Distinct(xs) ==> Distinct(r)
  {
    if |xs| == 0 then []
    else
      var rest := Without(xs[1..], k);
      assert Distinct(xs) ==> xs[0] !in xs[1..] by {
        if Distinct(xs) {
          forall j | 0 <= j < |xs[1..]| ensures xs[1..][j] != xs[0] {
            assert xs[1..][j] == xs[j + 1];
          }
        }
      }
      assert Distinct(xs) ==> Distinct(xs[1..]) by {
        if Distinct(xs) {
          forall i, j | 0 <= i < j < |xs[1..]| ensures xs[1..][i] != xs[1..][j] {
            assert xs[1..][i] == xs[i + 1] && xs[1..][j] == xs[j + 1];
          }
        }
      }
      if xs[0] == k then rest
      else
        assert Distinct(xs) ==> Distinct([xs[0]] + rest) by {
          if Distinct(xs) {
            var r := [xs[0]] + rest;
            forall i, j | 0 <= i < j < |r| ensures r[i] != r[j] {
              if i == 0 {
                assert r[j] == rest[j - 1] && r[j] in rest;
              } else {
                assert r[i] == rest[i - 1] && r[j] == rest[j - 1];
              }
            }
          }
        }
        [xs[0]] + rest
  }

  /** `delete()` / `em.remove`: the row is gone; its id is never handed out
      again because the counter does not move back. */
  function Remove(s: Store, id: int): (s': Store)
    requires Valid(s)
    ensures Valid(s')
    ensures s'.rows == s.rows - {id}
    ensures s'.nextId == s.nextId
    ensures s'.order == Without(s.order, id)
  {
    Store(s.rows - {id}, Without(s.order, id), s.nextId)
  }

  /** The outcome of a service operation together with the store after it. */
  datatype Reply<+T> = Reply(result: Outcome<T>, store: Store)

  /** `s'` is `s` plus one new row under `id`; no existing row changed. */
  ghost predicate AddsOne(s: Store, s': Store, id: int) {
    && id !in s.rows
    && id in s'.rows
    && s'.rows == s.rows[id := s'.rows[id]]
  }

  /** The rows a query's `WHERE` clause keeps, in listing order. */
  function Where(rows: seq<Book>, keep: Book -> bool): (r: seq<Book>)
    ensures forall b :: b in r <==> b in rows && keep(b)
    ensures |r| <= |rows|
    ensures (forall i :: 0 <= i < |rows| ==> !keep(rows[i])) ==> r == []
  {
    if |rows| == 0 then []
    else
      var rest := Where(rows[1..], keep);
      assert forall b :: b in rows <==> b == rows[0] || b in rows[1..];
      if keep(rows[0]) then [rows[0]] + rest else rest
  }

  /** The filter keeps every occurrence of a kept row and none of a rejected
      one: it neither drops nor duplicates rows. */
  lemma {:induction false} WhereCounts(rows: seq<Book>, keep: Book -> bool)
    ensures forall b :: multiset(Where(rows, keep))[b] == if keep(b) then multiset(rows)[b] else 0
  {
    if |rows| > 0 {
      WhereCounts(rows[1..], keep);
      assert rows == [rows[0]] + rows[1..];
    }
  }
  /** Filtering a list without repeats yields a list without repeats. */
  lemma WhereKeepsDistinct(rows: seq<Book>, keep: Book -> bool)
    requires forall i, j :: 0 <= i < j < |rows| ==> rows[i] != rows[j]
    ensures forall i, j :: 0 <= i < j < |Where(rows, keep)| ==> Where(rows, keep)[i] != Where(rows, keep)[j]
  {
    PairwiseDistinctOnce(rows);
    WhereCounts(rows, keep);
    OnceIsPairwiseDistinct(Where(rows, keep));
  }

  /** In a list whose elements differ pairwise, each value occurs at most once. */
  lemma {:induction false} PairwiseDistinctOnce<T>(xs: seq<T>)
    requires forall i, j :: 0 <= i < j < |xs| ==> xs[i] != xs[j]
    ensures forall b :: multiset(xs)[b] <= 1
  {
    if |xs| > 0 {
      var tail := xs[1..];
      forall i, j | 0 <= i < j < |tail| ensures tail[i] != tail[j] {
        assert tail[i] == xs[i + 1] && tail[j] == xs[j + 1];
      }
      PairwiseDistinctOnce(tail);
      assert xs[0] !in tail by {
        forall j | 0 <= j < |tail| ensures tail[j] != xs[0] {
          assert tail[j] == xs[j + 1];
        }
      }
      assert xs == [xs[0]] + tail;
    }
  }

  /** Conversely, a list in which each value occurs at most once has no two
      equal positions. */
  lemma OnceIsPairwiseDistinct<T>(xs: seq<T>)
    requires forall b :: multiset(xs)[b] <= 1
    ensures forall i, j :: 0 <= i < j < |xs| ==> xs[i] != xs[j]
  {
    forall i, j | 0 <= i < j < |xs| ensures xs[i] != xs[j] {
      assert xs == xs[..i] + [xs[i]] + xs[i + 1..j] + [xs[j]] + xs[j + 1..];
      assert multiset(xs)[xs[i]] >= 1 + multiset([xs[j]])[xs[i]];
    }
  }



}

