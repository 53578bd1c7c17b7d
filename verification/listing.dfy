/** Query results as both services return them: the selected rows in the
    store's listing order, each mapped to its transfer object. */
module Listing {
  import opened Books
  import opened Dto
  import opened BookStore

  /** Every row, mapped (`SELECT b FROM Book b` / `find.all()`). */
  function AllDtos(s: Store): (r: seq<BookDto>)
    requires Valid(s)
    ensures |r| == |s.rows|
    ensures forall k :: k in s.rows ==> ToDto(s.rows[k]) in r
    ensures forall d :: d in r ==> exists k :: k in s.rows && d == ToDto(s.rows[k])
  {
    RowsCount(s);
    ListsEveryRow(s);
    ListsOnlyRows(s);
    Dtos(Rows(s))
  }

  /** Every stored row's transfer object is in the full list. */
  lemma ListsEveryRow(s: Store)
    requires Valid(s)
    ensures forall k :: k in s.rows ==> ToDto(s.rows[k]) in Dtos(Rows(s))
  {
    var rows := Rows(s);
    forall k | k in s.rows ensures ToDto(s.rows[k]) in Dtos(rows) {
      RowsListEveryRow(s, k);
      var i :| 0 <= i < |rows| && rows[i] == s.rows[k];
      assert Dtos(rows)[i] == ToDto(s.rows[k]);
    }
  }

  /** The full list holds nothing but stored rows' transfer objects. */
  lemma ListsOnlyRows(s: Store)
    requires Valid(s)
    ensures forall d :: d in Dtos(Rows(s)) ==> exists k :: k in s.rows && d == ToDto(s.rows[k])
  {
    var r := Dtos(Rows(s));
    forall d | d in r ensures exists k :: k in s.rows && d == ToDto(s.rows[k]) {
      var i :| 0 <= i < |r| && r[i] == d;
      assert d == ToDto(s.rows[s.order[i]]);
    }
  }

  /** The rows a `WHERE` condition keeps, mapped: each selected row once,
      and nothing else. */
  function MatchingDtos(s: Store, keep: Book -> bool): (r: seq<BookDto>)
    requires Valid(s)
    ensures forall d :: d in r <==> exists k :: k in s.rows && keep(s.rows[k]) && d == ToDto(s.rows[k])
    ensures (forall k :: k in s.rows ==> !keep(s.rows[k])) ==> r == []
    ensures forall i, j :: 0 <= i < j < |r| ==> r[i] != r[j]
    ensures |r| == |set k | k in s.rows && keep(s.rows[k])|
  {
    MatchingDtosFacts(s, keep);
    Dtos(Where(Rows(s), keep))
  }

  /** What mapping the kept rows yields, proved once for every condition. */
  lemma MatchingDtosFacts(s: Store, keep: Book -> bool)
    requires Valid(s)
    ensures var r := Dtos(Where(Rows(s), keep));
            && (forall d :: d in r <==> exists k :: k in s.rows && keep(s.rows[k]) && d == ToDto(s.rows[k]))
            && ((forall k :: k in s.rows ==> !keep(s.rows[k])) ==> r == [])
            && (forall i, j :: 0 <= i < j < |r| ==> r[i] != r[j])
            && |r| == |set k | k in s.rows && keep(s.rows[k])|
  {
    MatchingDtosMembers(s, keep);
    HitsSelected(s, keep);
    MatchingDtosDistinct(s, keep);
    HitsCount(s, keep);
  }

  /** The mapped list holds the transfer object of each kept row and nothing
      else. */
  lemma MatchingDtosMembers(s: Store, keep: Book -> bool)
    requires Valid(s)
    ensures forall d :: d in Dtos(Where(Rows(s), keep)) <==> exists k :: k in s.rows && keep(s.rows[k]) && d == ToDto(s.rows[k])
  {
    MatchingDtosOnlyKept(s, keep);
    MatchingDtosAllKept(s, keep);
  }

  lemma MatchingDtosOnlyKept(s: Store, keep: Book -> bool)
    requires Valid(s)
    ensures forall d :: d in Dtos(Where(Rows(s), keep)) ==> exists k :: k in s.rows && keep(s.rows[k]) && d == ToDto(s.rows[k])
  {
    var hits := Where(Rows(s), keep);
    var r := Dtos(hits);
    HitsSelected(s, keep);
    forall d | d in r ensures exists k :: k in s.rows && keep(s.rows[k]) && d == ToDto(s.rows[k]) {
      var i :| 0 <= i < |r| && r[i] == d;
      assert hits[i] in hits;
    }
  }

  lemma MatchingDtosAllKept(s: Store, keep: Book -> bool)
    requires Valid(s)
    ensures forall k :: k in s.rows && keep(s.rows[k]) ==> ToDto(s.rows[k]) in Dtos(Where(Rows(s), keep))
  {
    var hits := Where(Rows(s), keep);
    var r := Dtos(hits);
    HitsSelected(s, keep);
    forall k | k in s.rows && keep(s.rows[k]) ensures ToDto(s.rows[k]) in r {
      var i :| 0 <= i < |hits| && hits[i] == s.rows[k];
      assert r[i] == ToDto(s.rows[k]);
    }
  }

  /** Distinct rows give distinct transfer objects. */
  lemma MatchingDtosDistinct(s: Store, keep: Book -> bool)
    requires Valid(s)
    ensures forall i, j :: 0 <= i < j < |Dtos(Where(Rows(s), keep))| ==> Dtos(Where(Rows(s), keep))[i] != Dtos(Where(Rows(s), keep))[j]
  {
    var hits := Where(Rows(s), keep);
    var r := Dtos(hits);
    HitsDistinct(s, keep);
  }

  /** The kept rows are exactly the stored rows the condition holds for. */
  lemma HitsSelected(s: Store, keep: Book -> bool)
    requires Valid(s)
    ensures forall b :: b in Where(Rows(s), keep) <==> exists k :: k in s.rows && keep(s.rows[k]) && b == s.rows[k]
    ensures (forall k :: k in s.rows ==> !keep(s.rows[k])) ==> Where(Rows(s), keep) == []
  {
    var rows := Rows(s);
    forall b | b in rows ensures exists k :: k in s.rows && b == s.rows[k] {
      var i :| 0 <= i < |rows| && rows[i] == b;
      assert s.order[i] in s.rows;
    }
    forall k | k in s.rows ensures s.rows[k] in rows {
      RowsListEveryRow(s, k);
    }
    assert (forall k :: k in s.rows ==> !keep(s.rows[k])) ==> forall i :: 0 <= i < |rows| ==> !keep(rows[i]) by {
      forall i | 0 <= i < |rows| ensures s.order[i] in s.rows && rows[i] == s.rows[s.order[i]] {
      }
    }
  }

  /** Each kept row is listed once. */
  lemma HitsDistinct(s: Store, keep: Book -> bool)
    requires Valid(s)
    ensures forall i, j :: 0 <= i < j < |Where(Rows(s), keep)| ==> Where(Rows(s), keep)[i] != Where(Rows(s), keep)[j]
  {
    RowsDistinct(s);
    WhereKeepsDistinct(Rows(s), keep);
  }

  /** A kept row is the stored row under its own id. */
  lemma HitsKnowTheirIds(s: Store, keep: Book -> bool)
    requires Valid(s)
    ensures forall b :: b in Where(Rows(s), keep) ==> b.id.Some? && b.id.value in s.rows && s.rows[b.id.value] == b
  {
    HitsSelected(s, keep);
  }

  /** The ids of rows that all carry one. */
  function Ids(rows: seq<Book>): (ids: seq<int>)
    requires forall b :: b in rows ==> b.id.Some?
    ensures |ids| == |rows|
    ensures forall i :: 0 <= i < |rows| ==> ids[i] == rows[i].id.value
  {
    seq(|rows|, i requires 0 <= i < |rows| && rows[i] in rows => rows[i].id.value)
  }

  /** The kept rows' ids are distinct ... */
  lemma HitIdsDistinct(s: Store, keep: Book -> bool)
    requires Valid(s)
    ensures (forall b :: b in Where(Rows(s), keep) ==> b.id.Some?) && Distinct(Ids(Where(Rows(s), keep)))
  {
    var hits := Where(Rows(s), keep);
    HitsKnowTheirIds(s, keep);
    HitsDistinct(s, keep);
    var ids := Ids(hits);
    forall i, j | 0 <= i < j < |ids| ensures ids[i] != ids[j] {
      assert hits[i] in hits && hits[j] in hits;
    }
  }

  /** ... and are exactly the keys of the rows the condition holds for. */
  lemma HitIdsAreKeys(s: Store, keep: Book -> bool)
    requires Valid(s)
    ensures (forall b :: b in Where(Rows(s), keep) ==> b.id.Some?)
    ensures (set x | x in Ids(Where(Rows(s), keep))) == (set k | k in s.rows && keep(s.rows[k]))
  {
    HitsKnowTheirIds(s, keep);
    var ids := Ids(Where(Rows(s), keep));
    var keys := set k | k in s.rows && keep(s.rows[k]);
    assert forall x :: x in ids <==> x in keys by {
      KeptKeysAreHitIds(s, keep);
      HitIdsAreKeptKeys(s, keep);
    }
    ElementsAre(ids, keys);
  }

  /** A sequence whose members are exactly those of a set has that set as
      its set of elements. */
  lemma ElementsAre(xs: seq<int>, keys: set<int>)
    requires forall x :: x in xs <==> x in keys
    ensures (set x | x in xs) == keys
  {
    forall x ensures x in (set y | y in xs) <==> x in keys {
    }
  }

  lemma KeptKeysAreHitIds(s: Store, keep: Book -> bool)
    requires Valid(s)
    ensures (forall b :: b in Where(Rows(s), keep) ==> b.id.Some?)
    ensures forall k :: k in s.rows && keep(s.rows[k]) ==> k in Ids(Where(Rows(s), keep))
  {
    var hits := Where(Rows(s), keep);
    HitsKnowTheirIds(s, keep);
    HitsSelected(s, keep);
    var ids := Ids(hits);
    forall k | k in s.rows && keep(s.rows[k]) ensures k in ids {
      var i :| 0 <= i < |hits| && hits[i] == s.rows[k];
      assert ids[i] == k;
    }
  }

  lemma HitIdsAreKeptKeys(s: Store, keep: Book -> bool)
    requires Valid(s)
    ensures (forall b :: b in Where(Rows(s), keep) ==> b.id.Some?)
    ensures forall x :: x in Ids(Where(Rows(s), keep)) ==> x in s.rows && keep(s.rows[x])
  {
    var hits := Where(Rows(s), keep);
    HitsKnowTheirIds(s, keep);
    var ids := Ids(hits);
    forall x | x in ids ensures x in s.rows && keep(s.rows[x]) {
      var i :| 0 <= i < |ids| && ids[i] == x;
      assert hits[i] in hits;
    }
  }

  /** Hence there are as many kept rows as stored rows the condition holds
      for. */
  lemma HitsCount(s: Store, keep: Book -> bool)
    requires Valid(s)
    ensures |Where(Rows(s), keep)| == |set k | k in s.rows && keep(s.rows[k])|
  {
    HitsKnowTheirIds(s, keep);
    HitIdsDistinct(s, keep);
    HitIdsAreKeys(s, keep);
    DistinctCardinality(Ids(Where(Rows(s), keep)));
  }

  /** The same condition, given as two functions that agree on every row,
      selects the same list. */
  lemma MatchingDtosAgree(s: Store, f: Book -> bool, g: Book -> bool)
    requires Valid(s)
    requires forall k :: k in s.rows ==> f(s.rows[k]) == g(s.rows[k])
    ensures MatchingDtos(s, f) == MatchingDtos(s, g)
  {
    var rows := Rows(s);
    forall i | 0 <= i < |rows| ensures f(rows[i]) == g(rows[i]) {
      assert s.order[i] in s.rows && rows[i] == s.rows[s.order[i]];
    }
    WhereAgrees(rows, f, g);
  }

  lemma {:induction false} WhereAgrees(rows: seq<Book>, f: Book -> bool, g: Book -> bool)
    requires forall i :: 0 <= i < |rows| ==> f(rows[i]) == g(rows[i])
    ensures Where(rows, f) == Where(rows, g)
  {
    if |rows| > 0 {
      WhereAgrees(rows[1..], f, g);
    }
  }
}
