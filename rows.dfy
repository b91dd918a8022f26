/**
  The backing table of a record store, as the TypeORM repository calls in the two services
  use it: rows with a generated `id`, the entity's data columns and a `createdAt` stamp.
  A table is a sequence in physical (primary-key) order; every operation the services call
  on their repository is a function here, except the window query of the prediction store,
  which is `PredictionStore.Matches`.
 */
module Rows {
  import opened Outcomes

  /** One stored row: the auto-increment identity, the data columns and the creation time. */
  datatype Row<D> = Row(id: int, data: D, createdAt: int)

  /** The errors TypeORM raises before sending any query: an update that supplies no column
      (UpdateValuesMissingError), and a `findOne` whose options carry no `where` ("You must
      provide selection conditions in order to find a single row"). */
  datatype StoreError = UpdateValuesMissing | SelectionConditionsMissing

  /** Table invariant: ids are positive, strictly increasing in physical order (so unique),
      and all below the next value of the auto-increment counter. */
  ghost predicate ValidTable<D(!new)>(rows: seq<Row<D>>, nextId: int) {
    && 1 <= nextId
    && (forall i :: 0 <= i < |rows| ==> 1 <= rows[i].id < nextId)
    && (forall i, j :: 0 <= i < j < |rows| ==> rows[i].id < rows[j].id)
  }

  /** Some row of the table carries identity `id`. */
  ghost predicate HasId<D(!new)>(rows: seq<Row<D>>, id: int) {
    exists x :: x in rows && x.id == id
  }

  /** In a valid table, two rows with the same id are the same row. */
  lemma IdsIdentify<D(!new)>(rows: seq<Row<D>>, nextId: int, x: Row<D>, y: Row<D>)
    requires ValidTable(rows, nextId)
    requires x in rows && y in rows && x.id == y.id
    ensures x == y
  {
    var i :| 0 <= i < |rows| && rows[i] == x;
    var j :| 0 <= j < |rows| && rows[j] == y;
    if i < j {
      assert rows[i].id < rows[j].id;
    } else if j < i {
      assert rows[j].id < rows[i].id;
    }
  }

  // ---------------------------------------------------------------------------------------
  // save: insert a new row with the next auto-increment id

  /** The table after `save` inserts `data` at time `now`: one row appended, with the
      counter's value as its id. */
  function Inserted<D(!new)>(rows: seq<Row<D>>, nextId: int, data: D, now: int): (r: seq<Row<D>>)
    ensures |r| == |rows| + 1 && r[..|rows|] == rows
    ensures multiset(r) == multiset(rows) + multiset{Row(nextId, data, now)}
  {
    rows + [Row(nextId, data, now)]
  }

  /** Inserting keeps the table valid once the counter moves past the new id, and the new id
      is larger than every id already stored. */
  lemma InsertedValid<D(!new)>(rows: seq<Row<D>>, nextId: int, data: D, now: int)
    requires ValidTable(rows, nextId)
    ensures ValidTable(Inserted(rows, nextId, data, now), nextId + 1)
    ensures forall x :: x in rows ==> x.id < nextId
  {
  }

  // ---------------------------------------------------------------------------------------
  // findOne({ where: { id } })

  /** The row whose id is `id`, or None when the table has no such row. */
  function FindById<D(!new)>(rows: seq<Row<D>>, id: int): (r: Option<Row<D>>)
    ensures r.Some? ==> r.value in rows && r.value.id == id
    ensures r.None? <==> forall x :: x in rows ==> x.id != id
  {
    if rows == [] then None
    else if rows[0].id == id then Some(rows[0])
    else FindById(rows[1..], id)
  }

  /** In a valid table the lookup returns exactly the row carrying that id. */
  lemma FindByIdExact<D(!new)>(rows: seq<Row<D>>, nextId: int, x: Row<D>)
    requires ValidTable(rows, nextId) && x in rows
    ensures FindById(rows, x.id) == Some(x)
  {
    IdsIdentify(rows, nextId, FindById(rows, x.id).value, x);
  }

  /** A freshly saved row is found again under its new id, with the data that was saved. */
  lemma FindAfterInsert<D(!new)>(rows: seq<Row<D>>, nextId: int, data: D, now: int)
    requires ValidTable(rows, nextId)
    ensures FindById(Inserted(rows, nextId, data, now), nextId) == Some(Row(nextId, data, now))
  {
    InsertedValid(rows, nextId, data, now);
    var after := Inserted(rows, nextId, data, now);
    FindByIdExact(after, nextId + 1, after[|rows|]);
  }

  // ---------------------------------------------------------------------------------------
  // delete(id)

  /** The table after `DELETE ... WHERE id = id`: the rows with that id are gone, the others
      stay in their order. */
  function Without<D(!new)>(rows: seq<Row<D>>, id: int): (r: seq<Row<D>>)
    ensures forall x :: x in r <==> x in rows && x.id != id
    ensures |r| <= |rows|
    ensures |r| == |rows| <==> forall x :: x in rows ==> x.id != id
  {
    if rows == [] then []
    else if rows[0].id == id then Without(rows[1..], id)
    else [rows[0]] + Without(rows[1..], id)
  }

  /** The number of rows a delete of `id` reports as affected. */
  function Affected<D(!new)>(rows: seq<Row<D>>, id: int): (r: nat)
    ensures r == 0 <==> forall x :: x in rows ==> x.id != id
  {
    |rows| - |Without(rows, id)|
  }

  /** Deleting an id that no row carries leaves the table as it is. */
  lemma {:induction false} WithoutAbsent<D(!new)>(rows: seq<Row<D>>, id: int)
    requires forall x :: x in rows ==> x.id != id
    ensures Without(rows, id) == rows
  {
    if rows != [] {
      assert rows[0] in rows;
      assert forall x :: x in rows[1..] ==> x in rows;
      WithoutAbsent(rows[1..], id);
    }
  }

  /** A row placed in front of a valid table with larger ids gives a valid table. */
  lemma PrependValid<D(!new)>(x: Row<D>, rows: seq<Row<D>>, nextId: int)
    requires ValidTable(rows, nextId) && 1 <= x.id < nextId
    requires forall k :: 0 <= k < |rows| ==> x.id < rows[k].id
    ensures ValidTable([x] + rows, nextId)
  {
    var r := [x] + rows;
    forall i, j | 0 <= i < j < |r| ensures r[i].id < r[j].id {
      if i > 0 {
        assert r[i] == rows[i - 1] && r[j] == rows[j - 1];
      }
    }
  }

  /** Deleting from a valid table leaves a valid table with the same counter; ids keep their
      order since a delete only drops rows. */
  lemma {:induction false} WithoutValid<D(!new)>(rows: seq<Row<D>>, nextId: int, id: int)
    requires ValidTable(rows, nextId)
    ensures ValidTable(Without(rows, id), nextId)
  {
    if rows != [] {
      var rest := rows[1..];
      assert ValidTable(rest, nextId);
      WithoutValid(rest, nextId, id);
      if rows[0].id != id {
        var w := Without(rest, id);
        forall j | 0 <= j < |w|
          ensures rows[0].id < w[j].id
        {
          assert w[j] in rest;
          var k :| 0 <= k < |rest| && rest[k] == w[j];
          assert rows[0].id < rows[k + 1].id;
        }
        PrependValid(rows[0], w, nextId);
      }
    }
  }

  /** A delete on a valid table affects one row when the id is present and none otherwise. */
  lemma {:induction false} AffectedCount<D(!new)>(rows: seq<Row<D>>, nextId: int, id: int)
    requires ValidTable(rows, nextId)
    ensures Affected(rows, id) == if HasId(rows, id) then 1 else 0
  {
    if rows == [] {
    } else {
      var rest := rows[1..];
      assert ValidTable(rest, nextId);
      AffectedCount(rest, nextId, id);
      if rows[0].id == id {
        forall x | x in rest ensures x.id != id {
          var k :| 0 <= k < |rest| && rest[k] == x;
          assert rows[0].id < rows[k + 1].id;
        }
        WithoutAbsent(rest, id);
        assert rows[0] in rows;
      } else {
        assert HasId(rows, id) == HasId(rest, id) by {
          if HasId(rows, id) {
            var x :| x in rows && x.id == id;
            assert x in rest;
          }
          if HasId(rest, id) {
            var x :| x in rest && x.id == id;
            assert x in rows;
          }
        }
      }
    }
  }

  /** A second delete of the same id affects nothing. */
  lemma DeleteTwice<D(!new)>(rows: seq<Row<D>>, nextId: int, id: int)
    requires ValidTable(rows, nextId)
    ensures Affected(Without(rows, id), id) == 0
  {
    WithoutValid(rows, nextId, id);
    AffectedCount(Without(rows, id), nextId, id);
  }

  // ---------------------------------------------------------------------------------------
  // update(id, partial)

  /** The table after `UPDATE ... WHERE id = id`, where `f` sets the supplied columns. */
  function UpdateWhere<D(!new)>(rows: seq<Row<D>>, id: int, f: D -> D): (r: seq<Row<D>>)
    ensures |r| == |rows|
    ensures forall i :: 0 <= i < |rows| ==> r[i].id == rows[i].id && r[i].createdAt == rows[i].createdAt
    ensures forall i :: 0 <= i < |rows| && rows[i].id != id ==> r[i] == rows[i]
    ensures forall i :: 0 <= i < |rows| && rows[i].id == id ==> r[i].data == f(rows[i].data)
  {
    if rows == [] then []
    else
      var head := if rows[0].id == id then rows[0].(data := f(rows[0].data)) else rows[0];
      [head] + UpdateWhere(rows[1..], id, f)
  }

  /** An update keeps the table valid, since it never touches an id. */
  lemma UpdateWhereValid<D(!new)>(rows: seq<Row<D>>, nextId: int, id: int, f: D -> D)
    requires ValidTable(rows, nextId)
    ensures ValidTable(UpdateWhere(rows, id, f), nextId)
  {
  }

  /** Re-reading the updated id gives the old row with `f` applied to its data (same id, same
      `createdAt`), or None when the id was absent. */
  lemma {:induction false} FindAfterUpdate<D(!new)>(rows: seq<Row<D>>, id: int, f: D -> D)
    ensures FindById(UpdateWhere(rows, id, f), id) ==
      match FindById(rows, id)
      case None => None
      case Some(x) => Some(x.(data := f(x.data)))
  {
    if rows != [] && rows[0].id != id {
      FindAfterUpdate(rows[1..], id, f);
      assert UpdateWhere(rows, id, f)[1..] == UpdateWhere(rows[1..], id, f);
    }
  }

  /** Reading any other id after an update gives what it gave before. */
  lemma {:induction false} FindOtherAfterUpdate<D(!new)>(rows: seq<Row<D>>, id: int, f: D -> D, other: int)
    requires other != id
    ensures FindById(UpdateWhere(rows, id, f), other) == FindById(rows, other)
  {
    if rows != [] && rows[0].id != other {
      FindOtherAfterUpdate(rows[1..], id, f, other);
      assert UpdateWhere(rows, id, f)[1..] == UpdateWhere(rows[1..], id, f);
    }
  }

  // ---------------------------------------------------------------------------------------
  // find({ order: { createdAt: 'DESC' } }) and findOne with the same order

  /** Newest first: each row's `createdAt` is at least that of every row after it. */
  ghost predicate NewestFirstOrder<D(!new)>(s: seq<Row<D>>) {
    forall i, j :: 0 <= i < j < |s| ==> s[i].createdAt >= s[j].createdAt
  }

  /** A row at least as new as every row of a newest-first sequence may go in front of it. */
  lemma PrependNewest<D(!new)>(y: Row<D>, s: seq<Row<D>>)
    requires NewestFirstOrder(s)
    requires forall k :: 0 <= k < |s| ==> y.createdAt >= s[k].createdAt
    ensures NewestFirstOrder([y] + s)
  {
    var r := [y] + s;
    forall i, j | 0 <= i < j < |r| ensures r[i].createdAt >= r[j].createdAt {
      if i > 0 {
        assert r[i] == s[i - 1] && r[j] == s[j - 1];
      }
    }
  }

  /** The rows of `s` after its head, with an older row `x` added in any order, are all no
      newer than that head. */
  lemma HeadBoundsRest<D(!new)>(x: Row<D>, s: seq<Row<D>>, rest: seq<Row<D>>)
    requires NewestFirstOrder(s) && s != [] && x.createdAt < s[0].createdAt
    requires multiset(rest) == multiset(s[1..]) + multiset{x}
    ensures forall k :: 0 <= k < |rest| ==> s[0].createdAt >= rest[k].createdAt
  {
    forall k | 0 <= k < |rest| ensures s[0].createdAt >= rest[k].createdAt {
      assert rest[k] in multiset(rest);
      if rest[k] != x {
        assert rest[k] in multiset(s[1..]);
        var m :| 0 <= m < |s[1..]| && s[1..][m] == rest[k];
        assert s[m + 1] == rest[k];
      }
    }
  }

  /** Places `x` into a newest-first sequence, ahead of the first row not newer than it. */
  function InsertByTime<D(!new)>(x: Row<D>, s: seq<Row<D>>): (r: seq<Row<D>>)
    requires NewestFirstOrder(s)
    ensures NewestFirstOrder(r)
    ensures multiset(r) == multiset(s) + multiset{x}
  {
    if s == [] || x.createdAt >= s[0].createdAt then
      PrependNewest(x, s);
      [x] + s
    else
      var rest := InsertByTime(x, s[1..]);
      HeadBoundsRest(x, s, rest);
      PrependNewest(s[0], rest);
      assert s == [s[0]] + s[1..];
      [s[0]] + rest
  }

  /** The rows ordered newest first (ties keep their physical order). */
  function NewestFirst<D(!new)>(rows: seq<Row<D>>): (r: seq<Row<D>>)
    ensures NewestFirstOrder(r)
    ensures multiset(r) == multiset(rows)
  {
    if rows == [] then []
    else
      assert rows == [rows[0]] + rows[1..];
      InsertByTime(rows[0], NewestFirst(rows[1..]))
  }

  /** The first row of the newest-first order: a row with the largest `createdAt`, or None
      for an empty table. */
  function Latest<D(!new)>(rows: seq<Row<D>>): (r: Option<Row<D>>)
    ensures r.None? <==> rows == []
    ensures r.Some? ==> r.value in rows && forall x :: x in rows ==> x.createdAt <= r.value.createdAt
  {
    if rows == [] then None
    else
      var s := NewestFirst(rows);
      assert |s| == |multiset(s)| == |rows|;
      assert s[0] in multiset(rows);
      assert forall x :: x in rows ==> x in multiset(s);
      Some(s[0])
  }

  /** `findOne({ order: { createdAt: 'DESC' } })` as TypeORM 0.3 runs it: options without a
      `where` are refused before any query is sent, whatever the table holds. */
  function FindOneWithoutWhere<D(!new)>(rows: seq<Row<D>>): (r: Result<Option<Row<D>>, StoreError>)
    ensures r.Failure? && r.error == SelectionConditionsMissing
  {
    Failure(SelectionConditionsMissing)
  }

  /** On every table the latest-row call as written raises an error, where the intended
      query succeeds: with None on an empty table, and otherwise with a stored row whose
      `createdAt` is the largest. */
  lemma LatestWithoutWhereFails<D(!new)>(rows: seq<Row<D>>)
    ensures FindOneWithoutWhere(rows).Failure?
    ensures rows == [] ==> Latest(rows) == None
    ensures rows != [] ==> Latest(rows).Some? && Latest(rows).value in rows
    ensures rows != [] ==> forall x :: x in rows ==> x.createdAt <= Latest(rows).value.createdAt
  {
  }

  /** No two rows share a creation time. */
  ghost predicate DistinctTimes<D(!new)>(rows: seq<Row<D>>) {
    forall i, j :: 0 <= i < |rows| && 0 <= j < |rows| && i != j ==> rows[i].createdAt != rows[j].createdAt
  }

  /** A row of a table without ties whose `createdAt` is the largest is the only such row. */
  lemma NewestIsUnique<D(!new)>(rows: seq<Row<D>>, x: Row<D>, y: Row<D>)
    requires DistinctTimes(rows)
    requires x in rows && y in rows
    requires forall z :: z in rows ==> z.createdAt <= x.createdAt && z.createdAt <= y.createdAt
    ensures x == y
  {
    var i :| 0 <= i < |rows| && rows[i] == x;
    var j :| 0 <= j < |rows| && rows[j] == y;
    assert i == j;
  }

  /** The head of a newest-first listing of the table is a newest row of the table. */
  lemma HeadIsNewest<D(!new)>(rows: seq<Row<D>>, all: seq<Row<D>>)
    requires rows != []
    requires NewestFirstOrder(all) && multiset(all) == multiset(rows)
    ensures all != [] && all[0] in rows
    ensures forall z :: z in rows ==> z.createdAt <= all[0].createdAt
  {
    assert |all| == |multiset(all)| == |rows|;
    assert all[0] in multiset(rows);
    forall z | z in rows ensures z.createdAt <= all[0].createdAt {
      assert z in multiset(all);
      var k :| 0 <= k < |all| && all[k] == z;
    }
  }

  /** Without ties, any newest-first listing of the table starts with the row `Latest` gives. */
  lemma LatestIsFirstOfAll<D(!new)>(rows: seq<Row<D>>, all: seq<Row<D>>)
    requires DistinctTimes(rows) && rows != []
    requires NewestFirstOrder(all) && multiset(all) == multiset(rows)
    ensures all != [] && all[0] == Latest(rows).value
  {
    HeadIsNewest(rows, all);
    NewestIsUnique(rows, all[0], Latest(rows).value);
  }

  /** Dropping the head keeps a sequence newest first and free of ties. */
  lemma TailKeepsOrder<D(!new)>(a: seq<Row<D>>)
    requires a != []
    requires NewestFirstOrder(a) && DistinctTimes(a)
    ensures NewestFirstOrder(a[1..]) && DistinctTimes(a[1..])
  {
    var t := a[1..];
    forall i, j | 0 <= i < |t| && 0 <= j < |t| && i != j ensures t[i].createdAt != t[j].createdAt {
      assert t[i] == a[i + 1] && t[j] == a[j + 1];
    }
  }

  /** Without ties the newest-first listing is determined: two of them are equal. */
  lemma {:induction false} NewestFirstIsUnique<D(!new)>(a: seq<Row<D>>, b: seq<Row<D>>)
    requires NewestFirstOrder(a) && NewestFirstOrder(b) && multiset(a) == multiset(b)
    requires DistinctTimes(a)
    ensures a == b
    decreases |a|
  {
    assert |a| == |multiset(a)| == |b|;
    if a != [] {
      HeadIsNewest(a, a);
      HeadIsNewest(a, b);
      NewestIsUnique(a, a[0], b[0]);
      assert a == [a[0]] + a[1..] && b == [b[0]] + b[1..];
      assert multiset(a[1..]) == multiset(b[1..]) by {
        calc {
          multiset(a[1..]);
          multiset(a) - multiset{a[0]};
          multiset(b) - multiset{b[0]};
          multiset(b[1..]);
        }
      }
      TailKeepsOrder(a);
      assert NewestFirstOrder(b[1..]) by {
        forall i, j | 0 <= i < j < |b| - 1 ensures b[1..][i].createdAt >= b[1..][j].createdAt {
          assert b[1..][i] == b[i + 1] && b[1..][j] == b[j + 1];
        }
      }
      NewestFirstIsUnique(a[1..], b[1..]);
    }
  }

  /** The sequence in reverse order. */
  function Reversed<T>(s: seq<T>): (r: seq<T>)
    ensures |r| == |s|
    ensures forall i :: 0 <= i < |s| ==> r[i] == s[|s| - 1 - i]
  {
    if s == [] then [] else Reversed(s[1..]) + [s[0]]
  }

  /** A row older than every row of a newest-first sequence goes to its end. */
  lemma {:induction false} InsertOldest<D(!new)>(x: Row<D>, s: seq<Row<D>>)
    requires NewestFirstOrder(s)
    requires forall k :: 0 <= k < |s| ==> x.createdAt < s[k].createdAt
    ensures InsertByTime(x, s) == s + [x]
  {
    if s != [] {
      InsertOldest(x, s[1..]);
      assert s == [s[0]] + s[1..];
    }
  }

  /** Rows inserted with strictly increasing timestamps are listed newest first in exactly
      the reverse of their insertion order. */
  lemma {:induction false} NewestFirstOfIncreasing<D(!new)>(rows: seq<Row<D>>)
    requires forall i, j :: 0 <= i < j < |rows| ==> rows[i].createdAt < rows[j].createdAt
    ensures NewestFirst(rows) == Reversed(rows)
  {
    if rows != [] {
      NewestFirstOfIncreasing(rows[1..]);
      InsertOldest(rows[0], Reversed(rows[1..]));
    }
  }

  /** Any newest-first listing of rows created at strictly increasing times is exactly the
      reverse of creation order. */
  lemma ListedInReverseOfCreation<D(!new)>(created: seq<Row<D>>, all: seq<Row<D>>)
    requires forall i, j :: 0 <= i < j < |created| ==> created[i].createdAt < created[j].createdAt
    requires NewestFirstOrder(all) && multiset(all) == multiset(created)
    ensures all == Reversed(created)
  {
    NewestFirstOfIncreasing(created);
    var listed := Reversed(created);
    assert DistinctTimes(listed) by {
      forall i, j | 0 <= i < |listed| && 0 <= j < |listed| && i != j
        ensures listed[i].createdAt != listed[j].createdAt
      {
        var n := |created|;
        if i < j {
          assert created[n - 1 - j].createdAt < created[n - 1 - i].createdAt;
        } else {
          assert created[n - 1 - i].createdAt < created[n - 1 - j].createdAt;
        }
      }
    }
    NewestFirstIsUnique(listed, all);
  }
}
