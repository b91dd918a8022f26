/** The traffic store: `TrafficService` over its `traffic` table of sensor readings. */
module TrafficStore {
  import opened Outcomes
  import opened Rows
  import opened TrafficEntity

  /** A stored traffic reading. */
  type Traffic = Row<TrafficData>

  /** The service object: the `traffic` table it reaches through its repository, and the
      table's auto-increment counter. */
  class TrafficService {
    var rows: seq<Traffic>
    var nextId: int

    ghost predicate Valid()
      reads this
    {
      ValidTable(rows, nextId)
    }

    /** A service over an empty table. */
    constructor ()
      ensures Valid() && rows == []
    {
      rows := [];
      nextId := 1;
    }

    /** `createTraffic`: saves the supplied reading with a fresh id and the creation time
        `now`, and returns the stored row. */
    method CreateTraffic(data: TrafficData, now: int) returns (t: Traffic)
      requires Valid()
      modifies this
      ensures Valid()
      ensures rows == old(rows) + [t]
      ensures t.data == data && t.createdAt == now
      ensures t.id == old(nextId) && nextId == old(nextId) + 1
      ensures forall x :: x in old(rows) ==> x.id < t.id
      ensures FindById(rows, t.id) == Some(t)
    {
      var before, id := rows, nextId;
      InsertedValid(before, id, data, now);
      FindAfterInsert(before, id, data, now);
      t := Row(id, data, now);
      rows, nextId := Inserted(before, id, data, now), id + 1;
    }

    /** `getAllTraffic`: every stored reading exactly once, newest first. */
    method GetAllTraffic() returns (all: seq<Traffic>)
      ensures NewestFirstOrder(all)
      ensures multiset(all) == multiset(rows)
    {
      all := NewestFirst(rows);
    }

    /** `getTrafficById`: the reading with that id, or None when there is none. */
    method GetTrafficById(id: int) returns (t: Option<Traffic>)
      ensures t.Some? ==> t.value in rows && t.value.id == id
      ensures t.None? <==> forall x :: x in rows ==> x.id != id
    {
      t := FindById(rows, id);
    }

    /** `updateTraffic`: writes the supplied columns into the row with that id and re-reads
        it. An update that supplies no column raises UpdateValuesMissing and changes
        nothing. */
    method UpdateTraffic(id: int, patch: TrafficPatch) returns (r: Result<Option<Traffic>, StoreError>)
      requires Valid()
      modifies this
      ensures Valid() && nextId == old(nextId)
      ensures IsEmpty(patch) ==> r == Failure(UpdateValuesMissing) && rows == old(rows)
      ensures !IsEmpty(patch) ==> |rows| == |old(rows)|
      ensures !IsEmpty(patch) ==> forall i :: 0 <= i < |rows| ==>
        rows[i] == if old(rows)[i].id == id then old(rows)[i].(data := Apply(old(rows)[i].data, patch)) else old(rows)[i]
      ensures !IsEmpty(patch) ==> r == Success(
        match FindById(old(rows), id)
        case None => None
        case Some(x) => Some(x.(data := Apply(x.data, patch))))
    {
      if IsEmpty(patch) {
        r := Failure(UpdateValuesMissing);
        return;
      }
      var f := d => Apply(d, patch);
      FindAfterUpdate(rows, id, f);
      UpdateWhereValid(rows, nextId, id, f);
      rows := UpdateWhere(rows, id, f);
      r := Success(FindById(rows, id));
    }

    /** `deleteTraffic`: removes the reading with that id and reports whether a row was
        removed (the affected count is not zero). */
    method DeleteTraffic(id: int) returns (deleted: bool)
      requires Valid()
      modifies this
      ensures Valid() && nextId == old(nextId)
      ensures rows == Without(old(rows), id)
      ensures deleted <==> HasId(old(rows), id)
    {
      AffectedCount(rows, nextId, id);
      WithoutValid(rows, nextId, id);
      var affected := Affected(rows, id);
      rows := Without(rows, id);
      deleted := affected != 0;
    }

    /** `getLatestTraffic`: a reading with the largest `createdAt`, or None for an empty
        table. */
    method GetLatestTraffic() returns (t: Option<Traffic>)
      ensures t.None? <==> rows == []
      ensures t.Some? ==> t.value in rows && forall x :: x in rows ==> x.createdAt <= t.value.createdAt
    {
      t := Latest(rows);
    }

    /** `getLatestTraffic` as written: its `findOne` passes only `order`, and TypeORM 0.3 refuses a
        `findOne` without `where`, so the call raises an error on every table, empty or not. */
    method GetLatestTrafficAsWritten() returns (r: Result<Option<Traffic>, StoreError>)
      ensures r.Failure? && r.error == SelectionConditionsMissing
    {
      r := FindOneWithoutWhere(rows);
    }
  }

  /** Three readings created at increasing times: the latest is the third, and the full
      listing gives them in reverse order of creation. */
  method ThreeReadings(d1: TrafficData, d2: TrafficData, d3: TrafficData, t1: int, t2: int, t3: int)
    returns (latest: Option<Traffic>, all: seq<Traffic>)
    requires t1 < t2 < t3
    ensures latest.Some? && latest.value.data == d3 && latest.value.createdAt == t3
    ensures |all| == 3
    ensures all[0].data == d3 && all[1].data == d2 && all[2].data == d1
  {
    var service, a, b, c := CreateThree(d1, d2, d3, t1, t2, t3);
    latest := service.GetLatestTraffic();
    assert latest.value == c by {
      assert latest.value in [a, b, c] && latest.value.createdAt >= c.createdAt;
    }
    all := service.GetAllTraffic();
    ThreeListedInReverse(a, b, c, all);
  }

  /** A fresh service after three creations, in that order. */
  method CreateThree(d1: TrafficData, d2: TrafficData, d3: TrafficData, t1: int, t2: int, t3: int)
    returns (service: TrafficService, a: Traffic, b: Traffic, c: Traffic)
    ensures service.rows == [a, b, c]
    ensures a.data == d1 && b.data == d2 && c.data == d3
    ensures a.createdAt == t1 && b.createdAt == t2 && c.createdAt == t3
  {
    service := new TrafficService();
    a := service.CreateTraffic(d1, t1);
    b := service.CreateTraffic(d2, t2);
    c := service.CreateTraffic(d3, t3);
  }

  /** Three rows created at increasing times are listed newest first as third, second, first. */
  lemma ThreeListedInReverse(a: Traffic, b: Traffic, c: Traffic, all: seq<Traffic>)
    requires a.createdAt < b.createdAt < c.createdAt
    requires NewestFirstOrder(all) && multiset(all) == multiset([a, b, c])
    ensures all == [c, b, a]
  {
    var created := [a, b, c];
    ListedInReverseOfCreation(created, all);
    assert Reversed(created) == [c, b, a];
  }

  /** Deleting an id that no reading carries reports no removal and leaves the table as it is. */
  method DeleteAbsent(data: TrafficData, now: int) returns (deleted: bool, after: seq<Traffic>)
    ensures !deleted && |after| == 1 && after[0].data == data
  {
    var service := new TrafficService();
    var t := service.CreateTraffic(data, now);
    assert service.rows == [t];
    WithoutAbsent(service.rows, t.id + 1);
    deleted := service.DeleteTraffic(t.id + 1);
    after := service.rows;
  }
}
