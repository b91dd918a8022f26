/**
  The prediction store: `PredictionService` over its `prediction` table, with the one policy
  decision of the core, the tolerance-window lookup of a reusable prediction.
 */
module PredictionStore {
  import opened Outcomes
  import opened Rows
  import opened PredictionEntity

  /** A stored prediction row. */
  type Prediction = Row<PredictionData>

  /** Half-width of the tolerance window, per axis. */
  const Delta: int := 15

  /** SQL `BETWEEN lo AND hi`: inclusive at both ends. */
  predicate Between(v: int, lo: int, hi: int) {
    lo <= v <= hi
  }

  function Abs(x: int): nat {
    if x < 0 then -x else x
  }

  /** A prediction is a candidate for the observed pair `(t1, t2)` when each predicted
      intensity lies in the window around the observed one: the pairs at distance at most
      `Delta` on each axis. */
  function InWindow(d: PredictionData, t1: int, t2: int): (b: bool)
    ensures b <==> Abs(d.predictedTraffic1 - t1) <= Delta && Abs(d.predictedTraffic2 - t2) <= Delta
  {
    && Between(d.predictedTraffic1, t1 - Delta, t1 + Delta)
    && Between(d.predictedTraffic2, t2 - Delta, t2 + Delta)
  }

  /** The window's edge on each axis: a distance of exactly 15 is accepted (the other axis
      matching exactly), a distance of 16 is rejected whatever the other axis holds. */
  lemma WindowBoundary(d: PredictionData, t1: int, t2: int)
    ensures d.predictedTraffic2 == t2 && (d.predictedTraffic1 == t1 + 15 || d.predictedTraffic1 == t1 - 15) ==>
      InWindow(d, t1, t2)
    ensures d.predictedTraffic1 == t1 && (d.predictedTraffic2 == t2 + 15 || d.predictedTraffic2 == t2 - 15) ==>
      InWindow(d, t1, t2)
    ensures d.predictedTraffic1 == t1 + 16 || d.predictedTraffic1 == t1 - 16 ==> !InWindow(d, t1, t2)
    ensures d.predictedTraffic2 == t2 + 16 || d.predictedTraffic2 == t2 - 16 ==> !InWindow(d, t1, t2)
  {
  }

  /** The rows the `BETWEEN ... AND BETWEEN ...` query selects, in physical order. */
  function Matches(rows: seq<Prediction>, t1: int, t2: int): (r: seq<Prediction>)
    ensures forall x :: x in r <==> x in rows && InWindow(x.data, t1, t2)
  {
    if rows == [] then []
    else if InWindow(rows[0].data, t1, t2) then [rows[0]] + Matches(rows[1..], t1, t2)
    else Matches(rows[1..], t1, t2)
  }

  /** The service object: the `prediction` table it reaches through its repository, and the
      table's auto-increment counter. */
  class PredictionService {
    var rows: seq<Prediction>
    var nextId: int

    ghost predicate Valid()
      reads this
    {
      ValidTable(rows, nextId)
    }

    /** A service over an empty table. */
    constructor ()
      ensures Valid() && rows == []
    {
      rows := [];
      nextId := 1;
    }

    /** `createPrediction`: saves the supplied columns with a fresh id and the creation time
        `now`, and returns the stored row. */
    method CreatePrediction(data: PredictionData, now: int) returns (p: Prediction)
      requires Valid()
      modifies this
      ensures Valid()
      ensures rows == old(rows) + [p]
      ensures p.data == data && p.createdAt == now
      ensures p.id == old(nextId) && nextId == old(nextId) + 1
      ensures forall x :: x in old(rows) ==> x.id < p.id
      ensures FindById(rows, p.id) == Some(p)
    {
      var before, id := rows, nextId;
      InsertedValid(before, id, data, now);
      FindAfterInsert(before, id, data, now);
      p := Row(id, data, now);
      rows, nextId := Inserted(before, id, data, now), id + 1;
    }

    /** `getAllPredictions`: every stored row exactly once, newest first. */
    method GetAllPredictions() returns (all: seq<Prediction>)
      ensures NewestFirstOrder(all)
      ensures multiset(all) == multiset(rows)
    {
      all := NewestFirst(rows);
    }

    /** `getPredictionById`: the row with that id, or None when there is none. */
    method GetPredictionById(id: int) returns (p: Option<Prediction>)
      ensures p.Some? ==> p.value in rows && p.value.id == id
      ensures p.None? <==> forall x :: x in rows ==> x.id != id
    {
      p := FindById(rows, id);
    }

    /** `getPredictionByTrafficIntensities`: some stored prediction inside the window around
        `(t1, t2)` (which one, when several qualify, is the database's choice), or None
        exactly when no stored prediction is inside it. */
    method GetPredictionByTrafficIntensities(t1: int, t2: int) returns (p: Option<Prediction>)
      ensures p.Some? ==> p.value in rows && InWindow(p.value.data, t1, t2)
      ensures p.None? <==> forall x :: x in rows ==> !InWindow(x.data, t1, t2)
    {
      var candidates := Matches(rows, t1, t2);
      if candidates == [] {
        p := None;
      } else {
        assert candidates[0] in candidates;
        var x :| x in candidates;
        p := Some(x);
      }
    }

    /** `updatePrediction`: writes the supplied columns into the row with that id and
        re-reads it. An update that supplies no column raises UpdateValuesMissing and
        changes nothing. */
    method UpdatePrediction(id: int, patch: PredictionPatch) returns (r: Result<Option<Prediction>, StoreError>)
      requires Valid()
      modifies this
      ensures Valid() && nextId == old(nextId)
      ensures IsEmpty(patch) ==> r == Failure(UpdateValuesMissing) && rows == old(rows)
      ensures !IsEmpty(patch) ==> |rows| == |old(rows)|
      ensures !IsEmpty(patch) ==> forall i :: 0 <= i < |rows| ==>
        rows[i] == if old(rows)[i].id == id then old(rows)[i].(data := Apply(old(rows)[i].data, patch)) else old(rows)[i]
      ensures !IsEmpty(patch) ==> r == Success(
        match FindById(old(rows), id)
        case None => None
        case Some(x) => Some(x.(data := Apply(x.data, patch))))
    {
      if IsEmpty(patch) {
        r := Failure(UpdateValuesMissing);
        return;
      }
      var f := d => Apply(d, patch);
      FindAfterUpdate(rows, id, f);
      UpdateWhereValid(rows, nextId, id, f);
      rows := UpdateWhere(rows, id, f);
      r := Success(FindById(rows, id));
    }

    /** `deletePrediction`: removes the row with that id and reports whether a row was
        removed (the affected count is not zero). */
    method DeletePrediction(id: int) returns (deleted: bool)
      requires Valid()
      modifies this
      ensures Valid() && nextId == old(nextId)
      ensures rows == Without(old(rows), id)
      ensures deleted <==> HasId(old(rows), id)
    {
      AffectedCount(rows, nextId, id);
      WithoutValid(rows, nextId, id);
      var affected := Affected(rows, id);
      rows := Without(rows, id);
      deleted := affected != 0;
    }

    /** `getLatestPrediction`: a row with the largest `createdAt`, or None for an empty
        table. */
    method GetLatestPrediction() returns (p: Option<Prediction>)
      ensures p.None? <==> rows == []
      ensures p.Some? ==> p.value in rows && forall x :: x in rows ==> x.createdAt <= p.value.createdAt
    {
      p := Latest(rows);
    }

    /** `getLatestPrediction` as written: its `findOne` passes only `order`, and TypeORM 0.3 refuses a
        `findOne` without `where`, so the call raises an error on every table, empty or not. */
    method GetLatestPredictionAsWritten() returns (r: Result<Option<Prediction>, StoreError>)
      ensures r.Failure? && r.error == SelectionConditionsMissing
    {
      r := FindOneWithoutWhere(rows);
    }
  }

  /** A stored prediction for (100, 50) is reused for the observation (105, 45) and not for
      (120, 45), which is 20 away on the first axis. */
  method ReuseWithinWindow() returns (near: Option<Prediction>, far: Option<Prediction>)
    ensures near.Some? && near.value.data == PredictionData(100, 50, 30, 20)
    ensures far.None?
  {
    var service := new PredictionService();
    var stored := service.CreatePrediction(PredictionData(100, 50, 30, 20), 0);
    near := service.GetPredictionByTrafficIntensities(105, 45);
    far := service.GetPredictionByTrafficIntensities(120, 45);
  }

  /** Deleting the same prediction twice: the first call reports a removal, the second none. */
  method DeleteTwiceReportsOnce(data: PredictionData, now: int) returns (first: bool, second: bool)
    ensures first && !second
  {
    var service := new PredictionService();
    var p := service.CreatePrediction(data, now);
    first := service.DeletePrediction(p.id);
    second := service.DeletePrediction(p.id);
  }

  /** A prediction created after another one was deleted does not get the deleted id again:
      the auto-increment counter only moves forward. */
  method IdsNotReused(d1: PredictionData, d2: PredictionData, t1: int, t2: int)
    returns (first: Prediction, second: Prediction)
    ensures first.id < second.id
  {
    var service := new PredictionService();
    first := service.CreatePrediction(d1, t1);
    var deleted := service.DeletePrediction(first.id);
    second := service.CreatePrediction(d2, t2);
  }
}
