/** The `traffic` table's data columns and the partial updates applied to them. */
module TrafficEntity {
  import opened Outcomes

  /** The data columns of a traffic row (all but `id` and `createdAt`). */
  datatype TrafficData = TrafficData(
    trafficIntensity1: int,
    trafficIntensity2: int,
    co2Level: int,
    lightLevel1: int,
    lightLevel2: int,
    currentGreenTime1: int,
    currentGreenTime2: int,
    pedestrianRequest1: bool,
    pedestrianRequest2: bool)

  /** A partial traffic reading, as `update` receives it: None marks a column not supplied. */
  datatype TrafficPatch = TrafficPatch(
    trafficIntensity1: Option<int>,
    trafficIntensity2: Option<int>,
    co2Level: Option<int>,
    lightLevel1: Option<int>,
    lightLevel2: Option<int>,
    currentGreenTime1: Option<int>,
    currentGreenTime2: Option<int>,
    pedestrianRequest1: Option<bool>,
    pedestrianRequest2: Option<bool>)

  /** The patch supplies no column at all, which is exactly when it would leave every row as
      it is (so an update has nothing to `SET`). */
  function IsEmpty(p: TrafficPatch): (b: bool)
    ensures b <==> forall d :: Apply(d, p) == d
  {
    var none :=
      && p.trafficIntensity1.None? && p.trafficIntensity2.None? && p.co2Level.None?
      && p.lightLevel1.None? && p.lightLevel2.None?
      && p.currentGreenTime1.None? && p.currentGreenTime2.None?
      && p.pedestrianRequest1.None? && p.pedestrianRequest2.None?;
    // A row that differs from every supplied value: a patch that supplies a column moves it.
    var away := TrafficData(
      p.trafficIntensity1.GetOr(0) + 1, p.trafficIntensity2.GetOr(0) + 1, p.co2Level.GetOr(0) + 1,
      p.lightLevel1.GetOr(0) + 1, p.lightLevel2.GetOr(0) + 1,
      p.currentGreenTime1.GetOr(0) + 1, p.currentGreenTime2.GetOr(0) + 1,
      !p.pedestrianRequest1.GetOr(false), !p.pedestrianRequest2.GetOr(false));
    assert Apply(away, p) == away ==> none;
    none
  }


  /** Every column the patch supplies already holds the supplied value in `d`. */
  predicate Agrees(d: TrafficData, p: TrafficPatch) {
    && (p.trafficIntensity1.Some? ==> d.trafficIntensity1 == p.trafficIntensity1.value)
    && (p.trafficIntensity2.Some? ==> d.trafficIntensity2 == p.trafficIntensity2.value)
    && (p.co2Level.Some? ==> d.co2Level == p.co2Level.value)
    && (p.lightLevel1.Some? ==> d.lightLevel1 == p.lightLevel1.value)
    && (p.lightLevel2.Some? ==> d.lightLevel2 == p.lightLevel2.value)
    && (p.currentGreenTime1.Some? ==> d.currentGreenTime1 == p.currentGreenTime1.value)
    && (p.currentGreenTime2.Some? ==> d.currentGreenTime2 == p.currentGreenTime2.value)
    && (p.pedestrianRequest1.Some? ==> d.pedestrianRequest1 == p.pedestrianRequest1.value)
    && (p.pedestrianRequest2.Some? ==> d.pedestrianRequest2 == p.pedestrianRequest2.value)
  }

  /** Every column the patch leaves out is the same in `d` and `e`. */
  predicate SameUnsupplied(d: TrafficData, e: TrafficData, p: TrafficPatch) {
    && (p.trafficIntensity1.None? ==> e.trafficIntensity1 == d.trafficIntensity1)
    && (p.trafficIntensity2.None? ==> e.trafficIntensity2 == d.trafficIntensity2)
    && (p.co2Level.None? ==> e.co2Level == d.co2Level)
    && (p.lightLevel1.None? ==> e.lightLevel1 == d.lightLevel1)
    && (p.lightLevel2.None? ==> e.lightLevel2 == d.lightLevel2)
    && (p.currentGreenTime1.None? ==> e.currentGreenTime1 == d.currentGreenTime1)
    && (p.currentGreenTime2.None? ==> e.currentGreenTime2 == d.currentGreenTime2)
    && (p.pedestrianRequest1.None? ==> e.pedestrianRequest1 == d.pedestrianRequest1)
    && (p.pedestrianRequest2.None? ==> e.pedestrianRequest2 == d.pedestrianRequest2)
  }

  /** The columns after the `SET` of an update: supplied columns take the supplied values,
      the others keep theirs. */
  function Apply(d: TrafficData, p: TrafficPatch): (r: TrafficData)
    ensures Agrees(r, p) && SameUnsupplied(d, r, p)
  {
    TrafficData(
      p.trafficIntensity1.GetOr(d.trafficIntensity1),
      p.trafficIntensity2.GetOr(d.trafficIntensity2),
      p.co2Level.GetOr(d.co2Level),
      p.lightLevel1.GetOr(d.lightLevel1),
      p.lightLevel2.GetOr(d.lightLevel2),
      p.currentGreenTime1.GetOr(d.currentGreenTime1),
      p.currentGreenTime2.GetOr(d.currentGreenTime2),
      p.pedestrianRequest1.GetOr(d.pedestrianRequest1),
      p.pedestrianRequest2.GetOr(d.pedestrianRequest2))
  }

  /** The two properties of `Apply` determine its result: it is the only row that takes the
      supplied values and keeps the rest. */
  lemma ApplyIsDetermined(d: TrafficData, p: TrafficPatch, e: TrafficData)
    requires Agrees(e, p) && SameUnsupplied(d, e, p)
    ensures e == Apply(d, p)
  {
  }

  /** An update changes nothing exactly when every supplied column already has its value. */
  lemma ApplyUnchangedIff(d: TrafficData, p: TrafficPatch)
    ensures Apply(d, p) == d <==> Agrees(d, p)
  {
  }

  /** Applying the same partial update twice is the same as applying it once. */
  lemma ApplyIdempotent(d: TrafficData, p: TrafficPatch)
    ensures Apply(Apply(d, p), p) == Apply(d, p)
  {
  }
}
