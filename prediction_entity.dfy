/** The `prediction` table's data columns and the partial updates applied to them. */
module PredictionEntity {
  import opened Outcomes

  /** The data columns of a prediction row (all but `id` and `createdAt`). */
  datatype PredictionData = PredictionData(
    predictedTraffic1: int,
    predictedTraffic2: int,
    suggestedTiming1: int,
    suggestedTiming2: int)

  /** A partial prediction, as `update` receives it: None marks a column not supplied. */
  datatype PredictionPatch = PredictionPatch(
    predictedTraffic1: Option<int>,
    predictedTraffic2: Option<int>,
    suggestedTiming1: Option<int>,
    suggestedTiming2: Option<int>)

  /** The patch supplies no column at all, which is exactly when it would leave every row as
      it is (so an update has nothing to `SET`). */
  function IsEmpty(p: PredictionPatch): (b: bool)
    ensures b <==> forall d :: Apply(d, p) == d
  {
    var none :=
      p.predictedTraffic1.None? && p.predictedTraffic2.None? && p.suggestedTiming1.None? && p.suggestedTiming2.None?;
    // A row that differs from every supplied value: a patch that supplies a column moves it.
    var away := PredictionData(
      p.predictedTraffic1.GetOr(0) + 1, p.predictedTraffic2.GetOr(0) + 1,
      p.suggestedTiming1.GetOr(0) + 1, p.suggestedTiming2.GetOr(0) + 1);
    assert Apply(away, p) == away ==> none;
    none
  }

  /** Every column the patch supplies already holds the supplied value in `d`. */
  predicate Agrees(d: PredictionData, p: PredictionPatch) {
    && (p.predictedTraffic1.Some? ==> d.predictedTraffic1 == p.predictedTraffic1.value)
    && (p.predictedTraffic2.Some? ==> d.predictedTraffic2 == p.predictedTraffic2.value)
    && (p.suggestedTiming1.Some? ==> d.suggestedTiming1 == p.suggestedTiming1.value)
    && (p.suggestedTiming2.Some? ==> d.suggestedTiming2 == p.suggestedTiming2.value)
  }

  /** Every column the patch leaves out is the same in `d` and `e`. */
  predicate SameUnsupplied(d: PredictionData, e: PredictionData, p: PredictionPatch) {
    && (p.predictedTraffic1.None? ==> e.predictedTraffic1 == d.predictedTraffic1)
    && (p.predictedTraffic2.None? ==> e.predictedTraffic2 == d.predictedTraffic2)
    && (p.suggestedTiming1.None? ==> e.suggestedTiming1 == d.suggestedTiming1)
    && (p.suggestedTiming2.None? ==> e.suggestedTiming2 == d.suggestedTiming2)
  }

  /** The columns after the `SET` of an update: supplied columns take the supplied values,
      the others keep theirs. */
  function Apply(d: PredictionData, p: PredictionPatch): (r: PredictionData)
    ensures Agrees(r, p) && SameUnsupplied(d, r, p)
  {
    PredictionData(
      p.predictedTraffic1.GetOr(d.predictedTraffic1),
      p.predictedTraffic2.GetOr(d.predictedTraffic2),
      p.suggestedTiming1.GetOr(d.suggestedTiming1),
      p.suggestedTiming2.GetOr(d.suggestedTiming2))
  }

  /** The two properties of `Apply` determine its result: it is the only row that takes the
      supplied values and keeps the rest. */
  lemma ApplyIsDetermined(d: PredictionData, p: PredictionPatch, e: PredictionData)
    requires Agrees(e, p) && SameUnsupplied(d, e, p)
    ensures e == Apply(d, p)
  {
  }

  /** An update changes nothing exactly when every supplied column already has its value. */
  lemma ApplyUnchangedIff(d: PredictionData, p: PredictionPatch)
    ensures Apply(d, p) == d <==> Agrees(d, p)
  {
  }

  /** Applying the same partial update twice is the same as applying it once. */
  lemma ApplyIdempotent(d: PredictionData, p: PredictionPatch)
    ensures Apply(Apply(d, p), p) == Apply(d, p)
  {
  }

  /** Setting `suggestedTiming1` alone changes that column and keeps the other three. */
  lemma ApplySuggestedTiming1(d: PredictionData, v: int)
    ensures Apply(d, PredictionPatch(None, None, Some(v), None)) == d.(suggestedTiming1 := v)
  {
  }
}
