# Smart-city record stores, modelled in Dafny

This project models the service layer of a small traffic-signal backend. The layer has two
record stores. `TrafficService` keeps the sensor readings of a two-approach intersection.
`PredictionService` keeps signal-timing predictions. Each store has create, read-by-id,
partial update, delete, newest-first listing and latest-record operations. The prediction
store adds one policy decision, the tolerance-window lookup: given an observed intensity
pair `(t1, t2)`, it returns a stored prediction whose `predictedTraffic1` lies in
`[t1 - 15, t1 + 15]` and whose `predictedTraffic2` lies in `[t2 - 15, t2 + 15]`. Both ranges
are inclusive, as SQL `BETWEEN` is.

The services only delegate to a TypeORM repository over a MySQL table. The model replaces
that repository with an in-memory table held in the service object. The table has the
semantics the repository calls promise:
- `save` appends a row with the next auto-increment id and the creation time.
- `find` ordered by `createdAt DESC` lists rows newest first.
- `findOne` with a `where` condition returns some qualifying row, or nothing. The
  latest-record calls pass `findOne` an `order` and no `where`. TypeORM 0.3 refuses such a
  call with an error before it sends any query (see "## Findings").
- `update` overwrites only the supplied columns of the row with that id.
- `delete` reports how many rows it removed.

Files:
- `outcomes.dfy` (`Outcomes`): `Option` (a `null` result, an omitted column) and `Result`.
- `rows.dfy` (`Rows`): the generic table, `Row<D>(id, data, createdAt)` with `D` being the
  entity's data columns. It holds one function per repository call (except the window
  query, which is `PredictionStore.Matches`), the table invariant
  (positive ids, strictly increasing in physical order and below the auto-increment
  counter), and the lemmas about ordering, lookup, update and delete.
- `prediction_entity.dfy`, `traffic_entity.dfy`: the data columns of the two entities
  (from `src/entity/predictionEntity.ts` and `src/entity/trafficEntity.ts`). Each also has a
  partial-update type with one `Option` per column, and `Apply`, which performs an update's
  `SET`.
- `prediction_service.dfy` (`PredictionStore`): the tolerance window and the class
  `PredictionService`.
- `traffic_service.dfy` (`TrafficStore`): the class `TrafficService`.

Each service is a class with two fields: `rows: seq<Row<D>>` and the counter `nextId`.
Create, update and delete are methods with `modifies this`. Each of them states the new
table in terms of the old one and keeps `Valid()`. The reads (getAll, getById, the
window match, getLatest) are methods without a `modifies` clause, so they leave the table
unchanged. Their `ensures` state only what holds for every row the database may choose: any
newest-first permutation for getAll, any row with the largest `createdAt` for getLatest,
and any row inside the window for the match. The clock is a parameter: each create takes
the creation time `now`.

Three points of the code shape the model:
- getLatest and the window match have no secondary sort key, so nothing decides between
  rows that tie. The model leaves that choice open.
- `update` receives the request's partial entity as it is. TypeORM raises
  `UpdateValuesMissingError` when that partial supplies no column. The model returns
  `Failure(UpdateValuesMissing)` for that case and leaves the table unchanged.
- MySQL assigns `createdAt` from its own clock when the row is inserted (a
  `@CreateDateColumn`). The model takes that time as the parameter `now` of each create
  and does not assume that it grows, so every contract holds for any clock, including one
  that is not monotone. That is also why getAll really has to sort.

## Model

| member | source | states |
|---|---|---|
| `Rows.IdsIdentify` | src/entity/predictionEntity.ts:5-6 | In a valid table, two rows with the same generated id are the same row |
| `Rows.Inserted` | src/services/predictionService.ts:12-15 | `save` appends exactly one row, with the counter's id, the data and the time `now`; every row already stored keeps its place |
| `Rows.InsertedValid` | src/services/predictionService.ts:12-15 | `save` keeps the table valid, and the new id is larger than every id already stored, so it is fresh |
| `Rows.FindAfterInsert` | src/services/predictionService.ts:12-15 | After a create, a lookup of the new id returns exactly the saved columns with that id and creation time |
| `Rows.FindById` | src/services/predictionService.ts:25-29 | Returns only a stored row carrying the id; returns None exactly when no stored row carries it |
| `Rows.FindByIdExact` | src/services/predictionService.ts:25-29 | In a valid table, the lookup of a stored row's id returns that very row |
| `Rows.Without` | src/services/predictionService.ts:46-49 | After a delete, a row remains exactly when it was stored and carries another id |
| `Rows.Affected` | src/services/predictionService.ts:46-48 | A delete reports zero affected rows exactly when no stored row carries the id |
| `Rows.WithoutAbsent` | src/services/trafficService.ts:36-39 | Deleting an id that no row carries leaves the table unchanged |
| `Rows.WithoutValid` | src/services/predictionService.ts:46-49 | A delete keeps the table invariant |
| `Rows.AffectedCount` | src/services/predictionService.ts:46-49 | A delete affects one row when the id is present and none otherwise, so `affected !== 0` means the id existed |
| `Rows.DeleteTwice` | src/services/predictionService.ts:46-49 | A second delete of the same id affects no row |
| `Rows.UpdateWhere` | src/services/predictionService.ts:41-42 | An update keeps the length, the id and `createdAt` of every row, and leaves every row with another id unchanged. The row with the id gets the `SET` applied to its columns |
| `Rows.UpdateWhereValid` | src/services/predictionService.ts:41-42 | An update keeps the table invariant |
| `Rows.FindAfterUpdate` | src/services/predictionService.ts:41-44 | Re-reading the updated id gives the old row with the new columns, or None when the id was absent |
| `Rows.FindOtherAfterUpdate` | src/services/predictionService.ts:41-44 | A lookup of any other id gives the same result before and after an update |
| `Rows.InsertByTime` | src/services/predictionService.ts:17-23 | Inserting a row into a newest-first sequence keeps it newest first and adds exactly that row |
| `Rows.NewestFirst` | src/services/predictionService.ts:17-23 | The listing is ordered by `createdAt`, non-increasing, and is a permutation of the table |
| `Rows.Latest` | src/services/predictionService.ts:51-57 | The intended latest-row query: None exactly for an empty table; otherwise a stored row whose `createdAt` is at least every other row's |
| `Rows.FindOneWithoutWhere` | src/services/predictionService.ts:52-56 | The `findOne` call as written, with only `order`: always raises SelectionConditionsMissing |
| `Rows.LatestWithoutWhereFails` | src/services/trafficService.ts:42-46 | On every table the call as written raises an error, while the intended query succeeds: None for an empty table, otherwise a stored row with the largest `createdAt` |
| `Rows.HeadIsNewest` | src/services/predictionService.ts:51-57 | The first row of any newest-first listing of a non-empty table is stored and has the largest `createdAt` |
| `Rows.NewestIsUnique` | src/services/predictionService.ts:51-57 | Without ties on `createdAt`, only one row has the largest `createdAt` |
| `Rows.LatestIsFirstOfAll` | src/services/predictionService.ts:51-57 | Without ties, the latest row is the first row of every newest-first listing |
| `Rows.NewestFirstIsUnique` | src/services/predictionService.ts:17-23 | Without ties, any two newest-first listings of the same rows are equal |
| `Rows.NewestFirstOfIncreasing` | src/services/trafficService.ts:17-23 | Rows created at strictly increasing times are sorted into the exact reverse of creation order |
| `Rows.ListedInReverseOfCreation` | src/services/trafficService.ts:17-23 | Every newest-first listing of rows created at strictly increasing times is the reverse of creation order |
| `PredictionEntity.IsEmpty` | src/services/predictionService.ts:41-42 | A patch supplies no column exactly when it would leave every row unchanged; `update` raises UpdateValuesMissing for such a patch |
| `PredictionEntity.Apply` | src/services/predictionService.ts:41-42 | Every supplied column takes the supplied value, and every omitted column keeps its value |
| `PredictionEntity.ApplyIsDetermined` | src/services/predictionService.ts:41-42 | Those two properties determine the updated columns |
| `PredictionEntity.ApplyUnchangedIff` | src/services/predictionService.ts:41-42 | An update leaves a row's columns as they were exactly when every supplied value is already there |
| `PredictionEntity.ApplyIdempotent` | src/services/predictionService.ts:41-42 | Applying the same partial update twice equals applying it once |
| `PredictionEntity.ApplySuggestedTiming1` | src/services/predictionService.ts:41-42 | Updating only `suggestedTiming1` changes that column and keeps the other three |
| `TrafficEntity.IsEmpty` | src/services/trafficService.ts:31-32 | A patch supplies no column exactly when it would leave every reading unchanged; `update` raises UpdateValuesMissing for such a patch |
| `TrafficEntity.Apply` | src/services/trafficService.ts:31-32 | Every supplied column takes the supplied value, and every omitted column keeps its value |
| `TrafficEntity.ApplyIsDetermined` | src/services/trafficService.ts:31-32 | Those two properties determine the updated columns |
| `TrafficEntity.ApplyUnchangedIff` | src/services/trafficService.ts:31-32 | An update leaves a reading as it was exactly when every supplied value is already there |
| `TrafficEntity.ApplyIdempotent` | src/services/trafficService.ts:31-32 | Applying the same partial update twice equals applying it once |
| `PredictionStore.InWindow` | src/services/predictionService.ts:32-37 | A prediction is in the window exactly when it is at most 15 away from the observation on each axis |
| `PredictionStore.WindowBoundary` | src/services/predictionService.ts:32-37 | On either axis, a distance of 15 (on either side, the other axis exact) is accepted; a distance of 16 is rejected whatever the other axis holds |
| `PredictionStore.Matches` | src/services/predictionService.ts:33-38 | The query selects a row exactly when it is stored and inside the window on both axes |
| `PredictionStore.PredictionService.constructor` | src/services/predictionService.ts:8-10 | A service over a freshly created table starts empty and valid |
| `PredictionStore.PredictionService.CreatePrediction` | src/services/predictionService.ts:12-15 | The table grows by exactly the returned row. That row carries the supplied columns, the time `now` and the counter's value as its id, which is larger than every existing one; the counter moves one past it. A lookup of the id finds it |
| `PredictionStore.PredictionService.GetAllPredictions` | src/services/predictionService.ts:17-23 | Every stored row exactly once (a permutation of the table), ordered by non-increasing `createdAt` |
| `PredictionStore.PredictionService.GetPredictionById` | src/services/predictionService.ts:25-29 | A stored row with that id, or None exactly when no row carries the id |
| `PredictionStore.PredictionService.GetPredictionByTrafficIntensities` | src/services/predictionService.ts:31-39 | A stored row inside the window of 15 on both axes, or None exactly when no stored row is inside it |
| `PredictionStore.PredictionService.UpdatePrediction` | src/services/predictionService.ts:41-44 | An empty patch raises UpdateValuesMissing and changes nothing. Otherwise the row with the id takes the supplied columns, every other row and every id and `createdAt` stay as they were, and the result is the re-read row (old row with the patch applied), or None for an absent id. The counter is unchanged |
| `PredictionStore.PredictionService.DeletePrediction` | src/services/predictionService.ts:46-49 | Removes exactly the rows with that id. Returns true exactly when such a row existed |
| `PredictionStore.PredictionService.GetLatestPrediction` | src/services/predictionService.ts:51-57 | The intended result: None exactly for an empty table; otherwise a stored row with the largest `createdAt` |
| `PredictionStore.PredictionService.GetLatestPredictionAsWritten` | src/services/predictionService.ts:51-57 | The call as written raises SelectionConditionsMissing whatever the table holds |
| `PredictionStore.ReuseWithinWindow` | src/services/predictionService.ts:31-39 | A prediction stored for (100, 50) is returned for the observation (105, 45). Nothing is returned for (120, 45) |
| `PredictionStore.IdsNotReused` | src/entity/predictionEntity.ts:5-6 | A prediction created after another was deleted gets a larger id, never the deleted one |
| `PredictionStore.DeleteTwiceReportsOnce` | src/services/predictionService.ts:46-49 | Deleting a created prediction returns true, and a second delete of the same id returns false |
| `TrafficStore.TrafficService.constructor` | src/services/trafficService.ts:8-10 | A service over a freshly created table starts empty and valid |
| `TrafficStore.TrafficService.CreateTraffic` | src/services/trafficService.ts:12-15 | The table grows by exactly the returned row. That row carries the supplied reading, the time `now` and the counter's value as its id, larger than every existing one; the counter moves one past it |
| `TrafficStore.TrafficService.GetAllTraffic` | src/services/trafficService.ts:17-23 | Every stored reading exactly once, ordered by non-increasing `createdAt` |
| `TrafficStore.TrafficService.GetTrafficById` | src/services/trafficService.ts:25-29 | A stored reading with that id, or None exactly when no row carries the id |
| `TrafficStore.TrafficService.UpdateTraffic` | src/services/trafficService.ts:31-34 | An empty patch raises UpdateValuesMissing and changes nothing. Otherwise the reading with the id takes the supplied columns, all else stays, and the result is the re-read reading with only the supplied columns changed, or None for an absent id |
| `TrafficStore.TrafficService.DeleteTraffic` | src/services/trafficService.ts:36-39 | Removes exactly the rows with that id. Returns true exactly when such a row existed |
| `TrafficStore.TrafficService.GetLatestTraffic` | src/services/trafficService.ts:41-47 | The intended result: None exactly for an empty table; otherwise a stored reading with the largest `createdAt` |
| `TrafficStore.TrafficService.GetLatestTrafficAsWritten` | src/services/trafficService.ts:41-47 | The call as written raises SelectionConditionsMissing whatever the table holds |
| `TrafficStore.ThreeReadings` | src/services/trafficService.ts:41-47 | After three creations at increasing times, getLatest returns the third reading and getAll returns third, second, first |
| `TrafficStore.ThreeListedInReverse` | src/services/trafficService.ts:17-23 | Three rows created at increasing times are listed newest first as third, second, first |
| `TrafficStore.DeleteAbsent` | src/services/trafficService.ts:36-39 | Deleting an id that no reading carries returns false and leaves the stored reading in place |

## Findings

| source | as written | input that shows it | evidently intended | confidence | as-written member | corrected member |
|---|---|---|---|---|---|---|
| src/services/predictionService.ts:51-57 | `findOne({ order: { createdAt: 'DESC' } })` with no `where`; TypeORM 0.3 (the `DataSource` API of src/datasource/datasource.ts:7) throws "You must provide selection conditions in order to find a single row" for it | any call, on an empty or a non-empty table; the controller turns the error into a 500 response | the newest prediction, as `find({ order: { createdAt: 'DESC' }, take: 1 })` gives it, or null for an empty table | not executed; rests on the behaviour of TypeORM 0.3's `findOne` | `PredictionStore.PredictionService.GetLatestPredictionAsWritten` | `PredictionStore.PredictionService.GetLatestPrediction` |
| src/services/trafficService.ts:41-47 | the same `findOne` with only `order` | any call, on an empty or a non-empty table | the newest reading, or null for an empty table | not executed; rests on the behaviour of TypeORM 0.3's `findOne` | `TrafficStore.TrafficService.GetLatestTrafficAsWritten` | `TrafficStore.TrafficService.GetLatestTraffic` |

`Rows.LatestWithoutWhereFails` states the discrepancy for every table: the call as written
fails, while `Rows.Latest`, which the rest of the model uses, returns None for an empty table
and a newest row otherwise.

## Left out

- HTTP controllers and routers (`src/controllers`, `src/routes`). They map None and false to 404 and exceptions to a 500 JSON envelope. Their `parseInt` of path parameters, and the NaN it yields for non-numeric text, are not modelled. Ids and intensities are integers here.
- Process bootstrap and configuration (`src/index.ts`, `src/datasource/datasource.ts`), which cover Express, environment variables and the MySQL connection.
- Persistence errors raised by the driver (connectivity loss, rejected writes). Only the empty-update error is modelled.
- Async machinery. Each service call is one sequential step. This includes the window between `update` and the re-read in updatePrediction and updateTraffic, so the concurrent-delete race is not modelled.
- Real `Date` values, their precision and the database clock that sets them. The insert time is an integer, passed to each create as `now`.
- CreatePrediction, CreateTraffic: take a complete set of data columns. A request body that omits a column leads to an error or an implicit default, depending on the MySQL server's SQL mode, so that case is not modelled.
- Request bodies that carry `id` or `createdAt`, or keys that are not columns. TypeORM's `save` with an existing id updates instead of inserting, `update` could overwrite `createdAt`, and `update` raises `EntityPropertyNotFoundError` for a key that names no column. All are outside the model: patches cover the data columns only.
- JavaScript numbers are doubles and the MySQL `int` columns are 32-bit. Fractional values, rounding and out-of-range errors are not modelled, because the model uses unbounded integers.
- Which row MySQL picks when several qualify, for the window match, for getLatest and for the order of ties in getAll. The method contracts hold for any choice. The function `Rows.NewestFirst` fixes one choice (ties keep physical order) only to give the methods a body.
- GetLatestPrediction: models the intended newest-row result, not the SelectionConditionsMissing error the code as written raises; `GetLatestPredictionAsWritten` models the latter (see "## Findings").
- GetLatestTraffic: models the intended newest-reading result, not the SelectionConditionsMissing error the code as written raises; `GetLatestTrafficAsWritten` models the latter (see "## Findings").
- The state of the persisted table when a service is constructed. The services bind to an existing MySQL table that may already hold rows. The model's constructors start over an empty table. Every method contract assumes only that the table is valid, so it also holds for a table that starts with rows.
- Resetting the auto-increment counter (as older MySQL versions do on restart). The counter only grows here.
