# walKING: visit ledger and per-day statistics

walKING divides the map into square cells, 0.0005 degrees on a side,
counted from a session origin. It remembers when the walker was in each cell.

This project models two parts of the app and proves their properties in Dafny.

The first part is `MapViewModel`, in module `Tracking` with modules `Visits`
and `Persistence`.

- It keeps the set of explored cells and each cell's visit history.
- The first non-empty batch of location updates fixes the session origin,
  and no later batch changes it.
- Each location event or simulated visit records the visit and writes it to
  the Core Data store.
- At start-up it rebuilds the ledger by replaying the stored rows.

The second part is the arithmetic behind `StatisticsView`, in module
`Statistics` with modules `Ordering` and `Sums`.

- It regroups the history by calendar day into two maps: day → cells and
  day → cell → visits.
- It picks out the selected day.
- It orders that day's cells by their earliest visit and sums the distances
  between consecutive cell centres.
- It lists every day in ascending key order.

Abstractions:

- **Time.** A `Date` is a whole number of seconds, `Grid.Time`.
  `Date.distantPast` is `Grid.DistantPast`.
- **Parameters for what the code asks of the system.**
  - "now" (`Date()`) is passed in as `now`. Inside `loadData` it is
    `clock(i)`, the reading when the loop reaches row `i`.
  - The outcome of `context.save()` is `saveSucceeds`.
  - The result of `context.fetch` is `fetched`, which is `None` when the fetch
    throws.
  - The `"yyyy-MM-dd"` `DateFormatter`, which is `dayKey(for:)`, is the
    function `key`.
  - `CLLocation.distance(from:)` is the function `dist`.
  - The rounded grid index is the constant function `indexer` of the view
    model. The origin's own index is (0, 0), since both differences are
    zero; the view model keeps this as part of its invariant.
- **Ledger value.** The view model's two published fields form the value
  `Visits.Ledger`. The methods that change the ledger are proved against
  the pure record step `Ledger.Record` and the replay `Visits.ReplayFrom`.
  `SaveVisit` changes only the store and is proved against `RowOf` and
  `Persistence.Context`.
- **Store.** The Core Data context is the class `Persistence.Context`. It
  holds the sequence of inserted rows and the length of the prefix that the
  last successful save made durable.
- **Dictionary iteration order.** Swift leaves this order unspecified. The
  model picks the next key with `:|`, so every proof holds for every
  iteration order.

## Model

| member | source | states |
|---|---|---|
| `Persistence.RowOf` | walKING/Models/MapViewModel.swift:114-118 | The row saved for a visit converts back to the same cell and to the visit's own timestamp, whatever the clock reads. |
| `Persistence.TimeOf` | walKING/Models/MapViewModel.swift:23 | A row's timestamp is the stored one when present and the current clock reading otherwise. |
| `Persistence.CellOf` | walKING/Models/MapViewModel.swift:20-24 | A cell rebuilt from a stored row always lies in the 32-bit range. |
| `Persistence.Context.constructor` | walKING/Models/MapViewModel.swift:33 | A context opened on a store holds exactly the stored rows, all of them durable. |
| `Persistence.Context.Insert` | walKING/Models/MapViewModel.swift:115-118 | Inserting an entity appends exactly that row and makes nothing durable. |
| `Persistence.Context.Save` | walKING/Models/MapViewModel.swift:119-123 | A successful save makes every row durable. A failed save keeps the durable prefix and removes no row. |
| `Visits.RecordKeepsValid` | walKING/Models/MapViewModel.swift:69-75 | Recording a visit keeps the ledger invariant: the explored set equals the key set of the history, and no history is empty. |
| `Visits.Ledger.Record` | walKING/Models/MapViewModel.swift:84-90 | After a visit of `c` at `t`, `c` is explored and its history has gained exactly `t` at the end (`[t]` if it had none). No other cell becomes explored and every other cell's history is unchanged. |
| `Visits.RevisitKeepsExplored` | walKING/Models/MapViewModel.swift:69-75 | Visiting an explored cell again leaves the explored set unchanged and lengthens that cell's history by one. |
| `Visits.SavedRows` | walKING/Models/MapViewModel.swift:114-118 | One row per visit, in order. Row `i` converts back to visit `i`'s cell and stores visit `i`'s timestamp. |
| `Visits.ReplayFrom` | walKING/Models/MapViewModel.swift:130-139 | Replaying rows explores exactly the cells explored before plus the cells the rows name. |
| `Visits.ReplayKeepsValid` | walKING/Models/MapViewModel.swift:130-139 | Replaying stored rows keeps the ledger invariant. |
| `Visits.ReplayCounts` | walKING/Models/MapViewModel.swift:130-139 | Replaying rows lengthens each cell's history by the number of rows naming it. A cell is explored afterwards exactly when it was before or some row names it. |
| `Visits.ReplayStep` | walKING/Models/MapViewModel.swift:130-139 | Replaying `rows + [r]` records `r` into the state after `rows`, at its own timestamp or at the clock reading for its position when it has none. |
| `Visits.RowCountPermutation` | walKING/Models/MapViewModel.swift:127-129 | The number of rows naming a cell is the same in every order the fetch may list them. |
| `Visits.LoadCountsAnyOrder` | walKING/Models/MapViewModel.swift:126-139 | Starting from the stored rows in any fetch order, each cell's history length is its number of stored rows, and the cell is explored exactly when it has one. |
| `Visits.ReplaySavedRows` | walKING/Models/MapViewModel.swift:114-139 | Round trip through the store: replaying the rows saved for a sequence of visits, in the order they were written, rebuilds the ledger that recording those visits produced. |
| `Visits.ReplayConcat` | walKING/Models/MapViewModel.swift:130-139 | Replaying `a + b` is replaying `a` and then replaying `b` from that state, with the clock readings shifted by the length of `a`. |
| `Visits.StoreRoundTrip` | walKING/Models/MapViewModel.swift:114-139 | Round trip through a store that already held rows: replaying those rows followed by the rows saved for new visits gives the replay of the old rows with the new visits recorded in order. |
| `Tracking.MapViewModel.constructor` | walKING/Models/MapViewModel.swift:36-46 | Given an indexer that puts the origin in cell (0, 0), a new view model has no origin. Its ledger is the replay of the fetched rows from the empty ledger, or empty when the fetch fails. The ledger invariant holds. |
| `Tracking.MapViewModel.DidUpdateLocations` | walKING/Models/MapViewModel.swift:58-64 | An empty batch changes nothing. Otherwise only the last location is used. The origin becomes that location if it was unset and is never changed once set. The location's cell is recorded at `now` and one row is appended to the store. On the first non-empty batch the recorded cell is (0, 0). |
| `Tracking.MapViewModel.SimulateVisit` | walKING/Models/MapViewModel.swift:66-77 | The ledger becomes the old ledger with `(x, y)` recorded at `now`. Afterwards `isExplored(x, y)` holds and `lastVisitTimestamp(x, y)` is `now`. Exactly one row is appended, and it is durable exactly when the save succeeds. |
| `Tracking.MapViewModel.UpdateExplored` | walKING/Models/MapViewModel.swift:79-92 | Without an origin nothing changes, neither the ledger nor the store. With one, the indexed cell is recorded at `now` and its row appended and saved. |
| `Tracking.MapViewModel.IsExplored` | walKING/Models/MapViewModel.swift:94-96 | On a valid ledger, a cell is explored exactly when it has a visit history. |
| `Tracking.MapViewModel.LastVisitTimestamp` | walKING/Models/MapViewModel.swift:98-100 | On a valid ledger the result is present exactly when the cell is explored. A present result is the final element of the cell's history. |
| `Tracking.MapViewModel.SaveVisit` | walKING/Models/MapViewModel.swift:114-124 | Exactly one row, the visit's, is appended to the context. The durable prefix covers it exactly when the save succeeds, and a failure rolls nothing back. |
| `Tracking.MapViewModel.LoadData` | walKING/Models/MapViewModel.swift:126-143 | The loop leaves the ledger equal to the replay of the fetched rows, in fetch order, from the old ledger. A failed fetch leaves the ledger unchanged. The invariant holds. |
| `Statistics.AddCell` | walKING/Views/StatisticsView.swift:18 | `result[day, default: []].insert(cell)`: the day becomes a key holding the cell, a new day holds only the cell, and the other days are unchanged. |
| `Statistics.AddVisit` | walKING/Views/StatisticsView.swift:33 | `result[day, default: [:]][cell, default: []].append(date)`: the cell's list on that day gains the date at the end, and every other cell and day is unchanged. |
| `Statistics.FilterNonEmpty` | walKING/Views/StatisticsView.swift:15-19 | A cell's visits on day `d` are non-empty exactly when one of its timestamps has day key `d`. |
| `Statistics.FilterKeepsDay` | walKING/Views/StatisticsView.swift:30-34 | Every timestamp kept for day `d` comes from the cell's history and has day key `d`. |
| `Statistics.DaysIff` | walKING/Views/StatisticsView.swift:15-19 | A day is a key of the groupings exactly when some cell was visited on it. |
| `Statistics.DiscoveredStep` | walKING/Views/StatisticsView.swift:17-18 | Adding one timestamp to a cell's history changes the intended day → cells map by exactly one `result[day, default: []].insert(cell)`. |
| `Statistics.AddCellForVisits` | walKING/Views/StatisticsView.swift:16-19 | The inner loop over one new cell's visits turns the day → cells map of the cells done so far into the map with that cell included. |
| `Statistics.CellsDiscoveredByDay` | walKING/Views/StatisticsView.swift:10-22 | The nested loops, in any dictionary order, build exactly the map each day → set of cells with a visit that day. Only days with a visit are keys. |
| `Statistics.DiscoveredIff` | walKING/Views/StatisticsView.swift:10-22 | A cell is in `cellsDiscoveredByDay[d]` exactly when some timestamp in its history has day key `d`. |
| `Statistics.VisitsStep` | walKING/Views/StatisticsView.swift:32-33 | Adding one timestamp to a cell's history changes the intended day → cell → visits map by exactly one `append` to that cell's list in that day's bucket. |
| `Statistics.TotalAddVisit` | walKING/Views/StatisticsView.swift:33 | One `append` into the buckets adds exactly one to the number of timestamps across all buckets. |
| `Statistics.AppendStep` | walKING/Views/StatisticsView.swift:31-34 | One pass of the inner loop keeps the buckets equal to the intended grouping and their timestamp count equal to the history's. |
| `Statistics.AppendVisitsOfCell` | walKING/Views/StatisticsView.swift:31-34 | The inner loop over one new cell's visits extends the grouping, and the count, to the cells done so far plus that cell. |
| `Statistics.VisitsByDay` | walKING/Views/StatisticsView.swift:25-37 | The nested loops, in any dictionary order, build exactly the map day → cell → that cell's visits on that day. Across all buckets there are as many timestamps as in the whole history: none lost or duplicated. |
| `Statistics.GroupingsAgree` | walKING/Views/StatisticsView.swift:10-37 | Both groupings have the same days. On each day, the cells of the visit bucket are the discovered cells. |
| `Statistics.BucketsAreDaySlices` | walKING/Views/StatisticsView.swift:25-37 | `visitsByDay[d][c]` is the subsequence of `c`'s history whose day key is `d`, in the original order. It is never empty, and it holds only timestamps of `c` on day `d`. |
| `Statistics.SelectedDayCells` | walKING/Views/StatisticsView.swift:48-51 | The selected day's cells are exactly the cells with a timestamp on the selected date's day key. There are none when nothing was visited that day. |
| `Statistics.SelectedDayVisits` | walKING/Views/StatisticsView.swift:54-57 | The selected day's visits are the bucket of that day. The map is empty when no timestamp falls on that day. |
| `Statistics.EarliestOr` | walKING/Views/StatisticsView.swift:71 | `dates.min() ?? Date.distantPast`: `Date.distantPast` for no dates, otherwise a date of the list not greater than any other. |
| `Statistics.Earliest` | walKING/Views/StatisticsView.swift:71 | `dates.min()`: absent exactly for an empty list; otherwise an element not greater than any other. |
| `Statistics.CellDatePairs` | walKING/Views/StatisticsView.swift:70-71 | One pair per cell of the day, each cell once, each with its earliest visit (`Date.distantPast` for none). |
| `Ordering.Insert` | walKING/Views/StatisticsView.swift:72 | Inserting a pair into a list sorted by time keeps it sorted and adds exactly that pair. |
| `Ordering.SortByTime` | walKING/Views/StatisticsView.swift:72 | `sorted { $0.1 < $1.1 }`: the result is ascending by time and a permutation of the input. |
| `Statistics.PermutedPairs` | walKING/Views/StatisticsView.swift:70-72 | Sorting the pairs keeps one pair for every cell, each with that cell's earliest visit. |
| `Statistics.SortedPairsOrder` | walKING/Views/StatisticsView.swift:70-72 | The cells of the sorted pairs are the day's cells, each once, ascending by earliest visit. |
| `Statistics.SortedCells` | walKING/Views/StatisticsView.swift:70-78 | The centres computed from the sorted pairs are the centres of the day's cells in that order. |
| `Statistics.CellCenter` | walKING/Views/StatisticsView.swift:74-77 | `CLLocation()` at (0, 0) without an origin. With one, the latitude and longitude differences from the origin, divided by `cellSize`, are the cell's two indices. |
| `Statistics.Centers` | walKING/Views/StatisticsView.swift:73-78 | One centre per cell, in order, each the centre of its cell. Without an origin every centre is (0, 0). |
| `Statistics.CentersDistinct` | walKING/Views/StatisticsView.swift:74-77 | With an origin, distinct cells get distinct centres. |
| `Statistics.PathLengthNonNegative` | walKING/Views/StatisticsView.swift:79-84 | With a non-negative distance, the path length is non-negative. |
| `Statistics.SumOfSteps` | walKING/Views/StatisticsView.swift:80-84 | The loop over `1..<count` sums `distance(from:)` between consecutive centres, which is the path length through them. |
| `Statistics.DayDistance` | walKING/Views/StatisticsView.swift:67-85 | The distance is the path length through the day's cell centres in some order ascending by earliest visit. It is 0 with fewer than two cells. It is non-negative whenever the point distance is. |
| `Statistics.SelectedDayDistance` | walKING/Views/StatisticsView.swift:67-85 | The same statement for the selected date's day: with fewer than two cells visited that day the distance is 0. |
| `Ordering.LexLe` | walKING/Views/StatisticsView.swift:148 | The string order behind `sorted()`: a prefix comes no later than its extensions, and a first string that is not greater starts with a character not greater than the second's. |
| `Ordering.LexLeTotal` | walKING/Views/StatisticsView.swift:148 | The string order used for day keys is total. |
| `Ordering.LexLeAntisymmetric` | walKING/Views/StatisticsView.swift:148 | The string order is antisymmetric. |
| `Ordering.LexLeTransitive` | walKING/Views/StatisticsView.swift:148 | The string order is transitive. |
| `Ordering.SortedKeys` | walKING/Views/StatisticsView.swift:148 | `keys.sorted()`: strictly ascending, exactly the set's members, and as many as the set has. |
| `Statistics.CellCount` | walKING/Views/StatisticsView.swift:152 | `cellsDiscoveredByDay[day]?.count ?? 0`: the size of the day's set when the day is a key, and positive exactly when the day has a non-empty set. |
| `Statistics.DayList` | walKING/Views/StatisticsView.swift:147-155 | The list of all days: every day with discoveries exactly once, strictly ascending by day key, each with its number of cells. |

The lemmas `Visits.RowCountConcat`, `Visits.RemoveMatching`,
`Visits.CellsOfSnoc`, `Visits.ReplayPrefixStep`,
`Statistics.SortedCellsDistinct`, `Statistics.DistinctCellsOnce`,
`Statistics.TwiceInMultiset`, `Ordering.Least`, `Ordering.LeastFirst` and
`Ordering.LexLeReflexive`, and the function `Visits.Shift`, are proof helpers
for the members above and model no source line of their own.

## Left out

- The CoreLocation delegate wiring and the authorization requests, which the
  source has commented out, are not modelled. The location manager is
  absent, so `DidUpdateLocations` is called directly.
- Core Data itself is not modelled: entities, the fetch request and the
  errors thrown. A fetch is a parameter that either fails or returns the
  context's rows in any order. A save is a parameter that succeeds or fails.
  The printed error messages are left out.
- Nothing is claimed about the order of one cell's history after a round
  trip through a real store, because the fetch has no sort descriptor. Only
  per-cell counts (`Visits.LoadCountsAnyOrder`) and the in-order round trip
  (`Visits.ReplaySavedRows`) are proved.
- The floating-point grid index (`Double` division and `.rounded()` in
  `updateExplored`) is the abstract `indexer`. Its results are assumed to fit
  `Int32`, since any latitude or longitude difference divided by 0.0005 does.
- `coordinate(for:)` in MapViewModel.swift, with its Paris default, is not
  part of this model. The statistics compute cell centres themselves, and
  `Statistics.CellCenter` models that computation with real arithmetic
  instead of `Double`.
- `CLLocation.distance(from:)` is the abstract parameter `dist`.
- The calendar and locale behaviour of `DateFormatter` is the abstract day
  key `key`.
- `Tracking.MapViewModel.SimulateVisit` requires the cell to fit `Int32`
  because `Int32(cell.x)` traps otherwise. The trap itself is not modelled.
- Steps and calories (integer truncation of a `Double` division) and the
  metric and imperial display strings are left out, being floating point
  and formatting.
- The `id` string of `GridCell` is left out, being string formatting for
  SwiftUI.
- The SwiftUI views, the login, sign-up and settings screens, the map page
  and the area hull are not part of this model. They are layout,
  navigation, or code outside these two files.
- `Statistics.DayDistance`: when the origin is unset, every centre is
  `CLLocation()`, as in the source. The distance is then the sum of
  `dist` between equal points, and the model does not assume it is zero.
- The order of cells whose earliest visits coincide is left unspecified,
  as Swift's `sorted` leaves it. `Statistics.DayDistance` therefore states
  that the path follows some order ascending by earliest visit, rather than
  a particular one.

## Design and code

- **No hull and no raw points.** Neither file builds a convex hull, keeps a
  separate store of raw location points, or publishes an immutable snapshot
  per update. The view model publishes its two fields directly, and the
  model has these two fields only.
- **Cell centres without an origin.** `selectedDayDistance` recomputes cell
  centres itself instead of asking the view model. Without an origin it
  uses `CLLocation()`, at (0, 0). `Statistics.CellCenter` does the same.
- **Failed start-up read.** A failed fetch in `loadData` only prints the
  error, so the ledger stays empty. The constructor states this.
