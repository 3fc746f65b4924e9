# pg-upgrade-data-check — a Dafny model of the collector

This project models the three phases of the `collector` package of
pg-upgrade-data-check, a tool that checks that a PostgreSQL replication or upgrade
preserved table contents:

* **before-replication** records, for every configured table, a starting boundary id
  (the scalar its `collect` query returns, or 0 when that query fails) in a fresh
  snapshot file `{table: {startId, stopId: 0}}`;
* **after-replication** reads that snapshot and writes a copy, to a second fresh file,
  in which every configured table's `stopId` is its current boundary;
* **compare** reads the after-snapshot and, for every configured table whose checkpoint
  is not `0/0`, walks the id range in capped windows of 1000 ids followed by a final
  window up to `stopId`, runs the table's `compare` query on the source and the target
  database, pairs the rows positionally and counts the first divergence of each window,
  resynchronising the cursor past it.

The databases are oracles: `CollectDb` maps a collect query to `Option<int>` and
`CompareDb` maps a compare query (table, template, window bounds) to either a query
error or the rows it returns, each a scanned `(id, hash)` pair or an unscannable row.
The filesystem is a `Store`, a map from path to a parsed snapshot, an unreadable file or
an unparseable file. Go's random order of iteration over the configured tables is an
explicit `order` parameter that enumerates them exactly once.

Modules: `Wrappers` (`Option`, `Result`), `Collector` (the configuration, checkpoint,
query, oracle, store and error types of `config.go` and `queries.go`),
`BeforeReplication`, `AfterReplication`, `RowWalk` (the lockstep walk of one window),
`Windows` (the cursor rule and the facts it implies) and `Compare` (the per-table loop
and the run over all tables).

### Behaviour a reader might not expect

* The comment at internal/collector/collector_compare.go:70 promises that no more than
  1000 rows are compared at once, but only the capped windows keep to it: the final
  window does not move `start`. With checkpoint `{10, 2010}` and no divergence the
  queries are `[10, 1010)` and then `[10, 2010)`, not `[1010, 2010)`
  (`Windows.FinalWindowReusesStart`), so without divergences the final window spans up
  to 2000 ids and overlaps the capped window before it. Once a divergence has moved the
  cursor to `stopId` or beyond, the final window reuses the last capped start however
  far that lies from `stopId`: checkpoint `{0, 100000}` with a divergence in `[0, 1000)`
  whose target id is at least 100000 gives just two windows, the second `[0, 100000)`
  (`Windows.ResyncPastStopWidensFinalWindow`).
* For the same reason a divergence in the last capped window is inside the final window
  again (`Windows.FinalWindowRevisitsMismatch`); only the later *capped* windows are
  guaranteed to start past the diverging id (`Windows.ResyncSkipsMismatch`).
* A target lacking a row in the middle of a window shows up as an id mismatch against
  the next target row, not as a missing row; only an exhausted or unscannable target
  row is reported as missing (`RowWalk.MissingMiddleRowIsIdMismatch`).
* The target id used to resynchronise after a missing target row is stale: the scan
  state is declared once for the whole run, so it may come from an earlier window or an
  earlier table (`RowWalk.EmptyTargetKeepsStaleCid`); the model threads it through
  `Compare.Run` as explicit state. Since Go visits the tables in a random order, the
  same table with the same data can give different windows and counts from run to run:
  checkpoint `{0, 1006}`, a source answering every window with the row `idStart + 1` and
  an empty target give four windows and four issues when the scan state's target id is
  0 (`Compare.FreshCidScansFourWindows`), but two windows and two issues when an earlier
  table left it at 5000 (`Compare.StaleCidScansTwoWindows`).
* The after-phase does not skip configured tables absent from the before-file: reading
  the missing entry yields the zero value, which is written back with its new `stopId`,
  so such a table is added with `startId` 0 (`AfterReplication.SetStops`).
* Termination of the window loop needs only that the source returns ids no smaller than
  the window's start (`Compare.SourceIdsInWindow`); without it a divergence could move
  the cursor backwards and the loop could run forever.

## Model

| member | source | states |
|---|---|---|
| `BeforeReplication.CollectStarts` | internal/collector/collector_before.go:35-49 | after visiting the tables in order, exactly the visited tables are added, each with `stopId` 0 and `startId` its own boundary (the collected scalar, 0 when the query fails), so no value leaks between tables; earlier entries are untouched |
| `BeforeReplication.Run` | internal/collector/collector_before.go:28-61 | fails with "file already exists" exactly when the output path exists, and then writes nothing; otherwise succeeds, writes only the output path, and its snapshot has one entry per configured table with `stopId` 0 and `startId` the table's boundary |
| `BeforeReplication.CollectStartsIsStarted` | internal/collector/collector_before.go:35-49 | visiting the configured tables in any order that lists each exactly once builds the same snapshot, defined without an order: one entry per configured table, `{startId: its boundary, stopId: 0}` |
| `BeforeReplication.OrderIrrelevant` | internal/collector/collector_before.go:38-49 | the before-phase result is the same for every order of visiting the configured tables |
| `AfterReplication.SetStops` | internal/collector/collector_after.go:53-66 | every visited table gets `stopId` = its boundary; a visited table already present keeps its `startId`, one absent is added with `startId` 0; unvisited entries are unchanged; no other keys appear |
| `AfterReplication.Run` | internal/collector/collector_after.go:31-78 | the after-file guard ("file already exists") is checked before the before-file guard ("file is missing"); an unreadable or unparseable before-file is an error; it succeeds exactly when the after-file is absent and the before-file parses, then writes only the after-file, whose keys are the before keys plus the configured tables, with every `startId` preserved, configured `stopId`s updated and unconfigured entries copied unchanged |
| `AfterReplication.SetStopsIsStopped` | internal/collector/collector_after.go:53-66 | visiting the configured tables in any order that lists each exactly once builds the same snapshot, defined without an order: every configured table's entry (the zero checkpoint when absent) with `stopId` set to its boundary, every other entry of the before-snapshot unchanged |
| `AfterReplication.OrderIrrelevant` | internal/collector/collector_after.go:53-66 | the after-phase result is the same for every order of visiting the configured tables |
| `AfterReplication.PhasesCompose` | internal/collector/collector_after.go:53-66 | running the before-phase and then the after-phase on fresh distinct paths succeeds, leaves the before-file as written and yields exactly `{table: {boundary before, boundary after}}` for the configured tables |
| `RowWalk.Walk` | internal/collector/collector_compare.go:92-117 | the walk finds no divergence iff every source row scans and equals the target row at its position, and then consumes all source rows; otherwise it stops at the first diverging position, having consumed that row too, records its source id and hash and the target id then held (the target row's for a hash/id mismatch, the previous one's for a missing target row); a source scan error arises only at an unscannable source row preceded by agreeing rows |
| `RowWalk.TrailingTargetRowsIgnored` | internal/collector/collector_compare.go:92-94 | target rows beyond the source rows never change the walk's outcome |
| `RowWalk.MissingMiddleRowIsIdMismatch` | internal/collector/collector_compare.go:109-116 | source ids 1..5 against a target lacking id 3 yield one id mismatch at source id 3 / target id 4 after three rows |
| `RowWalk.EmptyTargetKeepsStaleCid` | internal/collector/collector_compare.go:99-107 | a missing target row is recorded with whatever target id the scan state held before |
| `Windows.CountIssues` | internal/collector/collector_compare.go:103-115 | a table's issue count never exceeds its number of windows |
| `Windows.NoIssuesMeansNoMismatch` | internal/collector/collector_compare.go:126-129 | the issue count is zero exactly when no window recorded a divergence |
| `Windows.ExtendSchedule` | internal/collector/collector_compare.go:69-124 | after a capped window the loop continues with the cursor strictly further on; the first window ending at `stopId` completes the table |
| `Windows.ScheduleShape` | internal/collector/collector_compare.go:65-77 | the first window starts at `startId`; every window but the last is taken because more than 1000 ids remain after the cursor, starts at the cursor and spans exactly 1000 ids; the last is taken because at most 1000 remain and reuses the previous window's start |
| `Windows.CappedStartsPastCursor` | internal/collector/collector_compare.go:71-113 | the cursor never moves back across the capped windows: every capped window starts at or after the cursor left by each earlier window |
| `Windows.ResyncSkipsMismatch` | internal/collector/collector_compare.go:71-113 | after a divergence, every later capped window starts strictly after the diverging source id |
| `Windows.CleanCappedPrefix` | internal/collector/collector_compare.go:71-74 | without divergences the i-th capped window is `[startId + 1000 i, startId + 1000 (i+1))` |
| `Windows.CleanScheduleTiles` | internal/collector/collector_compare.go:65-77 | without divergences the number of windows is `ceil((stopId - startId) / 1000)` for a non-empty range (one otherwise), the capped windows are consecutive and the final one reuses the last capped start and ends at `stopId` |
| `Windows.CleanScheduleCovers` | internal/collector/collector_compare.go:65-77 | without divergences every id of `[startId, stopId)` lies in some window |
| `Windows.FinalWindowReusesStart` | internal/collector/collector_compare.go:71-77 | checkpoint `{10, 2010}` without divergences issues exactly `[10, 1010)` and `[10, 2010)` |
| `Windows.ResyncPastStopWidensFinalWindow` | internal/collector/collector_compare.go:71-113 | checkpoint `{0, 100000}` with a divergence in the first window whose target id is at least 100000 issues exactly two windows, the second `[0, 100000)`, so the final window is not bounded by 2000 ids |
| `Windows.FinalWindowRevisitsMismatch` | internal/collector/collector_compare.go:71-77 | checkpoint `{0, 1500}` with a divergence at source id 600 in the first window, whatever the target id recorded with it, issues exactly two windows, the final one `[0, 1500)`, which contains id 600 again |
| `Compare.ScanTable` | internal/collector/collector_compare.go:65-124 | on success the windows follow the cursor rule and end at the first window reaching `stopId`, each window is the walk of what both databases answer for its query (from the target id the previous window left, the first from the one the table started with), every divergence lies at or after its window's start, with the cursor past it, and the counters are the table's own issue and row totals; a failure comes after a prefix of capped windows with those same properties, and is the query the cursor rule issues next failing on the source, failing on the target after the source answered, or returning an unscannable source row ahead of any divergence; with infrastructure that never fails the scan succeeds, whatever the target rows are |
| `Compare.ScanWindow` | internal/collector/collector_compare.go:69-117 | one loop iteration issues the window the cursor rule prescribes from the previous window's start and the cursor; on success the window is the walk of both databases' answers to its query from the held target id, and a divergence lies at or after the window's start and moves the cursor to its resync point; a failure is that query failing on the source, on the target after the source answered, or an unscannable source row ahead of any divergence; with infrastructure that never fails it succeeds |
| `Compare.FreshCidScansFourWindows` | internal/collector/collector_compare.go:49-113 | checkpoint `{0, 1006}`, a source answering each window with the row `idStart + 1` and an empty target, walked from target id 0, allow exactly the windows `[0, 1000)`, `[2, 1002)`, `[4, 1004)` and `[4, 1006)`, each with a missing target row |
| `Compare.StaleCidScansTwoWindows` | internal/collector/collector_compare.go:49-113 | the same table and data walked from target id 5000 allow exactly the windows `[0, 1000)` and `[0, 1006)`, each with a missing target row recorded against target id 5000 |
| `Compare.FreshCidWindowsCount` | internal/collector/collector_compare.go:103-113 | the four windows from target id 0 count four issues |
| `Compare.StaleCidWindowsCount` | internal/collector/collector_compare.go:103-113 | the two windows from target id 5000 count two issues |
| `Compare.Run` | internal/collector/collector_compare.go:32-135 | a missing, unreadable or unparseable after-file is reported as such; on a parsed after-file, a success is one report per configured table in visiting order, tied to the databases and to the carried target id as `Compare.CompareTables` states; a failure happens at a table with activity after every earlier table was reported, and is the next query that table's cursor issues failing; with infrastructure that never fails the run succeeds |
| `Compare.CompareTables` | internal/collector/collector_compare.go:48-132 | on success there is one report per configured table, in visiting order, which is "skipped" exactly when the table's checkpoint (zero when absent from the snapshot) is `0/0` and otherwise that table's schedule of windows, each the walk of what both databases answered for its query, with the table's issue and row counts; the first window of a compared table is walked from the target id the previously compared table left (0 for the first compared table); a divergent table never stops the loop; a failure happens at a table with activity, after every earlier table was reported as above, and is that table's comparison failing at the next query its cursor issues (as `Compare.ScanTable` states); with infrastructure that never fails the loop succeeds |
| `Compare.CompareTable` | internal/collector/collector_compare.go:55-131 | one iteration of the loop over the tables: a table whose checkpoint (zero when absent) is `0/0` is skipped and leaves the carried target id unchanged; any other table is compared from the target id the earlier tables left, its report is tied to both databases' answers, and the target id carried on is the one its last window left; a failure happens only at a table with activity, as `Compare.ScanTable` states; with infrastructure that never fails it succeeds |

## Left out

- JSON encoding and decoding, `MkdirAll`, file mode 0600: the store maps a path directly to a parsed snapshot, an unreadable file or an unparseable file, and writes are assumed to succeed (the Go code can also fail in `MkdirAll` or `WriteFile`).
- A before-file whose JSON is `null` decodes to a nil map in Go, and the after-phase would then panic on the first assignment; the store has no such value.
- `os.Stat` errors other than "does not exist": a path is either present in the store or absent.
- Logging, `defer`/`Close` of the result cursors and context cancellation: no stated behaviour beyond resource use. Divergences are returned as `Mismatch` values instead of log lines.
- The text of the queries (`fmt.Sprintf` over the templates) and `cmd/pg-upgrade-data-check/main.go` (flags, YAML loading, connections): queries are opaque values passed to the oracles.
- `math.Max` through `float64` is modelled as integer maximum, exact for ids below 2^53; Go's 64-bit `int` overflow of `start + 1000` is not modelled (ids are unbounded).
- A failed target `Scan` is assumed to leave the scan state's target id unchanged.
- The ascending order of the compare query's rows is not required: the walk is positional and nothing in the model depends on it.
- Idempotence of the comparison is not stated, because it does not hold: each table's windows and issue count depend on the target id left by the table compared before it, and Go visits the tables in a random order (`Compare.FreshCidScansFourWindows` against `Compare.StaleCidScansTwoWindows`).
