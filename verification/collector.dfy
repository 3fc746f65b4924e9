/** The shared vocabulary of the collector package: the configuration read from YAML,
    the per-table checkpoint persisted between phases, the queries built from the
    configuration, and the abstract database and filesystem the phases run against. */
module Collector {
  import opened Wrappers

  /** Per-table query templates: `collect` yields one scalar boundary id,
      `compare` yields `(id, hash)` rows for an id window. */
  datatype TablesConfig = TablesConfig(collect: string, compare: string)

  /** The loaded configuration, keyed by table name. */
  datatype Config = Config(tables: map<string, TablesConfig>)

  /** A table's checkpoint: `startId` is set by the before-phase, `stopId` by the after-phase. */
  datatype CollectResult = CollectResult(startId: int, stopId: int)

  /** The unit of persistence: one checkpoint per table name. */
  type SnapshotMap = map<string, CollectResult>

  /** Go's zero value for a checkpoint, which is what indexing a map at a missing key yields. */
  const ZeroCheckpoint := CollectResult(0, 0)

  /** Indexing a snapshot with Go's map semantics: a missing table reads as the zero value. */
  function Lookup(m: SnapshotMap, table: string): CollectResult {
    if table in m then m[table] else ZeroCheckpoint
  }

  /** A checkpoint with both boundaries zero marks a table with no recorded activity. */
  predicate NoActivity(cp: CollectResult) {
    cp.startId == 0 && cp.stopId == 0
  }

  /** The collect query: the table's template with the table name substituted. */
  datatype CollectQuery = CollectQuery(table: string, template: string)

  /** The compare query: the table's template with the table name (twice) and the
      window bounds `[idStart, idStop)` substituted. */
  datatype CompareQuery = CompareQuery(table: string, template: string, idStart: int, idStop: int)

  function PrepareCollectQuery(table: string, spec: TablesConfig): CollectQuery {
    CollectQuery(table, spec.collect)
  }

  function PrepareCompareQuery(table: string, spec: TablesConfig, idStart: int, idStop: int): CompareQuery {
    CompareQuery(table, spec.compare, idStart, idStop)
  }

  /** The source database answering collect queries: `Some(v)` when `QueryRow(...).Scan`
      produced the integer `v`, `None` when the query failed or returned no usable row. */
  type CollectDb = CollectQuery -> Option<int>

  /** One row of a compare result, as `Scan(&id, &hash)` sees it: either an `(id, hash)`
      pair or a row that cannot be scanned (for instance a NULL column). */
  datatype ScanRow = Row(id: int, hash: string) | Unscannable

  /** The outcome of running a compare query: the ordered rows, or a query error. */
  datatype QueryResult = Rows(rows: seq<ScanRow>) | QueryError

  /** A database connection answering compare queries. */
  type CompareDb = CompareQuery -> QueryResult

  /** The boundary a phase records for a table: the collected scalar, or 0 when the
      query or its scan failed. */
  function Boundary(db: CollectDb, table: string, spec: TablesConfig): int {
    db(PrepareCollectQuery(table, spec)).GetOr(0)
  }

  /** What a snapshot path holds: a parsed snapshot, a file that cannot be read, or a
      file whose contents are not a snapshot document. */
  datatype File = Snapshot(entries: SnapshotMap) | Unreadable | Unparseable

  /** The filesystem as seen by the phases: paths that exist, with their contents. */
  type Store = map<string, File>

  /** The errors a phase returns to its caller. */
  datatype Error =
    | FileExists(path: string)
    | FileMissing(path: string)
    | ReadFailed(path: string)
    | UnmarshalFailed(path: string)
    | QueryFailed(query: CompareQuery)
    | SourceScanFailed(query: CompareQuery)

  /** `order` is one iteration of Go's `range` over the configured tables: every
      configured table exactly once, and nothing else. */
  ghost predicate EnumeratesTables(cfg: Config, order: seq<string>) {
    && (forall i :: 0 <= i < |order| ==> order[i] in cfg.tables)
    && (forall t :: t in cfg.tables ==> t in order)
    && (forall i, j :: 0 <= i < j < |order| ==> order[i] != order[j])
  }

  /** `after` differs from `before` at most at `path`, which exists afterwards. */
  ghost predicate WritesOnly(before: Store, after: Store, path: string) {
    && path in after
    && (forall p :: p != path ==> (p in after <==> p in before))
    && (forall p :: p != path && p in before ==> after[p] == before[p])
  }
}
