/** The comparison phase: for every configured table with recorded activity, walk its
    checkpoint range window by window against the source and target databases. */
module Compare {
  import opened Wrappers
  import opened Collector
  import opened RowWalk
  import opened Windows

  /** One table's comparison: the windows issued and the per-table issue and row
      counters, plus the scan state's target id carried on to the next table. */
  datatype TableScan = TableScan(windows: seq<WindowScan>, issues: nat, rows: nat, cid: int)

  /** What the comparison reports for one table; `cidIn` is the scan state's target id
      the table's comparison started from. */
  datatype TableReport =
    | Skipped(table: string)
    | Compared(table: string, windows: seq<WindowScan>, issues: nat, rows: nat, cidIn: int)

  /** The compare query's contract on the source database: every row it returns for a
      window has an id no smaller than the window's start. */
  ghost predicate IdsFrom(res: QueryResult, lo: int) {
    res.Rows? ==> forall k :: 0 <= k < |res.rows| && res.rows[k].Row? ==> res.rows[k].id >= lo
  }

  ghost predicate SourceIdsInWindow(src: CompareDb) {
    forall q :: IdsFrom(src(q), q.idStart)
  }

  ghost predicate AllScannable(rows: seq<ScanRow>) {
    forall k :: 0 <= k < |rows| ==> rows[k].Row?
  }

  /** Infrastructure that never fails: every query succeeds on both sides and every
      source row scans. Target rows may still be missing or unscannable. */
  ghost predicate Reliable(src: CompareDb, tgt: CompareDb) {
    forall q :: src(q).Rows? && tgt(q).Rows? && AllScannable(src(q).rows)
  }

  /** Window `w` is what the databases answer for its query, walked from target id `cid`. */
  ghost predicate WindowObserved(table: string, spec: TablesConfig, src: CompareDb, tgt: CompareDb, cid: int, w: WindowScan) {
    var q := PrepareCompareQuery(table, spec, w.start, w.stop);
    && src(q).Rows? && tgt(q).Rows?
    && Walk(src(q).rows, tgt(q).rows, cid) == Walked(w.rows, w.mismatch, w.cid)
  }

  /** Every window is observed, each starting from the target id the previous one left. */
  ghost predicate Observed(table: string, spec: TablesConfig, src: CompareDb, tgt: CompareDb, cidIn: int, ws: seq<WindowScan>) {
    && (|ws| > 0 ==> WindowObserved(table, spec, src, tgt, cidIn, ws[0]))
    && (forall i :: 0 < i < |ws| ==> WindowObserved(table, spec, src, tgt, ws[i - 1].cid, ws[i]))
  }

  lemma ExtendObserved(table: string, spec: TablesConfig, src: CompareDb, tgt: CompareDb, cidIn: int, ws: seq<WindowScan>, w: WindowScan)
    requires Observed(table, spec, src, tgt, cidIn, ws)
    requires WindowObserved(table, spec, src, tgt, LastCid(cidIn, ws), w)
    ensures Observed(table, spec, src, tgt, cidIn, ws + [w])
  {
  }

  /** The scan state's target id after the windows `ws`, starting from `cidIn`. */
  function LastCid(cidIn: int, ws: seq<WindowScan>): int {
    if |ws| == 0 then cidIn else ws[|ws| - 1].cid
  }

  /** The compare query of the window the cursor rule issues from the previous window's
      start and the cursor. */
  function NextQuery(table: string, spec: TablesConfig, stopId: int, prevStart: int, prevNext: int): CompareQuery {
    PrepareCompareQuery(table, spec, NextStart(stopId, prevStart, prevNext), NextStop(stopId, prevNext))
  }

  /** What the per-table loop has established while it keeps going: the windows issued
      so far are capped and chained, each divergence lies at or after its window's start
      with the cursor past it, and each window is what the databases answered. */
  ghost predicate ScannedSoFar(table: string, spec: TablesConfig, cp: CollectResult, src: CompareDb, tgt: CompareDb, cidIn: int, ws: seq<WindowScan>) {
    && CappedPrefix(cp, ws)
    && ResyncsForward(ws)
    && Observed(table, spec, src, tgt, cidIn, ws)
  }

  /** The compare query `q` fails with `err`: it failed on the source, failed on the
      target after succeeding on the source, or returned a source row that cannot be
      scanned ahead of any divergence when walked from target id `cid`. */
  ghost predicate QueryFails(src: CompareDb, tgt: CompareDb, cid: int, q: CompareQuery, err: Error) {
    && (err.QueryFailed? || err.SourceScanFailed?)
    && err.query == q
    && (err.QueryFailed? ==> src(q).QueryError? || (src(q).Rows? && tgt(q).QueryError?))
    && (err.SourceScanFailed? ==>
          && src(q).Rows? && tgt(q).Rows?
          && Walk(src(q).rows, tgt(q).rows, cid).SourceScanBroken?)
  }

  /** The comparison of a table fails with `err` after completing the windows `ws`: the
      error belongs to the next query the cursor rule issues. */
  ghost predicate FailsAfter(table: string, spec: TablesConfig, cp: CollectResult, src: CompareDb, tgt: CompareDb,
                             cidIn: int, ws: seq<WindowScan>, err: Error) {
    && ScannedSoFar(table, spec, cp, src, tgt, cidIn, ws)
    && QueryFails(src, tgt, LastCid(cidIn, ws),
                  NextQuery(table, spec, cp.stopId, LastStart(cp, ws), LastNext(cp, ws)), err)
  }

  /** One loop iteration's window appended to what the loop has established. */
  lemma ExtendScan(table: string, spec: TablesConfig, cp: CollectResult, src: CompareDb, tgt: CompareDb,
                   cidIn: int, ws: seq<WindowScan>, w: WindowScan)
    requires ScannedSoFar(table, spec, cp, src, tgt, cidIn, ws)
    requires Follows(cp.stopId, LastStart(cp, ws), LastNext(cp, ws), w)
    requires WindowObserved(table, spec, src, tgt, LastCid(cidIn, ws), w)
    requires w.mismatch.Some? ==> w.start <= w.mismatch.value.sid
    ensures w.stop != cp.stopId ==>
      ScannedSoFar(table, spec, cp, src, tgt, cidIn, ws + [w]) && LastNext(cp, ws) < w.next
    ensures w.stop == cp.stopId ==>
      && Schedule(cp, ws + [w]) && ResyncsForward(ws + [w])
      && Observed(table, spec, src, tgt, cidIn, ws + [w])
    ensures CountIssues(ws + [w]) == CountIssues(ws) + (if w.mismatch.Some? then 1 else 0)
    ensures CountRows(ws + [w]) == CountRows(ws) + w.rows
  {
    ExtendSchedule(cp, ws, w);
    ExtendObserved(table, spec, src, tgt, cidIn, ws, w);
    CountsExtend(ws, w);
  }

  /** One iteration of the per-table loop, from the previous window's start, the cursor
      and the scan state's target id: the window's bounds, both databases' answers to its
      query, and the row walk. A divergence moves the cursor to its resync point. */
  method ScanWindow(table: string, spec: TablesConfig, stopId: int, src: CompareDb, tgt: CompareDb,
                    start: int, nextStart: int, cid: int)
    returns (r: Result<WindowScan, Error>)
    requires SourceIdsInWindow(src)
    ensures r.Success? ==>
      && Follows(stopId, start, nextStart, r.value)
      && WindowObserved(table, spec, src, tgt, cid, r.value)
      && (r.value.mismatch.Some? ==> r.value.start <= r.value.mismatch.value.sid)
    ensures r.Failure? ==> QueryFails(src, tgt, cid, NextQuery(table, spec, stopId, start, nextStart), r.error)
    ensures Reliable(src, tgt) ==> r.Success?
  {
    var wstart := start;
    var next := nextStart;
    var stop;
    if Capped(stopId, nextStart) {
      wstart := nextStart;
      next := wstart + WindowSize;
      stop := wstart + WindowSize;
    } else {
      stop := stopId;
    }
    var q := PrepareCompareQuery(table, spec, wstart, stop);
    var sres := src(q);
    if sres.QueryError? {
      return Failure(QueryFailed(q));
    }
    var tres := tgt(q);
    if tres.QueryError? {
      return Failure(QueryFailed(q));
    }
    var walk := Walk(sres.rows, tres.rows, cid);
    if walk.SourceScanBroken? {
      assert !AllScannable(sres.rows);
      return Failure(SourceScanFailed(q));
    }
    if walk.mismatch.Some? {
      next := Resync(walk.mismatch.value);
      assert IdsFrom(src(q), q.idStart);
    }
    return Success(WindowScan(wstart, stop, walk.rows, walk.mismatch, next, walk.cid));
  }

  /** The per-table body of `Compare.Run`, from the checkpoint `cp` and the scan state's
      target id `cidIn`. Query errors and source scan errors abort; divergences are
      counted, at most one per window, and resynchronise the cursor. */
  method ScanTable(table: string, spec: TablesConfig, cp: CollectResult, src: CompareDb, tgt: CompareDb, cidIn: int)
    returns (r: Result<TableScan, Error>)
    requires SourceIdsInWindow(src)
    ensures r.Success? ==>
      var ws := r.value.windows;
      && Schedule(cp, ws)
      && Observed(table, spec, src, tgt, cidIn, ws)
      && r.value.issues == CountIssues(ws)
      && r.value.rows == CountRows(ws)
      && r.value.cid == ws[|ws| - 1].cid
      && ResyncsForward(ws)
    ensures r.Failure? ==> exists ws :: FailsAfter(table, spec, cp, src, tgt, cidIn, ws, r.error)
    ensures Reliable(src, tgt) ==> r.Success?
  {
    var start := cp.startId;
    var nextStart := start;
    var cid := cidIn;
    var issues := 0;
    var rows := 0;
    var ws: seq<WindowScan> := [];
    while true
      invariant ScannedSoFar(table, spec, cp, src, tgt, cidIn, ws)
      invariant start == LastStart(cp, ws) && nextStart == LastNext(cp, ws) && cid == LastCid(cidIn, ws)
      invariant issues == CountIssues(ws) && rows == CountRows(ws)
      decreases cp.stopId - nextStart
    {
      var wr := ScanWindow(table, spec, cp.stopId, src, tgt, start, nextStart, cid);
      if wr.Failure? {
        assert FailsAfter(table, spec, cp, src, tgt, cidIn, ws, wr.error);
        return Failure(wr.error);
      }
      var w := wr.value;
      ExtendScan(table, spec, cp, src, tgt, cidIn, ws, w);
      ws := ws + [w];
      start, nextStart, cid := w.start, w.next, w.cid;
      rows := rows + w.rows;
      if w.mismatch.Some? {
        issues := issues + 1;
      }
      if w.stop == cp.stopId {
        break;
      }
    }
    return Success(TableScan(ws, issues, rows, cid));
  }

  /** A source answering every window with the single row `idStart + 1`. */
  function OneRowAfterStart(q: CompareQuery): QueryResult {
    Rows([Row(q.idStart + 1, "h")])
  }

  /** A target answering every window with no rows. */
  function EmptyTarget(q: CompareQuery): QueryResult {
    Rows([])
  }

  /** The windows of checkpoint `{0, 1006}` against an empty target from target id 0:
      each missing row resyncs the cursor just past it, until the final window
      `[4, 1006)` reuses the last capped start. */
  function FreshCidWindows(): seq<WindowScan> {
    [ WindowScan(0, 1000, 1, Some(MissingInTarget(1, "h", 0)), 2, 0),
      WindowScan(2, 1002, 1, Some(MissingInTarget(3, "h", 0)), 4, 0),
      WindowScan(4, 1004, 1, Some(MissingInTarget(5, "h", 0)), 6, 0),
      WindowScan(4, 1006, 1, Some(MissingInTarget(5, "h", 0)), 6, 0) ]
  }

  /** The same checkpoint and data from target id 5000, left by an earlier table: the
      first missing row resyncs the cursor past `stopId`, so the final window spans the
      whole range again. */
  function StaleCidWindows(): seq<WindowScan> {
    [ WindowScan(0, 1000, 1, Some(MissingInTarget(1, "h", 5000)), 5001, 5000),
      WindowScan(0, 1006, 1, Some(MissingInTarget(1, "h", 5000)), 5001, 5000) ]
  }

  /** Four windows, each recording a divergence, against two from target id 5000. */
  lemma FreshCidWindowsCount()
    ensures |FreshCidWindows()| == 4 && CountIssues(FreshCidWindows()) == 4
  {
    var f := FreshCidWindows();
    assert f[..3][..2] == f[..2] && f[..2][..1] == f[..1] && f[..1][..0] == [];
    assert CountIssues(f[..1]) == 1;
    assert CountIssues(f[..2]) == 2;
    assert CountIssues(f[..3]) == 3;
  }

  lemma StaleCidWindowsCount()
    ensures |StaleCidWindows()| == 2 && CountIssues(StaleCidWindows()) == 2
  {
    var f := StaleCidWindows();
    assert f[..1][..0] == [];
    assert CountIssues(f[..1]) == 1;
  }

  /** From target id 0, the only schedule the databases allow for checkpoint
      `{0, 1006}` is the four windows above, each recording one issue. */
  lemma FreshCidScansFourWindows(table: string, spec: TablesConfig, ws: seq<WindowScan>)
    requires Schedule(CollectResult(0, 1006), ws)
    requires Observed(table, spec, OneRowAfterStart, EmptyTarget, 0, ws)
    ensures ws == FreshCidWindows()
  {
    assert Follows(1006, 0, 0, ws[0]);
    assert |ws| > 1;
    assert Follows(1006, ws[0].start, ws[0].next, ws[1]);
    assert |ws| > 2;
    assert Follows(1006, ws[1].start, ws[1].next, ws[2]);
    assert |ws| > 3;
    assert Follows(1006, ws[2].start, ws[2].next, ws[3]);
  }

  /** From target id 5000, the same table and data allow only the two windows above. */
  lemma StaleCidScansTwoWindows(table: string, spec: TablesConfig, ws: seq<WindowScan>)
    requires Schedule(CollectResult(0, 1006), ws)
    requires Observed(table, spec, OneRowAfterStart, EmptyTarget, 5000, ws)
    ensures ws == StaleCidWindows()
  {
    assert Follows(1006, 0, 0, ws[0]);
    assert |ws| > 1;
    assert Follows(1006, ws[0].start, ws[0].next, ws[1]);
  }

  /** The scan state's target id after the reports: the one the last compared table
      left, or Go's zero value when no table has been compared yet. */
  function CidAfter(reports: seq<TableReport>): int {
    if |reports| == 0 then 0
    else
      var last := reports[|reports| - 1];
      if last.Compared? && |last.windows| > 0 then last.windows[|last.windows| - 1].cid
      else CidAfter(reports[..|reports| - 1])
  }

  /** What one table's report says about that table's checkpoint `cp` and the databases:
      skipped exactly when the checkpoint shows no activity, otherwise the windows of the
      cursor rule, each what both databases answered when walked from the target id the
      table started from, with the table's own counters. */
  ghost predicate Reported(spec: TablesConfig, src: CompareDb, tgt: CompareDb, cp: CollectResult, report: TableReport) {
    && (report.Skipped? <==> NoActivity(cp))
    && (report.Compared? ==>
          && Schedule(cp, report.windows)
          && ResyncsForward(report.windows)
          && Observed(report.table, spec, src, tgt, report.cidIn, report.windows)
          && report.issues == CountIssues(report.windows)
          && report.rows == CountRows(report.windows))
  }

  /** The reports of the first `|reports|` tables of `order`: each names its table, says
      what `Reported` says about it, and a compared table started from the target id the
      previously compared table left (0 for the first). */
  ghost predicate ReportsAgree(cfg: Config, src: CompareDb, tgt: CompareDb, cr: SnapshotMap,
                               order: seq<string>, reports: seq<TableReport>) {
    && |reports| <= |order|
    && (forall i :: 0 <= i < |order| ==> order[i] in cfg.tables)
    && forall j :: 0 <= j < |reports| ==> ReportFits(cfg, src, tgt, cr, order[j], reports[j], reports[..j])
  }

  /** `report` is the report of `table`, compared after the reports `earlier`. */
  ghost predicate ReportFits(cfg: Config, src: CompareDb, tgt: CompareDb, cr: SnapshotMap,
                             table: string, report: TableReport, earlier: seq<TableReport>) {
    && table in cfg.tables
    && report.table == table
    && Reported(cfg.tables[table], src, tgt, Lookup(cr, table), report)
    && (report.Compared? ==> report.cidIn == CidAfter(earlier))
  }

  lemma ExtendReports(cfg: Config, src: CompareDb, tgt: CompareDb, cr: SnapshotMap,
                      order: seq<string>, reports: seq<TableReport>, report: TableReport)
    requires ReportsAgree(cfg, src, tgt, cr, order, reports) && |reports| < |order|
    requires ReportFits(cfg, src, tgt, cr, order[|reports|], report, reports)
    ensures ReportsAgree(cfg, src, tgt, cr, order, reports + [report])
  {
    var rs := reports + [report];
    assert rs[..|reports|] == reports;
    forall j | 0 <= j < |reports| ensures rs[..j] == reports[..j] && rs[j] == reports[j] {
    }
  }

  /** A successful scan of an active table, started from the target id the earlier
      reports left, is that table's report. */
  lemma ScanFits(cfg: Config, src: CompareDb, tgt: CompareDb, cr: SnapshotMap,
                 table: string, earlier: seq<TableReport>, scan: TableScan)
    requires table in cfg.tables && !NoActivity(Lookup(cr, table))
    requires Schedule(Lookup(cr, table), scan.windows) && ResyncsForward(scan.windows)
    requires Observed(table, cfg.tables[table], src, tgt, CidAfter(earlier), scan.windows)
    requires scan.issues == CountIssues(scan.windows) && scan.rows == CountRows(scan.windows)
    ensures ReportFits(cfg, src, tgt, cr, table, Compared(table, scan.windows, scan.issues, scan.rows, CidAfter(earlier)), earlier)
  {
  }

  /** The run fails with `err` at the table after the reports `done`: the tables before it
      were reported as `ReportsAgree` says, the table itself has activity, and its
      comparison, started from the target id `done` left, fails with `err`. */
  ghost predicate FailsAtTable(cfg: Config, src: CompareDb, tgt: CompareDb, cr: SnapshotMap,
                               order: seq<string>, done: seq<TableReport>, err: Error) {
    && |done| < |order|
    && ReportsAgree(cfg, src, tgt, cr, order, done)
    && var table := order[|done|];
       && !NoActivity(Lookup(cr, table))
       && exists ws :: FailsAfter(table, cfg.tables[table], Lookup(cr, table), src, tgt, CidAfter(done), ws, err)
  }

  /** One iteration of the loop of `Compare.Run`, for `table` after the reports
      `earlier`, from the scan state's target id `cid` they left: skip the table when its
      checkpoint (the zero value when absent) shows no activity, otherwise compare it.
      Also returns the target id carried on to the next table. */
  method CompareTable(cfg: Config, src: CompareDb, tgt: CompareDb, cr: SnapshotMap, table: string,
                      cid: int, ghost earlier: seq<TableReport>)
    returns (r: Result<TableReport, Error>, cidOut: int)
    requires table in cfg.tables && SourceIdsInWindow(src)
    requires cid == CidAfter(earlier)
    ensures r.Success? ==>
      ReportFits(cfg, src, tgt, cr, table, r.value, earlier) && cidOut == CidAfter(earlier + [r.value])
    ensures r.Failure? ==>
      && !NoActivity(Lookup(cr, table))
      && exists ws :: FailsAfter(table, cfg.tables[table], Lookup(cr, table), src, tgt, cid, ws, r.error)
    ensures Reliable(src, tgt) ==> r.Success?
  {
    var cp := Lookup(cr, table);
    if cp.startId == 0 && cp.stopId == 0 {
      assert (earlier + [Skipped(table)])[..|earlier|] == earlier;
      return Success(Skipped(table)), cid;
    }
    var scan := ScanTable(table, cfg.tables[table], cp, src, tgt, cid);
    if scan.Failure? {
      return Failure(scan.error), cid;
    }
    ScanFits(cfg, src, tgt, cr, table, earlier, scan.value);
    return Success(Compared(table, scan.value.windows, scan.value.issues, scan.value.rows, cid)), scan.value.cid;
  }

  /** The loop of `Compare.Run` over the configured tables in `order`, on the parsed
      after-snapshot `cr`, carrying the scan state's target id from table to table,
      Go's zero value at the start. The first failing table aborts the loop. */
  method CompareTables(cfg: Config, order: seq<string>, src: CompareDb, tgt: CompareDb, cr: SnapshotMap)
    returns (r: Result<seq<TableReport>, Error>)
    requires EnumeratesTables(cfg, order)
    requires SourceIdsInWindow(src)
    ensures r.Success? ==> |r.value| == |order| && ReportsAgree(cfg, src, tgt, cr, order, r.value)
    ensures r.Failure? ==> exists done :: FailsAtTable(cfg, src, tgt, cr, order, done, r.error)
    ensures Reliable(src, tgt) ==> r.Success?
  {
    var cid := 0;
    var reports: seq<TableReport> := [];
    var i := 0;
    while i < |order|
      invariant 0 <= i <= |order| && |reports| == i
      invariant ReportsAgree(cfg, src, tgt, cr, order, reports)
      invariant cid == CidAfter(reports)
    {
      var report, next := CompareTable(cfg, src, tgt, cr, order[i], cid, reports);
      if report.Failure? {
        assert FailsAtTable(cfg, src, tgt, cr, order, reports, report.error);
        return Failure(report.error);
      }
      ExtendReports(cfg, src, tgt, cr, order, reports, report.value);
      reports := reports + [report.value];
      cid := next;
      i := i + 1;
    }
    return Success(reports);
  }

  /** `Compare.Run`: read and parse the after-snapshot, then compare the configured
      tables in `order`. */
  method Run(cfg: Config, order: seq<string>, src: CompareDb, tgt: CompareDb, store: Store, afterFile: string)
    returns (r: Result<seq<TableReport>, Error>)
    requires EnumeratesTables(cfg, order)
    requires SourceIdsInWindow(src)
    ensures afterFile !in store ==> r == Failure(FileMissing(afterFile))
    ensures afterFile in store && store[afterFile].Unreadable? ==> r == Failure(ReadFailed(afterFile))
    ensures afterFile in store && store[afterFile].Unparseable? ==> r == Failure(UnmarshalFailed(afterFile))
    ensures r.Success? ==>
      && afterFile in store && store[afterFile].Snapshot?
      && |r.value| == |order|
      && ReportsAgree(cfg, src, tgt, store[afterFile].entries, order, r.value)
    ensures afterFile in store && store[afterFile].Snapshot? && r.Failure? ==>
      exists done :: FailsAtTable(cfg, src, tgt, store[afterFile].entries, order, done, r.error)
    ensures afterFile in store && store[afterFile].Snapshot? && Reliable(src, tgt) ==> r.Success?
  {
    if afterFile !in store {
      return Failure(FileMissing(afterFile));
    }
    match store[afterFile]
    case Unreadable =>
      return Failure(ReadFailed(afterFile));
    case Unparseable =>
      return Failure(UnmarshalFailed(afterFile));
    case Snapshot(cr) =>
      r := CompareTables(cfg, order, src, tgt, cr);
  }
}
