/** The before-replication phase: record every configured table's starting boundary
    in a fresh snapshot file. */
module BeforeReplication {
  import opened Wrappers
  import opened Collector

  /** The loop over the configured tables, visiting them in `order` and adding one
      `{startId: boundary, stopId: 0}` entry per table to `acc`. Each table's
      boundary is collected afresh, so a failing table records 0 and never sees the
      value collected for the table before it. */
  function CollectStarts(cfg: Config, db: CollectDb, acc: SnapshotMap, order: seq<string>): (m: SnapshotMap)
    requires forall i :: 0 <= i < |order| ==> order[i] in cfg.tables
    ensures forall t :: t in m <==> t in acc || t in order
    ensures forall t :: t in order ==> m[t] == CollectResult(Boundary(db, t, cfg.tables[t]), 0)
    ensures forall t :: t in acc && t !in order ==> m[t] == acc[t]
    decreases |order|
  {
    if |order| == 0 then acc
    else
      var t := order[0];
      var result := Boundary(db, t, cfg.tables[t]);
      CollectStarts(cfg, db, acc[t := CollectResult(result, 0)], order[1..])
  }

  /** `BeforeReplication.Run`: refuse to overwrite an existing snapshot, otherwise
      write the freshly collected snapshot to `beforeOut` and touch nothing else. */
  function Run(cfg: Config, order: seq<string>, db: CollectDb, store: Store, beforeOut: string): (r: Result<Store, Error>)
    requires EnumeratesTables(cfg, order)
    ensures beforeOut in store <==> r.Failure?
    ensures r.Failure? ==> r.error == FileExists(beforeOut)
    ensures r.Success? ==> WritesOnly(store, r.value, beforeOut) && r.value[beforeOut].Snapshot?
    ensures r.Success? ==> r.value[beforeOut].entries.Keys == cfg.tables.Keys
    ensures r.Success? ==> forall t :: t in r.value[beforeOut].entries ==>
      && r.value[beforeOut].entries[t].stopId == 0
      && r.value[beforeOut].entries[t].startId == Boundary(db, t, cfg.tables[t])
  {
    if beforeOut in store then Failure(FileExists(beforeOut))
    else Success(store[beforeOut := Snapshot(CollectStarts(cfg, db, map[], order))])
  }

  /** The collected snapshot, defined without a visiting order: one entry per configured
      table, its boundary as `startId` and 0 as `stopId`. */
  function Started(cfg: Config, db: CollectDb): SnapshotMap {
    map t | t in cfg.tables :: CollectResult(Boundary(db, t, cfg.tables[t]), 0)
  }

  /** One key of the collected snapshot agrees with `Started`. */
  lemma CollectStartsEntry(cfg: Config, db: CollectDb, order: seq<string>, t: string)
    requires EnumeratesTables(cfg, order)
    requires t in CollectStarts(cfg, db, map[], order)
    ensures t in Started(cfg, db) && CollectStarts(cfg, db, map[], order)[t] == Started(cfg, db)[t]
  {
    assert t in order;
  }

  /** The collected snapshot and `Started` have the same tables. */
  lemma CollectStartsKeys(cfg: Config, db: CollectDb, order: seq<string>)
    requires EnumeratesTables(cfg, order)
    ensures CollectStarts(cfg, db, map[], order).Keys == Started(cfg, db).Keys
  {
  }

  /** Visiting the configured tables in any order that enumerates them builds `Started`. */
  lemma CollectStartsIsStarted(cfg: Config, db: CollectDb, order: seq<string>)
    requires EnumeratesTables(cfg, order)
    ensures CollectStarts(cfg, db, map[], order) == Started(cfg, db)
  {
    var m := CollectStarts(cfg, db, map[], order);
    var e := Started(cfg, db);
    CollectStartsKeys(cfg, db, order);
    forall t | t in m ensures m[t] == e[t] {
      CollectStartsEntry(cfg, db, order, t);
    }
  }

  /** Go visits the configured tables in an unspecified order; the snapshot written
      does not depend on it. */
  lemma OrderIrrelevant(cfg: Config, o1: seq<string>, o2: seq<string>, db: CollectDb, store: Store, beforeOut: string)
    requires EnumeratesTables(cfg, o1) && EnumeratesTables(cfg, o2)
    ensures Run(cfg, o1, db, store, beforeOut) == Run(cfg, o2, db, store, beforeOut)
  {
    CollectStartsIsStarted(cfg, db, o1);
    CollectStartsIsStarted(cfg, db, o2);
  }
}
