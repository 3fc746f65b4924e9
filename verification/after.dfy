/** The after-replication phase: copy the before-snapshot with every configured
    table's `stopId` set to its current boundary, into a fresh snapshot file. */
module AfterReplication {
  import opened Wrappers
  import opened Collector
  import BeforeReplication

  /** The loop over the configured tables: read each table's entry (the zero value when
      the table is absent), overwrite its `stopId` with the collected boundary and store
      it back. Only `stopId` changes; an absent configured table is thereby added with
      `startId` 0. */
  function SetStops(cfg: Config, db: CollectDb, acc: SnapshotMap, order: seq<string>): (m: SnapshotMap)
    requires forall i :: 0 <= i < |order| ==> order[i] in cfg.tables
    ensures forall t :: t in m <==> t in acc || t in order
    ensures forall t :: t in order ==> m[t].stopId == Boundary(db, t, cfg.tables[t])
    ensures forall t :: t in order && t in acc ==> m[t].startId == acc[t].startId
    ensures forall t :: t in order && t !in acc ==> m[t].startId == 0
    ensures forall t :: t in acc && t !in order ==> m[t] == acc[t]
    decreases |order|
  {
    if |order| == 0 then acc
    else
      var t := order[0];
      var result := Boundary(db, t, cfg.tables[t]);
      var item := Lookup(acc, t);
      SetStops(cfg, db, acc[t := item.(stopId := result)], order[1..])
  }

  /** `AfterReplication.Run`: two guards in a fixed order (the after-file must not exist,
      then the before-file must), then read and parse the before-file, update it and
      write it to `afterOut`, touching nothing else. */
  function Run(cfg: Config, order: seq<string>, db: CollectDb, store: Store, beforeOut: string, afterOut: string): (r: Result<Store, Error>)
    requires EnumeratesTables(cfg, order)
    ensures afterOut in store ==> r == Failure(FileExists(afterOut))
    ensures afterOut !in store && beforeOut !in store ==> r == Failure(FileMissing(beforeOut))
    ensures afterOut !in store && beforeOut in store && store[beforeOut].Unreadable? ==>
      r == Failure(ReadFailed(beforeOut))
    ensures afterOut !in store && beforeOut in store && store[beforeOut].Unparseable? ==>
      r == Failure(UnmarshalFailed(beforeOut))
    ensures r.Success? <==> afterOut !in store && beforeOut in store && store[beforeOut].Snapshot?
    ensures r.Success? ==> WritesOnly(store, r.value, afterOut) && r.value[afterOut].Snapshot?
    ensures r.Success? ==>
      var before := store[beforeOut].entries;
      var after := r.value[afterOut].entries;
      && after.Keys == before.Keys + cfg.tables.Keys
      && (forall t :: t in cfg.tables ==> after[t].stopId == Boundary(db, t, cfg.tables[t]))
      && (forall t :: t in before ==> after[t].startId == before[t].startId)
      && (forall t :: t in before && t !in cfg.tables ==> after[t] == before[t])
      && (forall t :: t in cfg.tables && t !in before ==> after[t].startId == 0)
  {
    if afterOut in store then Failure(FileExists(afterOut))
    else if beforeOut !in store then Failure(FileMissing(beforeOut))
    else match store[beforeOut]
      case Unreadable => Failure(ReadFailed(beforeOut))
      case Unparseable => Failure(UnmarshalFailed(beforeOut))
      case Snapshot(cr) => Success(store[afterOut := Snapshot(SetStops(cfg, db, cr, order))])
  }

  /** The updated snapshot, defined without a visiting order: every configured table's
      entry (the zero value when absent) with `stopId` set to its boundary, every other
      entry as it was. */
  function Stopped(cfg: Config, db: CollectDb, cr: SnapshotMap): SnapshotMap {
    map t | t in cr.Keys + cfg.tables.Keys ::
      if t in cfg.tables then Lookup(cr, t).(stopId := Boundary(db, t, cfg.tables[t])) else cr[t]
  }

  /** One key of the updated snapshot agrees with `Stopped`. */
  lemma SetStopsEntry(cfg: Config, db: CollectDb, cr: SnapshotMap, order: seq<string>, t: string)
    requires EnumeratesTables(cfg, order)
    requires t in SetStops(cfg, db, cr, order)
    ensures t in Stopped(cfg, db, cr) && SetStops(cfg, db, cr, order)[t] == Stopped(cfg, db, cr)[t]
  {
    var m := SetStops(cfg, db, cr, order);
    if t in cfg.tables {
      assert t in order;
      assert m[t] == CollectResult(m[t].startId, m[t].stopId);
    }
  }

  /** The updated snapshot and `Stopped` have the same tables. */
  lemma SetStopsKeys(cfg: Config, db: CollectDb, cr: SnapshotMap, order: seq<string>)
    requires EnumeratesTables(cfg, order)
    ensures SetStops(cfg, db, cr, order).Keys == Stopped(cfg, db, cr).Keys
  {
  }

  /** Visiting the configured tables in any order that enumerates them builds `Stopped`. */
  lemma SetStopsIsStopped(cfg: Config, db: CollectDb, cr: SnapshotMap, order: seq<string>)
    requires EnumeratesTables(cfg, order)
    ensures SetStops(cfg, db, cr, order) == Stopped(cfg, db, cr)
  {
    var m := SetStops(cfg, db, cr, order);
    var e := Stopped(cfg, db, cr);
    SetStopsKeys(cfg, db, cr, order);
    forall t | t in m ensures m[t] == e[t] {
      SetStopsEntry(cfg, db, cr, order, t);
    }
  }

  /** Go visits the configured tables in an unspecified order; the snapshot written
      does not depend on it. */
  lemma OrderIrrelevant(cfg: Config, o1: seq<string>, o2: seq<string>, db: CollectDb, store: Store, beforeOut: string, afterOut: string)
    requires EnumeratesTables(cfg, o1) && EnumeratesTables(cfg, o2)
    ensures Run(cfg, o1, db, store, beforeOut, afterOut) == Run(cfg, o2, db, store, beforeOut, afterOut)
  {
    if afterOut !in store && beforeOut in store && store[beforeOut].Snapshot? {
      SetStopsIsStopped(cfg, db, store[beforeOut].entries, o1);
      SetStopsIsStopped(cfg, db, store[beforeOut].entries, o2);
    }
  }

  /** The two collection phases in sequence, on distinct paths with neither file present
      beforehand: the after-file holds exactly the configured tables, each with the
      boundary collected before replication as `startId` and the one collected after as
      `stopId`, and the before-file is left as the before-phase wrote it. */
  lemma PhasesCompose(cfg: Config, order: seq<string>, before: CollectDb, after: CollectDb,
                      store: Store, beforeOut: string, afterOut: string)
    requires EnumeratesTables(cfg, order)
    requires beforeOut != afterOut && beforeOut !in store && afterOut !in store
    ensures BeforeReplication.Run(cfg, order, before, store, beforeOut).Success?
    ensures
      var s1 := BeforeReplication.Run(cfg, order, before, store, beforeOut).value;
      var r := Run(cfg, order, after, s1, beforeOut, afterOut);
      && r.Success?
      && r.value[beforeOut] == s1[beforeOut]
      && r.value[afterOut].entries.Keys == cfg.tables.Keys
      && forall t :: t in cfg.tables ==>
           r.value[afterOut].entries[t] == CollectResult(Boundary(before, t, cfg.tables[t]), Boundary(after, t, cfg.tables[t]))
  {
  }
}
