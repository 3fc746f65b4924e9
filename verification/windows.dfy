/** The window cursor of the comparison: how each window's bounds follow from the
    table's checkpoint and from the cursor left by the window before it. */
module Windows {
  import opened Wrappers
  import opened Collector
  import opened RowWalk

  /** No compare query spans more than this many ids, except the final window. */
  const WindowSize := 1000

  /** One window the comparison issued: the queried bounds `[start, stop)`, the source
      rows it consumed, its divergence if any, the cursor `next` (Go's `nextStart`)
      after it, and the scan state's target id `cid` after it. */
  datatype WindowScan = WindowScan(start: int, stop: int, rows: nat, mismatch: Option<Mismatch>, next: int, cid: int)

  /** Where the cursor resumes after a divergence: past the larger of the two ids. */
  function Resync(m: Mismatch): int {
    (if m.sid >= m.cid then m.sid else m.cid) + 1
  }

  /** A window is capped when more than `WindowSize` ids remain after the cursor. */
  predicate Capped(stopId: int, nextStart: int) {
    stopId - nextStart > WindowSize
  }

  /** The cursor rule for one window, given the previous window's start and the cursor:
      a capped window starts at the cursor and spans exactly `WindowSize` ids and moves
      the cursor to its end; otherwise the window ends at `stopId` and keeps the previous
      start. Either way a divergence moves the cursor to its resync point. */
  ghost predicate Follows(stopId: int, prevStart: int, prevNext: int, w: WindowScan) {
    && (Capped(stopId, prevNext) ==> w.start == prevNext && w.stop == prevNext + WindowSize)
    && (!Capped(stopId, prevNext) ==> w.start == prevStart && w.stop == stopId)
    && (w.mismatch.Some? ==> w.next == Resync(w.mismatch.value))
    && (w.mismatch.None? ==> w.next == (if Capped(stopId, prevNext) then w.stop else prevNext))
  }

  /** Every window of `ws` follows the cursor rule from the one before it, the first
      from the checkpoint's `startId` (as both start and cursor). */
  ghost predicate Chained(cp: CollectResult, ws: seq<WindowScan>) {
    && (|ws| > 0 ==> Follows(cp.stopId, cp.startId, cp.startId, ws[0]))
    && (forall i :: 0 < i < |ws| ==> Follows(cp.stopId, ws[i - 1].start, ws[i - 1].next, ws[i]))
  }

  /** The windows of one table's comparison: chained by the cursor rule, and ending with
      the first window whose `stop` is the checkpoint's `stopId`. */
  ghost predicate Schedule(cp: CollectResult, ws: seq<WindowScan>) {
    && |ws| > 0
    && Chained(cp, ws)
    && (forall i :: 0 <= i < |ws| - 1 ==> ws[i].stop != cp.stopId)
    && ws[|ws| - 1].stop == cp.stopId
  }

  /** The start and cursor the next window is computed from: the checkpoint's `startId`
      before the first window, afterwards what the last window left. */
  function LastStart(cp: CollectResult, ws: seq<WindowScan>): int {
    if |ws| == 0 then cp.startId else ws[|ws| - 1].start
  }

  function LastNext(cp: CollectResult, ws: seq<WindowScan>): int {
    if |ws| == 0 then cp.startId else ws[|ws| - 1].next
  }

  /** The bounds of the window the cursor rule issues from the previous window's start
      and the cursor; `Follows` holds of any window with these bounds. */
  function NextStart(stopId: int, prevStart: int, prevNext: int): int {
    if Capped(stopId, prevNext) then prevNext else prevStart
  }

  function NextStop(stopId: int, prevNext: int): int {
    if Capped(stopId, prevNext) then prevNext + WindowSize else stopId
  }

  /** The windows issued while the loop keeps going: chained, and every one capped. */
  ghost predicate CappedPrefix(cp: CollectResult, ws: seq<WindowScan>) {
    && Chained(cp, ws)
    && (forall i :: 0 <= i < |ws| ==> ws[i].stop != cp.stopId)
  }

  /** Every divergence lies at or after its window's start, and the cursor resumes
      past it. */
  ghost predicate ResyncsForward(ws: seq<WindowScan>) {
    forall i :: 0 <= i < |ws| && ws[i].mismatch.Some? ==>
      ws[i].start <= ws[i].mismatch.value.sid < ws[i].next
  }

  /** One more window after a capped prefix: a capped one keeps the loop going and moves
      the cursor strictly forward, one ending at `stopId` completes the schedule. */
  lemma ExtendSchedule(cp: CollectResult, ws: seq<WindowScan>, w: WindowScan)
    requires CappedPrefix(cp, ws) && ResyncsForward(ws)
    requires Follows(cp.stopId, LastStart(cp, ws), LastNext(cp, ws), w)
    requires w.mismatch.Some? ==> w.start <= w.mismatch.value.sid
    ensures ResyncsForward(ws + [w])
    ensures w.stop != cp.stopId ==> CappedPrefix(cp, ws + [w]) && LastNext(cp, ws) < w.next
    ensures w.stop == cp.stopId ==> Schedule(cp, ws + [w])
  {
  }

  /** The shape of every table's windows: the first starts at `startId`; every window
      but the last was taken because more than `WindowSize` ids remained after the cursor,
      starts at the cursor and spans exactly `WindowSize` ids; the last was taken because
      no more than `WindowSize` remained, and reuses the previous window's start. */
  lemma ScheduleShape(cp: CollectResult, ws: seq<WindowScan>)
    requires Schedule(cp, ws)
    ensures ws[0].start == cp.startId
    ensures forall i :: 0 <= i < |ws| - 1 ==>
      && Capped(cp.stopId, LastNext(cp, ws[..i]))
      && ws[i].start == LastNext(cp, ws[..i])
      && ws[i].stop - ws[i].start == WindowSize
    ensures !Capped(cp.stopId, LastNext(cp, ws[..|ws| - 1]))
    ensures |ws| > 1 ==> ws[|ws| - 1].start == ws[|ws| - 2].start
  {
    forall i | 0 <= i <= |ws| - 1
      ensures Follows(cp.stopId, LastStart(cp, ws[..i]), LastNext(cp, ws[..i]), ws[i])
    {
      if i > 0 {
        assert ws[..i][i - 1] == ws[i - 1];
      }
    }
  }

  /** The cursor never moves back over the capped windows: a capped window starts at or
      after the cursor every earlier window left. */
  lemma {:induction false} CappedStartsPastCursor(cp: CollectResult, ws: seq<WindowScan>, k: int, j: int)
    requires Schedule(cp, ws) && ResyncsForward(ws)
    requires 0 <= k < j < |ws| - 1
    ensures ws[j].start >= ws[k].next
    decreases j - k
  {
    assert Follows(cp.stopId, ws[j - 1].start, ws[j - 1].next, ws[j]);
    if k < j - 1 {
      CappedStartsPastCursor(cp, ws, k, j - 1);
      assert Follows(cp.stopId, ws[j - 2].start, ws[j - 2].next, ws[j - 1]);
      assert ws[j - 1].start < ws[j - 1].next;
    }
  }

  /** Resynchronisation: when a divergence is followed by more capped windows, each of
      them starts strictly after the diverging source id. */
  lemma ResyncSkipsMismatch(cp: CollectResult, ws: seq<WindowScan>)
    requires Schedule(cp, ws) && ResyncsForward(ws)
    ensures forall i :: 0 <= i < |ws| - 2 && ws[i].mismatch.Some? ==>
      ws[i + 1].start > ws[i].mismatch.value.sid
    ensures forall i, j :: 0 <= i < j < |ws| - 1 && ws[i].mismatch.Some? ==>
      ws[j].start > ws[i].mismatch.value.sid
  {
    forall i, j | 0 <= i < j < |ws| - 1 && ws[i].mismatch.Some?
      ensures ws[j].start > ws[i].mismatch.value.sid
    {
      CappedStartsPastCursor(cp, ws, i, j);
    }
  }

  /** The number of windows that recorded a divergence. */
  function CountIssues(ws: seq<WindowScan>): (n: nat)
    ensures n <= |ws|
  {
    if |ws| == 0 then 0
    else CountIssues(ws[..|ws| - 1]) + (if ws[|ws| - 1].mismatch.Some? then 1 else 0)
  }

  /** The number of source rows the windows consumed. */
  function CountRows(ws: seq<WindowScan>): nat {
    if |ws| == 0 then 0 else CountRows(ws[..|ws| - 1]) + ws[|ws| - 1].rows
  }

  /** Appending a window adds its divergence, if any, and its rows to the counters. */
  lemma CountsExtend(ws: seq<WindowScan>, w: WindowScan)
    ensures CountIssues(ws + [w]) == CountIssues(ws) + (if w.mismatch.Some? then 1 else 0)
    ensures CountRows(ws + [w]) == CountRows(ws) + w.rows
  {
    assert (ws + [w])[..|ws|] == ws;
  }

  /** No window of `ws` recorded a divergence. */
  ghost predicate NoMismatch(ws: seq<WindowScan>) {
    forall i :: 0 <= i < |ws| ==> ws[i].mismatch.None?
  }

  /** The count of windows a clean comparison of `[startId, stopId)` issues:
      `ceil((stopId - startId) / WindowSize)` for a non-empty range, otherwise one. */
  function CleanWindowCount(startId: int, stopId: int): nat {
    if stopId > startId then (stopId - startId + WindowSize - 1) / WindowSize else 1
  }

  /** No issues means the issue counter saw no divergence in any window. */
  lemma {:induction false} NoIssuesMeansNoMismatch(ws: seq<WindowScan>)
    ensures CountIssues(ws) == 0 <==> NoMismatch(ws)
    decreases |ws|
  {
    if |ws| > 0 {
      var init := ws[..|ws| - 1];
      NoIssuesMeansNoMismatch(init);
      if NoMismatch(ws) {
        assert NoMismatch(init) by {
          forall i | 0 <= i < |init| ensures init[i].mismatch.None? {
            assert init[i] == ws[i];
          }
        }
      }
      if CountIssues(ws) == 0 {
        forall i | 0 <= i < |ws| ensures ws[i].mismatch.None? {
          if i < |ws| - 1 {
            assert init[i] == ws[i];
          }
        }
      }
    }
  }

  /** In a comparison without divergences, every window before the final one is capped,
      starts `WindowSize` ids after the one before it and leaves the cursor at its end. */
  lemma {:induction false} CleanCappedPrefix(cp: CollectResult, ws: seq<WindowScan>)
    requires Chained(cp, ws) && NoMismatch(ws)
    requires forall i :: 0 <= i < |ws| ==> ws[i].stop != cp.stopId
    ensures forall i :: 0 <= i < |ws| ==>
      && ws[i].start == cp.startId + WindowSize * i
      && ws[i].stop == ws[i].start + WindowSize
      && ws[i].next == ws[i].stop
      && Capped(cp.stopId, ws[i].start)
    decreases |ws|
  {
    if |ws| > 0 {
      var init := ws[..|ws| - 1];
      assert forall i :: 0 <= i < |init| ==> init[i] == ws[i];
      CleanCappedPrefix(cp, init);
      var k := |ws| - 1;
      if k == 0 {
        assert Follows(cp.stopId, cp.startId, cp.startId, ws[0]);
      } else {
        assert Follows(cp.stopId, ws[k - 1].start, ws[k - 1].next, ws[k]);
      }
    }
  }

  /** In a comparison without divergences the windows tile the checkpoint's range: the
      capped windows are consecutive, the final window reuses the start of the last
      capped one, and their number is `CleanWindowCount`. */
  lemma CleanScheduleTiles(cp: CollectResult, ws: seq<WindowScan>)
    requires Schedule(cp, ws) && NoMismatch(ws)
    ensures |ws| == CleanWindowCount(cp.startId, cp.stopId)
    ensures ws[0].start == cp.startId
    ensures forall i :: 0 < i < |ws| - 1 ==> ws[i].start == ws[i - 1].stop
    ensures |ws| > 1 ==> ws[|ws| - 1].start == ws[|ws| - 2].start
    ensures ws[|ws| - 1].stop == cp.stopId
  {
    var k := |ws| - 1;
    var capped := ws[..k];
    assert Chained(cp, capped) by {
      assert forall i :: 0 <= i < |capped| ==> capped[i] == ws[i];
    }
    CleanCappedPrefix(cp, capped);
    assert forall i :: 0 <= i < k ==> capped[i] == ws[i];
    var prevNext := if k == 0 then cp.startId else ws[k - 1].next;
    assert !Capped(cp.stopId, prevNext);
    assert prevNext == cp.startId + WindowSize * k;
    if k > 0 {
      assert Capped(cp.stopId, ws[k - 1].start);
      assert cp.stopId - cp.startId > WindowSize * k;
    }
  }

  /** Every id of a non-empty range lies in some window of a clean comparison. */
  ghost predicate Covered(ws: seq<WindowScan>, id: int) {
    exists i :: 0 <= i < |ws| && ws[i].start <= id < ws[i].stop
  }

  lemma CleanScheduleCovers(cp: CollectResult, ws: seq<WindowScan>)
    requires Schedule(cp, ws) && NoMismatch(ws)
    ensures forall id :: cp.startId <= id < cp.stopId ==> Covered(ws, id)
  {
    CleanScheduleTiles(cp, ws);
    var k := |ws| - 1;
    var capped := ws[..k];
    assert Chained(cp, capped) by {
      assert forall i :: 0 <= i < |capped| ==> capped[i] == ws[i];
    }
    CleanCappedPrefix(cp, capped);
    forall id | cp.startId <= id < cp.stopId ensures Covered(ws, id) {
      var i := (id - cp.startId) / WindowSize;
      if i < k {
        assert capped[i] == ws[i];
        assert ws[i].start <= id < ws[i].stop;
      } else if k == 0 {
        assert ws[0].start <= id < ws[0].stop;
      } else {
        assert capped[k - 1] == ws[k - 1];
        assert ws[k].start <= id < ws[k].stop;
      }
    }
  }

  /** The checkpoint `{startId: 10, stopId: 2010}` compared without divergences issues
      the windows `[10, 1010)` and then `[10, 2010)`: the final window is 2000 ids wide
      and overlaps the first. */
  lemma FinalWindowReusesStart(ws: seq<WindowScan>)
    requires Schedule(CollectResult(10, 2010), ws) && NoMismatch(ws)
    ensures |ws| == 2
    ensures ws[0].start == 10 && ws[0].stop == 1010
    ensures ws[1].start == 10 && ws[1].stop == 2010
  {
    CleanScheduleTiles(CollectResult(10, 2010), ws);
  }

  /** The final window is not bounded by `2 * WindowSize` once a divergence moved the
      cursor to `stopId` or beyond: with checkpoint `{0, 100000}` and a divergence in
      `[0, 1000)` whose target id is at least 100000, the final window is the whole
      range `[0, 100000)`. */
  lemma ResyncPastStopWidensFinalWindow(ws: seq<WindowScan>)
    requires Schedule(CollectResult(0, 100000), ws)
    requires ws[0].mismatch.Some? && ws[0].mismatch.value.cid >= 100000
    ensures |ws| == 2
    ensures ws[1].start == 0 && ws[1].stop == 100000
  {
    assert Follows(100000, 0, 0, ws[0]);
    assert |ws| > 1;
    assert Follows(100000, ws[0].start, ws[0].next, ws[1]);
  }

  /** A divergence in the window just before the final one does not move the final
      window past it: with checkpoint `{0, 1500}` and a divergence at source id 600 in
      `[0, 1000)`, the final window is `[0, 1500)` and covers id 600 again. */
  lemma FinalWindowRevisitsMismatch(ws: seq<WindowScan>)
    requires Schedule(CollectResult(0, 1500), ws)
    requires ws[0].mismatch.Some? && ws[0].mismatch.value.sid == 600
    ensures |ws| == 2
    ensures ws[1].start == 0 && ws[1].stop == 1500
    ensures ws[1].start <= ws[0].mismatch.value.sid < ws[1].stop
  {
  }
}
