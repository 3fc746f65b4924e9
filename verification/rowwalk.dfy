/** The lockstep walk over one window's source and target rows: for every source row,
    advance the target by one row and compare; stop at the first divergence. */
module RowWalk {
  import opened Wrappers
  import opened Collector

  /** The first divergence found in a window. `cid` is the target id held by the scan
      state when the divergence is recorded: the diverging target row's id for a hash
      mismatch, and a stale id from an earlier row (or an earlier window or table) when
      the target row is missing, because a failed scan leaves it unchanged. */
  datatype Mismatch =
    | MissingInTarget(sid: int, shash: string, cid: int)
    | HashMismatch(sid: int, shash: string, cid: int, chash: string)

  /** The outcome of walking one window: either a source row could not be scanned,
      which aborts the whole comparison, or `rows` source rows were consumed, with at
      most one divergence, leaving `cid` as the scan state's target id. */
  datatype WalkResult =
    | SourceScanBroken
    | Walked(rows: nat, mismatch: Option<Mismatch>, cid: int)

  /** Source row `k` is a scanned row and the target holds the identical row at the
      same position. */
  predicate Agrees(src: seq<ScanRow>, tgt: seq<ScanRow>, k: int)
    requires 0 <= k < |src|
  {
    src[k].Row? && k < |tgt| && tgt[k] == src[k]
  }

  /** Position `k` is the first at which the target diverges from a scanned source row. */
  ghost predicate FirstDivergence(src: seq<ScanRow>, tgt: seq<ScanRow>, k: int) {
    && 0 <= k < |src|
    && src[k].Row?
    && !Agrees(src, tgt, k)
    && forall j :: 0 <= j < k ==> Agrees(src, tgt, j)
  }

  /** The row walk, starting from scan state `cid`. */
  function Walk(src: seq<ScanRow>, tgt: seq<ScanRow>, cid: int): (r: WalkResult)
    ensures r.Walked? ==> r.rows <= |src|
    ensures (r.Walked? && r.mismatch.None?) <==> forall k :: 0 <= k < |src| ==> Agrees(src, tgt, k)
    ensures r.Walked? && r.mismatch.None? ==>
      && r.rows == |src|
      && (|src| == 0 ==> r.cid == cid)
      && (|src| > 0 ==> src[|src| - 1].Row? && r.cid == src[|src| - 1].id)
    ensures r.Walked? && r.mismatch.Some? ==>
      && 1 <= r.rows
      && FirstDivergence(src, tgt, r.rows - 1)
      && r.mismatch.value.sid == src[r.rows - 1].id
      && r.mismatch.value.shash == src[r.rows - 1].hash
      && r.mismatch.value.cid == r.cid
    ensures r.Walked? && r.mismatch.Some? && r.mismatch.value.HashMismatch? ==>
      && r.rows - 1 < |tgt|
      && tgt[r.rows - 1] == Row(r.mismatch.value.cid, r.mismatch.value.chash)
    ensures r.Walked? && r.mismatch.Some? && r.mismatch.value.MissingInTarget? ==>
      && (r.rows - 1 >= |tgt| || tgt[r.rows - 1].Unscannable?)
      && (r.rows == 1 ==> r.cid == cid)
      && (r.rows > 1 ==> src[r.rows - 2].Row? && r.cid == src[r.rows - 2].id)
    ensures r.SourceScanBroken? ==>
      exists k :: 0 <= k < |src| && src[k].Unscannable? && forall j :: 0 <= j < k ==> Agrees(src, tgt, j)
    decreases |src|
  {
    if |src| == 0 then Walked(0, None, cid)
    else match src[0]
      case Unscannable =>
        assert !Agrees(src, tgt, 0);
        SourceScanBroken
      case Row(sid, shash) =>
        if |tgt| == 0 || tgt[0].Unscannable? then
          assert !Agrees(src, tgt, 0);
          Walked(1, Some(MissingInTarget(sid, shash, cid)), cid)
        else if tgt[0].id != sid || tgt[0].hash != shash then
          assert !Agrees(src, tgt, 0);
          Walked(1, Some(HashMismatch(sid, shash, tgt[0].id, tgt[0].hash)), tgt[0].id)
        else
          var rest := Walk(src[1..], tgt[1..], tgt[0].id);
          AgreesShift(src, tgt);
          if rest.SourceScanBroken? then
            UnscannableTailDisagrees(src, tgt);
            SourceScanBroken
          else Walked(rest.rows + 1, rest.mismatch, rest.cid)
  }

  /** Agreement past the head is agreement of the tails, one position earlier. */
  lemma AgreesShift(src: seq<ScanRow>, tgt: seq<ScanRow>)
    requires 0 < |src| && 0 < |tgt|
    ensures forall k :: 1 <= k < |src| ==> Agrees(src, tgt, k) == Agrees(src[1..], tgt[1..], k - 1)
    ensures (forall k :: 0 <= k < |src| ==> Agrees(src, tgt, k)) <==>
      Agrees(src, tgt, 0) && forall k :: 0 <= k < |src[1..]| ==> Agrees(src[1..], tgt[1..], k)
  {
    if Agrees(src, tgt, 0) && forall k :: 0 <= k < |src[1..]| ==> Agrees(src[1..], tgt[1..], k) {
      forall k | 1 <= k < |src| ensures Agrees(src, tgt, k) {
        assert Agrees(src[1..], tgt[1..], k - 1);
      }
    }
    if forall k :: 0 <= k < |src| ==> Agrees(src, tgt, k) {
      forall k | 0 <= k < |src[1..]| ensures Agrees(src[1..], tgt[1..], k) {
        assert Agrees(src, tgt, k + 1);
      }
    }
  }

  /** An unscannable row in the tail of the source is a position that does not agree. */
  lemma UnscannableTailDisagrees(src: seq<ScanRow>, tgt: seq<ScanRow>)
    requires 0 < |src|
    requires exists k :: 0 <= k < |src[1..]| && src[1..][k].Unscannable?
    ensures !forall k :: 0 <= k < |src| ==> Agrees(src, tgt, k)
  {
    var k :| 0 <= k < |src[1..]| && src[1..][k].Unscannable?;
    assert !Agrees(src, tgt, k + 1);
  }

  /** The walk is driven by the source rows only: target rows beyond the last source
      row are never looked at, so they can never be reported. */
  lemma {:induction false} TrailingTargetRowsIgnored(src: seq<ScanRow>, tgt: seq<ScanRow>, extra: seq<ScanRow>, cid: int)
    requires |src| <= |tgt|
    ensures Walk(src, tgt + extra, cid) == Walk(src, tgt, cid)
    decreases |src|
  {
    if |src| > 0 && src[0].Row? && tgt[0].Row? && tgt[0] == src[0] {
      assert (tgt + extra)[1..] == tgt[1..] + extra;
      TrailingTargetRowsIgnored(src[1..], tgt[1..], extra, tgt[0].id);
    }
  }

  /** A table with ids 1..5 whose target lacks id 3: the walk meets target id 4 where
      source id 3 is expected and records an id mismatch there (not a missing row),
      after consuming three source rows. */
  lemma MissingMiddleRowIsIdMismatch()
    ensures
      var src := [Row(1, "a"), Row(2, "b"), Row(3, "c"), Row(4, "d"), Row(5, "e")];
      var tgt := [Row(1, "a"), Row(2, "b"), Row(4, "d"), Row(5, "e")];
      Walk(src, tgt, 0) == Walked(3, Some(HashMismatch(3, "c", 4, "d")), 4)
  {
  }

  /** An empty target window records the missing row with the scan state's stale target
      id, which may come from a previous table and exceed every id of this one. */
  lemma EmptyTargetKeepsStaleCid(sid: int, shash: string, staleCid: int)
    ensures Walk([Row(sid, shash)], [], staleCid) == Walked(1, Some(MissingInTarget(sid, shash, staleCid)), staleCid)
  {
  }
}
