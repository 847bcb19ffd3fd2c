/** The persisted sync state of read_email.py and the two operations on it
    that involve no I/O: choosing where a run starts from (`load_state`) and
    forgetting seen ids that fell behind the watermark (`prune_seen_ids`). */
module State {
  import opened Wrappers

  /** The record kept between runs: the watermark (`last_internal_ts`), the
      ids already handled with their timestamps (`seen_ids`), and when the last
      run finished (`last_run_at`). Timestamps are whole seconds. */
  datatype SyncState = SyncState(watermark: Option<int>, seen: map<string, int>, lastRunAt: Option<int>)

  /** Python truthiness of an optional timestamp: `None` and `0` are both false,
      so a watermark of zero counts as no watermark at all. */
  predicate Truthy(w: Option<int>) {
    w.Some? && w.value != 0
  }

  /** The state of a first run. */
  const Fresh := SyncState(None, map[], None)

  /** What reading the state file yields: nothing, something that fails to read
      or parse, or a record (absent keys already defaulted). */
  datatype StateFile = NoStateFile | UnreadableStateFile | StateRecord(record: SyncState)

  /** What reading the legacy single-timestamp file yields. */
  datatype LegacyFile = NoLegacyFile | UnreadableLegacyFile | LegacyTimestamp(ts: int)

  /** `load_state`: the state file when it reads, else a state bootstrapped
      from the legacy timestamp, else a fresh state. Only a state file can
      bring back seen ids or a last-run time. */
  function LoadState(stateFile: StateFile, legacy: LegacyFile): (r: SyncState)
    ensures stateFile.StateRecord? ==> r == stateFile.record
    ensures !stateFile.StateRecord? ==> r.seen == map[] && r.lastRunAt.None?
    ensures !stateFile.StateRecord? ==> (r.watermark.Some? <==> legacy.LegacyTimestamp?)
    ensures !stateFile.StateRecord? && legacy.LegacyTimestamp? ==> r.watermark == Some(legacy.ts)
  {
    match stateFile
    case StateRecord(record) => record
    case _ =>
      match legacy
      case LegacyTimestamp(ts) => SyncState(Some(ts), map[], None)
      case _ => Fresh
  }

  /** The invariant the state keeps after a full run: with a watermark, no
      seen entry is older than the watermark minus the lookback. */
  predicate WithinLookback(s: SyncState, lookback: int) {
    Truthy(s.watermark) ==> forall id :: id in s.seen ==> s.seen[id] >= s.watermark.value - lookback
  }

  /** `prune_seen_ids`: with a (truthy) watermark, keep exactly the seen entries
      at or after `watermark - lookback`; otherwise change nothing. */
  function Prune(s: SyncState, lookback: int): (r: SyncState)
    ensures r.watermark == s.watermark && r.lastRunAt == s.lastRunAt
    ensures !Truthy(s.watermark) ==> r == s
    ensures Truthy(s.watermark) ==>
              forall id :: id in r.seen <==> id in s.seen && s.seen[id] >= s.watermark.value - lookback
    ensures forall id :: id in r.seen ==> id in s.seen && r.seen[id] == s.seen[id]
    ensures WithinLookback(r, lookback)
  {
    if !Truthy(s.watermark) then s
    else
      var cutoff := s.watermark.value - lookback;
      s.(seen := map id | id in s.seen && s.seen[id] >= cutoff :: s.seen[id])
  }

  /** Pruning a second time removes nothing more. */
  lemma PruneIdempotent(s: SyncState, lookback: int)
    ensures Prune(Prune(s, lookback), lookback) == Prune(s, lookback)
  {
    var r := Prune(s, lookback);
    if Truthy(r.watermark) {
      assert Prune(r, lookback).seen == r.seen;
    }
  }

  /** A state that already keeps the invariant loses nothing to pruning. */
  lemma PruneKeepsConformingState(s: SyncState, lookback: int)
    requires WithinLookback(s, lookback)
    ensures Prune(s, lookback) == s
  {
    if Truthy(s.watermark) {
      assert Prune(s, lookback).seen == s.seen;
    }
  }
}
