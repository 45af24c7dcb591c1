/**
 * The background worker: the once-only start guard of the application, the
 * FIFO choice of the next waiting row, and one iteration of the loop (the
 * retention sweep, then processing the oldest waiting row to completed or
 * failed).
 */
module Worker {
  import opened Wrappers
  import opened JobStore
  import opened Fetcher
  import Retention

  /**
   * `start_worker`'s globals: the `worker_running` flag and the threads
   * started so far.  The flag is set exactly when one thread has started.
   */
  class WorkerGuard {
    var running: bool
    var threadsStarted: nat

    predicate Valid()
      reads this
    {
      threadsStarted == if running then 1 else 0
    }

    /** The module-level state before any submission. */
    constructor ()
      ensures Valid() && !running
    {
      running := false;
      threadsStarted := 0;
    }

    /** Start the worker thread unless it is already running. */
    method StartWorker() returns (started: bool)
      requires Valid()
      modifies this
      ensures Valid() && running && threadsStarted == 1
      ensures started <==> !old(running)
    {
      started := !running;
      if !running {
        running := true;
        threadsStarted := threadsStarted + 1;
      }
    }
  }

  /** A waiting row no other waiting row was created before (`ORDER BY created_at ASC LIMIT 1`). */
  predicate IsOldestPending(rows: map<string, Row>, id: string)
  {
    && id in rows && rows[id].status == NotStarted
    && forall other :: other in rows && rows[other].status == NotStarted ==> rows[id].createdAt <= rows[other].createdAt
  }

  /** Every non-empty set of waiting rows has one created no later than the others. */
  lemma {:induction false} OldestIn(rows: map<string, Row>, s: set<string>) returns (id: string)
    requires s != {} && forall x :: x in s ==> x in rows
    ensures id in s && forall x :: x in s ==> rows[id].createdAt <= rows[x].createdAt
  {
    var x :| x in s;
    if s == {x} {
      id := x;
    } else {
      var y := OldestIn(rows, s - {x});
      id := if rows[x].createdAt <= rows[y].createdAt then x else y;
    }
  }

  /** A table with a waiting row has an oldest one. */
  lemma OldestPendingExists(rows: map<string, Row>)
    requires PendingIds(rows) != {}
    ensures exists id :: IsOldestPending(rows, id)
  {
    var id := OldestIn(rows, PendingIds(rows));
    assert IsOldestPending(rows, id);
  }

  /** The `SELECT ... LIMIT 1` for the next row; among equal creation times any may come back. */
  method SelectNext(rows: map<string, Row>) returns (next: Option<string>)
    ensures next.None? <==> PendingIds(rows) == {}
    ensures next.Some? ==> IsOldestPending(rows, next.value)
  {
    if PendingIds(rows) == {} {
      return None;
    }
    OldestPendingExists(rows);
    var id :| id in rows && IsOldestPending(rows, id);
    next := Some(id);
  }

  /**
   * The row after one pass: marked processing, the metadata stored when
   * the probe gave some, then the success columns or the failure columns.
   */
  function ProcessedRow(row: Row, info: Option<VideoInfo>, result: FetchResult, doneAt: int): Row
  {
    var marked := WithStatus(row, Processing, None, doneAt);
    var described := if info.Some? then WithMetadata(marked, info.value) else marked;
    match result
    case Fetched(path, size) => WithCompletion(described, path, size, doneAt)
    case FetchFailed(error) => WithStatus(described, Failed, Some(error), doneAt)
  }

  /**
   * A processed row ends in a terminal state, completed exactly when the
   * download gave a file; metadata is written only when the probe gave
   * some; the url and creation time are kept.
   */
  lemma ProcessedRowOutcome(row: Row, info: Option<VideoInfo>, result: FetchResult, doneAt: int)
    ensures var r := ProcessedRow(row, info, result, doneAt);
      && r.status.IsTerminal()
      && (r.status == Completed <==> result.Fetched?)
      && (result.Fetched? ==> r.filepath == Some(result.filepath) && r.filesize == Some(result.filesize)
                              && r.processedAt == Some(doneAt))
      && (result.FetchFailed? ==> r.error == Some(result.error) && r.processedAt == Some(doneAt)
                                  && r.filepath == row.filepath && r.filesize == row.filesize)
      && (info.Some? ==> r.title == Some(info.value.title) && r.duration == Some(info.value.duration)
                         && r.thumbnail == Some(info.value.thumbnail))
      && (info.None? ==> r.title == row.title && r.duration == row.duration && r.thumbnail == row.thumbnail)
      && r.url == row.url && r.createdAt == row.createdAt
  {
  }

  /**
   * Each write of the pass is a step the lifecycle allows: marking the row
   * processing, the metadata write (which keeps the status), and the final
   * write; so the row never returns to not_started.
   */
  lemma ProcessedRowFollowsLifecycle(row: Row, info: Option<VideoInfo>, result: FetchResult, doneAt: int)
    requires row.status == NotStarted
    ensures CanStep(row.status, WithStatus(row, Processing, None, doneAt).status)
    ensures info.Some? ==>
      WithMetadata(WithStatus(row, Processing, None, doneAt), info.value).status == WithStatus(row, Processing, None, doneAt).status
    ensures CanStep(WithStatus(row, Processing, None, doneAt).status, ProcessedRow(row, info, result, doneAt).status)
    ensures ProcessedRow(row, info, result, doneAt).status != NotStarted
  {
  }

  /** A consistent waiting row stays consistent through the pass. */
  lemma ProcessedRowWellFormed(row: Row, info: Option<VideoInfo>, result: FetchResult, doneAt: int)
    requires WellFormed(row) && row.status == NotStarted
    ensures WellFormed(ProcessedRow(row, info, result, doneAt))
  {
  }

  /**
   * The pass on the table: select the oldest waiting row, mark it
   * processing, store the metadata if any, download, and store the
   * outcome.  With no waiting row the table is unchanged.
   */
  method ProcessNext(table: Downloads, variant: Variant, probe: ProbeOutcome, outcome: DownloadOutcome,
                     fs: map<string, nat>, doneAt: int)
    returns (picked: Option<string>)
    modifies table
    ensures picked.None? <==> PendingIds(old(table.rows)) == {}
    ensures picked.None? ==> table.rows == old(table.rows)
    ensures picked.Some? ==>
      && IsOldestPending(old(table.rows), picked.value)
      && table.rows == old(table.rows)[picked.value := ProcessedRow(old(table.rows)[picked.value],
           ExtractVideoInfo(probe), DownloadResult(variant, picked.value, outcome, fs), doneAt)]
  {
    picked := SelectNext(table.rows);
    if picked.None? {
      return;
    }
    ProcessRow(table, picked.value, variant, probe, outcome, fs, doneAt);
  }

  /** The steps of the pass on the selected row `id`. */
  method ProcessRow(table: Downloads, id: string, variant: Variant, probe: ProbeOutcome, outcome: DownloadOutcome,
                    fs: map<string, nat>, doneAt: int)
    requires id in table.rows
    modifies table
    ensures table.rows == old(table.rows)[id := ProcessedRow(old(table.rows)[id],
      ExtractVideoInfo(probe), DownloadResult(variant, id, outcome, fs), doneAt)]
  {
    ghost var before := table.rows;
    ghost var marked := WithStatus(before[id], Processing, None, doneAt);
    table.UpdateStatus(id, Processing, None, doneAt);
    var info := ExtractVideoInfo(probe);
    ghost var described := if info.Some? then WithMetadata(marked, info.value) else marked;
    if info.Some? {
      table.UpdateMetadata(id, info.value);
      UpdateTwice(before, id, marked, described);
    }
    var result := DownloadVideo(variant, id, outcome, fs);
    ghost var done := ProcessedRow(before[id], info, result, doneAt);
    match result
    case Fetched(path, size) =>
      table.MarkCompleted(id, path, size, doneAt);
      UpdateTwice(before, id, described, done);
    case FetchFailed(error) =>
      table.UpdateStatus(id, Failed, Some(error), doneAt);
      UpdateTwice(before, id, described, done);
  }

  /** Writing a key twice leaves the second value. */
  lemma UpdateTwice(m: map<string, Row>, k: string, a: Row, b: Row)
    ensures m[k := a][k := b] == m[k := b]
  {
  }

  /** The pass takes exactly one row off the queue. */
  lemma PassDrainsQueue(rows: map<string, Row>, id: string, info: Option<VideoInfo>, result: FetchResult, doneAt: int)
    requires IsOldestPending(rows, id)
    ensures PendingIds(rows[id := ProcessedRow(rows[id], info, result, doneAt)]) == PendingIds(rows) - {id}
    ensures |PendingIds(rows[id := ProcessedRow(rows[id], info, result, doneAt)])| == |PendingIds(rows)| - 1
  {
    var after := rows[id := ProcessedRow(rows[id], info, result, doneAt)];
    assert PendingIds(after) == PendingIds(rows) - {id};
  }

  /**
   * The pass changes no other row and keeps the set of rows; with a
   * consistent table it keeps the table consistent, and since the pass
   * ends its row before the next starts, a table with nothing in
   * processing still has nothing in processing afterwards.
   */
  lemma PassPreservesTable(rows: map<string, Row>, id: string, info: Option<VideoInfo>, result: FetchResult, doneAt: int)
    requires IsOldestPending(rows, id)
    ensures var after := rows[id := ProcessedRow(rows[id], info, result, doneAt)];
      && after.Keys == rows.Keys
      && (forall other :: other in rows && other != id ==> after[other] == rows[other])
      && (AllWellFormed(rows) ==> AllWellFormed(after))
      && ProcessingIds(after) == ProcessingIds(rows)
  {
    var after := rows[id := ProcessedRow(rows[id], info, result, doneAt)];
    ProcessedRowOutcome(rows[id], info, result, doneAt);
    if AllWellFormed(rows) {
      ProcessedRowWellFormed(rows[id], info, result, doneAt);
    }
    assert ProcessingIds(after) == ProcessingIds(rows);
  }

  /**
   * One turn of `worker_loop`: the retention sweep, then the pass over the
   * remaining rows.  `produced` is what the downloader wrote to disk; the
   * download step sees the swept files together with it.
   */
  method WorkerIteration(table: Downloads, now: int, fs: map<string, nat>, removeFails: set<string>,
                         variant: Variant, probe: ProbeOutcome, outcome: DownloadOutcome,
                         produced: map<string, nat>, doneAt: int)
    returns (picked: Option<string>, fs': map<string, nat>)
    modifies table
    ensures var swept := Retained(old(table.rows), Retention.Cutoff(now));
      && fs' == (fs - Retention.RemovablePaths(old(table.rows), OlderThan(old(table.rows), Retention.Cutoff(now)), fs, removeFails)) + produced
      && (picked.None? <==> PendingIds(swept) == {})
      && (picked.None? ==> table.rows == swept)
      && (picked.Some? ==>
            && IsOldestPending(swept, picked.value)
            && table.rows == swept[picked.value := ProcessedRow(swept[picked.value],
                 ExtractVideoInfo(probe), DownloadResult(variant, picked.value, outcome, fs'), doneAt)])
  {
    var deletedRows, deletedFiles, remaining := Retention.CleanupOldEntries(table, now, fs, removeFails);
    fs' := remaining + produced;
    picked := ProcessNext(table, variant, probe, outcome, fs', doneAt);
  }
}
