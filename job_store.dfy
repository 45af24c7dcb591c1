/**
 * The `downloads` table: one row per requested download, keyed by id, and
 * the updates the application and the worker make to it.  The table is held
 * in memory as a map; timestamps are integer microseconds.
 */
module JobStore {
  import opened Wrappers
  import Fetcher

  /** The lifecycle: not_started, then processing, then completed or failed. */
  datatype Status = NotStarted | Processing | Completed | Failed
  {
    /** The text stored in the `status` column. */
    function Name(): string
    {
      match this
      case NotStarted => "not_started"
      case Processing => "processing"
      case Completed => "completed"
      case Failed => "failed"
    }

    predicate IsTerminal() { Completed? || Failed? }
  }

  /** The status column tells the four states apart. */
  lemma StatusNamesDistinct(a: Status, b: Status)
    ensures a.Name() == b.Name() ==> a == b
  {
    if a != b {
      assert a.Name()[0] != b.Name()[0];
    }
  }

  /** The transitions the lifecycle allows: nothing skips processing and nothing leaves a terminal state. */
  predicate CanStep(from: Status, to: Status)
  {
    (from == NotStarted && to == Processing) || (from == Processing && to.IsTerminal())
  }

  /** One row; None is SQL NULL. */
  datatype Row = Row(
    url: string,
    title: Option<string>,
    duration: Option<string>,
    thumbnail: Option<string>,
    filepath: Option<string>,
    filesize: Option<string>,
    status: Status,
    error: Option<string>,
    createdAt: int,
    processedAt: Option<int>)

  /** Timestamps are counts of microseconds. */
  const MicrosPerSecond: nat := 1000000

  /** The row a submission inserts: `(id, url, 'not_started', now)`, every other column NULL. */
  function NewRow(url: string, now: int): Row
  {
    Row(url, None, None, None, None, None, NotStarted, None, now, None)
  }

  /**
   * The consistency the lifecycle keeps on a row: `processed_at` is set
   * exactly in the terminal states, the file columns exactly when completed,
   * and an error only when failed.
   */
  predicate WellFormed(r: Row)
  {
    && (r.processedAt.Some? <==> r.status.IsTerminal())
    && (r.filepath.Some? <==> r.status == Completed)
    && (r.filesize.Some? <==> r.status == Completed)
    && (r.error.Some? ==> r.status == Failed)
  }

  predicate AllWellFormed(rows: map<string, Row>)
  {
    forall id :: id in rows ==> WellFormed(rows[id])
  }

  /** `update_status` on one row: 'failed' also writes the error and `processed_at`. */
  function WithStatus(r: Row, status: Status, error: Option<string>, now: int): Row
  {
    if status == Failed then r.(status := Failed, error := error, processedAt := Some(now))
    else r.(status := status)
  }

  /** The metadata update: title, duration and thumbnail. */
  function WithMetadata(r: Row, info: Fetcher.VideoInfo): Row
  {
    r.(title := Some(info.title), duration := Some(info.duration), thumbnail := Some(info.thumbnail))
  }

  /** The success update: status, filepath, filesize and `processed_at`. */
  function WithCompletion(r: Row, path: string, size: string, now: int): Row
  {
    r.(status := Completed, filepath := Some(path), filesize := Some(size), processedAt := Some(now))
  }

  /** `update_status` changes the status it is given and, for 'failed', exactly the error and the time. */
  lemma WithStatusChanges(r: Row, status: Status, error: Option<string>, now: int)
    ensures var r' := WithStatus(r, status, error, now);
      && r'.status == status
      && (status == Failed ==> r'.error == error && r'.processedAt == Some(now))
      && (status != Failed ==> r'.error == r.error && r'.processedAt == r.processedAt)
      && r'.url == r.url && r'.createdAt == r.createdAt && r'.title == r.title
      && r'.filepath == r.filepath && r'.filesize == r.filesize
      && r'.duration == r.duration && r'.thumbnail == r.thumbnail
  {
  }

  /** A fresh row is consistent and waiting. */
  lemma NewRowWellFormed(url: string, now: int)
    ensures WellFormed(NewRow(url, now)) && NewRow(url, now).status == NotStarted
  {
  }

  class Downloads {
    var rows: map<string, Row>

    /** `init_db`: an empty table. */
    constructor ()
      ensures rows == map[]
    {
      rows := map[];
    }

    /** The INSERT of a submission; the id is fresh. */
    method Insert(id: string, url: string, now: int)
      requires id !in rows
      modifies this
      ensures rows == old(rows)[id := NewRow(url, now)]
    {
      rows := rows[id := NewRow(url, now)];
    }

    /** `update_status`: an UPDATE ... WHERE id = ?, which touches no row when the id is unknown. */
    method UpdateStatus(id: string, status: Status, error: Option<string>, now: int)
      modifies this
      ensures rows == if id in old(rows) then old(rows)[id := WithStatus(old(rows)[id], status, error, now)] else old(rows)
    {
      if id in rows {
        rows := rows[id := WithStatus(rows[id], status, error, now)];
      }
    }

    /** The UPDATE that stores the video metadata. */
    method UpdateMetadata(id: string, info: Fetcher.VideoInfo)
      modifies this
      ensures rows == if id in old(rows) then old(rows)[id := WithMetadata(old(rows)[id], info)] else old(rows)
    {
      if id in rows {
        rows := rows[id := WithMetadata(rows[id], info)];
      }
    }

    /** The UPDATE that records a finished download. */
    method MarkCompleted(id: string, path: string, size: string, now: int)
      modifies this
      ensures rows == if id in old(rows) then old(rows)[id := WithCompletion(old(rows)[id], path, size, now)] else old(rows)
    {
      if id in rows {
        rows := rows[id := WithCompletion(rows[id], path, size, now)];
      }
    }

    /** `DELETE FROM downloads WHERE created_at < ?`, returning the row count. */
    method DeleteOlderThan(cutoff: int) returns (deleted: nat)
      modifies this
      ensures rows == Retained(old(rows), cutoff)
      ensures deleted == |OlderThan(old(rows), cutoff)|
    {
      deleted := |OlderThan(rows, cutoff)|;
      rows := Retained(rows, cutoff);
    }
  }

  /** The ids of the rows in processing (`SELECT COUNT(*) ... WHERE status = 'processing'`). */
  function ProcessingIds(rows: map<string, Row>): set<string>
  {
    set id | id in rows && rows[id].status == Processing
  }

  /** The ids of the waiting rows. */
  function PendingIds(rows: map<string, Row>): set<string>
  {
    set id | id in rows && rows[id].status == NotStarted
  }

  /** The ids of the rows created before `cutoff`. */
  function OlderThan(rows: map<string, Row>, cutoff: int): (ids: set<string>)
    ensures forall id :: id in ids <==> id in rows && rows[id].createdAt < cutoff
  {
    set id | id in rows && rows[id].createdAt < cutoff
  }

  /** The table after deleting every row created before `cutoff`; the rest is kept unchanged. */
  function Retained(rows: map<string, Row>, cutoff: int): (r: map<string, Row>)
    ensures forall id :: id in r <==> id in rows && cutoff <= rows[id].createdAt
    ensures forall id :: id in r ==> r[id] == rows[id]
  {
    map id | id in rows && cutoff <= rows[id].createdAt :: rows[id]
  }
}
