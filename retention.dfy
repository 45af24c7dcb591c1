/**
 * `cleanup_old_entries`: every row created more than ten days before `now`
 * is deleted, whatever its status, after a best-effort removal of its file.
 * The filesystem is a map from path to size; the paths whose removal raises
 * are an input.
 */
module Retention {
  import opened Wrappers
  import opened JobStore

  const Day: int := 24 * 60 * 60 * MicrosPerSecond
  const RetentionPeriod: int := 10 * Day

  /** `datetime.now() - timedelta(days=10)`. */
  function Cutoff(now: int): int
  {
    now - RetentionPeriod
  }

  /** `if filepath and os.path.exists(filepath)`. */
  predicate HasFile(r: Row, fs: map<string, nat>)
  {
    r.filepath.Some? && r.filepath.value != "" && r.filepath.value in fs
  }

  /** The stored files of the rows `ids` that exist and that `os.remove` can remove. */
  function RemovablePaths(rows: map<string, Row>, ids: set<string>, fs: map<string, nat>, removeFails: set<string>): (ps: set<string>)
    ensures forall p :: p in ps ==> p in fs && p !in removeFails && p != ""
  {
    set id | id in ids && id in rows && HasFile(rows[id], fs) && rows[id].filepath.value !in removeFails :: rows[id].filepath.value
  }

  /**
   * One sweep: the files of the old rows are removed one by one (a failing
   * removal is skipped and not counted), then the old rows are deleted.
   * Returns the deleted row count, the removed file count and the new
   * filesystem.
   */
  method CleanupOldEntries(table: Downloads, now: int, fs: map<string, nat>, removeFails: set<string>)
    returns (deletedRows: nat, deletedFiles: nat, fs': map<string, nat>)
    modifies table
    ensures table.rows == Retained(old(table.rows), Cutoff(now))
    ensures deletedRows == |OlderThan(old(table.rows), Cutoff(now))|
    ensures deletedFiles == |RemovablePaths(old(table.rows), OlderThan(old(table.rows), Cutoff(now)), fs, removeFails)|
    ensures fs' == fs - RemovablePaths(old(table.rows), OlderThan(old(table.rows), Cutoff(now)), fs, removeFails)
  {
    var cutoff := Cutoff(now);
    var rows := table.rows;
    var oldEntries := OlderThan(rows, cutoff);
    deletedRows, deletedFiles, fs' := 0, 0, fs;
    if oldEntries != {} {
      var remaining := oldEntries;
      while remaining != {}
        invariant remaining <= oldEntries && table.rows == rows
        invariant fs' == fs - RemovablePaths(rows, oldEntries - remaining, fs, removeFails)
        invariant deletedFiles == |RemovablePaths(rows, oldEntries - remaining, fs, removeFails)|
        decreases remaining
      {
        var id :| id in remaining;
        var done := oldEntries - remaining;
        SweepStep(rows, done, id, fs, removeFails, fs', deletedFiles);
        var filepath := rows[id].filepath;
        if filepath.Some? && filepath.value != "" && filepath.value in fs' {
          if filepath.value !in removeFails {
            fs' := fs' - {filepath.value};
            deletedFiles := deletedFiles + 1;
          }
        }
        assert oldEntries - (remaining - {id}) == done + {id};
        remaining := remaining - {id};
      }
      assert oldEntries - remaining == oldEntries;
      deletedRows := table.DeleteOlderThan(cutoff);
    } else {
      assert RemovablePaths(rows, oldEntries, fs, removeFails) == {};
      assert fs - {} == fs;
      assert Retained(rows, cutoff) == rows;
    }
  }

  /** Handling one more row adds its file exactly when that file is removable and not yet removed. */
  lemma SweepStep(rows: map<string, Row>, done: set<string>, id: string, fs: map<string, nat>, removeFails: set<string>,
                  current: map<string, nat>, count: nat)
    requires id in rows && id !in done
    requires current == fs - RemovablePaths(rows, done, fs, removeFails)
    requires count == |RemovablePaths(rows, done, fs, removeFails)|
    ensures var after := RemovablePaths(rows, done + {id}, fs, removeFails);
      var p := rows[id].filepath;
      var removes := p.Some? && p.value != "" && p.value in current && p.value !in removeFails;
      && (removes ==> current - {p.value} == fs - after && |after| == count + 1)
      && (!removes ==> current == fs - after && |after| == count)
  {
    var before := RemovablePaths(rows, done, fs, removeFails);
    var after := RemovablePaths(rows, done + {id}, fs, removeFails);
    var p := rows[id].filepath;
    if HasFile(rows[id], fs) && p.value !in removeFails {
      assert after == before + {p.value};
      if p.value in current {
        assert p.value !in before;
        assert current - {p.value} == fs - after;
      } else {
        assert p.value in before;
        assert after == before;
      }
    } else {
      assert after == before;
    }
  }

  /** No more files are removed than there are old rows. */
  lemma {:induction false} DeletedFilesBounded(rows: map<string, Row>, ids: set<string>, fs: map<string, nat>, removeFails: set<string>)
    ensures |RemovablePaths(rows, ids, fs, removeFails)| <= |ids|
    decreases ids
  {
    if ids != {} {
      var id :| id in ids;
      var rest := ids - {id};
      DeletedFilesBounded(rows, rest, fs, removeFails);
      var small := RemovablePaths(rows, rest, fs, removeFails);
      var big := RemovablePaths(rows, ids, fs, removeFails);
      if id in rows && HasFile(rows[id], fs) && rows[id].filepath.value !in removeFails {
        assert big == small + {rows[id].filepath.value};
      } else {
        assert big == small;
      }
    } else {
      assert RemovablePaths(rows, ids, fs, removeFails) == {};
    }
  }

  /** Every removed file belonged to an old row, existed and was removable. */
  lemma RemovedFilesAreOldFiles(rows: map<string, Row>, cutoff: int, fs: map<string, nat>, removeFails: set<string>, p: string)
    requires p in RemovablePaths(rows, OlderThan(rows, cutoff), fs, removeFails)
    ensures p in fs && p !in removeFails
    ensures exists id :: id in rows && rows[id].createdAt < cutoff && rows[id].filepath == Some(p)
  {
  }

  /** A second sweep at the same time deletes nothing. */
  lemma SweepIdempotent(rows: map<string, Row>, cutoff: int)
    ensures OlderThan(Retained(rows, cutoff), cutoff) == {}
    ensures Retained(Retained(rows, cutoff), cutoff) == Retained(rows, cutoff)
  {
  }

  /** The sweep keeps and deletes whole rows: every row is either kept unchanged or counted as old. */
  lemma {:induction false} SweepPartitions(rows: map<string, Row>, cutoff: int)
    ensures |rows| == |Retained(rows, cutoff)| + |OlderThan(rows, cutoff)|
  {
    var kept := Retained(rows, cutoff).Keys;
    var gone := OlderThan(rows, cutoff);
    assert rows.Keys == kept + gone;
    assert kept * gone == {};
  }

  /** The retention horizon: a row eleven days old goes, a row nine days old stays. */
  lemma RetentionHorizon(rows: map<string, Row>, now: int, a: string, b: string)
    requires a in rows && rows[a].createdAt == now - 11 * Day
    requires b in rows && rows[b].createdAt == now - 9 * Day
    ensures a !in Retained(rows, Cutoff(now)) && b in Retained(rows, Cutoff(now))
  {
  }
}
