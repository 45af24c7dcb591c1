/**
 * Queue position and wait estimate.  The average processing time is the
 * mean of `processed_at - created_at` over the at most 20 completed rows
 * with the latest `processed_at`, counting positive durations only, with 60
 * seconds when there is none.  A waiting row's position is one more than
 * the number of waiting rows created strictly before it, and its estimate
 * is round((position - 1 + rows in processing) * average).
 *
 * The results of the ordered SQL queries are inputs, each constrained by a
 * predicate that states what its ORDER BY and LIMIT guarantee.
 */
module Eta {
  import opened Wrappers
  import opened JobStore

  const MaxSamples: nat := 20
  const DefaultSeconds: real := 60.0

  /** The waiting rows created strictly before `createdAt`. */
  function PendingBefore(rows: map<string, Row>, createdAt: int): set<string>
  {
    set id | id in rows && rows[id].status == NotStarted && rows[id].createdAt < createdAt
  }

  /** A row the average query can return: completed with `processed_at` set. */
  predicate IsSample(rows: map<string, Row>, id: string)
  {
    id in rows && rows[id].status == Completed && rows[id].processedAt.Some?
  }

  function Samples(rows: map<string, Row>): set<string>
  {
    set id | id in rows && IsSample(rows, id)
  }

  function ProcessedAt(rows: map<string, Row>, id: string): int
    requires IsSample(rows, id)
  {
    rows[id].processedAt.value
  }

  predicate Distinct(s: seq<string>)
  {
    forall i, j :: 0 <= i < j < |s| ==> s[i] != s[j]
  }

  /**
   * The result of `... WHERE status = 'completed' AND processed_at IS NOT NULL
   * ORDER BY processed_at DESC LIMIT 20`: distinct samples, latest first,
   * as many as there are up to 20, and no sample left out is later than one
   * taken.
   */
  ghost predicate IsRecentWindow(rows: map<string, Row>, window: seq<string>)
  {
    && Distinct(window)
    && (forall i :: 0 <= i < |window| ==> IsSample(rows, window[i]))
    && (forall i, j :: 0 <= i < j < |window| ==> ProcessedAt(rows, window[j]) <= ProcessedAt(rows, window[i]))
    && |window| == (if |Samples(rows)| < MaxSamples then |Samples(rows)| else MaxSamples)
    && (forall id, i :: IsSample(rows, id) && id !in window && 0 <= i < |window| ==> ProcessedAt(rows, id) <= ProcessedAt(rows, window[i]))
  }

  /** The durations of the window's rows that are positive, in window order. */
  function PositiveDurations(rows: map<string, Row>, window: seq<string>): (ds: seq<int>)
    ensures |ds| <= |window|
    ensures forall k :: 0 <= k < |ds| ==> ds[k] > 0
  {
    if window == [] then []
    else
      var rest := PositiveDurations(rows, window[..|window| - 1]);
      var id := window[|window| - 1];
      if id in rows && rows[id].processedAt.Some? && rows[id].processedAt.value - rows[id].createdAt > 0 then
        rest + [rows[id].processedAt.value - rows[id].createdAt]
      else
        rest
  }

  function Sum(s: seq<int>): int
  {
    if s == [] then 0 else Sum(s[..|s| - 1]) + s[|s| - 1]
  }

  /** The mean of the durations in seconds, or the 60-second default when there are none. */
  function MeanSeconds(ds: seq<int>): (m: real)
    ensures |ds| == 0 ==> m == DefaultSeconds
    ensures |ds| > 0 ==> m * (|ds| as real) * (MicrosPerSecond as real) == Sum(ds) as real
  {
    if |ds| == 0 then DefaultSeconds else (Sum(ds) as real / |ds| as real) / MicrosPerSecond as real
  }

  /** `get_average_processing_time`, over the rows its query returned. */
  method AverageProcessingTime(rows: map<string, Row>, window: seq<string>) returns (avg: real)
    requires IsRecentWindow(rows, window)
    ensures avg == MeanSeconds(PositiveDurations(rows, window))
  {
    if |window| == 0 {
      return DefaultSeconds;
    }
    var totalMicros, count := SumPositiveDurations(rows, window);
    avg := if count > 0 then (totalMicros as real / count as real) / MicrosPerSecond as real else DefaultSeconds;
  }

  /** The loop of `get_average_processing_time`: the total and the number of the positive durations. */
  method SumPositiveDurations(rows: map<string, Row>, window: seq<string>) returns (totalMicros: int, count: nat)
    requires forall i :: 0 <= i < |window| ==> IsSample(rows, window[i])
    ensures totalMicros == Sum(PositiveDurations(rows, window))
    ensures count == |PositiveDurations(rows, window)|
  {
    totalMicros, count := 0, 0;
    var i := 0;
    while i < |window|
      invariant 0 <= i <= |window|
      invariant totalMicros == Sum(PositiveDurations(rows, window[..i]))
      invariant count == |PositiveDurations(rows, window[..i])|
    {
      var r := rows[window[i]];
      var duration := r.processedAt.value - r.createdAt;
      ghost var prev := PositiveDurations(rows, window[..i]);
      DurationsStep(rows, window, i, prev, PositiveDurations(rows, window[..i + 1]));
      if duration > 0 {
        SumAppend(prev, duration);
        totalMicros := totalMicros + duration;
        count := count + 1;
      }
      i := i + 1;
    }
    assert window[..i] == window;
  }

  /** Extending the window by one row appends that row's duration when it is positive. */
  lemma DurationsStep(rows: map<string, Row>, window: seq<string>, i: nat, prev: seq<int>, next: seq<int>)
    requires i < |window| && IsSample(rows, window[i])
    requires prev == PositiveDurations(rows, window[..i]) && next == PositiveDurations(rows, window[..i + 1])
    ensures var d := rows[window[i]].processedAt.value - rows[window[i]].createdAt;
      next == if d > 0 then prev + [d] else prev
  {
    var w := window[..i + 1];
    assert w[..|w| - 1] == window[..i] && w[|w| - 1] == window[i];
  }

  lemma SumAppend(s: seq<int>, x: int)
    ensures Sum(s + [x]) == Sum(s) + x
  {
    assert (s + [x])[..|s|] == s;
  }

  /** A sum of values no smaller than `lo` is at least |s| * lo. */
  lemma {:induction false} SumLower(s: seq<int>, lo: int)
    requires forall k :: 0 <= k < |s| ==> lo <= s[k]
    ensures |s| * lo <= Sum(s)
  {
    if s != [] {
      SumLower(s[..|s| - 1], lo);
      assert (|s| - 1) * lo + lo == |s| * lo;
    }
  }

  /** A sum of values no larger than `hi` is at most |s| * hi. */
  lemma {:induction false} SumUpper(s: seq<int>, hi: int)
    requires forall k :: 0 <= k < |s| ==> s[k] <= hi
    ensures Sum(s) <= |s| * hi
  {
    if s != [] {
      SumUpper(s[..|s| - 1], hi);
      assert (|s| - 1) * hi + hi == |s| * hi;
    }
  }

  lemma DivideBounds(total: real, n: real, lo: real, hi: real)
    requires n > 0.0 && n * lo <= total <= n * hi
    ensures lo <= total / n <= hi
  {
  }

  /**
   * With at least one positive duration, the average lies between the
   * shortest and the longest of them.
   */
  lemma MeanBetween(ds: seq<int>, lo: int, hi: int)
    requires |ds| > 0
    requires forall k :: 0 <= k < |ds| ==> lo <= ds[k] <= hi
    ensures lo as real / MicrosPerSecond as real <= MeanSeconds(ds) <= hi as real / MicrosPerSecond as real
  {
    SumLower(ds, lo);
    SumUpper(ds, hi);
    var n := |ds| as real;
    var total := Sum(ds) as real;
    assert n * lo as real <= total <= n * hi as real;
    DivideBounds(total, n, lo as real, hi as real);
    DivideBounds(total / n, MicrosPerSecond as real, lo as real / MicrosPerSecond as real, hi as real / MicrosPerSecond as real);
  }

  /**
   * The average of a window is positive: the 60-second default when no
   * duration in it is positive, at least one microsecond otherwise.
   */
  lemma {:induction false} AveragePositive(rows: map<string, Row>, window: seq<string>)
    ensures PositiveDurations(rows, window) == [] ==> MeanSeconds(PositiveDurations(rows, window)) == 60.0
    ensures MeanSeconds(PositiveDurations(rows, window)) > 0.0
  {
    var ds := PositiveDurations(rows, window);
    if |ds| > 0 {
      SumLower(ds, 1);
      var n := |ds| as real;
      DivideBounds(Sum(ds) as real, n, 1.0, Sum(ds) as real / n);
    }
  }

  /** Python's `round` on the estimate: nearest integer, ties to even. */
  function Round(x: real): (r: int)
    ensures r as real - 0.5 <= x <= r as real + 0.5
    ensures (x == r as real + 0.5 || x == r as real - 0.5) ==> r % 2 == 0
  {
    var f := x.Floor;
    var frac := x - f as real;
    if frac < 0.5 || (frac == 0.5 && f % 2 == 0) then f else f + 1
  }

  /** A waiting row's 1-based place in the queue. */
  function QueuePosition(rows: map<string, Row>, id: string): nat
    requires id in rows && rows[id].status == NotStarted
  {
    1 + |PendingBefore(rows, rows[id].createdAt)|
  }

  /** round((downloads ahead + downloads in processing) * average). */
  function EstimatedStart(position: nat, processing: nat, avg: real): (e: int)
    requires position >= 1
    ensures ((position - 1 + processing) as real) * avg - 0.5 <= e as real <= ((position - 1 + processing) as real) * avg + 0.5
  {
    Round(((position - 1 + processing) as real) * avg)
  }

  /** A waiting row's position is between 1 and the number of waiting rows. */
  lemma QueuePositionBounds(rows: map<string, Row>, id: string)
    requires id in rows && rows[id].status == NotStarted
    ensures 1 <= QueuePosition(rows, id) <= |PendingIds(rows)|
  {
    var before := PendingBefore(rows, rows[id].createdAt);
    assert before <= PendingIds(rows) - {id};
    assert id in PendingIds(rows);
    SubsetCard(before, PendingIds(rows) - {id});
  }

  lemma SubsetCard(a: set<string>, b: set<string>)
    requires a <= b
    ensures |a| <= |b|
  {
    assert b == a + (b - a);
  }

  /** The row and the queue figures a read endpoint returns. */
  datatype DownloadView = DownloadView(id: string, row: Row, queuePosition: Option<nat>, estimatedStartSeconds: Option<int>)

  /** `get_download`, given the rows of the average query. */
  method GetDownload(rows: map<string, Row>, id: string, window: seq<string>) returns (r: Option<DownloadView>)
    requires IsRecentWindow(rows, window)
    ensures r.None? <==> id !in rows
    ensures r.Some? ==> r.value.id == id && r.value.row == rows[id]
    ensures r.Some? && rows[id].status == NotStarted ==>
      && r.value.queuePosition == Some(QueuePosition(rows, id))
      && r.value.estimatedStartSeconds == Some(EstimatedStart(QueuePosition(rows, id), |ProcessingIds(rows)|,
                                                              MeanSeconds(PositiveDurations(rows, window))))
    ensures r.Some? && rows[id].status != NotStarted ==> r.value.queuePosition.None? && r.value.estimatedStartSeconds.None?
  {
    if id !in rows {
      return None;
    }
    var row := rows[id];
    var position: Option<nat> := None;
    var estimate: Option<int> := None;
    if row.status == NotStarted {
      var avg := AverageProcessingTime(rows, window);
      var ahead := |PendingBefore(rows, row.createdAt)|;
      var queuePosition := ahead + 1;
      var processing := |ProcessingIds(rows)|;
      position := Some(queuePosition);
      estimate := Some(EstimatedStart(queuePosition, processing, avg));
    }
    r := Some(DownloadView(id, row, position, estimate));
  }

  /** The first index of `x` in `s` (`list.index`). */
  function IndexOf(s: seq<string>, x: string): (k: nat)
    requires x in s
    ensures k < |s| && s[k] == x && forall j :: 0 <= j < k ==> s[j] != x
  {
    if s[0] == x then 0 else 1 + IndexOf(s[1..], x)
  }

  /** The result of `... WHERE status = 'not_started' ORDER BY created_at ASC`. */
  ghost predicate IsQueueOrder(rows: map<string, Row>, queue: seq<string>)
  {
    && Distinct(queue)
    && (forall id :: id in queue <==> id in rows && rows[id].status == NotStarted)
    && (forall i, j :: 0 <= i < j < |queue| ==> rows[queue[i]].createdAt <= rows[queue[j]].createdAt)
  }

  /** The result of `SELECT * FROM downloads ORDER BY created_at DESC`. */
  ghost predicate IsNewestFirst(rows: map<string, Row>, order: seq<string>)
  {
    && Distinct(order)
    && (forall id :: id in order <==> id in rows)
    && (forall i, j :: 0 <= i < j < |order| ==> rows[order[j]].createdAt <= rows[order[i]].createdAt)
  }

  /** The view the list endpoint builds for one row. */
  function ListedView(rows: map<string, Row>, queue: seq<string>, processing: nat, avg: real, id: string): DownloadView
    requires id in rows
  {
    var row := rows[id];
    if row.status == NotStarted && id in queue then
      var position := IndexOf(queue, id) + 1;
      DownloadView(id, row, Some(position), Some(EstimatedStart(position, processing, avg)))
    else
      DownloadView(id, row, None, None)
  }

  /** `get_downloads`: every row newest first, waiting rows with their place in the queue. */
  method ListDownloads(rows: map<string, Row>, queue: seq<string>, order: seq<string>, window: seq<string>)
    returns (views: seq<DownloadView>)
    requires IsRecentWindow(rows, window) && IsQueueOrder(rows, queue) && IsNewestFirst(rows, order)
    ensures |views| == |order|
    ensures forall i :: 0 <= i < |order| ==> views[i].id == order[i] && views[i].row == rows[order[i]]
    ensures forall i :: 0 <= i < |order| && rows[order[i]].status == NotStarted ==>
      && views[i].queuePosition == Some(IndexOf(queue, order[i]) + 1)
      && views[i].estimatedStartSeconds == Some(EstimatedStart(IndexOf(queue, order[i]) + 1, |ProcessingIds(rows)|,
                                                               MeanSeconds(PositiveDurations(rows, window))))
    ensures forall i :: 0 <= i < |order| && rows[order[i]].status != NotStarted ==>
      views[i].queuePosition.None? && views[i].estimatedStartSeconds.None?
  {
    var avg := AverageProcessingTime(rows, window);
    var processing := |ProcessingIds(rows)|;
    ListedAreRows(rows, order);
    views := BuildViews(rows, queue, order, processing, avg);
    ViewFields(rows, queue, order, processing, avg, views);
  }

  /** Every id the newest-first query lists is a row. */
  lemma ListedAreRows(rows: map<string, Row>, order: seq<string>)
    requires IsNewestFirst(rows, order)
    ensures forall i :: 0 <= i < |order| ==> order[i] in rows
  {
    forall i | 0 <= i < |order| ensures order[i] in rows {
      assert order[i] in order;
    }
  }

  /** What the listed views say, field by field, when the queue holds exactly the waiting rows. */
  lemma ViewFields(rows: map<string, Row>, queue: seq<string>, order: seq<string>, processing: nat, avg: real,
                   views: seq<DownloadView>)
    requires forall id :: id in queue <==> id in rows && rows[id].status == NotStarted
    requires forall i :: 0 <= i < |order| ==> order[i] in rows
    requires |views| == |order|
    requires forall i :: 0 <= i < |order| ==> views[i] == ListedView(rows, queue, processing, avg, order[i])
    ensures forall i :: 0 <= i < |order| ==> views[i].id == order[i] && views[i].row == rows[order[i]]
    ensures forall i :: 0 <= i < |order| && rows[order[i]].status == NotStarted ==>
      && views[i].queuePosition == Some(IndexOf(queue, order[i]) + 1)
      && views[i].estimatedStartSeconds == Some(EstimatedStart(IndexOf(queue, order[i]) + 1, processing, avg))
    ensures forall i :: 0 <= i < |order| && rows[order[i]].status != NotStarted ==>
      views[i].queuePosition.None? && views[i].estimatedStartSeconds.None?
  {
    forall i | 0 <= i < |order| && rows[order[i]].status == NotStarted
      ensures order[i] in queue
    {
    }
  }

  /** The loop of `get_downloads`: one view per listed row, in the listed order. */
  method BuildViews(rows: map<string, Row>, queue: seq<string>, order: seq<string>, processing: nat, avg: real)
    returns (views: seq<DownloadView>)
    requires forall i :: 0 <= i < |order| ==> order[i] in rows
    ensures |views| == |order|
    ensures forall i :: 0 <= i < |order| ==> views[i] == ListedView(rows, queue, processing, avg, order[i])
  {
    views := [];
    var i := 0;
    while i < |order|
      invariant 0 <= i <= |order|
      invariant |views| == i
      invariant forall k :: 0 <= k < i ==> views[k] == ListedView(rows, queue, processing, avg, order[k])
    {
      var id := order[i];
      var row := rows[id];
      var view := DownloadView(id, row, None, None);
      if row.status == NotStarted && id in queue {
        var position := IndexOf(queue, id) + 1;
        view := DownloadView(id, row, Some(position), Some(EstimatedStart(position, processing, avg)));
      }
      views := views + [view];
      i := i + 1;
    }
  }

  /** The list's positions are exactly 1 .. the queue length, one per waiting row. */
  lemma ListPositionsAreOneToK(queue: seq<string>)
    requires Distinct(queue)
    ensures forall k :: 0 <= k < |queue| ==> IndexOf(queue, queue[k]) == k
  {
  }

  /**
   * When no two waiting rows share a creation time, the list endpoint's
   * position of a waiting row agrees with the single-row computation.
   */
  lemma ListPositionAgrees(rows: map<string, Row>, queue: seq<string>, id: string)
    requires IsQueueOrder(rows, queue)
    requires forall a, b :: a in queue && b in queue && a != b ==> rows[a].createdAt != rows[b].createdAt
    requires id in rows && rows[id].status == NotStarted
    ensures IndexOf(queue, id) + 1 == QueuePosition(rows, id)
  {
    var k := IndexOf(queue, id);
    var c := rows[id].createdAt;
    var ahead := PendingBefore(rows, c);
    forall x | x in ahead ensures x in queue[..k] {
      var j :| 0 <= j < |queue| && queue[j] == x;
    }
    forall x | x in queue[..k] ensures x in ahead {
      var j :| 0 <= j < k && queue[..k][j] == x;
      assert queue[j] == x && rows[queue[j]].createdAt <= rows[queue[k]].createdAt;
    }
    assert ahead == set x | x in queue[..k];
    DistinctCard(queue[..k]);
  }

  /** A sequence without repetitions has as many elements as its set. */
  lemma {:induction false} DistinctCard(s: seq<string>)
    requires Distinct(s)
    ensures |set x | x in s| == |s|
  {
    if s != [] {
      var init := s[..|s| - 1];
      DistinctCard(init);
      assert (set x | x in s) == (set x | x in init) + {s[|s| - 1]};
      assert s[|s| - 1] !in init;
    }
  }
}
