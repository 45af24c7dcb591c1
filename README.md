# Job queue of a YouTube downloader, in Dafny

This project models the job queue of a small YouTube download service and proves properties about that model. The service itself is a Flask application (`app.py`) with a background worker thread, plus a standalone copy of that worker (`worker.py`).

- **Submission.** A client submits a URL. The service validates it and inserts a `not_started` row into the `downloads` table. The first submission also starts the worker.
- **Worker loop.** Each turn first sweeps out every row, and its file, created more than ten days earlier. It then takes the oldest waiting row and marks it `processing`. It asks `yt-dlp` for metadata, downloads the video, looks for the file under one of four extensions, and records `completed` (with path, size label and time) or `failed` (with the error and time).
- **Read endpoints.** These report a waiting row's place in the queue and an estimated start. The estimate uses the mean processing time of the latest completed downloads.
- **Video endpoint.** It checks the row, then sends the file under a sanitised name.

The model keeps the table in memory as a `map` held by a class. Its methods are the SQL statements the code issues. Processes, clocks and the disk are parameters:

- **yt-dlp runs.** The result of each `yt-dlp` run is a value: an exit code with stderr, metadata as a map, a timeout, or an exception.
- **Filesystem.** The filesystem is a map from path to size. The paths whose removal raises are a set.
- **Ids and clocks.** The fresh id and the clock readings are arguments. A timestamp is an integer count of microseconds.
- **Ordered queries.** The ordered SQL queries of the read endpoints and of the average (`ORDER BY ...`, with or without `LIMIT`) are arguments, each together with a predicate that states what that query guarantees. The exception is the worker's `ORDER BY created_at ASC LIMIT 1`: `Worker.SelectNext` picks that row itself, as any waiting row with the least `created_at`.

Modules:

- **`Wrappers`** holds `Option` and `Result`.
- **`Text`** holds the ASCII approximations of `\w`, `\s` and `str.strip`, and decimal digits.
- **`UrlValidation`** is `is_valid_youtube_url`.
- **`FileSize`** is `format_filesize`.
- **`Fetcher`** covers the `yt-dlp` metadata mapping, the outcome classification of the download and the extension search.
- **`JobStore`** holds the status lifecycle, the row, and the `Downloads` table class with its updates.
- **`Retention`** is `cleanup_old_entries`.
- **`Eta`** is the average processing time, the queue position, the estimate, and the single-row and list read paths.
- **`Worker`** holds the start-once guard, FIFO selection and one iteration of the worker loop.
- **`Filename`** is the attachment-name sanitiser and `os.path.splitext`.
- **`Api`** covers the submission checks and the video endpoint's decisions.

Two behaviours of the code the model keeps as written:

- **Status name.** The waiting status is stored as the string `not_started`.
- **Sweep scope.** The sweep deletes old rows whatever their status, including `processing` rows.

The two copies of the download step are modelled by one function with a `Variant` argument:

- **`Standalone`** is `download_video` in `worker.py`.
- **`Embedded`** is the inline code in `app.py`'s worker loop.

Within the modelled outcomes they differ in one case. On the one-hour timeout, `worker.py` reports "Download timed out after 1 hour". `app.py` reports the text of the `TimeoutExpired` exception.

## Model

| member | source | states |
|---|---|---|
| UrlValidation.ValidIffReference | app.py:288-300 | a URL is accepted exactly when it starts with an optional `http://`/`https://`, an optional `www.`, one of the four host paths and at least one word or hyphen character; anything may follow (`re.match` anchors only at the start) |
| UrlValidation.MatchesAnyIff | app.py:296-300 | the loop over the four patterns returns true exactly when some pattern matches |
| UrlValidation.PatternGivesPrefix | app.py:290-293 | a match of one pattern yields the scheme and `www.` choice and the host path that form a prefix followed by an id character |
| UrlValidation.PrefixGivesPattern | app.py:290-293 | conversely, any such prefix followed by an id character makes that pattern match, however the optional groups are chosen |
| UrlValidation.AcceptsWatchUrl | app.py:290 | `https://www.youtube.com/watch?v=abc123` is accepted |
| UrlValidation.RejectsNotAUrl | app.py:288-300 | `not-a-url` is rejected |
| UrlValidation.MatchesPattern | app.py:296-300 | `re.match` of one pattern, as a greedy scan from the start; its meaning is given by `PatternGivesPrefix` and `PrefixGivesPattern` |
| UrlValidation.MatchesAny | app.py:296-300 | the `for pattern in youtube_patterns` loop returning at the first match; characterised by `MatchesAnyIff` |
| UrlValidation.IsValidYoutubeUrl | app.py:288-300 | `is_valid_youtube_url`: some of the four patterns matches; characterised by `ValidIffReference` |
| Text.Strip | app.py:313 | the stripped string is the input minus whitespace runs at both ends, has no whitespace at either end, and is empty exactly when the input is all whitespace |
| Text.StripIsMiddle | app.py:313 | the stripped string is a slice of the input with only whitespace before and after it |
| Text.StripUnchanged | app.py:495 | a string with no whitespace at either end is unchanged by strip |
| Text.DecimalValueOfNatToString | worker.py:14 | the decimal digits printed for a byte count read back as that count |
| Text.NatToString | worker.py:14 | `f"{size_bytes}"`: decimal digits with no leading zero, reading back as the number (`DecimalValueOfNatToString`) |
| FileSize.UnitThresholds | worker.py:13-20 | the unit is B below 1024, KB below 1024², MB below 1024³ and GB from there on |
| FileSize.SmallSizesExact | worker.py:13-14 | below 1024 the label is the exact integer followed by " B" |
| FileSize.RenderedMagnitude | worker.py:15-20 | the label is integer digits, a point and 1 (KB, MB) or 2 (GB) fraction digits, then the unit; its digits read back within half a last digit of the size in that unit |
| FileSize.RoundHalfEven | worker.py:15-20 | the scaled size is the nearest integer to the exact quotient, ties to even |
| FileSize.FiveMegabytes | worker.py:17-18 | 5,242,880 bytes renders as "5.0 MB" |
| FileSize.RoundOfMultiple | worker.py:15-20 | a size that is an exact multiple of the unit scales to that multiple, with no rounding |
| FileSize.DigitsReadBack | worker.py:15-20 | the integer and fraction digits of a label are decimal digits that read back as its scaled value |
| FileSize.FormatFilesize | worker.py:11-20 | `format_filesize`: the size label in B, KB, MB or GB; its meaning is given by `UnitThresholds`, `SmallSizesExact` and `RenderedMagnitude` |
| FileSize.UnitFor | worker.py:13-19 | the threshold chain choosing B, KB, MB or GB; pinned by `UnitThresholds` |
| Fetcher.ExtractVideoInfo | worker.py:41-53 | metadata exists exactly when the probe exited 0 with a JSON object; the title defaults to "Unknown", the duration is `duration_string`, else `duration`, else "", and the thumbnail defaults to "" |
| Fetcher.Get | worker.py:44-46 | `dict.get(key, default)`: the value under the key, or the default when the key is absent; used by `ExtractVideoInfo` |
| Fetcher.FirstExistingFrom | worker.py:88-92 | a found index names an existing candidate, and no earlier candidate exists |
| Fetcher.FindDownloadedFile | worker.py:86-92 | the loop with `break` returns the first existing path among `downloads/<id>.mp4`, `.webm`, `.mkv`, `.avi`, or none |
| Fetcher.CandidatePath | worker.py:89 | the candidate path `downloads/<id>.<ext>` |
| Fetcher.FoundFile | worker.py:88-92 | a found path exists, and nothing is found exactly when no candidate path exists |
| Fetcher.DownloadResult | worker.py:83-110 | exactly one of a result or an error; a non-zero exit gives "yt-dlp error: " + stderr, no file gives "Downloaded file not found", a timeout gives "Download timed out after 1 hour" (the exception text in app.py), any other exception its text; success gives the found path and its size label |
| Fetcher.DownloadVideo | app.py:210-233 | the download step computes that classification |
| JobStore.StatusNamesDistinct | worker.py:183-236 | the four status strings tell the states apart |
| JobStore.WithStatusChanges | worker.py:117-123 | `update_status` 'failed' sets status, error and processed_at; any other status changes only the status; url, created_at, title, duration, thumbnail, filepath and filesize are never touched |
| JobStore.NewRowWellFormed | app.py:325-328 | a submitted row is `not_started`, with no processed_at, file or error |
| JobStore.NewRow | app.py:325-328 | the submitted row; its shape is given by `NewRowWellFormed` |
| JobStore.WithStatus | worker.py:117-123 | `update_status` on one row; its effect is given by `WithStatusChanges` |
| JobStore.WithMetadata | worker.py:209-212 | the metadata update on one row, setting title, duration and thumbnail; used by `Worker.ProcessedRow` |
| JobStore.WithCompletion | worker.py:227-230 | the success update on one row, setting status, filepath, filesize and processed_at; used by `Worker.ProcessedRow` |
| JobStore.Downloads.constructor | app.py:39-55 | on a fresh database, `init_db` leaves an empty table |
| JobStore.Downloads.Insert | app.py:325-328 | the insert adds exactly one row under the new id; every other row is unchanged |
| JobStore.Downloads.UpdateStatus | worker.py:112-126 | only the named row changes, as `update_status` says; an unknown id changes nothing |
| JobStore.Downloads.UpdateMetadata | worker.py:205-214 | only the named row's title, duration and thumbnail change |
| JobStore.Downloads.MarkCompleted | worker.py:224-232 | only the named row changes, to completed with filepath, filesize and processed_at |
| JobStore.Downloads.DeleteOlderThan | worker.py:157-159 | exactly the rows created before the cutoff go, the rest are kept unchanged, and the count is the number deleted |
| JobStore.OlderThan | worker.py:139-141 | the selected ids are exactly the rows created before the cutoff |
| JobStore.Retained | worker.py:158 | the rows kept are exactly those created at or after the cutoff, unchanged |
| JobStore.ProcessingIds | app.py:448-449 | the rows in processing, whose number the COUNT query returns (the list endpoint issues the same query at app.py:383-384); used by `Eta.GetDownload` and `Eta.ListDownloads` |
| Retention.CleanupOldEntries | worker.py:128-167 | after the sweep the table holds exactly the rows created at or after now − 10 days, whatever their status; the file count is the number of old rows' existing files that could be removed, a failing removal being skipped; the filesystem loses exactly those files |
| Retention.SweepStep | worker.py:147-155 | one step of the file loop removes the row's file exactly when it is set, exists and can be removed, and counts it |
| Retention.DeletedFilesBounded | worker.py:143-155 | no more files are removed than there are old rows |
| Retention.RemovedFilesAreOldFiles | worker.py:149-153 | every removed file existed, could be removed, and is the stored path of an old row |
| Retention.SweepIdempotent | worker.py:136-159 | a second sweep with the same cutoff finds and deletes nothing |
| Retention.SweepPartitions | worker.py:157-159 | kept rows plus deleted rows are all the rows |
| Retention.RetentionHorizon | worker.py:136 | a row 11 days old is deleted and one 9 days old is kept |
| Retention.Cutoff | worker.py:136 | `now − timedelta(days=10)` in microseconds; pinned by `RetentionHorizon` |
| Retention.RemovablePaths | worker.py:147-153 | the stored paths of the given rows that exist and can be removed: each is non-empty, on disk and not a failing removal |
| Retention.HasFile | worker.py:150 | `if filepath and os.path.exists(filepath)`: the path is set, non-empty and on disk; used by `SweepStep` and `RemovablePaths` |
| Eta.AverageProcessingTime | app.py:342-365 | the function returns the mean of the positive durations, in seconds, over the rows of the ≤20-latest-completed query, or 60.0 when there are none |
| Eta.PositiveDurations | app.py:354-361 | the positive `processed_at − created_at` durations of the window's rows, in window order: at most one per row, all positive |
| Eta.MeanSeconds | app.py:365 | the 60-second default for no durations, otherwise the mean in seconds: mean × count × 10⁶ equals the total in microseconds |
| Eta.SumPositiveDurations | app.py:352-363 | the loop's total and count are the sum and the number of the positive durations of the query's rows, in order |
| Eta.DurationsStep | app.py:358-361 | one more row adds its duration to the list exactly when that duration is positive |
| Eta.MeanBetween | app.py:353-365 | with at least one positive duration, the average lies between the shortest and the longest |
| Eta.AveragePositive | app.py:349-365 | the average is 60.0 when no duration is positive, and always positive |
| Eta.SumLower | app.py:353-361 | the accumulated total of durations of at least `lo` is at least count × lo |
| Eta.SumUpper | app.py:353-361 | the accumulated total of durations of at most `hi` is at most count × hi |
| Eta.Round | app.py:400 | `round` gives an integer within one half of its argument, and at an exact half the even one |
| Eta.QueuePositionBounds | app.py:440-445 | a waiting row's position, 1 + the waiting rows created strictly earlier, lies between 1 and the number of waiting rows |
| Eta.QueuePosition | app.py:441-445 | 1 + the number of waiting rows created strictly earlier; bounded by `QueuePositionBounds` |
| Eta.PendingBefore | app.py:441-443 | the waiting rows created strictly before the given time, whose number the COUNT query returns; used by `QueuePosition` and `QueuePositionBounds` |
| Eta.EstimatedStart | app.py:452-453 | round((position − 1 + processing count) × average): within one half of that product |
| Eta.GetDownload | app.py:421-472 | an unknown id gives nothing; a waiting row gets that position and round((position − 1 + processing count) × average); any other status gets no position and no estimate |
| Eta.IndexOf | app.py:397 | `list.index` gives the first position holding the id |
| Eta.ListDownloads | app.py:368-419 | every row, newest first; a waiting row's position is its 1-based index in the ascending-created_at queue, with the same estimate formula; other rows get none |
| Eta.BuildViews | app.py:390-416 | the loop builds one view per listed row, in the listed order, each with that row's position and estimate |
| Eta.ListedView | app.py:393-400 | one row's view in the list: for a waiting row in the queue, its queue index + 1 and the estimate for it, otherwise neither; its fields are given by `ViewFields` |
| Eta.ViewFields | app.py:391-400 | when the queue holds exactly the waiting rows, each waiting row's view has its 1-based queue index and the estimate for it, and every other row's view has neither |
| Eta.ListPositionsAreOneToK | app.py:377-397 | over a queue without repeats, the positions handed out are exactly 1..k |
| Eta.ListPositionAgrees | app.py:440-445 | when waiting rows have distinct creation times, the list's position (`queue_ids.index(id) + 1`) equals this single-row position |
| Eta.DistinctCard | app.py:440-445 | a queue without repeats has as many entries as distinct ids |
| Worker.WorkerGuard.constructor | app.py:36-37 | no worker running and no thread started |
| Worker.WorkerGuard.StartWorker | app.py:57-65 | after any call the worker is running and exactly one thread has ever been started; a thread starts only if none was running |
| Worker.OldestIn | app.py:156-159 | every non-empty set of rows has one created no later than the others |
| Worker.OldestPendingExists | app.py:156-160 | a table with a waiting row has an oldest waiting row |
| Worker.SelectNext | app.py:156-160 | the next row is a waiting row with minimal created_at, and there is none exactly when nothing waits |
| Worker.ProcessedRowOutcome | worker.py:198-236 | the processed row ends completed exactly when the download gave a result (filepath, filesize, processed_at set) and failed otherwise (error and processed_at set); metadata is written only when the probe gave some; url and created_at are kept |
| Worker.ProcessedRowFollowsLifecycle | worker.py:198-236 | each write, taken on the row the previous one produced, is an allowed step: marking gives not_started → processing, the metadata write keeps the status, and the final write goes processing → completed or failed; so the row never returns to not_started |
| Worker.ProcessedRowWellFormed | app.py:173-251 | a consistent waiting row stays consistent: processed_at exactly in terminal states, file columns exactly when completed, error only when failed |
| Worker.ProcessedRow | worker.py:198-236 | the row after one pass: marked processing, metadata stored when the probe gave some, then the success or the failure columns; its meaning is given by `ProcessedRowOutcome`, `ProcessedRowFollowsLifecycle` and `ProcessedRowWellFormed` |
| Worker.ProcessNext | app.py:160-251 | the pass changes only the oldest waiting row, to its processed form; with no waiting row nothing changes |
| Worker.ProcessRow | app.py:163-251 | the steps on the selected row (mark processing, store metadata when there is some, store the outcome) leave every other row as it was and turn that row into its processed form |
| Worker.PassDrainsQueue | app.py:162-251 | the pass removes exactly the picked row from the waiting set |
| Worker.PassPreservesTable | app.py:162-251 | the pass changes no other row, keeps the set of ids, keeps the table consistent, and leaves the set of processing rows as it was |
| Worker.WorkerIteration | worker.py:174-239 | one turn sweeps, then processes the oldest waiting row of the swept table against the files left by the sweep plus those the download wrote |
| Filename.RemoveDisallowed | app.py:495 | only word characters, whitespace and '-' remain, every such character of the input occurs in the result, and the word characters are unchanged, in order |
| Filename.RemoveDisallowedAppend | app.py:495 | the removal works character by character: the result for a concatenation is the concatenation of the results |
| Filename.RemoveDisallowedSingle | app.py:495 | one character is kept exactly when it is a word character, whitespace or '-', and dropped otherwise |
| Filename.RemoveDisallowedKeepsAllowed | app.py:495 | a string of allowed characters only is unchanged |
| Filename.CollapseSeparators | app.py:496 | the result is empty exactly when the input is, starts with '-' exactly when the input starts with '-' or whitespace, and has no two adjacent hyphens |
| Filename.CollapseWithoutSeparators | app.py:496 | a string without '-' or whitespace is unchanged |
| Filename.CollapseRun | app.py:496 | a non-empty run of '-' and whitespace at the front, followed by nothing or a non-separator, becomes one '-' and the rest collapses on its own |
| Filename.CollapseSplitsAtRun | app.py:496 | a maximal run of '-' and whitespace between two parts is replaced by exactly one '-', and each part collapses independently |
| Filename.CollapseKeepsChars | app.py:496 | every character of the collapsed string is '-' or a character of the input that is neither '-' nor whitespace |
| Filename.CollapseKeepsWordChars | app.py:496 | collapsing keeps the word characters, in order |
| Filename.SafeTitle | app.py:495-496 | the sanitised title holds only word characters and '-', has no "--", and keeps the title's word characters in order |
| Filename.SafeTitleOfAllowed | app.py:495-496 | for a title of allowed characters with no whitespace at either end, sanitising only collapses the separators |
| Filename.SafeTitleOfWord | app.py:495-496 | a title of word characters only is sent unchanged |
| Filename.SafeTitleOfJoin | app.py:495 | removal and strip leave two words joined by a run of '-' and whitespace unchanged |
| Filename.CollapseOfJoin | app.py:496 | collapsing two words joined by such a run gives the words joined by one '-' |
| Filename.SafeTitleJoinsWords | app.py:495-496 | two words joined by any non-empty run of '-' and whitespace become the two words joined by one '-' |
| Filename.SafeTitleOfVideo | app.py:493-496 | the default title "video" is sanitised to itself |
| Filename.StripKeepsWordChars | app.py:495 | stripping keeps every word character and adds none |
| Filename.StripKeepsChars | app.py:495 | every character of the stripped string comes from the input |
| Filename.WordCharsOfMiddle | app.py:495 | cutting whitespace off both ends of a string keeps its word characters |
| Filename.WordCharsAppend | app.py:495-496 | the word characters of a concatenation are those of its parts |
| Filename.LastIndexOf | app.py:498 | `rfind` gives the last index of the character, or −1 |
| Filename.Extension | app.py:498 | the extension, if any, is a suffix of the path that starts with '.', holds no other '.' and no '/'; it is non-empty exactly when the last '.' comes after the last '/' and some character other than '.' lies between them |
| Filename.ExtensionOfDoubleSuffix | app.py:498 | only the last suffix counts: `a/b.tar.gz` has extension `.gz` |
| Filename.HiddenFileHasNoExtension | app.py:498 | a hidden file's leading dot is no extension: `a/.x` has none |
| Filename.DotInDirectoryIsNoExtension | app.py:498 | a dot in a directory name is no extension: `a.b/c` has none |
| Filename.ExtensionOfDownloadedFile | app.py:498 | for `downloads/<id>.<ext>` with a dot-free, slash-free id, the extension is `.<ext>` |
| Filename.DownloadName | app.py:498-499 | the sanitised title followed by the path's extension; its meaning is given by `Api.SentNameIsSafe` |
| Api.ValidateUrl | app.py:310-320 | a missing body or member gives "No URL provided"; a blank URL gives "URL is empty"; a non-YouTube URL gives "Invalid YouTube URL"; otherwise the stripped URL, which is non-empty, has no whitespace at its ends, and matches the pattern description |
| Api.SubmitDownload | app.py:306-340 | an error changes neither the table nor the worker; success adds exactly one `not_started` row under the fresh id with the stripped URL, leaves every other row unchanged, and the worker is running with one thread |
| Api.TitleOrDefault | app.py:493 | a missing or empty title becomes "video" |
| Api.VideoRequest | app.py:474-505 | the checks run in order: an unknown id gives not found, a status other than completed gives not ready, a missing or empty path or a path not on disk gives file not found; otherwise the stored file is sent under the sanitised title plus its extension |
| Api.VideoReply.Code | app.py:482-505 | the HTTP status: 200 exactly when the file is sent, 400 exactly when the row is not ready, 404 otherwise |
| Api.VideoReply.Message | app.py:482-490 | the error text; empty exactly when the file is sent |
| Api.SentNameIsSafe | app.py:493-499 | a sent name is a stem of word characters and single hyphens, keeping the title's word characters, followed by the path's extension |
| Api.CompletedRowIsSent | app.py:474-499 | a completed row whose non-empty stored path is on disk is sent as that path under the sanitised title plus the path's extension |
| Api.UntitledRowIsSentAsVideo | app.py:493-499 | a completed row with a missing or empty title whose file is on disk is sent as "video" plus the path's extension |
| Api.CompletedDownloadIsSent | app.py:474-499 | a row the worker completed, whose file is still on disk, is sent with that file's extension |

## Left out

- Flask routing, JSON encoding, CORS, `index` and `health` are left out. Only the decisions behind the routes are modelled.
- The video endpoint's status codes are kept as `VideoReply.Code`; those of submission and `get_download` are not modelled.
- A JSON body whose `url` is not a string, or that is not an object, is not modelled. The body is a map from strings to strings.
- sqlite3 and SQL text are not modelled. The table is a map held by `JobStore.Downloads`.
  - Timestamps are integers. The code compares the ISO-8601 strings from `datetime.now().isoformat()`. `isoformat()` leaves out the fraction when the microsecond is 0, so the strings do not all have one length. They still compare in time order within a year range of four digits: a seconds-only string is a prefix of every string of the same second that has a fraction, and sorts before it.
  - The results of ordered queries are parameters constrained by `Eta.IsRecentWindow`, `Eta.IsQueueOrder` and `Eta.IsNewestFirst`.
  - Among rows with equal `created_at`, `Worker.SelectNext` may pick any one, as SQL may.
- `subprocess.run` of `yt-dlp`, JSON parsing of its output and the timeouts are not modelled. Their outcome is a `Fetcher.ProbeOutcome` or `Fetcher.DownloadOutcome` parameter.
- The metadata map holds strings. A JSON `null` or numeric `duration` and the later `str(...)` of it are not modelled.
- Filesystem calls (`exists`, `getsize`, `remove`, `makedirs`) and the cookie file set up from the environment are not modelled. For these, existence and size are a map, and failing removals are a set.
- In `Worker.WorkerIteration`, the files the download writes are a parameter (`produced`).
- Concurrency is not modelled: the worker thread, the unsynchronised `worker_running` flag, `time.sleep` and the endless polling are left out. One loop turn is modelled (`Worker.WorkerIteration`), and `start_worker` is modelled sequentially.
- A row left in `processing` by a crash mid-pass is not modelled. Neither is the outer `except` that logs and sleeps when a database call raises.
- The two loops wrap the database writes differently, and this is not modelled; the model assumes every database write succeeds. In `app.py` the inner `try` (app.py:175-251) also covers the metadata write (app.py:182-189) and the completion write (app.py:239-246), so a database error there marks the row `failed` with the exception text (app.py:248-251). In `worker.py` those writes (worker.py:207-214, worker.py:225-232) are outside `download_video`'s `try`, so such an error reaches the outer `except` (worker.py:241-243) and the row stays `processing`.
- `uuid.uuid4()` and `datetime.now()` are not modelled. `SubmitDownload` takes `freshId` and `now`. The worker takes one `doneAt` time for both its failure and its completion writes.
- `Eta.AverageProcessingTime` uses real arithmetic, not binary floating point. The `except: continue` for an unparsable timestamp cannot arise with integer timestamps.
- `Eta.Round` rounds the exact real product half to even, like Python's `round`. It does not model the float rounding of the product before `round`.
- `FileSize.FormatFilesize` rounds the exact quotient half to even. Python's `.1f`/`.2f` round the binary float, which is the exact quotient for sizes below 2^53 bytes. The tie case assumes the float equals the exact quotient.
- `Text.IsWordChar` and `Text.IsSpace` are ASCII approximations of Python's Unicode `\w`, `\s` and `str.strip`.
- Logging (`print`) is left out.
- `Eta.ListPositionAgrees` holds only when waiting rows have distinct `created_at`. With ties, the list gives tied rows distinct consecutive positions, while the single-row endpoint gives them the same position.
