/**
 * The adapter around the external download tool.  The tool itself is not
 * modelled: what it reported (exit status, diagnostic text, parsed JSON, a
 * timeout or some other exception) and the files it left behind are inputs.
 */
module Fetcher {
  import opened Wrappers
  import FileSize

  /**
   * How the metadata probe (`yt-dlp --dump-json --no-download`) ended: its
   * exit status with stdout parsed as a JSON object (None when stdout is not
   * a JSON object), or an exception such as the 120-second timeout.  JSON
   * values are given as the text that `str()` makes of them.
   */
  datatype ProbeOutcome = ProbeExited(exitCode: int, json: Option<map<string, string>>) | ProbeRaised

  datatype VideoInfo = VideoInfo(title: string, duration: string, thumbnail: string)

  /** `dict.get(key, default)`. */
  function Get(m: map<string, string>, key: string, default: string): string
  {
    if key in m then m[key] else default
  }

  /**
   * `extract_video_info`: on exit status 0 with a JSON object, the title
   * (default "Unknown"), `duration_string` falling back to `duration` and then
   * to "", and the thumbnail (default ""); otherwise nothing.
   */
  function ExtractVideoInfo(probe: ProbeOutcome): (r: Option<VideoInfo>)
    ensures r.Some? <==> probe.ProbeExited? && probe.exitCode == 0 && probe.json.Some?
    ensures r.Some? ==> var j := probe.json.value;
      && (r.value.title == if "title" in j then j["title"] else "Unknown")
      && (r.value.duration == if "duration_string" in j then j["duration_string"] else if "duration" in j then j["duration"] else "")
      && (r.value.thumbnail == if "thumbnail" in j then j["thumbnail"] else "")
  {
    match probe
    case ProbeExited(code, json) =>
      if code == 0 && json.Some? then
        var j := json.value;
        Some(VideoInfo(Get(j, "title", "Unknown"), Get(j, "duration_string", Get(j, "duration", "")), Get(j, "thumbnail", "")))
      else
        None
    case ProbeRaised => None
  }

  /**
   * How the download run ended: its exit status and stderr, the one-hour
   * timeout (with the text of the timeout exception), or another exception
   * (with its text).
   */
  datatype DownloadOutcome = Exited(exitCode: int, stderr: string) | TimedOut(description: string) | Raised(description: string)

  /** Exactly one of a downloaded file (its path and size label) and an error message. */
  datatype FetchResult = Fetched(filepath: string, filesize: string) | FetchFailed(error: string)

  /**
   * The two copies of the download step differ only on a timeout: the
   * standalone worker reports a fixed message, the loop embedded in the web
   * application reports the exception's own text.
   */
  datatype Variant = Standalone | Embedded

  const DownloadFolder: string := "downloads"
  const Extensions: seq<string> := ["mp4", "webm", "mkv", "avi"]
  const ToolErrorPrefix: string := "yt-dlp error: "
  const TimeoutMessage: string := "Download timed out after 1 hour"
  const FileNotFoundMessage: string := "Downloaded file not found"

  /** `os.path.join(DOWNLOAD_FOLDER, f"{download_id}.{ext}")`. */
  function CandidatePath(id: string, ext: string): string
  {
    DownloadFolder + "/" + id + "." + ext
  }

  /** The index of the first extension, from `from` on, whose file exists in `fs` (path to size). */
  function FirstExistingFrom(id: string, fs: map<string, nat>, from: nat): (r: Option<nat>)
    requires from <= |Extensions|
    ensures r.Some? ==> from <= r.value < |Extensions| && CandidatePath(id, Extensions[r.value]) in fs
    ensures r.Some? ==> forall k :: from <= k < r.value ==> CandidatePath(id, Extensions[k]) !in fs
    ensures r.None? ==> forall k :: from <= k < |Extensions| ==> CandidatePath(id, Extensions[k]) !in fs
    decreases |Extensions| - from
  {
    if from == |Extensions| then None
    else if CandidatePath(id, Extensions[from]) in fs then Some(from)
    else FirstExistingFrom(id, fs, from + 1)
  }

  /** The path the extension search settles on, if any. */
  function FoundFile(id: string, fs: map<string, nat>): (r: Option<string>)
    ensures r.Some? ==> r.value in fs
    ensures r.None? <==> forall k :: 0 <= k < |Extensions| ==> CandidatePath(id, Extensions[k]) !in fs
  {
    match FirstExistingFrom(id, fs, 0)
    case Some(k) => Some(CandidatePath(id, Extensions[k]))
    case None => None
  }

  /**
   * The extension search: mp4, webm, mkv, avi in that order, stopping at
   * the first file that exists.
   */
  method FindDownloadedFile(id: string, fs: map<string, nat>) returns (found: Option<string>)
    ensures found == FoundFile(id, fs)
    ensures found.Some? ==> found.value in fs
  {
    found := None;
    var i := 0;
    while i < |Extensions|
      invariant 0 <= i <= |Extensions|
      invariant found.None?
      invariant forall k :: 0 <= k < i ==> CandidatePath(id, Extensions[k]) !in fs
    {
      var potential := CandidatePath(id, Extensions[i]);
      i := i + 1;
      if potential in fs {
        found := Some(potential);
        break;
      }
    }
    FirstExistingIsFirst(id, fs, i, found);
  }

  /** The search facts the loop establishes pin down `FoundFile`. */
  lemma FirstExistingIsFirst(id: string, fs: map<string, nat>, i: nat, found: Option<string>)
    requires i <= |Extensions|
    requires found.None? ==> i == |Extensions| && forall k :: 0 <= k < i ==> CandidatePath(id, Extensions[k]) !in fs
    requires found.Some? ==> (0 < i && found == Some(CandidatePath(id, Extensions[i - 1]))
      && CandidatePath(id, Extensions[i - 1]) in fs
      && forall k :: 0 <= k < i - 1 ==> CandidatePath(id, Extensions[k]) !in fs)
    ensures found == FoundFile(id, fs)
  {
    var r := FirstExistingFrom(id, fs, 0);
    if found.Some? {
      assert r.Some? && r.value == i - 1;
    }
  }

  /**
   * The outcome classification of the download step: a non-zero exit is a
   * tool error carrying stderr; a timeout or other exception is an error
   * carrying its message; a zero exit leads to the extension search, which
   * either yields the first existing file and its size label or the fixed
   * "file not found" message.
   */
  function DownloadResult(variant: Variant, id: string, outcome: DownloadOutcome, fs: map<string, nat>): (r: FetchResult)
    ensures r.Fetched? <==> outcome.Exited? && outcome.exitCode == 0 && FoundFile(id, fs).Some?
    ensures r.Fetched? ==> (r.filepath in fs && Some(r.filepath) == FoundFile(id, fs)
      && r.filesize == FileSize.FormatFilesize(fs[r.filepath]))
    ensures outcome.Exited? && outcome.exitCode != 0 ==> r == FetchFailed(ToolErrorPrefix + outcome.stderr)
    ensures outcome.Exited? && outcome.exitCode == 0 && FoundFile(id, fs).None? ==> r == FetchFailed(FileNotFoundMessage)
    ensures outcome.TimedOut? ==> r == FetchFailed(if variant == Standalone then TimeoutMessage else outcome.description)
    ensures outcome.Raised? ==> r == FetchFailed(outcome.description)
  {
    match outcome
    case TimedOut(text) => FetchFailed(if variant == Standalone then TimeoutMessage else text)
    case Raised(text) => FetchFailed(text)
    case Exited(code, stderr) =>
      if code != 0 then FetchFailed(ToolErrorPrefix + stderr)
      else
        match FoundFile(id, fs)
        case None => FetchFailed(FileNotFoundMessage)
        case Some(path) => Fetched(path, FileSize.FormatFilesize(fs[path]))
  }

  /** `download_video`, and the same steps inlined in the application's worker loop. */
  method DownloadVideo(variant: Variant, id: string, outcome: DownloadOutcome, fs: map<string, nat>) returns (r: FetchResult)
    ensures r == DownloadResult(variant, id, outcome, fs)
  {
    match outcome
    case TimedOut(text) =>
      r := FetchFailed(if variant == Standalone then TimeoutMessage else text);
    case Raised(text) =>
      r := FetchFailed(text);
    case Exited(code, stderr) =>
      if code != 0 {
        r := FetchFailed(ToolErrorPrefix + stderr);
        return;
      }
      var downloaded := FindDownloadedFile(id, fs);
      if downloaded.None? {
        r := FetchFailed(FileNotFoundMessage);
        return;
      }
      var filesize := fs[downloaded.value];
      r := Fetched(downloaded.value, FileSize.FormatFilesize(filesize));
  }
}
