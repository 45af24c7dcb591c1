/**
 * The decision logic behind the HTTP endpoints that change or read the
 * table: submitting a URL, and the checks of the video endpoint.
 */
module Api {
  import opened Wrappers
  import opened Text
  import opened JobStore
  import UrlValidation
  import Filename
  import Worker

  const NoUrlMessage: string := "No URL provided"
  const EmptyUrlMessage: string := "URL is empty"
  const InvalidUrlMessage: string := "Invalid YouTube URL"
  const QueuedMessage: string := "Download queued successfully"

  /**
   * The checks of `submit_download` on the request body (None when it is
   * missing or not JSON): the `url` member, stripped, must be non-empty and a
   * YouTube address; the result is the stripped URL or the error message.
   */
  function ValidateUrl(body: Option<map<string, string>>): (r: Result<string, string>)
    ensures (body.None? || "url" !in body.value) <==> r == Err(NoUrlMessage)
    ensures body.Some? && "url" in body.value ==>
      (r == Err(EmptyUrlMessage) <==> AllSpace(body.value["url"]))
    ensures (body.Some? && "url" in body.value && !AllSpace(body.value["url"])
      && !UrlValidation.IsValidYoutubeUrl(Strip(body.value["url"]))) ==> r == Err(InvalidUrlMessage)
    ensures r.Ok? <==> body.Some? && "url" in body.value && UrlValidation.IsValidYoutubeUrl(Strip(body.value["url"]))
    ensures r.Ok? ==> r.value == Strip(body.value["url"]) && UrlValidation.MatchesReference(r.value)
    ensures r.Ok? ==> !IsSpace(r.value[0]) && !IsSpace(r.value[|r.value| - 1])
  {
    if body.None? || "url" !in body.value then Err(NoUrlMessage)
    else
      var url := Strip(body.value["url"]);
      UrlValidation.ValidIffReference(url);
      if url == [] then Err(EmptyUrlMessage)
      else if !UrlValidation.IsValidYoutubeUrl(url) then Err(InvalidUrlMessage)
      else Ok(url)
  }

  /** The 201 reply of a submission. */
  datatype Queued = Queued(id: string, url: string, status: string, message: string)

  /**
   * `submit_download`: on a valid URL, insert a waiting row under the fresh
   * id and start the worker; on an error, change nothing.
   */
  method SubmitDownload(table: Downloads, guard: Worker.WorkerGuard, body: Option<map<string, string>>,
                        freshId: string, now: int)
    returns (reply: Result<Queued, string>)
    requires freshId !in table.rows
    requires guard.Valid()
    modifies table, guard
    ensures reply.Err? <==> ValidateUrl(body).Err?
    ensures reply.Err? ==> (reply.error == ValidateUrl(body).error && table.rows == old(table.rows)
      && guard.running == old(guard.running) && guard.threadsStarted == old(guard.threadsStarted))
    ensures reply.Ok? ==> (ValidateUrl(body) == Ok(reply.value.url)
      && reply.value == Queued(freshId, reply.value.url, NotStarted.Name(), QueuedMessage)
      && table.rows == old(table.rows)[freshId := NewRow(reply.value.url, now)]
      && |table.rows| == |old(table.rows)| + 1
      && guard.running && guard.threadsStarted == 1)
    ensures guard.Valid()
  {
    var checked := ValidateUrl(body);
    match checked
    case Err(e) =>
      reply := Err(e);
    case Ok(url) =>
      table.Insert(freshId, url, now);
      var _ := guard.StartWorker();
      reply := Ok(Queued(freshId, url, NotStarted.Name(), QueuedMessage));
  }

  /** The replies of the video endpoint. */
  datatype VideoReply = NotFound | NotReady | FileMissing | Send(path: string, name: string)
  {
    /** The HTTP status of the reply: 200 exactly when the file is sent, a client error otherwise. */
    function Code(): (c: nat)
      ensures c == 200 <==> this.Send?
      ensures c != 200 ==> c == 400 || c == 404
      ensures c == 400 <==> this == NotReady
    {
      match this
      case NotFound => 404
      case NotReady => 400
      case FileMissing => 404
      case Send(_, _) => 200
    }

    /** The error text of the reply; a sent file carries none. */
    function Message(): (m: string)
      ensures m == [] <==> this.Send?
    {
      match this
      case NotFound => "Download not found"
      case NotReady => "Video not ready yet"
      case FileMissing => "Video file not found"
      case Send(_, _) => ""
    }
  }

  /** `row['title'] or 'video'`: an empty or missing title falls back to "video". */
  function TitleOrDefault(title: Option<string>): (t: string)
    ensures t != []
    ensures title.Some? && title.value != [] ==> t == title.value
    ensures title.None? || title.value == [] ==> t == "video"
  {
    if title.None? || title.value == [] then "video" else title.value
  }

  /**
   * The checks of `download_video`, in order: an unknown id, a row that is
   * not completed, a missing path or file; otherwise the file is sent under
   * its sanitised title and extension.
   */
  function VideoRequest(rows: map<string, Row>, id: string, fs: map<string, nat>): (r: VideoReply)
    ensures r == NotFound <==> id !in rows
    ensures r == NotReady <==> id in rows && rows[id].status != Completed
    ensures r == FileMissing <==> (id in rows && rows[id].status == Completed
      && (rows[id].filepath.None? || rows[id].filepath.value == [] || rows[id].filepath.value !in fs))
    ensures r.Send? ==> (id in rows && rows[id].filepath == Some(r.path) && r.path in fs
      && r.name == Filename.DownloadName(TitleOrDefault(rows[id].title), r.path))
  {
    if id !in rows then NotFound
    else if rows[id].status != Completed then NotReady
    else
      var path := rows[id].filepath;
      if path.None? || path.value == [] || path.value !in fs then FileMissing
      else Send(path.value, Filename.DownloadName(TitleOrDefault(rows[id].title), path.value))
  }

  /**
   * The name part of a sent file holds only word characters and single
   * hyphens, keeps every word character of the title, and is followed by
   * the extension of the stored path.
   */
  lemma SentNameIsSafe(rows: map<string, Row>, id: string, fs: map<string, nat>)
    requires VideoRequest(rows, id, fs).Send?
    ensures var r := VideoRequest(rows, id, fs);
      var stem := Filename.SafeTitle(TitleOrDefault(rows[id].title));
      && r.name == stem + Filename.Extension(r.path)
      && (forall k :: 0 <= k < |stem| ==> IsWordChar(stem[k]) || stem[k] == '-')
      && (forall k :: 0 <= k < |stem| - 1 ==> !(stem[k] == '-' && stem[k + 1] == '-'))
      && Filename.WordChars(stem) == Filename.WordChars(TitleOrDefault(rows[id].title))
  {
  }

  /**
   * A row the worker completed with the file it found, still on disk, is
   * sent with that file's extension.
   */
  lemma CompletedDownloadIsSent(rows: map<string, Row>, id: string, fs: map<string, nat>, ext: string, size: string, doneAt: int)
    requires id in rows && id != [] && forall k :: 0 <= k < |id| ==> id[k] != '.' && id[k] != '/'
    requires ext in Fetcher.Extensions
    requires Fetcher.CandidatePath(id, ext) in fs
    ensures var completed := rows[id := WithCompletion(rows[id], Fetcher.CandidatePath(id, ext), size, doneAt)];
      var r := VideoRequest(completed, id, fs);
      && r.Send? && r.path == Fetcher.CandidatePath(id, ext)
      && r.name == Filename.SafeTitle(TitleOrDefault(rows[id].title)) + ("." + ext)
  {
    var path := Fetcher.CandidatePath(id, ext);
    var completed := rows[id := WithCompletion(rows[id], path, size, doneAt)];
    assert path != [] by { assert |path| >= |Fetcher.DownloadFolder|; }
    assert Filename.Extension(path) == "." + ext by {
      BareExtension(ext);
      Filename.ExtensionOfDownloadedFile(Fetcher.DownloadFolder, id, ext);
    }
    CompletedRowIsSent(completed, id, fs, path);
  }

  /** A completed row whose stored path is on disk is sent under its title and that path's extension. */
  lemma CompletedRowIsSent(rows: map<string, Row>, id: string, fs: map<string, nat>, path: string)
    requires id in rows && rows[id].status == Completed && rows[id].filepath == Some(path)
    requires path != [] && path in fs
    ensures VideoRequest(rows, id, fs)
      == Send(path, Filename.SafeTitle(TitleOrDefault(rows[id].title)) + Filename.Extension(path))
  {
  }

  /** A completed row with no title, or an empty one, is sent as "video" plus the file's extension. */
  lemma UntitledRowIsSentAsVideo(rows: map<string, Row>, id: string, fs: map<string, nat>, path: string)
    requires id in rows && rows[id].status == Completed && rows[id].filepath == Some(path)
    requires path != [] && path in fs
    requires rows[id].title.None? || rows[id].title.value == []
    ensures VideoRequest(rows, id, fs) == Send(path, "video" + Filename.Extension(path))
  {
    CompletedRowIsSent(rows, id, fs, path);
    assert TitleOrDefault(rows[id].title) == "video";
    Filename.SafeTitleOfVideo();
  }

  /** No extension the worker searches for holds a '.' or a '/'. */
  lemma BareExtension(ext: string)
    requires ext in Fetcher.Extensions
    ensures forall k :: 0 <= k < |ext| ==> ext[k] != '.' && ext[k] != '/'
  {
  }
}
