/**
 * The `/api/download` handler and its use of the progress registry. The
 * handler is split where it awaits the worker: `StartDownload` validates the
 * form and writes the initial entry; `RunDownload` replays the progress
 * reports of the worker, takes its outcome and writes the final entry.
 */
module Api {
  import opened Wrappers
  import opened Urls
  import opened Sanitize
  import opened Errors
  import opened Forms
  import opened Media
  import opened Registry

  /** An accepted download: its registry key and its form. */
  datatype Job = Job(id: string, form: DownloadForm)

  /** The file response: the header file name, the media type and the
      `X-Download-ID` header. */
  datatype FileReply = FileReply(filename: string, mediaType: string, downloadId: string)

  /** The registry key of a download: the client's id when non-empty, else a
      freshly generated one (main.py:609-610). */
  function JobId(downloadId: Option<string>, freshId: string): string {
    if IsPresent(downloadId) then downloadId.value else freshId
  }

  /** The handler up to the worker call (main.py:596-611). `freshId` is the
      `str(uuid.uuid4())` the handler would generate; `format` is `None` when
      the form leaves `media_format` out. */
  method StartDownload(registry: ProgressRegistry, url: string, format: Option<string>, quality: Option<int>,
                       audioQuality: Option<int>, downloadId: Option<string>, freshId: string)
    returns (r: Result<Job, HttpError>)
    requires freshId != []
    modifies registry
    ensures match ValidateDownloadForm(url, FieldOr(format, DownloadFormatDefault), quality, audioQuality)
      case Err(e) => r == Err(e) && registry.entries == old(registry.entries)
      case Ok(form) =>
        && r == Ok(Job(JobId(downloadId, freshId), form))
        && registry.entries == old(registry.entries)[JobId(downloadId, freshId) := InitialEntry]
  {
    var fmt := FieldOr(format, DownloadFormatDefault);
    match ValidateDownloadForm(url, fmt, quality, audioQuality) {
      case Err(e) =>
        r := Err(e);
      case Ok(form) =>
        var id := if downloadId.Some? && downloadId.value != [] then downloadId.value else freshId;
        registry.Put(id, InitialEntry);
        r := Ok(Job(id, form));
    }
  }

  /** The handler from the worker call on (main.py:613-644). The worker's
      progress reports reach the hook in order; `ytdlp` gives the worker's
      outcome. */
  method RunDownload(registry: ProgressRegistry, job: Job, reports: seq<HookEvent>,
                     ytdlp: YdlOptions -> Outcome<seq<string>>)
    returns (r: Result<FileReply, HttpError>)
    modifies registry
    ensures var hooked := ApplyHooks(old(registry.entries), Some(job.id), reports);
      match DownloadMedia(job.form.url, job.form.format, job.form.quality, job.form.audioQuality, ytdlp)
      case Err(e) => r == Err(e) && registry.entries == hooked
      case Ok(name) =>
        && r == Ok(FileReply(SanitizeFilename(name), MediaType(job.form.format), job.id))
        && registry.entries == hooked[job.id := CompleteEntry]
  {
    var i := 0;
    while i < |reports|
      invariant 0 <= i <= |reports|
      invariant registry.entries == ApplyHooks(old(registry.entries), Some(job.id), reports[..i])
    {
      registry.Hook(Some(job.id), reports[i]);
      assert reports[..i + 1][..i] == reports[..i];
      i := i + 1;
    }
    assert reports[..i] == reports;
    var outcome := DownloadMedia(job.form.url, job.form.format, job.form.quality, job.form.audioQuality, ytdlp);
    match outcome {
      case Err(e) =>
        r := Err(e);
      case Ok(name) =>
        registry.Put(job.id, CompleteEntry);
        r := Ok(FileReply(SanitizeFilename(name), MediaType(job.form.format), job.id));
    }
  }

  /** The whole `/api/download` request, the worker run in between. A
      refused form changes nothing. An accepted one leaves the hook's reports
      in the registry; a failed worker leaves them there, with the error as
      the answer, and a successful one ends in `{complete, 100}` and the file
      reply. */
  method Download(registry: ProgressRegistry, url: string, format: Option<string>, quality: Option<int>,
                  audioQuality: Option<int>, downloadId: Option<string>, freshId: string,
                  reports: seq<HookEvent>, ytdlp: YdlOptions -> Outcome<seq<string>>)
    returns (r: Result<FileReply, HttpError>)
    requires freshId != []
    modifies registry
    ensures var id := JobId(downloadId, freshId);
      match ValidateDownloadForm(url, FieldOr(format, DownloadFormatDefault), quality, audioQuality)
      case Err(e) => r == Err(e) && registry.entries == old(registry.entries)
      case Ok(form) =>
        var hooked := ApplyHooks(old(registry.entries)[id := InitialEntry], Some(id), reports);
        match DownloadMedia(form.url, form.format, form.quality, form.audioQuality, ytdlp)
        case Err(e) => r == Err(e) && registry.entries == hooked && id in registry.entries
        case Ok(name) =>
          && r == Ok(FileReply(SanitizeFilename(name), MediaType(form.format), id))
          && registry.entries == hooked[id := CompleteEntry]
    ensures r.Ok? ==>
      var id := JobId(downloadId, freshId);
      && r.value.downloadId == id
      && registry.Lookup(id) == Some(CompleteEntry)
      && forall k :: k != id ==> registry.Lookup(k) == old(registry.Lookup(k))
  {
    var started := StartDownload(registry, url, format, quality, audioQuality, downloadId, freshId);
    match started {
      case Err(e) =>
        r := Err(e);
      case Ok(job) =>
        r := RunDownload(registry, job, reports, ytdlp);
        if r.Ok? {
          LifecycleFrame(old(registry.entries), job.id, reports);
        } else {
          ApplyHooksKeepsKey(old(registry.entries)[job.id := InitialEntry], job.id, reports);
        }
    }
  }

  /** The registry lifecycle of one successful download: after the initial
      entry, any hook reports and the final write, its key holds exactly
      `{complete, 100}` and every other key is as it was. */
  lemma LifecycleFrame(m: map<string, Entry>, id: string, reports: seq<HookEvent>)
    ensures var r := ApplyHooks(m[id := InitialEntry], Some(id), reports)[id := CompleteEntry];
      && id in r && r[id] == CompleteEntry
      && forall k :: k != id ==> (k in r <==> k in m) && (k in m ==> r[k] == m[k])
  {
    ApplyHooksFrame(m[id := InitialEntry], id, reports);
  }
}
