/**
 * The four extractor entry points: `download_media`, `extract_metadata`,
 * `extract_direct_url` and `stream_audio_download`. What yt-dlp does is an
 * input here: each entry point receives the outcome of its yt-dlp call (for
 * the two whose options vary, as a function of the options it passes).
 */
module Media {
  import opened Wrappers
  import opened Text
  import opened Urls
  import opened Sanitize
  import opened Errors
  import opened Forms

  /** What a call into yt-dlp produced: a value, a `DownloadError` with its
      message, or any other exception with its message. */
  datatype Outcome<T> = Returned(value: T) | DownloadErrorRaised(message: string) | OtherErrorRaised(message: string)

  /** The keys of yt-dlp's info dictionary the server reads; `None` stands for
      a missing key. `requestedDownloadUrls` holds the `url` of each entry of
      `requested_downloads`, `thumbnailUrls` the `url` of each thumbnail. */
  datatype VideoInfo = VideoInfo(
    title: Option<string>,
    url: Option<string>,
    requestedDownloadUrls: seq<Option<string>>,
    ext: Option<string>,
    thumbnail: Option<string>,
    thumbnailUrls: seq<string>,
    duration: Option<int>,
    uploader: Option<string>,
    webpageUrl: Option<string>,
    filesize: Option<int>,
    filesizeApprox: Option<int>)

  const UnexpectedDownload := "An unexpected error occurred during download. Please try again."
  const NoOutputFile := "No output file produced."
  const UnexpectedMetadata := "An unexpected error occurred while fetching video info."
  const AudioExtractFailed := "Unable to extract audio. Please check the URL."
  const NoAudioUrl := "Could not extract audio URL."
  const Mp3NotStreamed := "Streaming not available for MP3. Using standard download."
  const AudioPreparationPrefix := "Audio preparation failed: "

  /** `info.get(key, default)` on the title. */
  function TitleOr(title: Option<string>, default: string): string {
    if title.Some? then title.value else default
  }

  /** The media URL of an info dictionary: its own `url`, else that of the
      first requested download, when either is non-empty (main.py:273-277,
      446-450). */
  function MediaUrlOf(info: VideoInfo): (r: Option<string>)
    ensures r.Some? ==> r.value != []
  {
    if IsPresent(info.url) then info.url
    else if |info.requestedDownloadUrls| > 0 && IsPresent(info.requestedDownloadUrls[0]) then info.requestedDownloadUrls[0]
    else None
  }

  // ---------------------------------------------------------------------------
  // download_media

  /** `name` matches the pattern `*.ext` */
  predicate HasExt(name: string, ext: string) {
    |ext| + 1 <= |name| && name[|name| - |ext| - 1..] == "." + ext
  }

  /** The index of the first listed file matching `*.ext`, if any. */
  function FirstWithExt(files: seq<string>, ext: string): (r: Option<nat>)
    ensures r.Some? ==> r.value < |files| && HasExt(files[r.value], ext)
    ensures r.Some? ==> forall j :: 0 <= j < r.value ==> !HasExt(files[j], ext)
    ensures r.None? ==> forall j :: 0 <= j < |files| ==> !HasExt(files[j], ext)
  {
    if files == [] then None
    else if HasExt(files[0], ext) then Some(0)
    else match FirstWithExt(files[1..], ext)
      case None => None
      case Some(i) => Some(i + 1)
  }

  /** `download_media`: the name of the produced file. `ytdlp` gives the
      listing of the temporary directory after a download with the given
      options, in listing order, or the exception the download raised. */
  function DownloadMedia(url: string, f: MediaFormat, quality: Option<int>, audioQuality: Option<int>,
                         ytdlp: YdlOptions -> Outcome<seq<string>>): Result<string, HttpError>
  {
    if !ValidateVideoUrl(url) then Err(HttpError(400, UnsupportedUrl))
    else match ytdlp(DownloadOptions(f, quality, audioQuality))
      case DownloadErrorRaised(msg) => Err(ClassifyDownloadError(msg))
      case OtherErrorRaised(_) => Err(HttpError(500, UnexpectedDownload))
      case Returned(files) =>
        match FirstWithExt(files, TargetExt(f))
        case None => Err(HttpError(500, NoOutputFile))
        case Some(i) => Ok(files[i])
  }

  // ---------------------------------------------------------------------------
  // extract_metadata

  /** The metadata returned by `/api/metadata`. */
  datatype Metadata = Metadata(title: Option<string>, duration: Option<int>, thumbnail: Option<string>,
                               uploader: Option<string>, webpageUrl: Option<string>)

  /** The thumbnail: the info's own when non-empty, else the last listed one. */
  function ThumbnailOf(info: VideoInfo): Option<string> {
    if IsPresent(info.thumbnail) then info.thumbnail
    else if |info.thumbnailUrls| > 0 then Some(info.thumbnailUrls[|info.thumbnailUrls| - 1])
    else None
  }

  /** `extract_metadata` (main.py:367-411). */
  function ExtractMetadata(url: string, extracted: Outcome<VideoInfo>): Result<Metadata, HttpError> {
    if !ValidateVideoUrl(url) then Err(HttpError(400, UnsupportedUrl))
    else match extracted
      case DownloadErrorRaised(msg) => Err(ClassifyMetadataError(msg))
      case OtherErrorRaised(_) => Err(HttpError(500, UnexpectedMetadata))
      case Returned(info) =>
        Ok(Metadata(info.title, info.duration, ThumbnailOf(info), info.uploader, info.webpageUrl))
  }

  // ---------------------------------------------------------------------------
  // extract_direct_url

  /** A link the browser can download from directly. */
  datatype DirectLink = DirectLink(url: string, filename: string, title: Option<string>, filesize: Option<int>, ext: string)

  /** `extract_direct_url` (main.py:414-488): `Ok(None)` means "use the server
      download". `ytdlp` gives what extraction with a format selector returns. */
  function ExtractDirectUrl(url: string, f: MediaFormat, quality: Option<int>,
                            ytdlp: string -> Outcome<VideoInfo>): Result<Option<DirectLink>, HttpError>
  {
    if !ValidateVideoUrl(url) then Err(HttpError(400, UnsupportedUrl))
    else match DirectFormat(f, quality)
      case None => Ok(None)
      case Some(selector) =>
        match ytdlp(selector)
        case DownloadErrorRaised(_) => Ok(None)
        case OtherErrorRaised(_) => Ok(None)
        case Returned(info) =>
          match MediaUrlOf(info)
          case None => Ok(None)
          case Some(direct) =>
            var title := TitleOr(info.title, if IsAudio(f) then "audio" else "video");
            var safe := SanitizeTitle(title, DownloadFallback);
            var ext := if f == M4a then "m4a" else if f == Mp3 then "mp3"
                       else if info.ext.Some? then info.ext.value else "mp4";
            var size := if IsTruthy(info.filesize) then info.filesize else info.filesizeApprox;
            Ok(Some(DirectLink(direct, safe + "." + ext, info.title, size, ext)))
  }

  // ---------------------------------------------------------------------------
  // stream_audio_download

  /** `stream_audio_download` (main.py:249-364): the suggested file name of
      the audio stream. The stream itself is not part of this model. */
  function StreamAudioDownload(url: string, f: MediaFormat, extracted: Outcome<VideoInfo>): Result<string, HttpError> {
    if !ValidateVideoUrl(url) then Err(HttpError(400, UnsupportedUrl))
    else match extracted
      case DownloadErrorRaised(_) => Err(HttpError(400, AudioExtractFailed))
      case OtherErrorRaised(msg) => Err(HttpError(500, AudioPreparationPrefix + Take(msg, 100)))
      case Returned(info) =>
        if MediaUrlOf(info).None? then Err(HttpError(500, NoAudioUrl))
        else
          var safe := SanitizeTitle(TitleOr(info.title, "audio"), AudioFallback);
          if f == Mp3 then Err(HttpError(501, Mp3NotStreamed))
          else Ok(safe + ".m4a")
  }

  // ---------------------------------------------------------------------------
  // Properties

  /** Every extractor entry point refuses a URL the allow-list rejects with
      400 before yt-dlp is consulted: the answer is the same whatever yt-dlp
      would have done. */
  lemma EntryPointsRejectInvalidUrl(url: string, f: MediaFormat, quality: Option<int>, audioQuality: Option<int>,
                                    run: YdlOptions -> Outcome<seq<string>>, extract: string -> Outcome<VideoInfo>,
                                    extracted: Outcome<VideoInfo>)
    requires !ValidateVideoUrl(url)
    ensures var e := HttpError(400, UnsupportedUrl);
      && DownloadMedia(url, f, quality, audioQuality, run) == Err(e)
      && ExtractMetadata(url, extracted) == Err(e)
      && ExtractDirectUrl(url, f, quality, extract) == Err(e)
      && StreamAudioDownload(url, f, extracted) == Err(e)
  {
  }

  /** A successful download names a listed file with the format's extension,
      the first such in the listing; with none, the answer is a 500. A
      `DownloadError` is classified by its message. */
  lemma DownloadMediaSpec(url: string, f: MediaFormat, quality: Option<int>, audioQuality: Option<int>,
                          ytdlp: YdlOptions -> Outcome<seq<string>>)
    requires ValidateVideoUrl(url)
    ensures var r := DownloadMedia(url, f, quality, audioQuality, ytdlp);
      match ytdlp(DownloadOptions(f, quality, audioQuality))
      case DownloadErrorRaised(msg) => r == Err(ClassifyDownloadError(msg))
      case OtherErrorRaised(_) => r == Err(HttpError(500, UnexpectedDownload))
      case Returned(files) =>
        && (r.Ok? <==> exists i | 0 <= i < |files| :: HasExt(files[i], FormatName(f)))
        && (r.Ok? ==> exists i | 0 <= i < |files| :: files[i] == r.value && HasExt(r.value, FormatName(f))
                                  && forall j :: 0 <= j < i ==> !HasExt(files[j], FormatName(f)))
        && (r.Err? ==> r.error == HttpError(500, NoOutputFile))
  {
    ExtensionAndMediaType(f);
  }

  /** Every error of `download_media` is a 400 or a 500, and its detail is
      one of the fixed texts. */
  lemma DownloadMediaErrors(url: string, f: MediaFormat, quality: Option<int>, audioQuality: Option<int>,
                            ytdlp: YdlOptions -> Outcome<seq<string>>)
    ensures var r := DownloadMedia(url, f, quality, audioQuality, ytdlp);
      r.Err? ==> (r.error.status == 400 || r.error.status == 500)
                 && r.error.detail in {UnsupportedUrl, FfmpegRequired, VideoUnavailable, DownloadFailed,
                                       UnexpectedDownload, NoOutputFile}
  {
    if ValidateVideoUrl(url) {
      match ytdlp(DownloadOptions(f, quality, audioQuality))
      case DownloadErrorRaised(msg) => DownloadClassification(msg);
      case OtherErrorRaised(_) =>
      case Returned(_) =>
    }
  }

  /** The metadata thumbnail is non-empty when the info names one, else the
      last listed thumbnail; other fields are passed through unchanged. */
  lemma ExtractMetadataSpec(url: string, extracted: Outcome<VideoInfo>)
    requires ValidateVideoUrl(url)
    ensures var r := ExtractMetadata(url, extracted);
      match extracted
      case DownloadErrorRaised(msg) => r == Err(ClassifyMetadataError(msg)) && r.error.status == 400
      case OtherErrorRaised(_) => r == Err(HttpError(500, UnexpectedMetadata))
      case Returned(info) =>
        && r.Ok? && r.value.title == info.title && r.value.duration == info.duration
        && r.value.uploader == info.uploader && r.value.webpageUrl == info.webpageUrl
        && (IsPresent(info.thumbnail) ==> r.value.thumbnail == info.thumbnail)
        && (!IsPresent(info.thumbnail) && info.thumbnailUrls != [] ==>
              r.value.thumbnail == Some(info.thumbnailUrls[|info.thumbnailUrls| - 1]))
        && (r.value.thumbnail.None? <==> !IsPresent(info.thumbnail) && info.thumbnailUrls == [])
  {
    if extracted.DownloadErrorRaised? {
      MetadataClassification(extracted.message);
    }
  }

  /** MP3 is never served directly, and no extraction failure escapes: it
      becomes "use the server download". */
  lemma DirectUrlFallsBack(url: string, f: MediaFormat, quality: Option<int>, ytdlp: string -> Outcome<VideoInfo>)
    requires ValidateVideoUrl(url)
    ensures var r := ExtractDirectUrl(url, f, quality, ytdlp);
      && r.Ok?
      && (f == Mp3 ==> r.value.None?)
      && (f != Mp3 && !ytdlp(DirectFormat(f, quality).value).Returned? ==> r.value.None?)
      && (f != Mp3 && ytdlp(DirectFormat(f, quality).value).Returned? ==>
            (r.value.None? <==> MediaUrlOf(ytdlp(DirectFormat(f, quality).value).value).None?))
  {
  }

  /** A direct link points at a non-empty media URL and is named by a safe
      title plus the extension: `m4a` for M4A, the info's own (default `mp4`)
      for MP4. */
  lemma DirectLinkSpec(url: string, f: MediaFormat, quality: Option<int>, ytdlp: string -> Outcome<VideoInfo>)
    ensures var r := ExtractDirectUrl(url, f, quality, ytdlp);
      r.Ok? && r.value.Some? ==>
        var link := r.value.value;
        && f != Mp3 && link.url != []
        && (f == M4a ==> link.ext == "m4a")
        && exists stem :: IsSafeTitle(stem) && link.filename == stem + "." + link.ext
  {
    var r := ExtractDirectUrl(url, f, quality, ytdlp);
    if r.Ok? && r.value.Some? {
      var info := ytdlp(DirectFormat(f, quality).value).value;
      var title := TitleOr(info.title, if IsAudio(f) then "audio" else "video");
      FallbacksAreSafe();
      SanitizeTitleSafe(title, DownloadFallback);
      var stem := SanitizeTitle(title, DownloadFallback);
      assert IsSafeTitle(stem) && r.value.value.filename == stem + "." + r.value.value.ext;
    }
  }

  /** Audio streaming answers with `<safe title>.m4a` only for M4A. MP3 is
      refused with 501 once a media URL is known; a failed extraction is a
      400; other exceptions are a 500 whose detail holds at most 100
      characters of their message. */
  lemma StreamAudioDownloadSpec(url: string, f: MediaFormat, extracted: Outcome<VideoInfo>)
    requires ValidateVideoUrl(url)
    ensures var r := StreamAudioDownload(url, f, extracted);
      && (r.Ok? ==> f != Mp3 && extracted.Returned? && MediaUrlOf(extracted.value).Some?
                    && exists stem :: IsSafeTitle(stem) && r.value == stem + ".m4a")
      && (r.Ok? ==> IsAscii(r.value))
      && (f == Mp3 && extracted.Returned? && MediaUrlOf(extracted.value).Some? ==>
            r == Err(HttpError(501, Mp3NotStreamed)))
      && (extracted.DownloadErrorRaised? ==> r == Err(HttpError(400, AudioExtractFailed)))
      && (extracted.OtherErrorRaised? ==>
            r.Err? && r.error.status == 500
            && |r.error.detail| <= |AudioPreparationPrefix| + 100
            && r.error.detail[..|AudioPreparationPrefix|] == AudioPreparationPrefix)
  {
    if extracted.Returned? {
      StreamedAudioName(extracted.value.title);
    }
  }

  /** The name an audio stream suggests is a safe title plus `.m4a`, and
      plain ASCII. */
  lemma StreamedAudioName(title: Option<string>)
    ensures var name := SanitizeTitle(TitleOr(title, "audio"), AudioFallback) + ".m4a";
      && IsAscii(name)
      && exists stem :: IsSafeTitle(stem) && name == stem + ".m4a"
  {
    FallbacksAreSafe();
    SanitizeTitleSafe(TitleOr(title, "audio"), AudioFallback);
    var stem := SanitizeTitle(TitleOr(title, "audio"), AudioFallback);
    SafeTitleIsAscii(stem);
    var ext := ".m4a";
    assert IsAscii(ext) by {
      forall i | 0 <= i < |ext| ensures ext[i] < '\U{80}' { }
    }
    AsciiAppend(stem, ext);
  }

  /** A safe title is plain ASCII, fit for an HTTP header. */
  lemma SafeTitleIsAscii(s: string)
    requires AllSafe(s, false)
    ensures IsAscii(s)
  {
    forall i | 0 <= i < |s| ensures s[i] < '\U{80}' {
      assert SafeChar(s[i], false);
    }
  }
}
