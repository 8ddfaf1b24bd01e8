/**
 * The request handlers that do not touch the progress registry:
 * `/api/stream-audio`, `/api/metadata` and `/api/get-download-url`.
 */
module Endpoints {
  import opened Wrappers
  import opened Text
  import opened Urls
  import opened Sanitize
  import opened Errors
  import opened Forms
  import opened Media

  // ---------------------------------------------------------------------------
  // /api/stream-audio

  /** The headers of an audio stream response that this model follows. A
      `None` disposition stands for the RFC 5987 form (section 3.2 of RFC
      5987), which is not part of this model. */
  datatype StreamReply = StreamReply(mediaType: string, contentDisposition: Option<string>)

  /** The `Content-Disposition` header of an audio stream (main.py:559-567). */
  function ContentDisposition(filename: string): Option<string> {
    if IsAscii(filename) then Some("attachment; filename=\"" + filename + "\"") else None
  }

  /** `stream_audio` (main.py:531-584). `format` is `None` when the form
      leaves `media_format` out. */
  function StreamAudio(url: string, format: Option<string>, extracted: Outcome<VideoInfo>): Result<StreamReply, HttpError> {
    match ValidateStreamForm(url, FieldOr(format, StreamFormatDefault))
    case Err(e) => Err(e)
    case Ok(f) =>
      match StreamAudioDownload(url, f, extracted)
      case Err(e) => Err(e)
      case Ok(filename) =>
        var mediaType := if f == Mp3 then "audio/mpeg" else "audio/mp4";
        Ok(StreamReply(mediaType, ContentDisposition(filename)))
  }

  /** Only M4A is ever streamed; its reply is typed `audio/mp4` and always
      carries the plain `attachment; filename="<safe title>.m4a"` header,
      because the suggested name is ASCII. MP3 requests end in an error, and
      a refused URL is a 400. */
  lemma StreamAudioSpec(url: string, format: Option<string>, extracted: Outcome<VideoInfo>)
    ensures var r := StreamAudio(url, format, extracted);
      var fmt := FieldOr(format, StreamFormatDefault);
      && (r.Ok? ==> fmt == "m4a" && r.value.mediaType == MediaType(M4a)
                    && exists stem :: IsSafeTitle(stem)
                         && r.value.contentDisposition == Some("attachment; filename=\"" + stem + ".m4a\""))
      && (fmt == "mp3" ==> r.Err?)
      && (!ValidateVideoUrl(url) ==> r.Err? && r.error.status == 400)
  {
    if StreamAudio(url, format, extracted).Ok? {
      StreamAudioReply(url, format, extracted);
    } else if !ValidateVideoUrl(url) {
      UrlRejected(url, FieldOr(format, StreamFormatDefault));
    }
  }

  /** A reply comes only from an M4A request, with the safe-title header. */
  lemma StreamAudioReply(url: string, format: Option<string>, extracted: Outcome<VideoInfo>)
    ensures var r := StreamAudio(url, format, extracted);
      r.Ok? ==>
      && FieldOr(format, StreamFormatDefault) == "m4a"
      && r.value.mediaType == MediaType(M4a)
      && exists stem :: IsSafeTitle(stem)
           && r.value.contentDisposition == Some("attachment; filename=\"" + stem + ".m4a\"")
  {
    if StreamAudio(url, format, extracted).Ok? {
      var fmt := FieldOr(format, StreamFormatDefault);
      StreamFormAccepts(url, fmt);
      var f := ValidateStreamForm(url, fmt).value;
      var stem := SanitizeTitle(TitleOr(extracted.value.title, "audio"), AudioFallback);
      assert StreamAudio(url, format, extracted) == Ok(StreamReply("audio/mp4", ContentDisposition(stem + ".m4a")));
      M4aHeader(extracted.value.title);
    }
  }

  /** The header of a streamed audio file names the safe title plus `.m4a`. */
  lemma M4aHeader(title: Option<string>)
    ensures var stem := SanitizeTitle(TitleOr(title, "audio"), AudioFallback);
      && IsSafeTitle(stem)
      && ContentDisposition(stem + ".m4a") == Some("attachment; filename=\"" + stem + ".m4a\"")
  {
    var stem := SanitizeTitle(TitleOr(title, "audio"), AudioFallback);
    FallbacksAreSafe();
    SanitizeTitleSafe(TitleOr(title, "audio"), AudioFallback);
    StreamedAudioName(title);
    assert "attachment; filename=\"" + (stem + ".m4a") + "\"" == "attachment; filename=\"" + stem + ".m4a\"";
  }

  /** A form without a format asks for M4A: on an allow-listed URL whose
      video has a media URL, it is streamed. */
  lemma StreamAudioDefault(url: string, extracted: Outcome<VideoInfo>)
    requires ValidateVideoUrl(url) && extracted.Returned? && MediaUrlOf(extracted.value).Some?
    ensures StreamAudio(url, None, extracted).Ok?
    ensures StreamAudio(url, None, extracted).value.mediaType == MediaType(M4a)
  {
    StreamFormAccepts(url, StreamFormatDefault);
  }

  /** A form the allow-list or the format set refuses never reaches the extractor. */
  lemma UrlRejected(url: string, format: string)
    requires !ValidateVideoUrl(url) || (format != "mp3" && format != "m4a")
    ensures ValidateStreamForm(url, format).Err? && ValidateStreamForm(url, format).error.status == 400
  {
    StreamFormAccepts(url, format);
  }

  // ---------------------------------------------------------------------------
  // /api/metadata

  /** `metadata` (main.py:700-706). */
  function MetadataEndpoint(url: string, extracted: Outcome<VideoInfo>): Result<Metadata, HttpError> {
    match CheckUrl(url)
    case Some(e) => Err(e)
    case None => ExtractMetadata(url, extracted)
  }

  /** The endpoint answers a blank URL with "URL is required.", another
      refused URL with the allow-list message, and otherwise exactly what
      `extract_metadata` answers. */
  lemma MetadataEndpointSpec(url: string, extracted: Outcome<VideoInfo>)
    ensures var r := MetadataEndpoint(url, extracted);
      && (IsBlank(url) ==> r == Err(HttpError(400, UrlRequired)))
      && (!IsBlank(url) && !ValidateVideoUrl(url) ==> r == Err(HttpError(400, UnsupportedUrl)))
      && (ValidateVideoUrl(url) ==> r == ExtractMetadata(url, extracted))
  {
    ValidateVideoUrlExact(url);
  }

  // ---------------------------------------------------------------------------
  // /api/get-download-url

  const NoDirectDownload := "Direct download not available, using server download."

  /** The JSON answer of `/api/get-download-url`: a direct link, or the
      advice to use the server download. */
  datatype DirectReply =
    | DirectAvailable(directUrl: string, filename: string, filesize: Option<int>)
    | UseServerDownload(message: string)

  /** `get_download_url` (main.py:709-750). An error raised by
      `extract_direct_url` becomes advice carrying its detail. `format` is
      `None` when the form leaves `media_format` out. */
  function GetDownloadUrl(url: string, format: Option<string>, quality: Option<int>,
                          ytdlp: string -> Outcome<VideoInfo>): Result<DirectReply, HttpError>
  {
    match ValidateDirectForm(url, FieldOr(format, DownloadFormatDefault))
    case Err(e) => Err(e)
    case Ok(f) =>
      match ExtractDirectUrl(url, f, quality, ytdlp)
      case Err(e) => Ok(UseServerDownload(e.detail))
      case Ok(None) => Ok(UseServerDownload(NoDirectDownload))
      case Ok(Some(link)) => Ok(DirectAvailable(link.url, link.filename, link.filesize))
  }

  /** Direct links are given for MP4 only: an MP3 request is always sent to
      the server download and an M4A request is refused. The advice is
      always the fixed message, since the form already checked the URL. A
      form without a format is an MP4 request. */
  lemma GetDownloadUrlSpec(url: string, format: Option<string>, quality: Option<int>, ytdlp: string -> Outcome<VideoInfo>)
    ensures var r := GetDownloadUrl(url, format, quality, ytdlp);
      var fmt := FieldOr(format, DownloadFormatDefault);
      && (r.Ok? <==> ValidateVideoUrl(url) && (fmt == "mp4" || fmt == "mp3"))
      && (ValidateVideoUrl(url) && format.None? ==> r.Ok?)
      && (r.Ok? && r.value.DirectAvailable? ==> fmt == "mp4" && r.value.directUrl != [])
      && (r.Ok? && r.value.UseServerDownload? ==> r.value.message == NoDirectDownload)
      && (ValidateVideoUrl(url) && fmt == "mp3" ==> r == Ok(UseServerDownload(NoDirectDownload)))
      && (ValidateVideoUrl(url) && fmt == "m4a" ==> r == Err(HttpError(400, BadDirectFormat)))
  {
    var fmt := FieldOr(format, DownloadFormatDefault);
    DirectFormAccepts(url, fmt);
    if ValidateVideoUrl(url) && (fmt == "mp4" || fmt == "mp3") {
      var f := ValidateDirectForm(url, fmt).value;
      DirectUrlFallsBack(url, f, quality, ytdlp);
      DirectLinkSpec(url, f, quality, ytdlp);
    }
  }
}
