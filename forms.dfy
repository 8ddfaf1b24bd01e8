/**
 * The request rules shared by the endpoints: which media formats exist, how
 * each endpoint checks its form fields, the format -> extension and
 * format -> MIME tables, and the yt-dlp options a download is run with.
 */
module Forms {
  import opened Wrappers
  import opened Text
  import opened Urls
  import opened FormatSelector
  import opened Errors

  /** The three media formats the server knows. */
  datatype MediaFormat = Mp4 | Mp3 | M4a

  /** The form value naming a format. */
  function FormatName(f: MediaFormat): string {
    match f
    case Mp4 => "mp4"
    case Mp3 => "mp3"
    case M4a => "m4a"
  }

  /** Reads a form value as a format: membership in `{"mp4", "mp3", "m4a"}`. */
  function ParseFormat(s: string): Option<MediaFormat> {
    if s == "mp4" then Some(Mp4)
    else if s == "mp3" then Some(Mp3)
    else if s == "m4a" then Some(M4a)
    else None
  }

  predicate IsAudio(f: MediaFormat) {
    f == Mp3 || f == M4a
  }

  /** The extension of the file a download must produce (main.py:234-239). */
  function TargetExt(f: MediaFormat): string {
    if f == Mp3 then "mp3" else if f == M4a then "m4a" else "mp4"
  }

  /** The `media_type` of the download response (main.py:627-632). */
  function MediaType(f: MediaFormat): string {
    if f == Mp3 then "audio/mpeg" else if f == M4a then "audio/mp4" else "video/mp4"
  }

  // ---------------------------------------------------------------------------
  // Form validation

  const UrlRequired := "URL is required."
  const UnsupportedUrl := "Invalid or unsupported video URL."
  const BadDownloadFormat := "Format must be 'mp4', 'mp3', or 'm4a'."
  const BadQuality := "Quality must be a positive integer."
  const BadAudioQuality := "Audio quality must be a positive integer."
  const BadDirectFormat := "Format must be 'mp4' or 'mp3'."
  const BadStreamFormat := "Format must be 'mp3' or 'm4a' for audio streaming."

  /** A form field as the handler receives it: the value sent, or the
      declared default when the field is left out. */
  function FieldOr(sent: Option<string>, default: string): string {
    if sent.Some? then sent.value else default
  }

  /** The declared default of `media_format` on `/api/download` and
      `/api/get-download-url` (main.py:591, main.py:712). */
  const DownloadFormatDefault := "mp4"

  /** The declared default of `media_format` on `/api/stream-audio` (main.py:534). */
  const StreamFormatDefault := "m4a"

  /** The URL checks every endpoint starts with: present, then allow-listed. */
  function CheckUrl(url: string): Option<HttpError> {
    if IsBlank(url) then Some(HttpError(400, UrlRequired))
    else if !ValidateVideoUrl(url) then Some(HttpError(400, UnsupportedUrl))
    else None
  }

  /** `q is None or q > 0` */
  predicate PositiveIfGiven(q: Option<int>) {
    q.None? || q.value > 0
  }

  /** The fields of an accepted `/api/download` form. */
  datatype DownloadForm = DownloadForm(url: string, format: MediaFormat, quality: Option<int>, audioQuality: Option<int>)

  /** The checks of `/api/download`, in their order (main.py:597-606), on
      the format after its default is applied. */
  function ValidateDownloadForm(url: string, format: string, quality: Option<int>, audioQuality: Option<int>): Result<DownloadForm, HttpError> {
    if CheckUrl(url).Some? then Err(CheckUrl(url).value)
    else if ParseFormat(format).None? then Err(HttpError(400, BadDownloadFormat))
    else if !PositiveIfGiven(quality) then Err(HttpError(400, BadQuality))
    else if !PositiveIfGiven(audioQuality) then Err(HttpError(400, BadAudioQuality))
    else Ok(DownloadForm(url, ParseFormat(format).value, quality, audioQuality))
  }

  /** The checks of `/api/get-download-url` (main.py:722-727), on the format
      after its default is applied; quality is not checked. */
  function ValidateDirectForm(url: string, format: string): Result<MediaFormat, HttpError> {
    if CheckUrl(url).Some? then Err(CheckUrl(url).value)
    else if format != "mp4" && format != "mp3" then Err(HttpError(400, BadDirectFormat))
    else Ok(ParseFormat(format).value)
  }

  /** The checks of `/api/stream-audio` (main.py:543-548), on the format
      after its default is applied; quality is not checked. */
  function ValidateStreamForm(url: string, format: string): Result<MediaFormat, HttpError> {
    if CheckUrl(url).Some? then Err(CheckUrl(url).value)
    else if format != "mp3" && format != "m4a" then Err(HttpError(400, BadStreamFormat))
    else Ok(ParseFormat(format).value)
  }

  // ---------------------------------------------------------------------------
  // yt-dlp options

  /** The selector used for every audio-only request. */
  const AudioSelector := "bestaudio[ext=m4a]/bestaudio/best"
  const DefaultBitrate := "192"

  /** The options that decide what yt-dlp fetches: the format selector, the
      MP3 conversion with its bitrate (if any) and the merge container (if any). */
  datatype YdlOptions = YdlOptions(format: string, mp3Bitrate: Option<string>, mergeInto: Option<string>)

  /** `str(audio_quality) if audio_quality else "192"` */
  function Bitrate(audioQuality: Option<int>): string {
    if IsTruthy(audioQuality) then IntToString(audioQuality.value) else DefaultBitrate
  }

  /** The format-dependent options of `download_media` (main.py:171-200). */
  function DownloadOptions(f: MediaFormat, quality: Option<int>, audioQuality: Option<int>): YdlOptions {
    match f
    case Mp3 => YdlOptions(AudioSelector, Some(Bitrate(audioQuality)), None)
    case M4a => YdlOptions(AudioSelector, None, None)
    case Mp4 => YdlOptions(BuildFormatSelector(quality, true), None, Some("mp4"))
  }

  /** The format `extract_direct_url` asks for; none for MP3, which it never
      serves directly (main.py:431-439). */
  function DirectFormat(f: MediaFormat, quality: Option<int>): Option<string> {
    match f
    case Mp3 => None
    case M4a => Some(AudioSelector)
    case Mp4 => Some(BuildFormatSelector(quality, true))
  }

  // ---------------------------------------------------------------------------
  // Properties

  /** A form value is accepted exactly when it is the name of a format, and
      names and formats correspond one to one. */
  lemma ParseFormatExact(s: string, f: MediaFormat)
    ensures ParseFormat(s) == Some(f) <==> s == FormatName(f)
    ensures ParseFormat(FormatName(f)) == Some(f)
  {
    assert "mp4"[2] != "mp3"[2] && "mp4"[1] != "m4a"[1] && "mp3"[1] != "m4a"[1];
  }

  /** The file a download looks for carries the format's own name as
      extension, and the response is typed audio exactly for audio formats. */
  lemma ExtensionAndMediaType(f: MediaFormat)
    ensures TargetExt(f) == FormatName(f)
    ensures var m := MediaType(f); |m| > 6 && (m[..6] == "audio/" <==> IsAudio(f))
    ensures f == Mp4 ==> MediaType(f) == "video/" + TargetExt(f)
  {
    var v := "video/mp4";
    assert v[..6][0] == 'v';
  }

  /** URL errors dominate: whatever the other fields hold, a URL the allow-list
      refuses is answered 400 with the URL message, by every form. */
  lemma UrlErrorsFirst(url: string, format: string, quality: Option<int>, audioQuality: Option<int>)
    requires !ValidateVideoUrl(url)
    ensures var e := HttpError(400, if IsBlank(url) then UrlRequired else UnsupportedUrl);
      && CheckUrl(url) == Some(e)
      && ValidateDownloadForm(url, format, quality, audioQuality) == Err(e)
      && ValidateDirectForm(url, format) == Err(e)
      && ValidateStreamForm(url, format) == Err(e)
  {
  }

  /** `/api/download` accepts a form exactly when the URL is allow-listed,
      the format is one of the three and both qualities are positive when
      given; it keeps the fields as sent, and every rejection is a 400. */
  lemma DownloadFormAccepts(url: string, format: string, quality: Option<int>, audioQuality: Option<int>)
    ensures var r := ValidateDownloadForm(url, format, quality, audioQuality);
      && (r.Ok? <==> ValidateVideoUrl(url) && ParseFormat(format).Some?
                     && PositiveIfGiven(quality) && PositiveIfGiven(audioQuality))
      && (r.Ok? ==> r.value == DownloadForm(url, r.value.format, quality, audioQuality)
                    && FormatName(r.value.format) == format)
      && (r.Err? ==> r.error.status == 400)
  {
    ValidateVideoUrlExact(url);
    if ParseFormat(format).Some? {
      ParseFormatExact(format, ParseFormat(format).value);
    }
  }

  /** `/api/get-download-url` takes mp4 and mp3 only; m4a is refused. */
  lemma DirectFormAccepts(url: string, format: string)
    ensures var r := ValidateDirectForm(url, format);
      && (r.Ok? <==> ValidateVideoUrl(url) && (format == "mp4" || format == "mp3"))
      && (r.Ok? ==> r.value != M4a && FormatName(r.value) == format)
      && (r.Err? ==> r.error.status == 400)
  {
    ValidateVideoUrlExact(url);
  }

  /** `/api/stream-audio` takes mp3 and m4a only; mp4 is refused. */
  lemma StreamFormAccepts(url: string, format: string)
    ensures var r := ValidateStreamForm(url, format);
      && (r.Ok? <==> ValidateVideoUrl(url) && (format == "mp3" || format == "m4a"))
      && (r.Ok? ==> IsAudio(r.value) && FormatName(r.value) == format)
      && (r.Err? ==> r.error.status == 400)
  {
    ValidateVideoUrlExact(url);
  }

  /** The MP3 bitrate is the requested audio quality written in decimal, or
      192 when none (or 0) is given. */
  lemma BitrateMeaning(audioQuality: Option<int>)
    ensures var b := Bitrate(audioQuality);
      && b != [] && (if b[0] == '-' then IsDigits(b[1..]) else IsDigits(b))
      && ParseInt(b) == (if IsTruthy(audioQuality) then audioQuality.value else 192)
  {
    if IsTruthy(audioQuality) {
      IntToStringRoundTrip(audioQuality.value);
    } else {
      assert DefaultBitrate == IntToString(192);
      IntToStringRoundTrip(192);
    }
  }

  /** Audio downloads ignore the video quality and fetch the best audio;
      only MP3 is converted and only MP4 is merged; non-MP3 downloads ignore
      the audio quality. */
  lemma DownloadOptionsSpec(f: MediaFormat, quality: Option<int>, audioQuality: Option<int>)
    ensures var o := DownloadOptions(f, quality, audioQuality);
      && (IsAudio(f) ==> o.format == AudioSelector && o == DownloadOptions(f, None, audioQuality))
      && (f != Mp3 ==> o == DownloadOptions(f, quality, None))
      && (o.mp3Bitrate.Some? <==> f == Mp3)
      && (o.mergeInto.Some? <==> f == Mp4)
      && (f == Mp4 ==> o.mergeInto == Some(TargetExt(f)))
  {
  }

  /** The direct-link path asks yt-dlp for the same format the server-side
      download would use, for every format it serves. */
  lemma DirectFormatMatchesDownload(f: MediaFormat, quality: Option<int>, audioQuality: Option<int>)
    ensures DirectFormat(f, quality).None? <==> f == Mp3
    ensures f != Mp3 ==> DirectFormat(f, quality) == Some(DownloadOptions(f, quality, audioQuality).format)
  {
  }
}
