# Video downloader core, modelled in Dafny

This project models the request core of a FastAPI video downloader (`main.py`).
The server takes a video URL from a supported platform (YouTube, Vimeo,
Dailymotion, Twitch). It can answer in four ways:

- with metadata;
- with a direct media link the browser fetches itself;
- with a streamed M4A audio file;
- with a file that the server downloads (and for MP3 converts) through yt-dlp.

During a server-side download, yt-dlp's progress hook writes into an
in-memory progress registry keyed by a download id. A server-sent-events
publisher polls that registry every 100 ms and relays it to the browser.
It ends on `complete`, or after 300 consecutive polls without an entry.

The modules follow the parts of `main.py`:

- `wrappers.dfy` defines `Option`, `Result` and Python's truthiness for an optional number or string.
- `text.dfy` models the Python string operations the rules use:
  - `str.isspace()`, `strip()` and ASCII `lower()`;
  - substring search and slicing;
  - `str(int)`;
  - `split` and `join` on one character.
- `urls.dfy` is `validate_video_url`.
- `selector.dfy` is `build_format_selector`.
- `sanitize.dfy` models the two file-name sanitisers. The title sanitiser is used for streamed audio and for direct links. The file-name sanitiser is used for the file the server sends.
- `errors.dfy` covers the `HTTPException` values and how a yt-dlp `DownloadError` is classified by the text after its last `ERROR:`.
- `forms.dfy` holds:
  - the form checks of the three POST/GET endpoints;
  - the extension and media-type tables;
  - the yt-dlp options that depend on the format.
- `media.dfy` covers the four extractor entry points: `download_media`, `extract_metadata`, `extract_direct_url` and `stream_audio_download`. yt-dlp is a parameter: either the outcome of its call, or a function from the options passed to that outcome.
- `endpoints.dfy` covers `/api/stream-audio`, `/api/metadata` and `/api/get-download-url`.
- `registry.dfy` models `download_progress` as a class whose `map` field the methods update in place. It includes `progress_hook` and the cleanup task.
- `api.dfy` models the `/api/download` handler as methods on the registry:
  - `StartDownload` validates the form and writes the initial entry.
  - `RunDownload` replays the hook reports in a loop, runs the worker and writes the final entry.
  - `Download` composes the two.
- `publisher.dfy` models `event_generator`:
  - The imperative `while` loop `EventGenerator` is proved equal to the recursive specification `Publish`.
  - Lemmas state how the stream starts, what it sends and when it ends.
  - What the registry holds for the download at each poll is the input `snaps`.

The registry has no clamping, no forward-only rule, no idempotent creation and no expiry:

- Percentages are not clamped: a report without totals takes an entry from 1 down to 0 (`Registry.PercentageCanDrop`).
- Status moves are not forward-only: every hook call replaces the whole entry (`Registry.HookReplacesWholeEntry`).
- Creation is not idempotent: the download handler overwrites any existing entry with `{initializing, 1}` (`Api.StartDownload`).
- There is no error status and no age-based expiry. The only removal is the cleanup task 60 seconds after a successful download.
- A failed download therefore leaves its last entry behind. A subscriber to that id is never sent `complete` or `timeout`: the stream stays open for as long as it is watched (`Publisher.PublishStuck`).
- The allow-list is a substring test on the lower-cased URL, not a check on its host (`Urls.ValidateVideoUrlExact`).

## Model

| member | source | states |
|---|---|---|
| Text.StripSpec | main.py:88 | `s.strip()` is the slice left after cutting leading and trailing whitespace (Python's `isspace` set); it is empty exactly when `s` is all whitespace |
| Text.TrimStartSpec | main.py:88 | `lstrip` removes exactly the leading whitespace and leaves a non-space first character |
| Text.TrimEndSpec | main.py:88 | `rstrip` removes exactly the trailing whitespace and leaves a non-space last character |
| Text.Lower | main.py:99 | lower-casing keeps the length and maps every ASCII capital to its small letter, 32 code points higher, leaving other characters alone |
| Text.Take | main.py:286 | `s[:n]` has length `min(len(s), n)` and is a prefix of `s` |
| Text.IntToString | main.py:114 | `str(q)` is non-empty decimal digits, led by `-` exactly for a negative `q` |
| Text.IntToStringRoundTrip | main.py:114 | `int(str(q)) == q` for every integer |
| Text.NatToStringValue | main.py:114 | the digits of `str(n)` have the value `n` |
| Text.SplitJoin | main.py:103-120 | splitting at a one-character separator undoes joining with it when no part holds the separator |
| Text.JoinEnds | main.py:103-120 | a joined string begins with its first part and ends with its last |
| Text.JoinAvoids | main.py:103-120 | a character that is neither the separator nor in any part is not in the join |
| Text.NotContainedWithoutFirstChar | main.py:86-100 | a needle whose first character is absent from `s` does not occur in `s` |
| Urls.ValidateVideoUrlExact | main.py:86-100 | a URL is accepted exactly when its lower-cased text contains one of the five domains; a blank URL is always refused |
| Urls.ValidateVideoUrl | main.py:86-100 | `validate_video_url`: false for a blank URL, else whether the lower-cased URL mentions an allow-listed domain; its meaning is stated by `Urls.ValidateVideoUrlExact` and `Urls.ValidateVideoUrlAccepts` |
| Urls.ValidateVideoUrlIgnoresCase | main.py:99-100 | a URL and its lower-cased form get the same answer |
| Urls.ValidateVideoUrlAccepts | main.py:92-100 | a URL containing an allow-listed domain anywhere, in any letter case, is accepted |
| Urls.LowerIdempotent | main.py:99 | lower-casing twice is lower-casing once |
| FormatSelector.SelectorSplitsIntoAlternatives | main.py:103-120 | splitting the selector at `/` gives back exactly the alternatives, in order |
| FormatSelector.BuildFormatSelector | main.py:103-120 | `build_format_selector`: the alternatives joined by `/`; the lemmas around it state their order, their height filters and the final `best` |
| FormatSelector.SelectorEndsWithBest | main.py:110-120 | every selector ends with the unrestricted `/best` |
| FormatSelector.SelectorUnlimited | main.py:110-120 | without a quality (None or 0) no alternative has a height filter |
| FormatSelector.SelectorLimited | main.py:113-119 | with any non-zero quality `q` every alternative but the last carries `[height<=q]` |
| FormatSelector.SelectorProgressiveFirst | main.py:110-113 | in progressive mode with a positive quality, the first choice is the single-file MP4 `best[height<=q][ext=mp4]` |
| FormatSelector.HeightFilterChars | main.py:113 | a height filter never contains `/`, so it cannot split an alternative |
| FormatSelector.JoinLast | main.py:103-120 | a join of two or more parts puts the separator before the last part |
| Sanitize.ReplaceUnsafe | main.py:283 | the comprehension keeps the length and maps each character to itself when it is ASCII alphanumeric or allowed punctuation, else to `_` |
| Sanitize.CollapseSpec | main.py:285 | `re.sub(r'[\s_]+', '_', s)` leaves no whitespace and no `__`; it is empty only on empty input, starts with `_` exactly when `s` starts with a separator, and keeps every other character in order |
| Sanitize.CollapseIsSqueeze | main.py:285 | the collapse equals an independent character-by-character reading: every separator becomes `_`, then each `_` right after another `_` is dropped; so each maximal run of whitespace and `_` becomes exactly one `_` (`My Video` gives `My_Video`) |
| Sanitize.CollapseFixes | main.py:285 | a string with no whitespace and no `__` is left unchanged by the collapse |
| Sanitize.CollapseAppend | main.py:285 | the collapse works piecewise when the second piece does not start inside a run |
| Sanitize.CollapseSafe | main.py:283-285 | the collapse turns kept characters into safe ones |
| Sanitize.ReplaceUnsafeKeeps | main.py:283 | after replacement only kept characters remain |
| Sanitize.ReplaceUnsafeAppend | main.py:283 | replacement works character by character over a concatenation |
| Sanitize.ReplaceUnsafeFixes | main.py:283 | replacement leaves a string of kept characters unchanged |
| Sanitize.ReplaceUnsafeCarries | main.py:283 | the non-separator characters after replacement are exactly the carried characters of the input |
| Sanitize.StripKeepsNonSeparators | main.py:283 | stripping removes only separators |
| Sanitize.CleanTitleEmpty | main.py:281-286 | the cleaned title is empty exactly when the title is spaces only, the empty title included |
| Sanitize.CleanTitleSafe | main.py:283-285 | the cleaned title has only safe characters, no whitespace and no `__`, and carries the title's letters, digits and dashes in order |
| Sanitize.SanitizeTitleSafe | main.py:283-286 | with a safe fallback, the sanitised title is 1 to 100 safe characters with no space and no `__` |
| Sanitize.SanitizeTitle | main.py:283-286 | the title sanitiser: replace, collapse and strip, then the fallback for an empty result and a 100-character cut; `Sanitize.SanitizeTitleSafe` and `Sanitize.SanitizeTitleMeaning` state what it yields |
| Sanitize.SanitizeTitleMeaning | main.py:281-286 | the fallback is used exactly for an all-space title; otherwise the result carries a prefix of the title's letters, digits and dashes, all of them when the cleaned title fits in 100 characters, and is the first 100 characters of the stripped replacement with each separator run turned into one `_` (`Sanitize.CollapseIsSqueeze`) |
| Sanitize.SanitizeTitleFixes | main.py:283-286 | a safe title is left unchanged |
| Sanitize.SanitizeTitleIdempotent | main.py:283-286 | sanitising a sanitised title changes nothing |
| Sanitize.FallbacksAreSafe | main.py:286 | the fallbacks `audio` and `download` are safe titles |
| Sanitize.SanitizeFilenameSpec | main.py:635-637 | the empty name stays empty; otherwise the result is non-empty, made of letters, digits, `-`, `_` and `.`, with no whitespace and no `__`, and carries the input's letters, digits, dashes and dots in order; it is the replacement with each separator run turned into one `_` (`Sanitize.CollapseIsSqueeze`) |
| Sanitize.SanitizeFilename | main.py:635-637 | the file-name sanitiser, which also keeps dots and has no length cut or fallback; `Sanitize.SanitizeFilenameSpec` states what it yields |
| Sanitize.SanitizeFilenameIdempotent | main.py:635-637 | sanitising a sanitised name changes nothing |
| Sanitize.SanitizeFilenameKeepsExtension | main.py:635-637 | a name `stem.ext` with an alphanumeric extension keeps `.ext` at its end |
| Errors.LastPieceSpec | main.py:208-210 | `s.split(sep)[-1]` is a suffix of `s` that holds no `sep` |
| Errors.LastPieceWithoutSep | main.py:208-210 | a string without the separator is its own last piece |
| Errors.LastPieceAfterSep | main.py:208-210 | for a separator with no border, whatever precedes its last occurrence has no influence on the last piece |
| Errors.LastPiece | main.py:210 | `s.split(sep)[-1]`; `Errors.LastPieceSpec`, `Errors.LastPieceWithoutSep` and `Errors.LastPieceAfterSep` state what it yields |
| Errors.MarkerHasNoBorder | main.py:208 | no proper suffix of `ERROR:` is a prefix of it |
| Errors.ErrorTailAfterLastMarker | main.py:207-210 | a message `p + "ERROR:" + t`, with no marker in `t`, is judged by `t.strip()` alone |
| Errors.ErrorTail | main.py:207-210 | the text after the last `ERROR:`, stripped, or the whole message when it has no marker; `Errors.ErrorTailAfterLastMarker` states it |
| Errors.ClassifyDownloadError | main.py:205-225 | the `DownloadError` branch of `download_media`; `Errors.DownloadClassification` states its three outcomes |
| Errors.ClassifyMetadataError | main.py:380-393 | the `DownloadError` branch of `extract_metadata`; `Errors.MetadataClassification` states its two outcomes |
| Errors.MentionsTool | main.py:211 | whether the lower-cased tail contains `ffmpeg` or `postprocess`; `Errors.DownloadClassification` states what it decides |
| Errors.MentionsUnavailable | main.py:216 | whether the lower-cased tail contains `private` or `available`, the test of main.py:384 as well; `Errors.DownloadClassification` and `Errors.MetadataClassification` state what it decides |
| Errors.ClassificationIgnoresEarlierText | main.py:205-225 | two messages with the same text after their last marker are classified alike, by both classifiers |
| Errors.DownloadClassification | main.py:205-225 | a download failure is a 500 exactly when its tail mentions ffmpeg or postprocess; otherwise it is a 400, and "unavailable" exactly when the tail mentions private or available; the detail is always one of three fixed texts |
| Errors.MetadataClassification | main.py:380-393 | a metadata failure is always a 400, "unavailable" or the fixed fetch message, agreeing with the download classification whenever that does not blame FFmpeg |
| Forms.ParseFormatExact | main.py:601 | a form value is accepted as a format exactly when it is that format's name |
| Forms.ParseFormat | main.py:601 | the format a form value names, if any; `Forms.ParseFormatExact` states it |
| Forms.TargetExt | main.py:234-239 | the extension the produced file must have; `Forms.ExtensionAndMediaType` states it |
| Forms.MediaType | main.py:627-632 | the response type of the file reply; `Forms.ExtensionAndMediaType` states it |
| Forms.ExtensionAndMediaType | main.py:234-239 | the expected extension is the format's name; the response type is `audio/...` exactly for MP3 and M4A, and `video/mp4` for MP4 |
| Forms.UrlErrorsFirst | main.py:597-600 | a refused URL is answered 400 by every form, "URL is required." when blank, whatever the other fields |
| Forms.CheckUrl | main.py:597-600 | the blank check, then the allow-list, shared by every form (also main.py:543-546, 702-705 and 722-725); `Forms.UrlErrorsFirst` states it |
| Forms.DownloadFormAccepts | main.py:597-606 | `/api/download` accepts exactly an allow-listed URL, one of the three formats and positive qualities when given; it keeps the fields; every refusal is a 400 |
| Forms.DirectFormAccepts | main.py:722-727 | `/api/get-download-url` accepts exactly mp4 and mp3 on an allow-listed URL; every refusal is a 400 |
| Forms.StreamFormAccepts | main.py:543-548 | `/api/stream-audio` accepts exactly mp3 and m4a on an allow-listed URL; every refusal is a 400 |
| Forms.ValidateDownloadForm | main.py:597-606 | the URL check, then the format, then the two qualities, each refusal a 400; `Forms.DownloadFormAccepts` states what it accepts |
| Forms.ValidateDirectForm | main.py:722-727 | the URL check, then mp4 or mp3 only; `Forms.DirectFormAccepts` states what it accepts |
| Forms.ValidateStreamForm | main.py:543-548 | the URL check, then mp3 or m4a only; `Forms.StreamFormAccepts` states what it accepts |
| Forms.FieldOr | main.py:591 | a form field left out takes its declared default: `mp4` here and at main.py:712, `m4a` for streamed audio (main.py:534); the endpoint lemmas state what a request without a format gets |
| Forms.BitrateMeaning | main.py:173 | the MP3 bitrate parses back to the audio quality, or to 192 when it is missing or 0 |
| Forms.Bitrate | main.py:173 | the MP3 bitrate text; `Forms.BitrateMeaning` states it |
| Forms.DownloadOptionsSpec | main.py:171-200 | audio downloads fetch the best audio whatever the video quality; only MP3 is converted; only MP4 is merged, into mp4; non-MP3 downloads ignore the audio quality |
| Forms.DownloadOptions | main.py:171-200 | the request-dependent yt-dlp options of `download_media`: selector, post-processor and merge format; `Forms.DownloadOptionsSpec` states them |
| Forms.DirectFormatMatchesDownload | main.py:431-439 | the direct path asks for no format for MP3, and otherwise for the same format the server download uses |
| Forms.DirectFormat | main.py:431-439 | the format selector of the direct path; `Forms.DirectFormatMatchesDownload` states it |
| Media.MediaUrlOf | main.py:273-277 | a media URL found is non-empty |
| Media.FirstWithExt | main.py:241-246 | the index found is the first file matching `*.ext`; with none found, no file matches |
| Media.EntryPointsRejectInvalidUrl | main.py:125-126 | every extractor entry point answers a refused URL with 400 before yt-dlp is consulted |
| Media.DownloadMediaSpec | main.py:202-246 | a `DownloadError` is classified; any other exception is the fixed 500; otherwise a download succeeds exactly when a listed file has the format's extension, and returns the first such file, else 500 "No output file produced." |
| Media.DownloadMediaErrors | main.py:123-246 | every error of `download_media` is a 400 or 500 with one of six fixed details |
| Media.DownloadMedia | main.py:123-246 | `download_media` with yt-dlp as a function of the options; `Media.DownloadMediaSpec` and `Media.DownloadMediaErrors` state its outcomes |
| Media.ExtractMetadataSpec | main.py:367-411 | errors are classified; on success title, duration, uploader and page URL pass through, and the thumbnail is the info's own when non-empty, else the last listed one, and missing only when neither exists |
| Media.ExtractMetadata | main.py:367-411 | `extract_metadata` over yt-dlp's outcome; `Media.ExtractMetadataSpec` states its outcomes |
| Media.ThumbnailOf | main.py:400-403 | the info's own thumbnail when non-empty, else the last listed one; `Media.ExtractMetadataSpec` states it |
| Media.DirectUrlFallsBack | main.py:414-488 | on an allow-listed URL no error escapes: MP3, an extraction failure or a missing media URL all mean "use the server download" |
| Media.ExtractDirectUrl | main.py:414-488 | `extract_direct_url` with yt-dlp as a function of the requested format; `Media.DirectUrlFallsBack` and `Media.DirectLinkSpec` state its outcomes |
| Media.DirectLinkSpec | main.py:446-478 | a direct link has a non-empty URL and is named by a safe title plus the extension, which is `m4a` for M4A |
| Media.StreamAudioDownloadSpec | main.py:249-364 | success only for a format other than MP3 (the stream form lets through only mp3 and m4a, so M4A) with a media URL, naming `<safe title>.m4a` in ASCII; MP3 is 501; a `DownloadError` is 400; another exception is 500 with at most 100 characters of its message after a fixed prefix |
| Media.StreamAudioDownload | main.py:249-364 | `stream_audio_download` over yt-dlp's outcome; `Media.StreamAudioDownloadSpec` states its outcomes |
| Media.StreamedAudioName | main.py:281-294 | the suggested audio name is a safe title plus `.m4a`, and ASCII |
| Media.SafeTitleIsAscii | main.py:283 | a safe title is plain ASCII |
| Endpoints.StreamAudioSpec | main.py:531-584 | only M4A is streamed, typed `audio/mp4`, with the plain `attachment; filename="<safe title>.m4a"` header; mp3 is an error; a refused URL is always a 400 |
| Endpoints.StreamAudio | main.py:531-584 | `stream_audio`: the form with its `m4a` default, the extractor, then the reply's type and header; `Endpoints.StreamAudioSpec` states its outcomes |
| Endpoints.ContentDisposition | main.py:559-567 | the plain `attachment; filename="…"` header for an ASCII name, else the RFC 5987 form; `Endpoints.M4aHeader` states which one a streamed file gets |
| Endpoints.StreamAudioReply | main.py:531-584 | a reply comes only from an M4A request, typed `audio/mp4`, with the plain header naming a safe title plus `.m4a` |
| Endpoints.M4aHeader | main.py:559-567 | the streamed file's header is always the plain form, naming a safe title plus `.m4a` |
| Endpoints.StreamAudioDefault | main.py:534-548 | a form without a format asks for M4A, and is streamed as `audio/mp4` whenever the URL is allow-listed and yt-dlp yields a media URL |
| Endpoints.UrlRejected | main.py:543-548 | a refused URL or format never reaches the extractor and is answered 400 |
| Endpoints.MetadataEndpointSpec | main.py:700-706 | a blank URL is "URL is required.", another refused URL is the allow-list message, and otherwise the answer is `extract_metadata`'s |
| Endpoints.MetadataEndpoint | main.py:700-706 | `get_metadata`: the URL check, then `extract_metadata`; `Endpoints.MetadataEndpointSpec` states its outcomes |
| Endpoints.GetDownloadUrlSpec | main.py:709-750 | a reply exists exactly for mp4 or mp3 on an allow-listed URL, and always for an allow-listed URL without a format; a direct link only for mp4 and with a non-empty URL; mp3 always gets the fixed advice; m4a is a 400 |
| Endpoints.GetDownloadUrl | main.py:709-750 | `get_download_url`: the form with its `mp4` default, then a direct link or the advice to use the server download; `Endpoints.GetDownloadUrlSpec` states its outcomes |
| Registry.ProgressRegistry.constructor | main.py:83 | the registry starts empty |
| Registry.ProgressRegistry.Put | main.py:611-616 | a write replaces the entry under its key and nothing else |
| Registry.ProgressRegistry.Hook | main.py:131-160 | one hook call leaves the registry as `ApplyHook` describes |
| Registry.ProgressRegistry.Cleanup | main.py:619-621 | cleanup removes the key and nothing else |
| Registry.HookWritesOnlyItsKey | main.py:133 | without a download id the hook writes nothing; with one it writes only that key |
| Registry.HookReplacesWholeEntry | main.py:141-160 | a `downloading` or `finished` report replaces the whole entry, whatever it held |
| Registry.HookEntrySpec | main.py:134-160 | `finished` writes `{processing, 100}`; `downloading` writes percentage 0 and no total without a positive total, else the reported percentage and total; other reports write nothing |
| Registry.HookEntry | main.py:134-160 | the entry one report writes, if any; `Registry.HookEntrySpec` states it |
| Registry.ApplyHook | main.py:131-160 | the registry after one hook call; `Registry.HookWritesOnlyItsKey` and `Registry.HookReplacesWholeEntry` state it |
| Registry.ReportTotal | main.py:136 | `total_bytes` when truthy, else `total_bytes_estimate` when the report has it, else 0; `Registry.HookEntrySpec` states how it is used |
| Registry.ApplyHooks | main.py:131-160 | the registry after the hook calls of one download, in order; `Registry.ApplyHooksFrame` and `Registry.ApplyHooksKeepsKey` state it |
| Registry.PercentageCanDrop | main.py:136-154 | a report without totals takes a fresh entry's percentage from 1 down to 0 |
| Registry.ApplyHooksFrame | main.py:131-160 | any number of hook calls for one download leave every other key alone |
| Registry.ApplyHooksKeepsKey | main.py:131-160 | hook calls never remove the download's key: a failed download leaves an entry behind |
| Api.StartDownload | main.py:596-611 | an invalid form changes nothing and is answered with its error; a valid one writes `{initializing, 1}` under the client's id or the fresh id |
| Api.JobId | main.py:609-610 | the client's download id when truthy, else the fresh one; `Api.StartDownload` states it |
| Api.RunDownload | main.py:613-644 | the registry holds the replayed hook reports; on success the key is overwritten with `{complete, 100}` and the file is named by the file-name sanitiser, typed by format, and tagged with the id |
| Api.Download | main.py:587-644 | an invalid form is answered with its error and leaves the registry alone; a valid one (format `mp4` when left out) writes `{initializing, 1}` and the hook reports under the job id; a failed worker is answered with its error and leaves that key behind; a success overwrites it with `{complete, 100}`, names the file by the file-name sanitiser, types it by format, reports the job id, and changes no other key |
| Api.LifecycleFrame | main.py:611-616 | after the initial entry, any hook reports and the final write, the key holds `{complete, 100}` and every other key is as before |
| Publisher.EventGenerator | main.py:650-687 | the polling loop produces exactly the run `Publish` describes |
| Publisher.PollEvents | main.py:660-683 | from any state the loop sends progress events, then one final event matching how it ended |
| Publisher.Poll | main.py:660-683 | one poll of the loop and the rest of the run, as a recursive specification; the `Poll…` lemmas state its properties |
| Publisher.PollCompletes | main.py:671-673 | the loop ends with `complete` only at the first poll that finds a complete entry |
| Publisher.PollTimesOut | main.py:660-683 | the loop ends with `timeout` only after consecutive empty polls bring the counter to 300 |
| Publisher.PollOpen | main.py:660-679 | a loop still polling has read every snapshot and found no complete entry |
| Publisher.PollProgress | main.py:662-669 | the percentages sent are the changes among the percentages found |
| Publisher.PollNeverCreated | main.py:676-683 | with only empty polls the loop sends only `timeout`, after exactly the polls left before 300 |
| Publisher.ChangesSpec | main.py:666-669 | consecutive percentages sent differ, and the first differs from the starting value |
| Publisher.PublishShape | main.py:653-686 | the stream opens with `connected`, then sends only progress events, then at most one terminal `complete` or `timeout`, exactly when it ended that way |
| Publisher.Publish | main.py:650-687 | `event_generator`: `connected`, then the polls from percentage -1 and counter 0; the `Publish…` lemmas state its properties |
| Publisher.PublishProgress | main.py:657-669 | a percentage is sent exactly when it differs from the last one sent; consecutive percentages sent differ |
| Publisher.PublishCompletes | main.py:671-673 | the stream ends with `complete` only at the first poll that finds a complete entry |
| Publisher.PublishTimesOut | main.py:660-683 | the stream ends with `timeout` only after 300 consecutive empty polls, with no complete entry found before |
| Publisher.PublishOpen | main.py:660-681 | a stream still polling has read every poll and found no complete entry |
| Publisher.PublishCompletesWhenSeen | main.py:660-681 | a complete entry at poll `t` ends the stream there with `complete`, unless an earlier poll found one or 300 consecutive earlier polls were empty |
| Publisher.PublishNeverCreated | main.py:653-686 | a subscription to an id that never appears gets `connected` and, after 300 polls, `timeout` |
| Publisher.PublishStuck | main.py:660-681 | an entry present at every poll but never complete keeps the stream open with only progress events |

## Left out

- yt-dlp itself is not modelled. Its outcome for each call is an input to the model:
  - the info dictionary or the exception it raised;
  - for `download_media`, the temporary directory's listing after the download.
- The order of `Path.glob` is whatever that listing gives.
- The temporary directory's creation and removal are left out: `mkdtemp`, `rmtree` and the background `rmtree` task.
- The output template and the fixed yt-dlp options (`quiet`, `noplaylist`, `restrictfilenames`, …) are left out. Only the options that depend on the request are modelled.
- The `stream_m4a` generator is left out. It is a subprocess running `yt-dlp` whose stdout is forwarded in 64 KiB chunks. Its errors surface after the response has started.
- Asynchrony and concurrency are left out:
  - `asyncio.to_thread`, `asyncio.sleep` and client disconnects;
  - the interleaving of the hook, the publisher and the cleanup task.
  
  The publisher reads one registry snapshot per poll, given as input. The handler's worker reports reach the hook in order. The 60-second delay before cleanup is not modelled; cleanup is a separate method.
- `Publisher.EventGenerator` is observed over a finite window of polls. A run that is neither complete nor timed out at the end of the window is `StillPolling`.
- The hook's percentage is an input. The hook computes it as `int((downloaded / total) * 100)` in floating point. Likewise, `speed` and `eta` are not stored in `Registry.Entry`.
- The registry keys `downloaded` and `total`, and every payload, are modelled as values. How they are serialised is not modelled: `json.dumps`, and the `data: …` framing of server-sent events.
- `downloading` reports holding an explicit `None` are not modelled (main.py:136-153). They behave three ways:
  - `total_bytes` missing, `None` or 0, and `total_bytes_estimate` present as `None`: `total` is `None`, and `None > 0` raises a `TypeError`.
  - A positive total and `downloaded_bytes` present as `None`: `None / total` raises a `TypeError`.
  - No positive total and `downloaded_bytes` present as `None`: nothing raises, and the hook writes `{downloading, 0, downloaded: None}`, an entry `Registry.Entry` cannot hold.
  
  A truthy `total_bytes` is used without reading the estimate, so a `None` estimate beside it is modelled.
- An info dictionary whose `title` is present but `None` is not modelled: the comprehension over it raises.
- `Text.Lower` models `str.lower()` on ASCII only. This does not change any answer of `validate_video_url`:
  - The only other characters whose lower-case form contains an ASCII letter are U+212A (Kelvin sign, to `k`) and U+0130 (to `i` followed by U+0307).
  - No allow-listed domain contains `k`.
  - An `i` produced from U+0130 is always followed by U+0307, which no domain contains.
- The same holds for `Errors.MentionsTool` and `Errors.MentionsUnavailable`, which look for `ffmpeg`, `postprocess`, `private` and `available` in the lower-cased message. None of these words contains `k`, and none has U+0307 after an `i`.
- `Endpoints.StreamAudio` stands for the RFC 5987 form of the `Content-Disposition` header (section 3.2 of RFC 5987) by `None`. That branch is unreachable, because the suggested name is always ASCII (`Endpoints.StreamAudioSpec`).
- The "Audio streaming failed" handler of `/api/stream-audio` (main.py:580-584) is not modelled. Nothing between the call and the response can raise anything but an `HTTPException`.
- `Endpoints.GetDownloadUrl` gives the detail of a caught `HTTPException` as its message, not `str(exc)`. The only exception `extract_direct_url` can raise there is the URL check, which the form has already passed, so the branch is unreachable (`Endpoints.GetDownloadUrlSpec`).
- `Api.Download` takes the fresh download id as a parameter; `uuid.uuid4()` itself is not modelled.
- A left-out `media_format` field is modelled by `Forms.FieldOr`. What FastAPI does before the handler runs is not modelled: it answers a missing or empty `url` with 422, and it replaces an empty `media_format` by the default.
- The HTML page routes, the static-file cache middleware, the contact form and its SMTP delivery are outside this model. So are `config.py`, `uvicorn_config.py` and `test_static.py`.
