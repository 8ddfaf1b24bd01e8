/**
 * How an extractor failure becomes an HTTP error: the message is cut to the
 * text after its last `ERROR:` marker, and keywords in that text pick the
 * status code and the user-facing detail. The raw message never reaches the
 * caller.
 */
module Errors {
  import opened Text

  /** An `HTTPException`: a status code and the detail shown to the user. */
  datatype HttpError = HttpError(status: int, detail: string)

  /** The marker yt-dlp puts in front of its error text. */
  const ErrorMarker := "ERROR:"

  const FfmpegRequired := "FFmpeg is required for this format. Please ensure FFmpeg is installed."
  const VideoUnavailable := "Video is unavailable, private, or region-restricted."
  const DownloadFailed := "Unable to download video. Please check the URL and try again."
  const MetadataFailed := "Unable to fetch video information. Please check the URL."

  /** `s.split(sep)[-1]`: what follows the last separator found by a
      left-to-right scan (all of `s` when there is none). */
  function LastPiece(s: string, sep: string): string
    requires sep != []
    decreases |s|
  {
    if |s| < |sep| then s
    else if s[..|sep|] == sep then LastPiece(s[|sep|..], sep)
    else if Contains(s[1..], sep) then LastPiece(s[1..], sep)
    else s
  }

  /** The text the classification looks at (main.py:207-210). */
  function ErrorTail(msg: string): string {
    if Contains(msg, ErrorMarker) then Strip(LastPiece(msg, ErrorMarker)) else msg
  }

  /** The message blames FFmpeg or post-processing, in any letter case. */
  predicate MentionsTool(text: string) {
    Contains(Lower(text), "ffmpeg") || Contains(Lower(text), "postprocess")
  }

  /** The message says the video is private or not available, in any letter case. */
  predicate MentionsUnavailable(text: string) {
    Contains(Lower(text), "private") || Contains(Lower(text), "available")
  }

  /** A `DownloadError` raised while downloading (`download_media`). */
  function ClassifyDownloadError(msg: string): HttpError {
    var tail := ErrorTail(msg);
    if MentionsTool(tail) then HttpError(500, FfmpegRequired)
    else if MentionsUnavailable(tail) then HttpError(400, VideoUnavailable)
    else HttpError(400, DownloadFailed)
  }

  /** A `DownloadError` raised while reading metadata (`extract_metadata`). */
  function ClassifyMetadataError(msg: string): HttpError {
    var tail := ErrorTail(msg);
    if MentionsUnavailable(tail) then HttpError(400, VideoUnavailable)
    else HttpError(400, MetadataFailed)
  }

  // ---------------------------------------------------------------------------
  // The last piece

  /** No proper suffix of `sep` is also a prefix of it. */
  predicate NoBorder(sep: string) {
    forall k :: 0 < k < |sep| ==> sep[k..] != sep[..|sep| - k]
  }

  lemma MarkerHasNoBorder()
    ensures NoBorder(ErrorMarker)
  {
    var m := ErrorMarker;
    forall k | 0 < k < |m| ensures m[k..] != m[..|m| - k] {
      assert m[k] != 'E';
      assert m[k..][0] == m[k];
    }
  }

  /** A string without the separator is its own last piece. */
  lemma LastPieceWithoutSep(s: string, sep: string)
    requires sep != [] && !Contains(s, sep)
    ensures LastPiece(s, sep) == s
  {
    if |s| >= |sep| {
      assert !OccursAt(s, sep, 0);
      if Contains(s[1..], sep) {
        var i :| 0 <= i <= |s| - 1 - |sep| && OccursAt(s[1..], sep, i);
        OccursInTail(s, sep, i + 1);
      }
    }
  }

  /** The last piece is a suffix of the input that holds no separator. */
  lemma {:induction false} LastPieceSpec(s: string, sep: string)
    requires sep != []
    ensures var r := LastPiece(s, sep);
      |r| <= |s| && r == s[|s| - |r|..] && !Contains(r, sep)
    decreases |s|
  {
    if |s| < |sep| {
      assert !Contains(s, sep);
    } else if s[..|sep|] == sep {
      LastPieceSpec(s[|sep|..], sep);
    } else if Contains(s[1..], sep) {
      LastPieceSpec(s[1..], sep);
    } else {
      assert !OccursAt(s, sep, 0);
      forall i | 1 <= i <= |s| - |sep| ensures !OccursAt(s, sep, i) {
        OccursInTail(s, sep, i);
      }
    }
  }

  /** Whatever precedes the last separator has no influence on the last piece. */
  lemma {:induction false} LastPieceAfterSep(p: string, sep: string, t: string)
    requires sep != [] && NoBorder(sep) && !Contains(t, sep)
    ensures LastPiece(p + sep + t, sep) == t
    decreases |p|
  {
    var s := p + sep + t;
    if 0 < |p| < |sep| {
      // a separator at the front would overlap the one after `p`
      var k := |p|;
      assert s[k..|sep|] == sep[..|sep| - k];
      assert s[..|sep|][k..] == s[k..|sep|];
    }
    if p == [] {
      assert s[..|sep|] == sep && s[|sep|..] == t;
      LastPieceWithoutSep(t, sep);
    } else if s[..|sep|] == sep {
      assert |p| >= |sep|;
      assert s[|sep|..] == p[|sep|..] + sep + t;
      LastPieceAfterSep(p[|sep|..], sep, t);
    } else {
      assert s[1..] == p[1..] + sep + t;
      assert OccursAt(s[1..], sep, |p| - 1);
      LastPieceAfterSep(p[1..], sep, t);
    }
  }

  // ---------------------------------------------------------------------------
  // The classification

  /** Only the text after the last `ERROR:` marker counts: a message
      `p + "ERROR:" + t` (with no marker in `t`) is looked at as `t.strip()`,
      whatever `p` says. */
  lemma ErrorTailAfterLastMarker(p: string, t: string)
    requires !Contains(t, ErrorMarker)
    ensures ErrorTail(p + ErrorMarker + t) == Strip(t)
  {
    var s := p + ErrorMarker + t;
    MarkerHasNoBorder();
    LastPieceAfterSep(p, ErrorMarker, t);
    assert OccursAt(s, ErrorMarker, |p|);
  }

  /** Two messages with the same text after their last marker are classified
      alike, by both classifiers. */
  lemma ClassificationIgnoresEarlierText(p: string, q: string, t: string)
    requires !Contains(t, ErrorMarker)
    ensures ClassifyDownloadError(p + ErrorMarker + t) == ClassifyDownloadError(q + ErrorMarker + t)
    ensures ClassifyMetadataError(p + ErrorMarker + t) == ClassifyMetadataError(q + ErrorMarker + t)
  {
    ErrorTailAfterLastMarker(p, t);
    ErrorTailAfterLastMarker(q, t);
  }

  /** A download failure is a 500 exactly when the tail blames FFmpeg or
      post-processing; everything else is a 400. The detail is always one of
      three fixed texts, never the extractor's own words. */
  lemma DownloadClassification(msg: string)
    ensures var e := ClassifyDownloadError(msg);
      && (e.status == 500 <==> MentionsTool(ErrorTail(msg)))
      && (e.status == 500 || e.status == 400)
      && (e.detail == FfmpegRequired || e.detail == VideoUnavailable || e.detail == DownloadFailed)
      && (e.detail == VideoUnavailable <==> !MentionsTool(ErrorTail(msg)) && MentionsUnavailable(ErrorTail(msg)))
  {
  }

  /** Reading metadata applies the same rule without the FFmpeg branch: it
      always answers 400, and says "unavailable" exactly when the download
      path would, unless the download path blames FFmpeg first. */
  lemma MetadataClassification(msg: string)
    ensures var m := ClassifyMetadataError(msg);
      var d := ClassifyDownloadError(msg);
      && m.status == 400
      && (m.detail == VideoUnavailable || m.detail == MetadataFailed)
      && (!MentionsTool(ErrorTail(msg)) ==> (m.detail == VideoUnavailable <==> d.detail == VideoUnavailable))
      && (!MentionsTool(ErrorTail(msg)) ==> d.status == m.status)
  {
  }
}
