/**
 * The yt-dlp format selector (`build_format_selector`): a `/`-separated list
 * of alternatives that yt-dlp tries in order, each optionally limited to a
 * maximum height.
 */
module FormatSelector {
  import opened Wrappers
  import opened Text

  /** The filter `[height<=q]`, with `q` written as Python's `str(q)`. */
  function HeightFilter(q: int): string {
    "[height<=" + IntToString(q) + "]"
  }

  /** The selector's alternatives, most preferred first. */
  function Alternatives(quality: Option<int>, preferProgressive: bool): seq<string> {
    if preferProgressive then
      if IsTruthy(quality) then
        var f := HeightFilter(quality.value);
        ["best" + f + "[ext=mp4]", "bestvideo" + f + "+bestaudio", "best" + f, "best"]
      else
        ["best[ext=mp4]", "bestvideo+bestaudio", "best"]
    else
      if IsTruthy(quality) then
        var f := HeightFilter(quality.value);
        ["bestvideo" + f + "+bestaudio", "best" + f, "best"]
      else
        ["bestvideo+bestaudio", "best"]
  }

  /** `build_format_selector(quality, prefer_progressive)` */
  function BuildFormatSelector(quality: Option<int>, preferProgressive: bool): string {
    Join(Alternatives(quality, preferProgressive), '/')
  }

  lemma HeightFilterChars(q: int)
    ensures '/' !in HeightFilter(q)
  {
    var s := IntToString(q);
    assert '/' !in s by {
      forall i | 0 <= i < |s| ensures s[i] != '/' { }
    }
  }

  /** Reading the selector back, as yt-dlp does by splitting at `/`, yields
      exactly the alternatives, in order. */
  lemma SelectorSplitsIntoAlternatives(quality: Option<int>, preferProgressive: bool)
    ensures Split(BuildFormatSelector(quality, preferProgressive), '/') == Alternatives(quality, preferProgressive)
  {
    var alts := Alternatives(quality, preferProgressive);
    if IsTruthy(quality) {
      HeightFilterChars(quality.value);
    }
    forall i | 0 <= i < |alts| ensures '/' !in alts[i] { }
    SplitJoin(alts, '/');
  }

  /** Whatever the inputs, the last alternative is the unrestricted `best`, so
      the selector ends with `/best`. */
  lemma SelectorEndsWithBest(quality: Option<int>, preferProgressive: bool)
    ensures var sel := BuildFormatSelector(quality, preferProgressive);
      |sel| >= 5 && sel[|sel| - 5..] == "/best"
  {
    var alts := Alternatives(quality, preferProgressive);
    var sel := BuildFormatSelector(quality, preferProgressive);
    var n := |alts|;
    assert alts[n - 1] == "best";
    var front := Join(alts[..n - 1], '/');
    JoinLast(alts, '/');
    assert sel == front + ['/'] + "best";
    assert sel[|sel| - 5..] == ['/'] + "best";
  }

  /** Joining a list of at least two parts puts the separator before the last part. */
  lemma {:induction false} JoinLast(parts: seq<string>, sep: char)
    requires |parts| >= 2
    ensures Join(parts, sep) == Join(parts[..|parts| - 1], sep) + [sep] + parts[|parts| - 1]
  {
    if |parts| > 2 {
      JoinLast(parts[1..], sep);
      assert parts[1..][..|parts| - 2] == parts[..|parts| - 1][1..];
    }
  }

  /** Without a quality (None or 0) no alternative carries a height filter. */
  lemma SelectorUnlimited(quality: Option<int>, preferProgressive: bool)
    requires !IsTruthy(quality)
    ensures !Contains(BuildFormatSelector(quality, preferProgressive), "height<=")
  {
    var alts := Alternatives(quality, preferProgressive);
    forall i | 0 <= i < |alts| ensures 'h' !in alts[i] { }
    JoinAvoids(alts, '/', 'h');
    NotContainedWithoutFirstChar(BuildFormatSelector(quality, preferProgressive), "height<=");
  }

  /** With a quality `q` (any non-zero value, negative ones included) every
      alternative but the final `best` is limited to height `q`. */
  lemma SelectorLimited(quality: Option<int>, preferProgressive: bool)
    requires IsTruthy(quality)
    ensures var alts := Alternatives(quality, preferProgressive);
      && alts[|alts| - 1] == "best"
      && forall i :: 0 <= i < |alts| - 1 ==> Contains(alts[i], HeightFilter(quality.value))
  {
    var alts := Alternatives(quality, preferProgressive);
    var f := HeightFilter(quality.value);
    OccursInMiddle("best", f, "[ext=mp4]");
    OccursInMiddle("bestvideo", f, "+bestaudio");
    OccursInMiddle("best", f, "");
    assert "best" + f + "" == "best" + f;
    forall i | 0 <= i < |alts| - 1 ensures Contains(alts[i], f) {
      if (preferProgressive && i == 1) || (!preferProgressive && i == 0) {
        assert OccursAt(alts[i], f, 9);
      } else {
        assert OccursAt(alts[i], f, 4);
      }
    }
  }

  /** In progressive mode with a positive quality `q`, the first choice is the
      single-file MP4 of height at most `q`. */
  lemma SelectorProgressiveFirst(q: int)
    requires q > 0
    ensures var sel := BuildFormatSelector(Some(q), true);
      var first := "best[height<=" + IntToString(q) + "][ext=mp4]";
      |first| <= |sel| && sel[..|first|] == first
  {
    var alts := Alternatives(Some(q), true);
    JoinEnds(alts, '/');
    assert alts[0] == "best[height<=" + IntToString(q) + "][ext=mp4]";
  }
}
