/**
 * The platform allow-list every extractor entry point applies before it
 * contacts the platform (`validate_video_url`).
 */
module Urls {
  import opened Text

  /** The supported platforms, as the lower-case text the URL must contain.
      The source's first pattern, `(youtube\.com|youtu\.be)`, is the first two. */
  const PlatformDomains: seq<string> := ["youtube.com", "youtu.be", "vimeo.com", "dailymotion.com", "twitch.tv"]

  /** Some allow-listed domain occurs somewhere in `text`. */
  predicate MentionsPlatform(text: string) {
    exists j | 0 <= j < |PlatformDomains| :: Contains(text, PlatformDomains[j])
  }

  /** `validate_video_url`: false for an empty or all-whitespace URL, otherwise
      whether the lower-cased URL contains an allow-listed domain. */
  function ValidateVideoUrl(url: string): bool {
    if IsBlank(url) then false else MentionsPlatform(Lower(url))
  }

  /** The blank-URL guard never changes the answer: a URL is accepted exactly
      when its lower-cased text names a supported platform. */
  lemma ValidateVideoUrlExact(url: string)
    ensures ValidateVideoUrl(url) <==> MentionsPlatform(Lower(url))
    ensures IsBlank(url) ==> !ValidateVideoUrl(url)
  {
    if IsBlank(url) {
      StripSpec(url);
      var low := Lower(url);
      forall j | 0 <= j < |PlatformDomains| ensures !Contains(low, PlatformDomains[j]) {
        var d := PlatformDomains[j];
        assert !IsSpace(d[0]);
        NotContainedWithoutFirstChar(low, d);
      }
    }
  }

  lemma LowerIdempotent(s: string)
    ensures Lower(Lower(s)) == Lower(s)
  {
  }

  /** The check ignores letter case: a URL and its lower-cased form get the same answer. */
  lemma ValidateVideoUrlIgnoresCase(url: string)
    ensures ValidateVideoUrl(Lower(url)) == ValidateVideoUrl(url)
  {
    ValidateVideoUrlExact(url);
    ValidateVideoUrlExact(Lower(url));
    LowerIdempotent(url);
  }

  /** A URL that contains an allow-listed domain, in any letter case, is accepted. */
  lemma ValidateVideoUrlAccepts(url: string, j: nat, at: nat)
    requires j < |PlatformDomains|
    requires OccursAt(Lower(url), PlatformDomains[j], at)
    ensures ValidateVideoUrl(url)
  {
    ValidateVideoUrlExact(url);
    assert Contains(Lower(url), PlatformDomains[j]);
  }
}
