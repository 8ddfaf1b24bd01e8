/**
 * The two file-name sanitisers. The title sanitiser (used for the streamed
 * audio file and the direct link) replaces every character other than an
 * ASCII letter, digit, space, `-` or `_` by `_`, strips the ends, collapses
 * each run of whitespace and `_` into one `_`, cuts the result to 100
 * characters and falls back to a fixed name when nothing is left. The name
 * sanitiser (used for the file the server sends) also keeps `.`, does not
 * strip or cut, and falls back to the original name.
 */
module Sanitize {
  import opened Text

  /** The longest title the title sanitiser returns. */
  const MaxTitleLength := 100

  /** The fallback title of the streamed-audio path. */
  const AudioFallback := "audio"

  /** The fallback title of the direct-link path. */
  const DownloadFallback := "download"

  /** A character that may appear in a sanitised result. */
  predicate SafeChar(c: char, allowDot: bool) {
    IsAsciiAlnum(c) || c == '-' || c == '_' || (allowDot && c == '.')
  }

  /** A character the replacement step keeps: a safe one, or a space. */
  predicate Kept(c: char, allowDot: bool) {
    SafeChar(c, allowDot) || c == ' '
  }

  /** One step of the character comprehension. */
  function ReplaceChar(c: char, allowDot: bool): char {
    if Kept(c, allowDot) then c else '_'
  }

  /** The character comprehension: each character that is not kept becomes `_`. */
  function ReplaceUnsafe(s: string, allowDot: bool): (r: string)
    ensures |r| == |s|
    ensures forall i :: 0 <= i < |s| ==> r[i] == ReplaceChar(s[i], allowDot)
  {
    if s == [] then [] else [ReplaceChar(s[0], allowDot)] + ReplaceUnsafe(s[1..], allowDot)
  }

  /** The class `[\s_]` of the collapse pattern. */
  predicate IsSeparator(c: char) {
    IsSpace(c) || c == '_'
  }

  /** The text of `s` with every separator left out. */
  function NonSeparators(s: string): string {
    if s == [] then []
    else (if IsSeparator(s[0]) then [] else [s[0]]) + NonSeparators(s[1..])
  }

  /** Skips a leading run of separators. */
  function DropSeparators(s: string): (r: string)
    ensures |r| <= |s|
  {
    if s != [] && IsSeparator(s[0]) then DropSeparators(s[1..]) else s
  }

  /** `re.sub(r'[\s_]+', '_', s)`: every maximal run of separators becomes one `_`. */
  function Collapse(s: string): string
    decreases |s|
  {
    if s == [] then []
    else if IsSeparator(s[0]) then "_" + Collapse(DropSeparators(s[1..]))
    else [s[0]] + Collapse(s[1..])
  }

  predicate NoSpace(s: string) {
    forall i :: 0 <= i < |s| ==> !IsSpace(s[i])
  }

  predicate NoDoubleUnderscore(s: string) {
    forall i :: 0 < i < |s| ==> !(s[i - 1] == '_' && s[i] == '_')
  }

  predicate AllSafe(s: string, allowDot: bool) {
    forall i :: 0 <= i < |s| ==> SafeChar(s[i], allowDot)
  }

  predicate AllKept(s: string, allowDot: bool) {
    forall i :: 0 <= i < |s| ==> Kept(s[i], allowDot)
  }

  /** What the title sanitiser can return: 1 to 100 safe characters, no `__`. */
  predicate IsSafeTitle(s: string) {
    1 <= |s| <= MaxTitleLength && AllSafe(s, false) && NoDoubleUnderscore(s)
  }

  /** Title text after replacement, stripping and collapsing, before the cut. */
  function CleanTitle(title: string): string {
    Collapse(Strip(ReplaceUnsafe(title, false)))
  }

  /** The title sanitiser (`safe_title`, with its fallback). */
  function SanitizeTitle(title: string, fallback: string): string {
    var cut := Take(CleanTitle(title), MaxTitleLength);
    if cut == [] then fallback else cut
  }

  /** The name sanitiser (`safe_filename`, falling back to the original name). */
  function SanitizeFilename(name: string): string {
    var collapsed := Collapse(ReplaceUnsafe(name, true));
    if collapsed == [] then name else collapsed
  }

  // ---------------------------------------------------------------------------
  // Separators

  lemma {:induction false} NonSeparatorsAppend(a: string, b: string)
    ensures NonSeparators(a + b) == NonSeparators(a) + NonSeparators(b)
  {
    if a == [] {
      assert a + b == b;
    } else {
      assert (a + b)[1..] == a[1..] + b;
      NonSeparatorsAppend(a[1..], b);
    }
  }

  lemma {:induction false} NonSeparatorsOfSpaces(s: string)
    requires AllSpace(s)
    ensures NonSeparators(s) == []
  {
    if s != [] {
      NonSeparatorsOfSpaces(s[1..]);
    }
  }

  lemma {:induction false} DropSeparatorsSpec(s: string)
    ensures var r := DropSeparators(s);
      && r == s[|s| - |r|..]
      && (r != [] ==> !IsSeparator(r[0]))
      && NonSeparators(r) == NonSeparators(s)
  {
    if s != [] && IsSeparator(s[0]) {
      var r := DropSeparators(s[1..]);
      DropSeparatorsSpec(s[1..]);
      assert s[1..][|s| - 1 - |r|..] == s[|s| - |r|..];
      assert NonSeparators(s) == NonSeparators(s[1..]);
    }
  }

  lemma {:induction false} DropSeparatorsAppend(a: string, b: string)
    requires b == [] || !IsSeparator(b[0])
    ensures DropSeparators(a) == [] ==> DropSeparators(a + b) == b
    ensures DropSeparators(a) != [] ==> DropSeparators(a + b) == DropSeparators(a) + b
  {
    if a == [] {
      assert a + b == b;
    } else if IsSeparator(a[0]) {
      assert (a + b)[1..] == a[1..] + b;
      DropSeparatorsAppend(a[1..], b);
    }
  }

  // ---------------------------------------------------------------------------
  // The collapse

  /** The collapse leaves no whitespace and no `__`, starts with `_` exactly
      when its input starts with a separator, is empty only on empty input,
      and keeps every other character, in order. */
  lemma {:induction false} CollapseSpec(s: string)
    ensures var r := Collapse(s);
      && |r| <= |s|
      && (r == [] <==> s == [])
      && (r != [] ==> (r[0] == '_' <==> IsSeparator(s[0])))
      && NoSpace(r) && NoDoubleUnderscore(r)
      && NonSeparators(r) == NonSeparators(s)
    decreases |s|
  {
    if s != [] {
      var r := Collapse(s);
      if IsSeparator(s[0]) {
        var d := DropSeparators(s[1..]);
        DropSeparatorsSpec(s[1..]);
        CollapseSpec(d);
        var c := Collapse(d);
        assert r == "_" + c;
        assert c != [] ==> c[0] != '_';
        forall i | 0 < i < |r| ensures !(r[i - 1] == '_' && r[i] == '_') {
          if i > 1 {
            assert r[i - 1] == c[i - 2] && r[i] == c[i - 1];
          }
        }
        assert NonSeparators(r) == NonSeparators(c);
      } else {
        CollapseSpec(s[1..]);
        var c := Collapse(s[1..]);
        assert r == [s[0]] + c;
        forall i | 0 < i < |r| ensures !(r[i - 1] == '_' && r[i] == '_') {
          if i > 1 {
            assert r[i - 1] == c[i - 2] && r[i] == c[i - 1];
          }
        }
      }
    }
  }

  /** A string with no whitespace and no `__` is left as it is. */
  lemma {:induction false} CollapseFixes(s: string)
    requires NoSpace(s) && NoDoubleUnderscore(s)
    ensures Collapse(s) == s
  {
    if s != [] {
      CollapseFixes(s[1..]);
      if IsSeparator(s[0]) && s[1..] != [] {
        assert s[1..][0] == s[1];
        assert DropSeparators(s[1..]) == s[1..];
      }
    }
  }

  /** The collapse works piecewise when the second piece starts outside a run. */
  lemma {:induction false} CollapseAppend(a: string, b: string)
    requires b == [] || !IsSeparator(b[0])
    ensures Collapse(a + b) == Collapse(a) + Collapse(b)
    decreases |a|
  {
    if a == [] {
      assert a + b == b;
    } else if IsSeparator(a[0]) {
      var a' := a[1..];
      assert (a + b)[1..] == a' + b;
      DropSeparatorsAppend(a', b);
      if DropSeparators(a') != [] {
        CollapseAppend(DropSeparators(a'), b);
      }
    } else {
      assert (a + b)[1..] == a[1..] + b;
      CollapseAppend(a[1..], b);
    }
  }

  /** Every separator written as `_`, every other character left alone. */
  function Underscored(s: string): (r: string)
    ensures |r| == |s|
    ensures forall i :: 0 <= i < |s| ==> r[i] == (if IsSeparator(s[i]) then '_' else s[i])
  {
    if s == [] then [] else [if IsSeparator(s[0]) then '_' else s[0]] + Underscored(s[1..])
  }

  /** Drops each `_` that directly follows another `_`. */
  function DropRepeatedUnderscores(s: string): string {
    if |s| <= 1 then s
    else if s[0] == '_' && s[1] == '_' then DropRepeatedUnderscores(s[1..])
    else [s[0]] + DropRepeatedUnderscores(s[1..])
  }

  /** A reference reading of the collapse, character by character: each
      separator becomes `_`, and of consecutive `_` only the first stays. */
  function Squeeze(s: string): string {
    DropRepeatedUnderscores(Underscored(s))
  }

  /** In the reference reading, a leading run of separators counts once. */
  lemma {:induction false} SqueezeSkipsRun(s: string)
    requires s != [] && IsSeparator(s[0])
    ensures Squeeze(s) == DropRepeatedUnderscores("_" + Underscored(DropSeparators(s[1..])))
    decreases |s|
  {
    var t := s[1..];
    assert Underscored(s) == "_" + Underscored(t);
    if t != [] && IsSeparator(t[0]) {
      assert Underscored(t) == "_" + Underscored(t[1..]);
      assert ("_" + Underscored(t))[1..] == Underscored(t);
      SqueezeSkipsRun(t);
    }
  }

  /** The collapse is the reference reading: every maximal run of
      separators becomes exactly one `_`, and nothing else changes. */
  lemma {:induction false} CollapseIsSqueeze(s: string)
    ensures Collapse(s) == Squeeze(s)
    decreases |s|
  {
    if s != [] {
      if IsSeparator(s[0]) {
        var d := DropSeparators(s[1..]);
        SqueezeSkipsRun(s);
        DropSeparatorsSpec(s[1..]);
        CollapseIsSqueeze(d);
        var u := Underscored(d);
        if u != [] {
          assert u[0] == d[0] && u[0] != '_';
          assert ("_" + u)[1..] == u;
        }
      } else {
        CollapseIsSqueeze(s[1..]);
        var u := Underscored(s[1..]);
        assert Underscored(s) == [s[0]] + u;
        if u != [] {
          assert ([s[0]] + u)[1..] == u;
        }
      }
    }
  }

  /** The collapse turns kept characters into safe ones. */
  lemma {:induction false} CollapseSafe(s: string, allowDot: bool)
    requires AllKept(s, allowDot)
    ensures AllSafe(Collapse(s), allowDot)
    decreases |s|
  {
    if s != [] {
      if IsSeparator(s[0]) {
        DropSeparatorsSpec(s[1..]);
        var d := DropSeparators(s[1..]);
        assert AllKept(d, allowDot) by {
          forall i | 0 <= i < |d| ensures Kept(d[i], allowDot) {
            assert d[i] == s[1..][|s| - 1 - |d| + i];
          }
        }
        CollapseSafe(d, allowDot);
      } else {
        CollapseSafe(s[1..], allowDot);
        assert s[0] != ' ';
      }
    }
  }

  // ---------------------------------------------------------------------------
  // The character replacement

  lemma ReplaceUnsafeKeeps(s: string, allowDot: bool)
    ensures AllKept(ReplaceUnsafe(s, allowDot), allowDot)
  {
  }

  lemma {:induction false} ReplaceUnsafeAppend(a: string, b: string, allowDot: bool)
    ensures ReplaceUnsafe(a + b, allowDot) == ReplaceUnsafe(a, allowDot) + ReplaceUnsafe(b, allowDot)
  {
    if a == [] {
      assert a + b == b;
    } else {
      assert (a + b)[0] == a[0];
      assert (a + b)[1..] == a[1..] + b;
      ReplaceUnsafeAppend(a[1..], b, allowDot);
    }
  }

  lemma ReplaceUnsafeFixes(s: string, allowDot: bool)
    requires AllKept(s, allowDot)
    ensures ReplaceUnsafe(s, allowDot) == s
  {
  }

  /** The characters a sanitiser carries over from its input: the safe ones
      other than `_`. */
  predicate Carried(c: char, allowDot: bool) {
    SafeChar(c, allowDot) && c != '_'
  }

  function CarriedChars(s: string, allowDot: bool): string {
    if s == [] then []
    else (if Carried(s[0], allowDot) then [s[0]] else []) + CarriedChars(s[1..], allowDot)
  }

  lemma {:induction false} ReplaceUnsafeCarries(s: string, allowDot: bool)
    ensures NonSeparators(ReplaceUnsafe(s, allowDot)) == CarriedChars(s, allowDot)
  {
    if s != [] {
      var r := ReplaceUnsafe(s, allowDot);
      assert r[1..] == ReplaceUnsafe(s[1..], allowDot);
      ReplaceUnsafeCarries(s[1..], allowDot);
    }
  }

  lemma {:induction false} CarriedCharsOfSafe(s: string, allowDot: bool)
    requires AllSafe(s, allowDot)
    ensures CarriedChars(s, allowDot) == NonSeparators(s)
  {
    if s != [] {
      CarriedCharsOfSafe(s[1..], allowDot);
    }
  }

  lemma StripKeepsNonSeparators(s: string)
    ensures NonSeparators(Strip(s)) == NonSeparators(s)
  {
    StripSpec(s);
    var k := StripStart(s);
    var r := Strip(s);
    assert s == s[..k] + r + s[k + |r|..];
    NonSeparatorsAppend(s[..k] + r, s[k + |r|..]);
    NonSeparatorsAppend(s[..k], r);
    NonSeparatorsOfSpaces(s[..k]);
    NonSeparatorsOfSpaces(s[k + |r|..]);
  }

  lemma StripKeeps(s: string, allowDot: bool)
    requires AllKept(s, allowDot)
    ensures AllKept(Strip(s), allowDot)
  {
    StripSpec(s);
    var k := StripStart(s);
    var r := Strip(s);
    forall i | 0 <= i < |r| ensures Kept(r[i], allowDot) {
      assert r[i] == s[k + i];
    }
  }

  lemma StripFixes(s: string)
    requires s == [] || (!IsSpace(s[0]) && !IsSpace(s[|s| - 1]))
    ensures Strip(s) == s
  {
    StripSpec(s);
    var k := StripStart(s);
    var r := Strip(s);
  }

  lemma {:induction false} NonSeparatorsOfPrefix(s: string, n: nat)
    requires n <= |s|
    ensures var p := NonSeparators(s[..n]); var w := NonSeparators(s);
      |p| <= |w| && p == w[..|p|]
  {
    assert s == s[..n] + s[n..];
    NonSeparatorsAppend(s[..n], s[n..]);
  }

  // ---------------------------------------------------------------------------
  // The title sanitiser

  /** The cleaned title is empty exactly when the title holds nothing but
      spaces (the empty title included). */
  lemma CleanTitleEmpty(title: string)
    ensures CleanTitle(title) == [] <==> forall i :: 0 <= i < |title| ==> title[i] == ' '
  {
    var m := ReplaceUnsafe(title, false);
    StripSpec(m);
    CollapseSpec(Strip(m));
    if AllSpace(m) {
      forall i | 0 <= i < |title| ensures title[i] == ' ' {
        assert IsSpace(m[i]);
      }
    }
  }

  lemma CleanTitleSafe(title: string)
    ensures var c := CleanTitle(title);
      AllSafe(c, false) && NoSpace(c) && NoDoubleUnderscore(c)
      && NonSeparators(c) == CarriedChars(title, false)
  {
    var m := ReplaceUnsafe(title, false);
    ReplaceUnsafeKeeps(title, false);
    StripKeeps(m, false);
    CollapseSafe(Strip(m), false);
    CollapseSpec(Strip(m));
    StripKeepsNonSeparators(m);
    ReplaceUnsafeCarries(title, false);
  }

  /** With a fallback that is itself a safe title, the title sanitiser always
      returns 1 to 100 characters drawn from ASCII letters, digits, `-` and
      `_`, with no space and no `__`. */
  lemma SanitizeTitleSafe(title: string, fallback: string)
    requires IsSafeTitle(fallback)
    ensures IsSafeTitle(SanitizeTitle(title, fallback))
    ensures NoSpace(SanitizeTitle(title, fallback))
  {
    var c := CleanTitle(title);
    CleanTitleSafe(title);
    var cut := Take(c, MaxTitleLength);
    assert forall i :: 0 <= i < |cut| ==> cut[i] == c[i];
    if cut == [] {
      assert forall i :: 0 <= i < |fallback| ==> !IsSpace(fallback[i]) by {
        forall i | 0 <= i < |fallback| ensures !IsSpace(fallback[i]) {
          assert SafeChar(fallback[i], false);
        }
      }
    }
  }

  /** The fallback is used exactly when the title is made of spaces only; any
      other title yields its own letters, digits and dashes, in order, up to
      the cut (all of them when the cleaned title fits in 100 characters). */
  lemma SanitizeTitleMeaning(title: string, fallback: string)
    ensures (forall i :: 0 <= i < |title| ==> title[i] == ' ') ==> SanitizeTitle(title, fallback) == fallback
    ensures !(forall i :: 0 <= i < |title| ==> title[i] == ' ') ==>
      var r := SanitizeTitle(title, fallback);
      var kept := NonSeparators(r);
      var all := CarriedChars(title, false);
      && r != []
      && |kept| <= |all| && kept == all[..|kept|]
      && (|CleanTitle(title)| <= MaxTitleLength ==> kept == all)
      && r == Take(Squeeze(Strip(ReplaceUnsafe(title, false))), MaxTitleLength)
  {
    var c := CleanTitle(title);
    CollapseIsSqueeze(Strip(ReplaceUnsafe(title, false)));
    CleanTitleEmpty(title);
    CleanTitleSafe(title);
    NonSeparatorsOfPrefix(c, |Take(c, MaxTitleLength)|);
  }

  /** A safe title is left unchanged. */
  lemma SanitizeTitleFixes(title: string, fallback: string)
    requires IsSafeTitle(title)
    ensures SanitizeTitle(title, fallback) == title
  {
    assert AllKept(title, false);
    ReplaceUnsafeFixes(title, false);
    assert !IsSpace(title[0]) by { assert SafeChar(title[0], false); }
    assert !IsSpace(title[|title| - 1]) by { assert SafeChar(title[|title| - 1], false); }
    StripFixes(title);
    assert NoSpace(title) by {
      forall i | 0 <= i < |title| ensures !IsSpace(title[i]) {
        assert SafeChar(title[i], false);
      }
    }
    CollapseFixes(title);
  }

  /** Sanitising a sanitised title changes nothing. */
  lemma SanitizeTitleIdempotent(title: string, fallback: string)
    requires IsSafeTitle(fallback)
    ensures SanitizeTitle(SanitizeTitle(title, fallback), fallback) == SanitizeTitle(title, fallback)
  {
    SanitizeTitleSafe(title, fallback);
    SanitizeTitleFixes(SanitizeTitle(title, fallback), fallback);
  }

  /** Both fallbacks the source uses are safe titles. */
  lemma FallbacksAreSafe()
    ensures IsSafeTitle(AudioFallback) && IsSafeTitle(DownloadFallback)
  {
  }

  // ---------------------------------------------------------------------------
  // The file-name sanitiser

  /** The name sanitiser returns the empty name unchanged and otherwise a
      non-empty name of ASCII letters, digits, `-`, `_` and `.`, with no
      whitespace and no `__`, carrying the input's letters, digits, dashes and
      dots in order. */
  lemma SanitizeFilenameSpec(name: string)
    ensures name == [] ==> SanitizeFilename(name) == []
    ensures name != [] ==>
      var r := SanitizeFilename(name);
      && r != [] && AllSafe(r, true) && NoSpace(r) && NoDoubleUnderscore(r)
      && NonSeparators(r) == CarriedChars(name, true)
      && r == Squeeze(ReplaceUnsafe(name, true))
  {
    var m := ReplaceUnsafe(name, true);
    CollapseIsSqueeze(m);
    CollapseSpec(m);
    ReplaceUnsafeKeeps(name, true);
    CollapseSafe(m, true);
    ReplaceUnsafeCarries(name, true);
  }

  /** Sanitising a sanitised name changes nothing. */
  lemma SanitizeFilenameIdempotent(name: string)
    ensures SanitizeFilename(SanitizeFilename(name)) == SanitizeFilename(name)
  {
    SanitizeFilenameSpec(name);
    var r := SanitizeFilename(name);
    if r != [] {
      assert AllKept(r, true);
      ReplaceUnsafeFixes(r, true);
      CollapseFixes(r);
    }
  }

  /** A dot followed by letters and digits is left alone by both steps of
      the name sanitiser, and does not start a separator run. */
  lemma ExtensionUntouched(ext: string)
    requires forall i :: 0 <= i < |ext| ==> IsAsciiAlnum(ext[i])
    ensures var tail := "." + ext;
      && !IsSeparator(tail[0])
      && ReplaceUnsafe(tail, true) == tail
      && Collapse(tail) == tail
  {
    var tail := "." + ext;
    assert AllKept(tail, true);
    ReplaceUnsafeFixes(tail, true);
    assert NoSpace(tail);
    assert NoDoubleUnderscore(tail);
    CollapseFixes(tail);
  }

  /** A name `stem.ext` whose extension is letters and digits keeps that
      extension, so the sent file still ends in `.mp4`, `.mp3` or `.m4a`. */
  lemma SanitizeFilenameKeepsExtension(stem: string, ext: string)
    requires ext != [] && forall i :: 0 <= i < |ext| ==> IsAsciiAlnum(ext[i])
    ensures var r := SanitizeFilename(stem + "." + ext);
      |r| > |ext| && r[|r| - |ext| - 1..] == "." + ext
  {
    var tail := "." + ext;
    ExtensionUntouched(ext);
    ReplaceUnsafeAppend(stem, tail, true);
    var m := ReplaceUnsafe(stem, true);
    CollapseAppend(m, tail);
    assert stem + "." + ext == stem + tail;
    var r := Collapse(m) + tail;
    assert SanitizeFilename(stem + "." + ext) == r;
    assert r[|r| - |ext| - 1..] == tail;
  }
}
