/** Recognising video sources by the extension at the end of the URL. */
module Thumbnail {
  import opened Text

  /** The twelve extensions treated as video, in the order they are checked. */
  const VIDEO_SUFFIXES: seq<string> :=
    [".mp4", ".mov", ".avi", ".webm", ".mkv", ".flv", ".wmv", ".m4v", ".mpg", ".mpeg", ".3gp", ".ogv"]

  /** `is_video_url`: does the lower-cased URL end with one of the video
      extensions?  Only the very end counts, so a query string or fragment
      after the extension hides it. */
  predicate IsVideoUrl(url: string)
  {
    var lower := ToAsciiLowercase(url);
    EndsWith(lower, ".mp4")
    || EndsWith(lower, ".mov")
    || EndsWith(lower, ".avi")
    || EndsWith(lower, ".webm")
    || EndsWith(lower, ".mkv")
    || EndsWith(lower, ".flv")
    || EndsWith(lower, ".wmv")
    || EndsWith(lower, ".m4v")
    || EndsWith(lower, ".mpg")
    || EndsWith(lower, ".mpeg")
    || EndsWith(lower, ".3gp")
    || EndsWith(lower, ".ogv")
  }

  /** A video URL ends, after lower-casing, with one of the listed
      extensions (the converse is `SuffixMakesVideo`). */
  lemma VideoUrlHasListedSuffix(url: string)
    requires IsVideoUrl(url)
    ensures exists i :: 0 <= i < |VIDEO_SUFFIXES| && EndsWith(ToAsciiLowercase(url), VIDEO_SUFFIXES[i])
  {
    var lower := ToAsciiLowercase(url);
    var s := VIDEO_SUFFIXES;
    assert EndsWith(lower, s[0]) || EndsWith(lower, s[1]) || EndsWith(lower, s[2])
      || EndsWith(lower, s[3]) || EndsWith(lower, s[4]) || EndsWith(lower, s[5])
      || EndsWith(lower, s[6]) || EndsWith(lower, s[7]) || EndsWith(lower, s[8])
      || EndsWith(lower, s[9]) || EndsWith(lower, s[10]) || EndsWith(lower, s[11]);
  }

  /** The check ignores letter case. */
  lemma VideoUrlIgnoresCase(url: string)
    ensures IsVideoUrl(url) == IsVideoUrl(ToAsciiLowercase(url))
  {
    LowercaseIdempotent(url);
  }

  /** Whatever comes before it, a listed extension at the end makes a video URL. */
  lemma SuffixMakesVideo(prefix: string, i: nat)
    requires i < |VIDEO_SUFFIXES|
    ensures IsVideoUrl(prefix + VIDEO_SUFFIXES[i])
  {
    var suffix := VIDEO_SUFFIXES[i];
    LowercaseAppend(prefix, suffix);
    assert ToAsciiLowercase(suffix) == suffix;
    var lower := ToAsciiLowercase(prefix + suffix);
    assert lower[|lower| - |suffix|..] == suffix;
  }

  /** Upper-case extensions count too. */
  lemma UpperCaseExtension(prefix: string)
    ensures IsVideoUrl(prefix + ".MP4")
  {
    LowercaseAppend(prefix, ".MP4");
    var ext := ToAsciiLowercase(".MP4");
    assert ext == ".mp4" by {
      assert ext[0] == '.' && ext[1] == 'm' && ext[2] == 'p' && ext[3] == '4';
    }
    var lower := ToAsciiLowercase(prefix + ".MP4");
    assert lower[|lower| - 4..] == ext;
  }

  /** A string does not end with `p` when they differ `k` characters from the end. */
  lemma DiffersNearEnd(s: string, p: string, k: nat)
    requires 0 < k <= |p|
    requires |p| <= |s| ==> s[|s| - k] != p[|p| - k]
    ensures !EndsWith(s, p)
  {
    if |p| <= |s| {
      assert s[|s| - |p|..][|p| - k] == s[|s| - k];
    }
  }

  /** A query string after the extension hides it: a URL whose last
      character is a digit other than 4 is never taken for a video. */
  lemma DigitEndIsNotVideo(url: string)
    requires |url| > 0 && IsAsciiDigit(url[|url| - 1]) && url[|url| - 1] != '4'
    ensures !IsVideoUrl(url)
  {
    var lower := ToAsciiLowercase(url);
    assert lower[|lower| - 1] == url[|url| - 1];
    DiffersNearEnd(lower, ".mp4", 1);
    DiffersNearEnd(lower, ".mov", 1);
    DiffersNearEnd(lower, ".avi", 1);
    DiffersNearEnd(lower, ".webm", 1);
    DiffersNearEnd(lower, ".mkv", 1);
    DiffersNearEnd(lower, ".flv", 1);
    DiffersNearEnd(lower, ".wmv", 1);
    DiffersNearEnd(lower, ".m4v", 1);
    DiffersNearEnd(lower, ".mpg", 1);
    DiffersNearEnd(lower, ".mpeg", 1);
    DiffersNearEnd(lower, ".3gp", 1);
    DiffersNearEnd(lower, ".ogv", 1);
  }

  lemma QueryHidesExtension(prefix: string)
    ensures !IsVideoUrl(prefix + ".mp4?t=1")
  {
    var url := prefix + ".mp4?t=1";
    assert url[|url| - 1] == '1';
    DigitEndIsNotVideo(url);
  }

  /** Image extensions are not video, whatever comes before them. */
  lemma JpgIsNotVideo(prefix: string)
    ensures !IsVideoUrl(prefix + ".jpg")
  {
    var url := prefix + ".jpg";
    var lower := ToAsciiLowercase(url);
    var n := |url|;
    assert url[n - 1] == 'g' && url[n - 2] == 'p' && url[n - 3] == 'j';
    assert lower[n - 1] == 'g' && lower[n - 2] == 'p' && lower[n - 3] == 'j';
    DiffersNearEnd(lower, ".mp4", 1);
    DiffersNearEnd(lower, ".mov", 1);
    DiffersNearEnd(lower, ".avi", 1);
    DiffersNearEnd(lower, ".webm", 1);
    DiffersNearEnd(lower, ".mkv", 1);
    DiffersNearEnd(lower, ".flv", 1);
    DiffersNearEnd(lower, ".wmv", 1);
    DiffersNearEnd(lower, ".m4v", 1);
    DiffersNearEnd(lower, ".mpg", 3);
    DiffersNearEnd(lower, ".mpeg", 2);
    DiffersNearEnd(lower, ".3gp", 1);
    DiffersNearEnd(lower, ".ogv", 1);
  }
}
