/** The transform request types and the `/insecure/` directive chain:
    `f:<format>/q:<quality>/rs:<mode>:<w>:<h>/plain/<percent-encoded url>`. */
module Transform {
  import opened Wrappers
  import opened Text
  import opened Errors
  import PercentDecoding

  datatype OutFmt = Jpeg | Png | Webp | Avif

  datatype ResizeMode = Fit | Fill | FillDown | Force | Auto

  /** A zero width or height means "derive it from the aspect ratio". */
  datatype Resize = Resize(mode: ResizeMode, w: u32, h: u32)

  datatype Directives = Directives(outFmt: OutFmt, quality: u8, resize: Resize)

  // ------------------------------------------------------------ formats

  function MimeType(f: OutFmt): (m: string)
    ensures StartsWith(m, "image/")
  {
    match f
    case Jpeg => "image/jpeg"
    case Png => "image/png"
    case Webp => "image/webp"
    case Avif => "image/avif"
  }

  function Extension(f: OutFmt): (e: string)
    ensures |e| > 0 && '.' !in e && '/' !in e
  {
    match f
    case Jpeg => "jpg"
    case Png => "png"
    case Webp => "webp"
    case Avif => "avif"
  }

  /** The format names `f:` (and the `f=` query parameter) accept, matched
      after ASCII lower-casing. */
  function ParseFormatName(name: string): Option<OutFmt>
  {
    var n := ToAsciiLowercase(name);
    if n == "jpeg" || n == "jpg" then Some(Jpeg)
    else if n == "png" then Some(Png)
    else if n == "webp" then Some(Webp)
    else if n == "avif" then Some(Avif)
    else None
  }

  /** Each format is named by its file extension and by its MIME subtype,
      and distinct formats have distinct extensions and MIME types. */
  lemma FormatNamesRoundTrip(f: OutFmt, g: OutFmt)
    ensures ParseFormatName(Extension(f)) == Some(f)
    ensures ParseFormatName(MimeType(f)[6..]) == Some(f)
    ensures f != g ==> Extension(f) != Extension(g) && MimeType(f) != MimeType(g)
  {
    assert ToAsciiLowercase(Extension(f)) == Extension(f);
    assert ToAsciiLowercase(MimeType(f)[6..]) == MimeType(f)[6..];
  }

  // ------------------------------------------------------- resize modes

  /** The canonical (lower-case) name of each mode. */
  function ModeName(m: ResizeMode): (s: string)
    ensures |s| > 0 && ':' !in s
  {
    match m
    case Fit => "fit"
    case Fill => "fill"
    case FillDown => "fill-down"
    case Force => "force"
    case Auto => "auto"
  }

  /** The mode names a resize directive accepts, matched after ASCII lower-casing. */
  function ParseModeName(name: string): Option<ResizeMode>
  {
    var n := ToAsciiLowercase(name);
    if n == "fit" then Some(Fit)
    else if n == "fill" then Some(Fill)
    else if n == "fill-down" then Some(FillDown)
    else if n == "force" then Some(Force)
    else if n == "auto" then Some(Auto)
    else None
  }

  lemma ModeNameRoundTrip(m: ResizeMode)
    ensures ParseModeName(ModeName(m)) == Some(m)
  {
    assert ToAsciiLowercase(ModeName(m)) == ModeName(m);
  }

  /** Format and mode names are matched without regard to ASCII case. */
  lemma NamesIgnoreCase(name: string)
    ensures ParseFormatName(ToAsciiLowercase(name)) == ParseFormatName(name)
    ensures ParseModeName(ToAsciiLowercase(name)) == ParseModeName(name)
  {
    LowercaseIdempotent(name);
  }

  /** `<mode>:<w>:<h>` with each dimension written in decimal. */
  function FormatResize(r: Resize): string
  {
    ModeName(r.mode) + ":" + NatToDecimal(r.w) + ":" + NatToDecimal(r.h)
  }

  /** A width or height field of a path directive: empty means 0, anything
      else must parse as a `u32`. */
  function ParseDimension(field: string): Option<u32>
  {
    if field == "" then Some(0)
    else
      match ParseUnsigned(field, U32_BOUND)
      case Some(v) => Some(v)
      case None => None
  }

  const INVALID_RESIZE_FORMAT := "invalid resize format"
  const UNSUPPORTED_RESIZE_MODE := "unsupported resize mode"

  /** `parse_resize_directive`: exactly three `:`-separated fields, a known
      mode, and dimensions that are empty or numeric. */
  function ParseResizeDirective(arg: string): (r: Result<Resize, SvcError>)
    ensures |Split(arg, ':')| != 3 ==> r == Err(BadRequest(INVALID_RESIZE_FORMAT))
    ensures |Split(arg, ':')| == 3 && ParseModeName(Split(arg, ':')[0]).None?
            ==> r == Err(BadRequest(UNSUPPORTED_RESIZE_MODE))
    ensures r.Ok? <==> |Split(arg, ':')| == 3 && ParseModeName(Split(arg, ':')[0]).Some?
                       && ParseDimension(Split(arg, ':')[1]).Some?
                       && ParseDimension(Split(arg, ':')[2]).Some?
    ensures |Split(arg, ':')| == 3 && ParseModeName(Split(arg, ':')[0]).Some?
            && ParseDimension(Split(arg, ':')[1]).None?
            ==> r == Err(BadRequest("bad width"))
    ensures |Split(arg, ':')| == 3 && ParseModeName(Split(arg, ':')[0]).Some?
            && ParseDimension(Split(arg, ':')[1]).Some?
            && ParseDimension(Split(arg, ':')[2]).None?
            ==> r == Err(BadRequest("bad height"))
    ensures r.Err? ==> r.error.BadRequest? && r.error.msg in ResizeErrors()
  {
    var parts := Split(arg, ':');
    if |parts| != 3 then Err(BadRequest(INVALID_RESIZE_FORMAT))
    else
      match ParseModeName(parts[0])
      case None => Err(BadRequest(UNSUPPORTED_RESIZE_MODE))
      case Some(mode) =>
        match ParseDimension(parts[1])
        case None => Err(BadRequest("bad width"))
        case Some(w) =>
          match ParseDimension(parts[2])
          case None => Err(BadRequest("bad height"))
          case Some(h) => Ok(Resize(mode, w, h))
  }

  function ResizeErrors(): set<string> {
    {INVALID_RESIZE_FORMAT, UNSUPPORTED_RESIZE_MODE, "bad width", "bad height"}
  }

  lemma SplitThree(a: string, b: string, c: string)
    requires ':' !in a && ':' !in b && ':' !in c
    ensures Split(a + ":" + b + ":" + c, ':') == [a, b, c]
  {
    var parts := [a, b, c];
    assert Join(parts, ':') == a + ":" + b + ":" + c by {
      assert parts[1..] == [b, c];
      assert Join([b, c], ':') == b + ":" + c by {
        assert [b, c][1..] == [c];
      }
    }
    SplitJoin(parts, ':');
  }

  lemma DecimalHasNoColon(n: nat)
    ensures ':' !in NatToDecimal(n)
  {
  }

  /** Every resize parses back from its canonical rendering. */
  lemma ResizeDirectiveRoundTrip(r: Resize)
    ensures ParseResizeDirective(FormatResize(r)) == Ok(r)
  {
    DecimalHasNoColon(r.w);
    DecimalHasNoColon(r.h);
    SplitThree(ModeName(r.mode), NatToDecimal(r.w), NatToDecimal(r.h));
    ModeNameRoundTrip(r.mode);
    ParseDecimal(r.w, U32_BOUND);
    ParseDecimal(r.h, U32_BOUND);
  }

  /** Empty dimension fields stand for 0: "fit::600" derives the width. */
  lemma EmptyWidthIsZero(m: ResizeMode, h: u32)
    ensures ParseResizeDirective(ModeName(m) + "::" + NatToDecimal(h)) == Ok(Resize(m, 0, h))
  {
    var s := ModeName(m) + "::" + NatToDecimal(h);
    DecimalHasNoColon(h);
    ModeNameRoundTrip(m);
    ParseDecimal(h, U32_BOUND);
    assert s == ModeName(m) + ":" + "" + ":" + NatToDecimal(h);
    SplitThree(ModeName(m), "", NatToDecimal(h));
    assert Split(s, ':') == [ModeName(m), "", NatToDecimal(h)];
  }

  /** "fit:800:" derives the height. */
  lemma EmptyHeightIsZero(m: ResizeMode, w: u32)
    ensures ParseResizeDirective(ModeName(m) + ":" + NatToDecimal(w) + ":") == Ok(Resize(m, w, 0))
  {
    DecimalHasNoColon(w);
    ModeNameRoundTrip(m);
    ParseDecimal(w, U32_BOUND);
    SplitThree(ModeName(m), NatToDecimal(w), "");
    assert ModeName(m) + ":" + NatToDecimal(w) + ":" + "" == ModeName(m) + ":" + NatToDecimal(w) + ":";
  }

  // -------------------------------------------------- the directive chain

  /** What one path segment before `/plain/` says. */
  datatype Directive =
    | SetFormat(fmt: OutFmt)
    | SetQuality(quality: u8)
    | SetResize(resize: Resize)
    | Unrecognised
    | Invalid(err: SvcError)

  const UNSUPPORTED_FORMAT := "unsupported format"
  const BAD_QUALITY := "bad quality"

  /** Classify a segment by its prefix, `f:` before `q:` before `rs:`/`rt:`;
      any other segment is not a directive. */
  function ClassifySegment(seg: string): (d: Directive)
    ensures d.Invalid? ==> d.err.BadRequest? && d.err.msg in DirectiveErrors()
  {
    if StartsWith(seg, "f:") then
      match ParseFormatName(seg[2..])
      case Some(f) => SetFormat(f)
      case None => Invalid(BadRequest(UNSUPPORTED_FORMAT))
    else if StartsWith(seg, "q:") then
      match ParseUnsigned(seg[2..], U8_BOUND)
      case Some(q) => if q <= 100 then SetQuality(q) else Invalid(BadRequest(BAD_QUALITY))
      case None => Invalid(BadRequest(BAD_QUALITY))
    else if StartsWith(seg, "rs:") || StartsWith(seg, "rt:") then
      match ParseResizeDirective(seg[3..])
      case Ok(r) => SetResize(r)
      case Err(e) => Invalid(e)
    else
      Unrecognised
  }

  function DirectiveErrors(): set<string> {
    ResizeErrors() + {UNSUPPORTED_FORMAT, BAD_QUALITY}
  }

  /** A quality directive is accepted exactly when its value is at most 100. */
  lemma QualityDirective(n: nat)
    ensures ClassifySegment("q:" + NatToDecimal(n))
            == if n <= 100 then SetQuality(n) else Invalid(BadRequest(BAD_QUALITY))
  {
    var seg := "q:" + NatToDecimal(n);
    assert seg[2..] == NatToDecimal(n);
    assert !StartsWith(seg, "f:") by { assert seg[0] == 'q'; }
    if n < U8_BOUND {
      ParseDecimal(n, U8_BOUND);
    } else {
      DecimalValue(n);
      var digits := NatToDecimal(n);
      assert digits[0] != '+' by { assert IsAsciiDigit(digits[0]); }
    }
  }

  const DEFAULT_DIRECTIVES := Directives(Jpeg, 82, Resize(Fit, 0, 0))

  /** One step of the loop: apply a segment's directive, or fail. */
  function Step(d: Directives, seg: string): Result<Directives, SvcError>
  {
    match ClassifySegment(seg)
    case SetFormat(f) => Ok(d.(outFmt := f))
    case SetQuality(q) => Ok(d.(quality := q))
    case SetResize(r) => Ok(d.(resize := r))
    case Unrecognised => Ok(d)
    case Invalid(e) => Err(e)
  }

  /** The directives after applying `segs` left to right from the defaults. */
  function ApplySegments(segs: seq<string>): Result<Directives, SvcError>
  {
    if |segs| == 0 then Ok(DEFAULT_DIRECTIVES)
    else
      match ApplySegments(segs[..|segs| - 1])
      case Err(e) => Err(e)
      case Ok(d) => Step(d, segs[|segs| - 1])
  }

  /** The non-empty path segments of the part before `/plain/`. */
  function DirectiveSegments(beforePlain: string): seq<string>
  {
    NonEmpty(Split(TrimStartMatches(beforePlain, '/'), '/'))
  }

  function NonEmpty(parts: seq<string>): (r: seq<string>)
    ensures forall i :: 0 <= i < |r| ==> r[i] != ""
  {
    if |parts| == 0 then []
    else if parts[0] == "" then NonEmpty(parts[1..])
    else [parts[0]] + NonEmpty(parts[1..])
  }

  const MISSING_PLAIN := "missing /plain/ segment"
  const NO_DIMENSION := "at least one dimension required"
  const BAD_ENCODED_URL := "bad encoded url"

  /** The end of `parse_rest`, given the outcome of the fold and of
      decoding the text after `/plain/`: a fold error is reported first,
      then a missing dimension, then a URL that does not decode. */
  function Conclude(folded: Result<Directives, SvcError>, decoded: Option<string>): Result<(Directives, string), SvcError>
  {
    match folded
    case Err(e) => Err(e)
    case Ok(d) =>
      if d.resize.w == 0 && d.resize.h == 0 then Err(BadRequest(NO_DIMENSION))
      else
        match decoded
        case None => Err(BadRequest(BAD_ENCODED_URL))
        case Some(url) => Ok((d, url))
  }

  /** What `parse_rest` computes once the path is split at `/plain/`. */
  function ParseParts(before: string, after: string): Result<(Directives, string), SvcError>
  {
    Conclude(ApplySegments(DirectiveSegments(before)), PercentDecoding.DecodeSourceUrl(after))
  }

  /** What `parse_rest` computes, as one expression. */
  function ParseRestSpec(rest: string): Result<(Directives, string), SvcError>
  {
    match SplitOnce(rest, "/plain/")
    case None => Err(BadRequest(MISSING_PLAIN))
    case Some((before, after)) => ParseParts(before, after)
  }

  lemma ApplyOneMore(segs: seq<string>, i: nat)
    requires i < |segs|
    ensures ApplySegments(segs[..i + 1])
            == match ApplySegments(segs[..i])
               case Err(e) => Err(e)
               case Ok(d) => Step(d, segs[i])
  {
    assert segs[..i + 1][..i] == segs[..i];
  }

  lemma {:induction false} ErrorPersists(segs: seq<string>, k: nat)
    requires k <= |segs| && ApplySegments(segs[..k]).Err?
    ensures ApplySegments(segs) == ApplySegments(segs[..k])
    decreases |segs| - k
  {
    if k < |segs| {
      assert segs[..k + 1][..k] == segs[..k];
      ErrorPersists(segs, k + 1);
    } else {
      assert segs[..k] == segs;
    }
  }

  /** The loop of `parse_rest`: start from the defaults and let each
      directive segment overwrite its field, returning at the first invalid one. */
  method FoldDirectives(segments: seq<string>) returns (r: Result<Directives, SvcError>)
    ensures r == ApplySegments(segments)
  {
    var outFmt := Jpeg;
    var quality: u8 := 82;
    var resize := Resize(Fit, 0, 0);
    var i := 0;
    while i < |segments|
      invariant 0 <= i <= |segments|
      invariant ApplySegments(segments[..i]) == Ok(Directives(outFmt, quality, resize))
    {
      var seg := segments[i];
      ApplyOneMore(segments, i);
      if StartsWith(seg, "f:") {
        var f := ParseFormatName(seg[2..]);
        if f.None? {
          assert ClassifySegment(seg).Invalid?;
          ErrorPersists(segments, i + 1);
          return Err(BadRequest(UNSUPPORTED_FORMAT));
        }
        outFmt := f.value;
        assert ClassifySegment(seg) == SetFormat(outFmt);
      } else if StartsWith(seg, "q:") {
        var q := ParseUnsigned(seg[2..], U8_BOUND);
        if q.None? || q.value > 100 {
          assert ClassifySegment(seg).Invalid?;
          ErrorPersists(segments, i + 1);
          return Err(BadRequest(BAD_QUALITY));
        }
        quality := q.value;
        assert ClassifySegment(seg) == SetQuality(quality);
      } else if StartsWith(seg, "rs:") {
        var parsed := ParseResizeDirective(seg[3..]);
        if parsed.Err? {
          assert ClassifySegment(seg).Invalid?;
          ErrorPersists(segments, i + 1);
          return Err(parsed.error);
        }
        resize := parsed.value;
        assert ClassifySegment(seg) == SetResize(resize);
      } else if StartsWith(seg, "rt:") {
        var parsed := ParseResizeDirective(seg[3..]);
        if parsed.Err? {
          assert ClassifySegment(seg).Invalid?;
          ErrorPersists(segments, i + 1);
          return Err(parsed.error);
        }
        resize := parsed.value;
        assert ClassifySegment(seg) == SetResize(resize);
      } else {
        assert ClassifySegment(seg) == Unrecognised;
      }
      i := i + 1;
    }
    assert segments[..i] == segments;
    return Ok(Directives(outFmt, quality, resize));
  }

  /** `parse_rest`: split at the first `/plain/`, fold the directive
      segments over the defaults, insist on a dimension, decode the URL. */
  method ParseRest(rest: string) returns (r: Result<(Directives, string), SvcError>)
    ensures r == ParseRestSpec(rest)
    ensures r.Ok? ==> r.value.0.resize.w != 0 || r.value.0.resize.h != 0
  {
    var split := SplitOnce(rest, "/plain/");
    if split.None? {
      return Err(BadRequest(MISSING_PLAIN));
    }
    var (beforePlain, afterPlain) := split.value;
    var folded := FoldDirectives(DirectiveSegments(beforePlain));
    if folded.Err? {
      return Err(folded.error);
    }
    var dirs := folded.value;
    if dirs.resize.w == 0 && dirs.resize.h == 0 {
      return Err(BadRequest(NO_DIMENSION));
    }
    var url := PercentDecoding.DecodeSourceUrl(afterPlain);
    if url.None? {
      return Err(BadRequest(BAD_ENCODED_URL));
    }
    return Ok((dirs, url.value));
  }

  // ------------------------------------------- what the fold amounts to

  /** The format of the last `f:` segment, or the default. */
  function LastFormat(segs: seq<string>): OutFmt
  {
    if |segs| == 0 then DEFAULT_DIRECTIVES.outFmt
    else if ClassifySegment(segs[|segs| - 1]).SetFormat? then ClassifySegment(segs[|segs| - 1]).fmt
    else LastFormat(segs[..|segs| - 1])
  }

  /** The quality of the last `q:` segment, or the default. */
  function LastQuality(segs: seq<string>): u8
  {
    if |segs| == 0 then DEFAULT_DIRECTIVES.quality
    else if ClassifySegment(segs[|segs| - 1]).SetQuality? then ClassifySegment(segs[|segs| - 1]).quality
    else LastQuality(segs[..|segs| - 1])
  }

  /** The resize of the last `rs:` or `rt:` segment, or the default. */
  function LastResize(segs: seq<string>): Resize
  {
    if |segs| == 0 then DEFAULT_DIRECTIVES.resize
    else if ClassifySegment(segs[|segs| - 1]).SetResize? then ClassifySegment(segs[|segs| - 1]).resize
    else LastResize(segs[..|segs| - 1])
  }

  /** The fold succeeds exactly when no segment is an invalid directive, and
      then each field comes from the last segment that sets it: later
      directives override earlier ones and unknown prefixes are ignored. */
  lemma {:induction false} LastDirectiveWins(segs: seq<string>)
    ensures ApplySegments(segs).Ok?
            <==> forall i :: 0 <= i < |segs| ==> !ClassifySegment(segs[i]).Invalid?
    ensures ApplySegments(segs).Ok?
            ==> ApplySegments(segs).value == Directives(LastFormat(segs), LastQuality(segs), LastResize(segs))
  {
    if |segs| > 0 {
      var init := segs[..|segs| - 1];
      LastDirectiveWins(init);
      assert forall i :: 0 <= i < |init| ==> init[i] == segs[i];
    }
  }

  /** When the fold fails, the error is that of the first invalid segment. */
  lemma {:induction false} FirstInvalidReported(segs: seq<string>)
    requires ApplySegments(segs).Err?
    ensures exists i :: 0 <= i < |segs| && ClassifySegment(segs[i]) == Invalid(ApplySegments(segs).error)
                        && forall j :: 0 <= j < i ==> !ClassifySegment(segs[j]).Invalid?
  {
    var init := segs[..|segs| - 1];
    assert forall i :: 0 <= i < |init| ==> init[i] == segs[i];
    if ApplySegments(init).Err? {
      FirstInvalidReported(init);
    } else {
      LastDirectiveWins(init);
      assert ClassifySegment(segs[|segs| - 1]) == Invalid(ApplySegments(segs).error);
    }
  }

  /** With no recognised directive the defaults are JPEG, quality 82 and
      `fit` with no dimensions, so the request is refused. */
  lemma DefaultsNeedADimension(rest: string)
    requires SplitOnce(rest, "/plain/").Some?
    requires forall i :: 0 <= i < |DirectiveSegments(SplitOnce(rest, "/plain/").value.0)|
                         ==> ClassifySegment(DirectiveSegments(SplitOnce(rest, "/plain/").value.0)[i]).Unrecognised?
    ensures ApplySegments(DirectiveSegments(SplitOnce(rest, "/plain/").value.0)) == Ok(DEFAULT_DIRECTIVES)
    ensures ParseRestSpec(rest) == Err(BadRequest(NO_DIMENSION))
  {
    var segs := DirectiveSegments(SplitOnce(rest, "/plain/").value.0);
    LastDirectiveWins(segs);
    AllUnrecognisedDefaults(segs);
  }

  lemma {:induction false} AllUnrecognisedDefaults(segs: seq<string>)
    requires forall i :: 0 <= i < |segs| ==> ClassifySegment(segs[i]).Unrecognised?
    ensures LastFormat(segs) == Jpeg && LastQuality(segs) == 82 && LastResize(segs) == Resize(Fit, 0, 0)
  {
    if |segs| > 0 {
      var init := segs[..|segs| - 1];
      assert forall i :: 0 <= i < |init| ==> init[i] == segs[i];
      AllUnrecognisedDefaults(init);
    }
  }

  /** The "missing /plain/" message is none of the other messages. */
  lemma MissingPlainIsDistinct()
    ensures MISSING_PLAIN !in DirectiveErrors() + {NO_DIMENSION, BAD_ENCODED_URL}
  {
    assert MISSING_PLAIN[0] == 'm';
    assert forall m | m in DirectiveErrors() + {NO_DIMENSION, BAD_ENCODED_URL} :: |m| > 0 && m[0] != 'm';
  }

  /** A failed fold reports one of the directive messages. */
  lemma {:induction false} FoldErrorIsDirectiveError(segs: seq<string>)
    ensures ApplySegments(segs).Err? ==>
      ApplySegments(segs).error.BadRequest? && ApplySegments(segs).error.msg in DirectiveErrors()
  {
    if |segs| > 0 {
      FoldErrorIsDirectiveError(segs[..|segs| - 1]);
    }
  }

  /** Once `/plain/` is found, the request can fail for other reasons but
      never as "missing /plain/ segment". */
  lemma PartsNeverMissingPlain(before: string, after: string)
    ensures ParseParts(before, after) != Err(BadRequest(MISSING_PLAIN))
  {
    var folded := ApplySegments(DirectiveSegments(before));
    FoldErrorIsDirectiveError(DirectiveSegments(before));
    MissingPlainIsDistinct();
    ConcludeNeverMissingPlain(folded, PercentDecoding.DecodeSourceUrl(after));
  }

  lemma ConcludeNeverMissingPlain(folded: Result<Directives, SvcError>, decoded: Option<string>)
    requires folded.Err? ==> folded.error != BadRequest(MISSING_PLAIN)
    ensures Conclude(folded, decoded) != Err(BadRequest(MISSING_PLAIN))
  {
    MissingPlainIsDistinct();
  }

  /** A successful parse has a quality of at most 100. */
  lemma PartsQualityBounded(before: string, after: string)
    ensures ParseParts(before, after).Ok? ==> ParseParts(before, after).value.0.quality <= 100
  {
    var segs := DirectiveSegments(before);
    QualityBounded(segs);
    var folded := ApplySegments(segs);
    var decoded := PercentDecoding.DecodeSourceUrl(after);
    assert ParseParts(before, after) == Conclude(folded, decoded);
  }

  /** The request fails with "missing /plain/ segment" exactly when the
      path has no `/plain/`; a successful parse has a dimension and a
      quality of at most 100. */
  lemma ParseRestOutcomes(rest: string)
    ensures ParseRestSpec(rest) == Err(BadRequest(MISSING_PLAIN)) <==> Find(rest, "/plain/").None?
    ensures ParseRestSpec(rest).Ok? ==> ParseRestSpec(rest).value.0.quality <= 100
  {
    var sp := SplitOnce(rest, "/plain/");
    if sp.Some? {
      PartsNeverMissingPlain(sp.value.0, sp.value.1);
      PartsQualityBounded(sp.value.0, sp.value.1);
    }
  }

  /** Every quality the fold can end with is at most 100. */
  lemma {:induction false} QualityBounded(segs: seq<string>)
    ensures ApplySegments(segs).Ok? ==> ApplySegments(segs).value.quality <= 100
  {
    if |segs| > 0 {
      QualityBounded(segs[..|segs| - 1]);
    }
  }

  /** A successful conclusion carries the decoded text. */
  lemma ConcludeCarriesUrl(folded: Result<Directives, SvcError>, decoded: Option<string>)
    requires Conclude(folded, decoded).Ok?
    ensures decoded == Some(Conclude(folded, decoded).value.1)
  {
  }

  /** A successful parse takes the source URL from the text after the
      FIRST `/plain/`; a later `/plain/` belongs to the URL. */
  lemma SourceAfterFirstPlain(rest: string)
    requires ParseRestSpec(rest).Ok?
    ensures Find(rest, "/plain/").Some?
    ensures PercentDecoding.DecodeSourceUrl(rest[Find(rest, "/plain/").value + 7..])
            == Some(ParseRestSpec(rest).value.1)
  {
    SplitOnceTail(rest, "/plain/");
    var sp := SplitOnce(rest, "/plain/");
    var decoded := PercentDecoding.DecodeSourceUrl(sp.value.1);
    var folded := ApplySegments(DirectiveSegments(sp.value.0));
    assert ParseRestSpec(rest) == Conclude(folded, decoded);
    ConcludeCarriesUrl(folded, decoded);
  }
}
