/** The `/thumb/<sha256>.<ext>` endpoint's request side: the filename
    check, the query parameters and the string the cache key is built from. */
module ThumbQueries {
  import opened Wrappers
  import opened Text
  import opened Errors
  import opened Transform

  // ------------------------------------------------------------ filename

  /** 64 ASCII hex digits of either case.  Rust compares the byte length,
      which equals the character count once every character is ASCII. */
  predicate IsSha256Hex(h: string) {
    |h| == 64 && forall i :: 0 <= i < |h| ==> IsAsciiHexDigit(h[i])
  }

  const INVALID_FILENAME := "invalid filename format, expected <sha256>.<ext>"
  const INVALID_HASH := "invalid SHA256 hash"

  /** The check at the top of `handle_thumb`: split at the last `.` and
      insist on a SHA-256 hex digest before it. */
  function ValidateThumbFilename(filename: string): (r: Result<(string, string), SvcError>)
    ensures r.Ok? ==> filename == r.value.0 + "." + r.value.1
                      && IsSha256Hex(r.value.0) && '.' !in r.value.1
    ensures r == Err(BadRequest(INVALID_FILENAME)) <==> '.' !in filename
    ensures r.Err? ==> r.error == BadRequest(INVALID_FILENAME) || r.error == BadRequest(INVALID_HASH)
  {
    match RSplitOnce(filename, '.')
    case None => Err(BadRequest(INVALID_FILENAME))
    case Some((hash, ext)) =>
      if IsSha256Hex(hash) then Ok((hash, ext)) else Err(BadRequest(INVALID_HASH))
  }

  /** Every `<digest>.<ext>` name is accepted and split back into its two
      parts; with the first ensures of `ValidateThumbFilename` this makes
      the check an exact recogniser of such names. */
  lemma ThumbFilenameAccepted(hash: string, ext: string)
    requires IsSha256Hex(hash) && '.' !in ext
    ensures ValidateThumbFilename(hash + "." + ext) == Ok((hash, ext))
  {
    RSplitOnceAt(hash, '.', ext);
  }

  /** A name whose part before the last `.` is not a digest is refused as
      an invalid hash, not as a malformed name. */
  lemma BadDigestRejected(hash: string, ext: string)
    requires !IsSha256Hex(hash) && '.' !in ext
    ensures ValidateThumbFilename(hash + "." + ext) == Err(BadRequest(INVALID_HASH))
  {
    RSplitOnceAt(hash, '.', ext);
  }

  // ----------------------------------------------------- query parameters

  /** The query of a `/thumb` request: `f`, `rs`, `q` (already parsed as a
      `u8` by the query extractor), every `xs` in order, and `as`. */
  datatype ThumbQuery = ThumbQuery(
    format: Option<string>,
    resize: Option<string>,
    quality: Option<u8>,
    serverHints: seq<string>,
    authorPubkey: Option<string>)

  const RESIZE_QUERY_FORMAT := "invalid resize format, expected mode:width:height"
  const QUALITY_RANGE := "quality must be 0-100"
  const THUMB_QUALITY: u8 := 82
  const THUMB_RESIZE := Resize(Fit, 480, 480)

  /** `parts[i].parse().unwrap_or(0)`: anything that is not a `u32` is 0. */
  function LenientDimension(field: string): (v: u32)
    ensures ParseUnsigned(field, U32_BOUND).Some? ==> v == ParseUnsigned(field, U32_BOUND).value
    ensures ParseUnsigned(field, U32_BOUND).None? ==> v == 0
  {
    match ParseUnsigned(field, U32_BOUND)
    case Some(v) => v
    case None => 0
  }

  /** `parse_resize_from_query`: three `:`-separated fields and a known
      mode; the dimensions never cause an error. */
  function ParseResizeFromQuery(rs: string): (r: Result<Resize, SvcError>)
    ensures r.Ok? <==> |Split(rs, ':')| == 3 && ParseModeName(Split(rs, ':')[0]).Some?
    ensures |Split(rs, ':')| != 3 ==> r == Err(BadRequest(RESIZE_QUERY_FORMAT))
    ensures r.Err? ==> r.error == BadRequest(RESIZE_QUERY_FORMAT)
                       || r.error == BadRequest(UNSUPPORTED_RESIZE_MODE)
  {
    var parts := Split(rs, ':');
    if |parts| != 3 then Err(BadRequest(RESIZE_QUERY_FORMAT))
    else
      match ParseModeName(parts[0])
      case None => Err(BadRequest(UNSUPPORTED_RESIZE_MODE))
      case Some(mode) => Ok(Resize(mode, LenientDimension(parts[1]), LenientDimension(parts[2])))
  }

  /** Whatever the path's strict resize directive accepts, the query form
      accepts with the same meaning (an empty field is 0 in both). */
  lemma QueryResizeExtendsPathResize(arg: string)
    requires ParseResizeDirective(arg).Ok?
    ensures ParseResizeFromQuery(arg) == ParseResizeDirective(arg)
  {
  }

  /** Every resize survives its canonical rendering. */
  lemma QueryResizeRoundTrip(r: Resize)
    ensures ParseResizeFromQuery(FormatResize(r)) == Ok(r)
  {
    DecimalHasNoColon(r.w);
    DecimalHasNoColon(r.h);
    SplitThree(ModeName(r.mode), NatToDecimal(r.w), NatToDecimal(r.h));
    ModeNameRoundTrip(r.mode);
    ParseDecimal(r.w, U32_BOUND);
    ParseDecimal(r.h, U32_BOUND);
  }

  /** Unparseable dimensions become 0, so `<mode>:<junk>:<junk>` is a 0×0
      resize here, while the path form refuses any non-empty junk. */
  lemma JunkDimensionsAreZero(m: ResizeMode, a: string, b: string)
    requires ':' !in a && ':' !in b
    requires ParseUnsigned(a, U32_BOUND).None? && ParseUnsigned(b, U32_BOUND).None?
    ensures ParseResizeFromQuery(ModeName(m) + ":" + a + ":" + b) == Ok(Resize(m, 0, 0))
    ensures a != "" ==> ParseResizeDirective(ModeName(m) + ":" + a + ":" + b).Err?
  {
    SplitThree(ModeName(m), a, b);
    ModeNameRoundTrip(m);
  }

  /** `parse_thumb_params`: the format (default WebP), then the quality
      (default 82, at most 100), then the resize (default fit 480×480). */
  function ParseThumbParams(q: ThumbQuery): (r: Result<Directives, SvcError>)
    ensures r.Ok? ==> r.value.quality <= 100
  {
    var fmt := match q.format
      case None => Some(Webp)
      case Some(name) => ParseFormatName(name);
    if fmt.None? then Err(BadRequest(UNSUPPORTED_FORMAT))
    else
      var quality := q.quality.GetOr(THUMB_QUALITY);
      if quality > 100 then Err(BadRequest(QUALITY_RANGE))
      else
        var resize := match q.resize
          case None => Ok(THUMB_RESIZE)
          case Some(rs) => ParseResizeFromQuery(rs);
        match resize
        case Err(e) => Err(e)
        case Ok(rz) => Ok(Directives(fmt.value, quality, rz))
  }

  /** With none of `f`, `rs` and `q` the thumbnail is a WebP at quality 82
      fitted into 480×480, whatever the server hints and author say. */
  lemma ThumbDefaults(xs: seq<string>, author: Option<string>)
    ensures ParseThumbParams(ThumbQuery(None, None, None, xs, author))
            == Ok(Directives(Webp, THUMB_QUALITY, THUMB_RESIZE))
  {
  }

  /** When the parameters are accepted, and which error is reported first
      when they are not: format, then quality, then resize. */
  lemma ThumbParamsOutcome(q: ThumbQuery)
    ensures var r := ParseThumbParams(q);
      && (q.format.Some? && ParseFormatName(q.format.value).None?
          ==> r == Err(BadRequest(UNSUPPORTED_FORMAT)))
      && ((q.format.None? || ParseFormatName(q.format.value).Some?)
          && q.quality.Some? && q.quality.value > 100
          ==> r == Err(BadRequest(QUALITY_RANGE)))
      && (r.Ok? <==> (q.format.None? || ParseFormatName(q.format.value).Some?)
                     && q.quality.GetOr(THUMB_QUALITY) <= 100
                     && (q.resize.None? || ParseResizeFromQuery(q.resize.value).Ok?))
      && (r.Ok? ==> r.value.outFmt == (if q.format.None? then Webp else ParseFormatName(q.format.value).value)
                    && r.value.quality == q.quality.GetOr(THUMB_QUALITY)
                    && r.value.resize == (if q.resize.None? then THUMB_RESIZE else ParseResizeFromQuery(q.resize.value).value))
  {
  }

  /** The query accepts a 0×0 resize, which the path form would refuse for
      want of a dimension. */
  lemma ZeroByZeroAccepted(m: ResizeMode, fmt: Option<string>, quality: Option<u8>)
    requires fmt.None? || ParseFormatName(fmt.value).Some?
    requires quality.GetOr(THUMB_QUALITY) <= 100
    ensures var q := ThumbQuery(fmt, Some(FormatResize(Resize(m, 0, 0))), quality, [], None);
            ParseThumbParams(q).Ok? && ParseThumbParams(q).value.resize == Resize(m, 0, 0)
  {
    QueryResizeRoundTrip(Resize(m, 0, 0));
  }

  // --------------------------------------------------------- query string

  /** `key=value` when the field is present, nothing otherwise. */
  function Field(key: string, value: Option<string>): (r: seq<string>)
    ensures |r| <= 1
  {
    match value
    case None => []
    case Some(v) => [key + v]
  }

  function QualityText(q: Option<u8>): Option<string> {
    match q
    case None => None
    case Some(v) => Some(NatToDecimal(v))
  }

  function HintParts(hints: seq<string>): (r: seq<string>)
    ensures |r| == |hints|
  {
    if |hints| == 0 then [] else ["xs=" + hints[0]] + HintParts(hints[1..])
  }

  /** The parts `build_query_string` collects: `f`, `rs`, `q`, each `xs`
      in order, then `as`, each only when present. */
  function QueryParts(q: ThumbQuery): seq<string> {
    Field("f=", q.format) + Field("rs=", q.resize) + Field("q=", QualityText(q.quality))
    + HintParts(q.serverHints) + Field("as=", q.authorPubkey)
  }

  function QueryString(q: ThumbQuery): string {
    Join(QueryParts(q), '&')
  }

  lemma {:induction false} HintPartsAppend(hints: seq<string>, i: nat)
    requires i < |hints|
    ensures HintParts(hints[..i + 1]) == HintParts(hints[..i]) + ["xs=" + hints[i]]
    decreases i
  {
    if i > 0 {
      assert hints[..i + 1][1..] == hints[1..][..i];
      assert hints[..i][1..] == hints[1..][..i - 1];
      HintPartsAppend(hints[1..], i - 1);
    }
  }

  /** `build_query_string`: push the present fields in order, then join
      them with `&`. */
  method BuildQueryString(q: ThumbQuery) returns (s: string)
    ensures s == QueryString(q)
  {
    var parts: seq<string> := [];
    parts := PushField(parts, "f=", q.format);
    assert parts == Field("f=", q.format);
    parts := PushField(parts, "rs=", q.resize);
    parts := PushField(parts, "q=", QualityText(q.quality));
    var head := parts;
    assert q.serverHints[..0] == [];
    for i := 0 to |q.serverHints|
      invariant parts == head + HintParts(q.serverHints[..i])
    {
      HintPartsAppend(q.serverHints, i);
      parts := parts + ["xs=" + q.serverHints[i]];
    }
    assert q.serverHints[..|q.serverHints|] == q.serverHints;
    parts := PushField(parts, "as=", q.authorPubkey);
    assert parts == QueryParts(q);
    s := Join(parts, '&');
  }

  /** Push `key` and the value, when there is one. */
  method PushField(parts: seq<string>, key: string, value: Option<string>)
    returns (parts': seq<string>)
    ensures parts' == parts + Field(key, value)
  {
    parts' := parts;
    if value.Some? {
      parts' := parts' + [key + value.value];
    }
  }

  // ------------------------------------------- reading a query string back

  /** The first part, minus `key`, when it starts with `key`. */
  function TakeField(parts: seq<string>, key: string): (Option<string>, seq<string>) {
    if |parts| > 0 && StartsWith(parts[0], key) then (Some(parts[0][|key|..]), parts[1..])
    else (None, parts)
  }

  /** The leading run of `xs=` parts. */
  function TakeHints(parts: seq<string>): (seq<string>, seq<string>) {
    if |parts| > 0 && StartsWith(parts[0], "xs=") then
      var (hints, rest) := TakeHints(parts[1..]);
      ([parts[0][3..]] + hints, rest)
    else ([], parts)
  }

  /** The query whose parts are `parts`, read in the fixed key order. */
  function ReadQueryParts(parts: seq<string>): Option<ThumbQuery> {
    var (f, p1) := TakeField(parts, "f=");
    var (rs, p2) := TakeField(p1, "rs=");
    var (qt, p3) := TakeField(p2, "q=");
    ReadAfterQuality(f, rs, qt, p3)
  }

  /** The `q` value as a `u8`; `Some(None)` when there is no `q` part. */
  function ReadQuality(qt: Option<string>): Option<Option<u8>> {
    match qt
    case None => Some(None)
    case Some(t) =>
      match ParseUnsigned(t, U8_BOUND)
      case None => None
      case Some(v) => Some(Some(v as u8))
  }

  function ReadAfterQuality(f: Option<string>, rs: Option<string>, qt: Option<string>,
                            rest: seq<string>): Option<ThumbQuery> {
    var (xs, p4) := TakeHints(rest);
    var (author, p5) := TakeField(p4, "as=");
    match ReadQuality(qt)
    case None => None
    case Some(quality) => if p5 != [] then None else Some(ThumbQuery(f, rs, quality, xs, author))
  }

  function ReadQueryString(s: string): Option<ThumbQuery> {
    if s == "" then ReadQueryParts([]) else ReadQueryParts(Split(s, '&'))
  }

  /** No field value contains the separator `&`. */
  predicate AmpFree(q: ThumbQuery) {
    (q.format.Some? ==> '&' !in q.format.value)
    && (q.resize.Some? ==> '&' !in q.resize.value)
    && (forall i :: 0 <= i < |q.serverHints| ==> '&' !in q.serverHints[i])
    && (q.authorPubkey.Some? ==> '&' !in q.authorPubkey.value)
  }

  /** The first part (if any) starts with one of the characters `cs`. */
  predicate LeadsWith(parts: seq<string>, cs: set<char>) {
    |parts| == 0 || (|parts[0]| > 0 && parts[0][0] in cs)
  }

  lemma TakeFieldOf(key: string, value: Option<string>, rest: seq<string>, cs: set<char>)
    requires |key| > 0 && key[0] !in cs && LeadsWith(rest, cs)
    ensures TakeField(Field(key, value) + rest, key) == (value, rest)
    ensures LeadsWith(Field(key, value) + rest, cs + {key[0]})
  {
    var parts := Field(key, value) + rest;
    if value.Some? {
      assert parts[0] == key + value.value;
      assert parts[0][|key|..] == value.value;
      assert parts[1..] == rest;
    } else {
      assert parts == rest;
      if |rest| > 0 {
        assert parts[0][0] != key[0];
      }
    }
  }

  lemma {:induction false} TakeHintsOf(hints: seq<string>, rest: seq<string>)
    requires LeadsWith(rest, {'a'})
    ensures TakeHints(HintParts(hints) + rest) == (hints, rest)
    ensures LeadsWith(HintParts(hints) + rest, {'x', 'a'})
  {
    var parts := HintParts(hints) + rest;
    if |hints| == 0 {
      assert parts == rest;
      if |rest| > 0 {
        assert parts[0][0] != 'x';
      }
    } else {
      TakeHintsOf(hints[1..], rest);
      assert parts[0] == "xs=" + hints[0];
      assert parts[0][3..] == hints[0];
      assert parts[1..] == HintParts(hints[1..]) + rest;
      assert hints == [hints[0]] + hints[1..];
    }
  }

  /** What follows the quality part reads back as the hints and the author. */
  lemma ReadTailOf(q: ThumbQuery)
    ensures var h := HintParts(q.serverHints) + Field("as=", q.authorPubkey);
            && TakeHints(h) == (q.serverHints, Field("as=", q.authorPubkey))
            && TakeField(Field("as=", q.authorPubkey), "as=") == (q.authorPubkey, [])
            && LeadsWith(h, {'x', 'a'})
  {
    var a := Field("as=", q.authorPubkey);
    TakeFieldOf("as=", q.authorPubkey, [], {});
    assert a + [] == a;
    TakeHintsOf(q.serverHints, a);
  }

  lemma ReadQualityOf(q: Option<u8>)
    ensures ReadQuality(QualityText(q)) == Some(q)
  {
    if q.Some? {
      ParseDecimal(q.value, U8_BOUND);
    }
  }

  lemma ReadAfterQualityOf(q: ThumbQuery)
    ensures ReadAfterQuality(q.format, q.resize, QualityText(q.quality),
                             HintParts(q.serverHints) + Field("as=", q.authorPubkey)) == Some(q)
  {
    ReadTailOf(q);
    ReadQualityOf(q.quality);
  }

  /** The parts of a query read back as that query. */
  lemma ReadQueryPartsOf(q: ThumbQuery)
    ensures ReadQueryParts(QueryParts(q)) == Some(q)
  {
    var f := Field("f=", q.format);
    var r := Field("rs=", q.resize);
    var t := Field("q=", QualityText(q.quality));
    var h := HintParts(q.serverHints) + Field("as=", q.authorPubkey);
    ReadTailOf(q);
    assert QueryParts(q) == f + (r + (t + h));
    ReadLeadingFields(q.format, q.resize, QualityText(q.quality), h);
    ReadAfterQualityOf(q);
  }

  /** The `f`, `rs` and `q` parts read back, each only when present. */
  lemma ReadLeadingFields(f: Option<string>, rs: Option<string>, qt: Option<string>,
                          h: seq<string>)
    requires LeadsWith(h, {'x', 'a'})
    ensures ReadQueryParts(Field("f=", f) + (Field("rs=", rs) + (Field("q=", qt) + h)))
            == ReadAfterQuality(f, rs, qt, h)
  {
    var t := Field("q=", qt) + h;
    TakeFieldOf("q=", qt, h, {'x', 'a'});
    var r := Field("rs=", rs) + t;
    TakeFieldOf("rs=", rs, t, {'q', 'x', 'a'});
    TakeFieldOf("f=", f, r, {'r', 'q', 'x', 'a'});
  }

  /** Every part is free of `&` and holds at least a key. */
  predicate Separable(parts: seq<string>) {
    forall i :: 0 <= i < |parts| ==> '&' !in parts[i] && |parts[i]| >= 2
  }

  lemma QueryPartsSeparable(q: ThumbQuery)
    requires AmpFree(q)
    ensures Separable(QueryParts(q))
  {
    var f := Field("f=", q.format);
    var r := Field("rs=", q.resize);
    var t := Field("q=", QualityText(q.quality));
    var h := HintParts(q.serverHints);
    var a := Field("as=", q.authorPubkey);
    FieldSeparable("f=", q.format);
    FieldSeparable("rs=", q.resize);
    if q.quality.Some? {
      DecimalAmpFree(q.quality.value);
    }
    FieldSeparable("q=", QualityText(q.quality));
    HintPartsSeparable(q.serverHints);
    FieldSeparable("as=", q.authorPubkey);
    SeparableConcat(f, r);
    SeparableConcat(f + r, t);
    SeparableConcat(f + r + t, h);
    SeparableConcat(f + r + t + h, a);
  }

  lemma SeparableConcat(a: seq<string>, b: seq<string>)
    requires Separable(a) && Separable(b)
    ensures Separable(a + b)
  {
    forall i | 0 <= i < |a + b|
      ensures '&' !in (a + b)[i] && |(a + b)[i]| >= 2
    {
      if i < |a| {
        assert (a + b)[i] == a[i];
      } else {
        assert (a + b)[i] == b[i - |a|];
      }
    }
  }

  lemma FieldSeparable(key: string, value: Option<string>)
    requires |key| >= 2 && '&' !in key
    requires value.Some? ==> '&' !in value.value
    ensures Separable(Field(key, value))
  {
    if value.Some? {
      var part := key + value.value;
      assert forall k :: 0 <= k < |part| ==> part[k] != '&' by {
        forall k | 0 <= k < |part| ensures part[k] != '&' {
          if k < |key| {
            assert part[k] == key[k];
          } else {
            assert part[k] == value.value[k - |key|];
          }
        }
      }
    }
  }

  lemma DecimalAmpFree(n: nat)
    ensures '&' !in NatToDecimal(n)
  {
    var d := NatToDecimal(n);
    assert forall k :: 0 <= k < |d| ==> IsAsciiDigit(d[k]);
  }

  lemma {:induction false} HintPartsSeparable(hints: seq<string>)
    requires forall i :: 0 <= i < |hints| ==> '&' !in hints[i]
    ensures Separable(HintParts(hints))
  {
    if |hints| > 0 {
      HintPartsSeparable(hints[1..]);
      FieldSeparable("xs=", Some(hints[0]));
      SeparableConcat(["xs=" + hints[0]], HintParts(hints[1..]));
    }
  }

  /** As long as no value contains `&`, the query string determines the
      query: reading it back gives the query that built it. */
  lemma QueryStringRoundTrip(q: ThumbQuery)
    requires AmpFree(q)
    ensures ReadQueryString(QueryString(q)) == Some(q)
  {
    var parts := QueryParts(q);
    ReadQueryPartsOf(q);
    QueryPartsSeparable(q);
    if |parts| == 0 {
    } else {
      SplitJoin(parts, '&');
      JoinNotEmpty(parts, '&');
    }
  }

  lemma JoinNotEmpty(parts: seq<string>, c: char)
    requires |parts| > 0 && |parts[0]| > 0
    ensures Join(parts, c) != ""
  {
    if |parts| > 1 {
      assert Join(parts, c)[0] == parts[0][0];
    }
  }

  // -------------------------------------------------------- the cache key

  /** A value may contain `&`, and then one query can forge the string of
      another: `rs=<r>&q=<n>` is both a resize `r&q=n` and a resize `r`
      with a quality `n`. */
  lemma QueryStringAmbiguous(rs: string, n: u8)
    ensures QueryString(ThumbQuery(None, Some(rs + "&q=" + NatToDecimal(n)), None, [], None))
            == QueryString(ThumbQuery(None, Some(rs), Some(n), [], None))
  {
    var d := NatToDecimal(n);
    var p1 := QueryParts(ThumbQuery(None, Some(rs + "&q=" + d), None, [], None));
    var p2 := QueryParts(ThumbQuery(None, Some(rs), Some(n), [], None));
    assert HintParts([]) == [];
    assert p1 == [] + ["rs=" + (rs + "&q=" + d)] + [] + [] + [];
    assert p1 == ["rs=" + (rs + "&q=" + d)];
    assert p2 == [] + ["rs=" + rs] + ["q=" + d] + [] + [];
    assert p2 == ["rs=" + rs, "q=" + d];
    assert p2[1..] == ["q=" + d];
    assert Join(p2, '&') == "rs=" + rs + "&" + ("q=" + d);
    assert "rs=" + (rs + "&q=" + d) == "rs=" + rs + "&" + ("q=" + d);
  }

  /** The two queries that share a string ask for different thumbnails:
      `rs=fit:1:1&q=5` carried as one resize value is a 1×0 fit at quality
      82, while `rs=fit:1:1` with `q=5` is a 1×1 fit at quality 5. */
  // String literals come in as parameters fixed by `requires`, which keeps the proof cheap.
  lemma CacheKeyCollision(fit: string, one: string, five: string)
    requires fit == "fit" && one == "1" && five == "5"
    ensures var rs := fit + ":" + one + ":" + one;
            var forged := ThumbQuery(None, Some(rs + "&q=" + five), None, [], None);
            var honest := ThumbQuery(None, Some(rs), Some(5), [], None);
            && QueryString(forged) == QueryString(honest)
            && ParseThumbParams(forged) == Ok(Directives(Webp, 82, Resize(Fit, 1, 0)))
            && ParseThumbParams(honest) == Ok(Directives(Webp, 5, Resize(Fit, 1, 1)))
  {
    var rs := fit + ":" + one + ":" + one;
    assert NatToDecimal(5) == five;
    QueryStringAmbiguous(rs, 5);
    assert fit == ModeName(Fit);
    ParseDecimal(1, U32_BOUND);
    assert NatToDecimal(1) == one;
    ForgedResize(one, five);
    QueryResizeFields(Fit, one, one);
  }

  /** A resize `fit:<one>:<one>&q=<five>` with a one-digit first
      dimension: the second dimension is junk and reads as 0. */
  lemma ForgedResize(one: string, five: string)
    requires |one| == 1 && one[0] != '+' && ParseUnsigned(one, U32_BOUND) == Some(1)
    requires ':' !in five
    ensures ParseResizeFromQuery(ModeName(Fit) + ":" + one + ":" + one + "&q=" + five)
            == Ok(Resize(Fit, 1, 0))
  {
    var fit := ModeName(Fit);
    var junk := one + "&q=" + five;
    assert junk[0] == one[0] && junk[1] == '&';
    assert ':' !in one;
    assert ':' !in junk by {
      assert junk == one + "&q=" + five;
      assert forall k :: 0 <= k < |junk| ==> junk[k] != ':' by {
        forall k | 0 <= k < |junk| ensures junk[k] != ':' {
          if k >= 4 { assert junk[k] == five[k - 4]; }
        }
      }
    }
    JunkDimension(junk);
    QueryResizeFields(Fit, one, junk);
    assert fit + ":" + one + ":" + one + "&q=" + five == fit + ":" + one + ":" + junk;
  }

  /** A dimension with a non-digit after its first digit reads as 0. */
  lemma JunkDimension(field: string)
    requires |field| > 1 && field[0] != '+' && !IsAsciiDigit(field[1])
    ensures LenientDimension(field) == 0
  {
  }

  /** A query resize with a known mode and two `:`-free fields. */
  lemma QueryResizeFields(m: ResizeMode, a: string, b: string)
    requires ':' !in a && ':' !in b
    ensures ParseResizeFromQuery(ModeName(m) + ":" + a + ":" + b)
            == Ok(Resize(m, LenientDimension(a), LenientDimension(b)))
  {
    ModeNameRoundTrip(m);
    SplitThree(ModeName(m), a, b);
  }

  /** `%` and `&` inside a value, written as `%25` and `%26`. */
  function Escape(s: string): (r: string)
    ensures '&' !in r
  {
    if |s| == 0 then ""
    else EscapeChar(s[0]) + Escape(s[1..])
  }

  function EscapeChar(c: char): (r: string)
    ensures 1 <= |r| && '&' !in r
  {
    if c == '%' then "%25" else if c == '&' then "%26" else [c]
  }

  function Unescape(t: string): string
    decreases |t|
  {
    if |t| == 0 then ""
    else if |t| >= 3 && t[0] == '%' && t[1] == '2' && t[2] == '5' then "%" + Unescape(t[3..])
    else if |t| >= 3 && t[0] == '%' && t[1] == '2' && t[2] == '6' then "&" + Unescape(t[3..])
    else [t[0]] + Unescape(t[1..])
  }

  lemma {:induction false} UnescapeEscape(s: string)
    ensures Unescape(Escape(s)) == s
  {
    if |s| > 0 {
      var head := EscapeChar(s[0]);
      var tail := Escape(s[1..]);
      UnescapeEscape(s[1..]);
      assert Escape(s) == head + tail;
      assert (head + tail)[|head|..] == tail;
      assert s == [s[0]] + s[1..];
    }
  }

  function EscapeOpt(v: Option<string>): Option<string> {
    match v
    case None => None
    case Some(s) => Some(Escape(s))
  }

  function UnescapeOpt(v: Option<string>): Option<string> {
    match v
    case None => None
    case Some(s) => Some(Unescape(s))
  }

  function EscapeAll(xs: seq<string>): (r: seq<string>)
    ensures |r| == |xs|
    ensures forall i :: 0 <= i < |xs| ==> r[i] == Escape(xs[i])
  {
    seq(|xs|, i requires 0 <= i < |xs| => Escape(xs[i]))
  }

  function UnescapeAll(xs: seq<string>): (r: seq<string>)
    ensures |r| == |xs|
    ensures forall i :: 0 <= i < |xs| ==> r[i] == Unescape(xs[i])
  {
    seq(|xs|, i requires 0 <= i < |xs| => Unescape(xs[i]))
  }

  /** The query with every text value escaped. */
  function EscapeQuery(q: ThumbQuery): (e: ThumbQuery)
    ensures AmpFree(e)
  {
    ThumbQuery(EscapeOpt(q.format), EscapeOpt(q.resize), q.quality,
               EscapeAll(q.serverHints), EscapeOpt(q.authorPubkey))
  }

  function UnescapeQuery(q: ThumbQuery): ThumbQuery {
    ThumbQuery(UnescapeOpt(q.format), UnescapeOpt(q.resize), q.quality,
               UnescapeAll(q.serverHints), UnescapeOpt(q.authorPubkey))
  }

  /** The query string with its values escaped: the same layout as
      `build_query_string`, but no value can fake a separator. */
  function CanonicalQueryString(q: ThumbQuery): string {
    QueryString(EscapeQuery(q))
  }

  function ReadCanonicalQuery(s: string): Option<ThumbQuery> {
    match ReadQueryString(s)
    case None => None
    case Some(e) => Some(UnescapeQuery(e))
  }

  lemma CanonicalQueryRoundTrip(q: ThumbQuery)
    ensures ReadCanonicalQuery(CanonicalQueryString(q)) == Some(q)
  {
    QueryStringRoundTrip(EscapeQuery(q));
    if q.format.Some? { UnescapeEscape(q.format.value); }
    if q.resize.Some? { UnescapeEscape(q.resize.value); }
    if q.authorPubkey.Some? { UnescapeEscape(q.authorPubkey.value); }
    var e := EscapeQuery(q);
    forall i | 0 <= i < |q.serverHints|
      ensures UnescapeAll(e.serverHints)[i] == q.serverHints[i]
    {
      UnescapeEscape(q.serverHints[i]);
    }
    assert UnescapeAll(e.serverHints) == q.serverHints;
    assert UnescapeQuery(e) == q;
  }

  /** Distinct queries have distinct canonical strings. */
  lemma CanonicalQueryInjective(q1: ThumbQuery, q2: ThumbQuery)
    requires CanonicalQueryString(q1) == CanonicalQueryString(q2)
    ensures q1 == q2
  {
    CanonicalQueryRoundTrip(q1);
    CanonicalQueryRoundTrip(q2);
  }

  /** The processed-cache key of a `/thumb` request, built from the
      escaped query string. */
  function ThumbCacheKey(filename: string, q: ThumbQuery): string {
    "/thumb/" + filename + "?" + CanonicalQueryString(q)
  }

  /** For one filename, two requests share a cache key exactly when their
      queries are equal, so they share it only when they ask for the same
      directives. */
  lemma CacheKeySeparatesQueries(filename: string, q1: ThumbQuery, q2: ThumbQuery)
    ensures ThumbCacheKey(filename, q1) == ThumbCacheKey(filename, q2) <==> q1 == q2
    ensures ThumbCacheKey(filename, q1) == ThumbCacheKey(filename, q2)
            ==> ParseThumbParams(q1) == ParseThumbParams(q2)
  {
    var prefix := "/thumb/" + filename + "?";
    if ThumbCacheKey(filename, q1) == ThumbCacheKey(filename, q2) {
      assert ThumbCacheKey(filename, q1)[|prefix|..] == CanonicalQueryString(q1);
      assert ThumbCacheKey(filename, q2)[|prefix|..] == CanonicalQueryString(q2);
      CanonicalQueryInjective(q1, q2);
    }
  }
}
