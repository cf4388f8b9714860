# nostube-imgproxy, modelled in Dafny

nostube-imgproxy is an HTTP image service with two entry points.

- The imgproxy-style route `/insecure/<directives>/plain/<percent-encoded url>` fetches a source image and resizes it. The directives are `f:<format>`, `q:<quality>` and `rs:<mode>:<w>:<h>` (or `rt:`). It then re-encodes the image.
- The Blossom route `/thumb/<sha256>.<ext>` produces a thumbnail of a blob addressed by its digest. The digest comes from the URL path; the query may add format, resize, quality, server hints (`xs`) and an author public key (`as`). The blob is fetched from the first Blossom server that delivers it. Candidates are the hints first, then the author's servers (read from their newest server-list event and cached for a TTL), then the configured fallbacks. All are normalised and deduplicated case-insensitively.

Processed results and fetched originals are kept in a disk cache under names derived from a digest. They are written atomically through a `.tmp` file. A janitor deletes entries older than a TTL.

The modules follow the source files:

| module | file | models |
|---|---|---|
| `Transform` | transform.dfy | directive parsing (`parse_rest`, `parse_resize_directive`), formats and modes |
| `ResizeGeometry` | resize.dfy | `apply_resize` planning: mode resolution, target dimensions, crops, and exact-real reference geometry for fit/fill/fill_down |
| `PercentDecoding` | percent.dfy | percent-decoding of the source URL and UTF-8 validation |
| `Errors` | errors.dfy | `SvcError` and its HTTP mapping |
| `Thumbnail` | thumbnail.dfy | `is_video_url` |
| `Blossom` | blossom.dfy | server URL normalisation, list combination, author server lookup and its TTL cache (a class) |
| `ThumbQueries` | query.dfy | thumb filename validation, thumb parameters, the query string used as cache key |
| `SourceFetch` | fetch.dfy | fetching from Blossom servers in order, `fetch_source` with its fallback |
| `DiskCache` | cache.dfy | cache paths, the atomic write and the janitor sweep over a file-system model (a class) |
| `Text`, `Wrappers` | text.dfy, wrappers.dfy | string helpers and `Option`/`Result` |

The network is a function from URL to outcome, and the clock is a parameter. Where a loop in the source walks a list (the server fallbacks, the directive segments, the tag list, the janitor walk), the model is a method with a loop. That method is proved equal to a recursive specification function, and the lemmas state the properties of that function.

## Model

| member | source | states |
|---|---|---|
| Transform.MimeType | src/transform.rs:22-29 | every output format's MIME type is an `image/` type |
| Transform.Extension | src/transform.rs:31-38 | every extension is a non-empty name without `.` or `/`, so it can end a file name |
| Transform.FormatNamesRoundTrip | src/transform.rs:81-88 | the `f:` parser accepts each format's extension and its MIME subtype and yields that format; distinct formats have distinct names |
| Transform.ModeNameRoundTrip | src/transform.rs:132-139 | the mode parser inverts the mode names |
| Transform.NamesIgnoreCase | src/transform.rs:81-88 | format and mode names are matched case-insensitively |
| Transform.ParseResizeDirective | src/transform.rs:126-159 | a resize argument is accepted exactly when it has three `:`-fields, a known mode and two `u32` dimensions (empty means 0); otherwise it is a bad request: "invalid resize format" when there are not three fields, else "unsupported resize mode" for an unknown mode, else "bad width" when the width does not parse, else "bad height" |
| Transform.ResizeDirectiveRoundTrip | src/transform.rs:126-159 | printing any resize as `mode:w:h` and parsing it gives it back |
| Transform.EmptyWidthIsZero | src/transform.rs:142-147 | an empty width field parses as 0 |
| Transform.EmptyHeightIsZero | src/transform.rs:149-155 | an empty height field parses as 0 |
| Transform.ClassifySegment | src/transform.rs:80-102 | a segment the loop rejects is always a bad request with one of the directive messages |
| Transform.QualityDirective | src/transform.rs:89-94 | `q:n` sets the quality when n ≤ 100 and is rejected above it |
| Transform.NonEmpty | src/transform.rs:65-69 | empty path segments are dropped |
| Transform.ErrorPersists | src/transform.rs:80-102 | once a segment fails, the parse stops with that error |
| Transform.FoldDirectives | src/transform.rs:72-102 | the directive loop computes the fold of the segments over the defaults |
| Transform.ParseRest | src/transform.rs:58-124 | `parse_rest` equals its specification, and any success has a non-zero width or height |
| Transform.LastDirectiveWins | src/transform.rs:80-102 | the parse succeeds iff no segment is invalid; then each of format, quality and resize is the last one given, or the default |
| Transform.FirstInvalidReported | src/transform.rs:80-102 | a failing parse reports the error of the first invalid segment, and every segment before it is valid |
| Transform.DefaultsNeedADimension | src/transform.rs:72-78 | with no recognised directive the defaults apply and the request is rejected for lacking a dimension |
| Transform.AllUnrecognisedDefaults | src/transform.rs:72-78 | the defaults are jpeg, quality 82, fit 0×0 |
| Transform.MissingPlainIsDistinct | src/transform.rs:60-62 | the missing-`/plain/` message differs from every other parse error |
| Transform.FoldErrorIsDirectiveError | src/transform.rs:80-102 | every fold error is a bad request carrying a directive message |
| Transform.PartsNeverMissingPlain | src/transform.rs:105-113 | once `/plain/` is found, the missing-`/plain/` error cannot come back |
| Transform.ConcludeNeverMissingPlain | src/transform.rs:105-113 | the final checks keep that property |
| Transform.PartsQualityBounded | src/transform.rs:89-94 | parsed quality is at most 100 |
| Transform.ParseRestOutcomes | src/transform.rs:58-124 | the missing-`/plain/` error happens iff the path has no `/plain/`; a success has quality ≤ 100 |
| Transform.QualityBounded | src/transform.rs:89-94 | the fold never yields a quality above 100 |
| Transform.ConcludeCarriesUrl | src/transform.rs:109-113 | a success carries exactly the decoded source URL |
| Transform.SourceAfterFirstPlain | src/transform.rs:60-62 | the source URL is the percent-decoding of what follows the first `/plain/` |
| ResizeGeometry.SaturatingSub | src/transform.rs:239-241 | `saturating_sub` is the difference when it is non-negative and 0 otherwise |
| ResizeGeometry.ResolveMode | src/transform.rs:168-180 | auto becomes fill exactly when source and target have the same orientation, else fit; explicit modes pass through |
| ResizeGeometry.CalculateDimensions | src/transform.rs:192-209 | 0×0 keeps the source size; a given dimension is kept; a missing one is the aspect-derived value |
| ResizeGeometry.FillCrop | src/transform.rs:239-241 | the fill crop window has the target's size; on each side where the scaled image covers the target it lies inside the image, centred to within one pixel, and otherwise starts at 0 |
| ResizeGeometry.FillDownCrop | src/transform.rs:260-266 | the fill_down crop is the smaller of scaled and target per axis, inside the image and centred |
| ResizeGeometry.ClampedSize | src/transform.rs:241 | the window `crop_imm` cuts is never larger than asked for or than the image, and keeps its size when it lies inside the image |
| ResizeGeometry.PlanResize | src/transform.rs:162-189 | the plan combines the target, the resolved mode and, per mode, the scaled size and whether a crop follows |
| ResizeGeometry.OutputSizeByMode | src/transform.rs:162-272 | force outputs the target; fit outputs the scaled size; fill and fill_down output the target cut down per side to the scaled image (`crop_imm` clamps its window), so fill gives exactly the target when its scaling covers it; a requested side is kept |
| ResizeGeometry.FitScale | src/transform.rs:212-225 | the fit factor is at most 1 and at most each target/source ratio |
| ResizeGeometry.FillScale | src/transform.rs:228-242 | the fill factor is at least each target/source ratio |
| ResizeGeometry.FillDownScale | src/transform.rs:245-267 | the fill_down factor never exceeds 1 and equals the fill factor when that is ≤ 1 |
| ResizeGeometry.FitStaysInside | src/transform.rs:212-225 | a fit result is no larger than the source or the target box |
| ResizeGeometry.FitKeepsSmallImage | src/transform.rs:212-225 | an image already inside the box is left at its size |
| ResizeGeometry.FillCoversTarget | src/transform.rs:228-242 | fill scales to cover the target, so the crop of the target's size fits inside the image and the output is exactly the target |
| ResizeGeometry.FillDownNeverUpscales | src/transform.rs:245-267 | fill_down never makes an image larger |
| ResizeGeometry.FillDownReachesTargetWhenLarge | src/transform.rs:245-267 | when the source covers the target, fill_down crops to exactly the target |
| ResizeGeometry.FitExample | src/transform.rs:212-225 | a 100×50 image in a 400×400 box stays 100×50 |
| ResizeGeometry.FillExample | src/transform.rs:228-242 | 100×50 filled to 40×40 scales to 80×40 and crops at x=20 |
| PercentDecoding.HexDigit | src/transform.rs:109-113 | hex digits and hex values are inverse |
| PercentDecoding.DecodeEncodeUtf8 | src/transform.rs:109-113 | UTF-8 validation accepts the encoding of every string and gives it back |
| PercentDecoding.DecodeEncodeBytes | src/transform.rs:109-113 | percent-decoding inverts `%XX` encoding of any bytes |
| PercentDecoding.EncodedUrlRoundTrip | src/transform.rs:109-113 | a fully percent-encoded URL decodes to itself |
| PercentDecoding.PlainUrlUnchanged | src/transform.rs:109-113 | a URL without `%` is passed through unchanged |
| PercentDecoding.InvalidOctetRejected | src/transform.rs:109-113 | a `%FF` octet makes the URL invalid UTF-8, so it is rejected |
| PercentDecoding.DecodeAppend | src/transform.rs:109-113 | decoding distributes over a `%`-free prefix |
| PercentDecoding.DecodeInvalidTail | src/transform.rs:109-113 | appending a 0xFF byte to valid UTF-8 makes it invalid |
| Errors.IntoResponse | src/error.rs:19-29 | bad request → 400 with its message; fetch and upstream → 502; decode → 422; io → 500; each status iff its variant |
| Errors.ReplyIgnoresPayload | src/error.rs:21-26 | apart from bad requests, the reply does not depend on the wrapped error |
| Errors.BadRequestBodyDistinguishes | src/error.rs:22 | different bad-request messages give different replies |
| Thumbnail.VideoUrlHasListedSuffix | src/thumbnail.rs:21-35 | a URL taken for a video ends, lower-cased, in one of the twelve listed extensions |
| Thumbnail.SuffixMakesVideo | src/thumbnail.rs:21-35 | every listed extension makes a URL a video |
| Thumbnail.VideoUrlIgnoresCase | src/thumbnail.rs:22 | the test is case-insensitive |
| Thumbnail.UpperCaseExtension | src/thumbnail.rs:22-23 | `.MP4` counts as video |
| Thumbnail.DigitEndIsNotVideo | src/thumbnail.rs:21-35 | a URL ending in a digit other than 4 is not a video |
| Thumbnail.QueryHidesExtension | src/thumbnail.rs:21-35 | a query string after `.mp4` hides the extension |
| Thumbnail.JpgIsNotVideo | src/thumbnail.rs:21-35 | `.jpg` is not a video |
| Blossom.WithScheme | src/blossom.rs:170-178 | a URL without `http://` or `https://` gets `https://`; one with a scheme is kept |
| Blossom.NormalizeServerUrl | src/blossom.rs:170-178 | a normalised URL never ends in `/` and starts with `http:` or `https:` according to its input |
| Blossom.NormalizeSchemed | src/blossom.rs:170-178 | a trimmed URL with a scheme and no trailing slash is unchanged, and one trailing slash is removed |
| Blossom.NormalizeHostExamples | src/blossom.rs:219-225 | `example.com` and `example.com/` become `https://example.com` |
| Blossom.NormalizeSchemeExamples | src/blossom.rs:219-225 | schemed URLs keep their scheme and lose a trailing slash |
| Blossom.NormalizeFixedIff | src/blossom.rs:170-178 | a trimmed URL without trailing slash is a fixed point iff it has a scheme |
| Blossom.NormalizeNotIdempotent | src/blossom.rs:170-178 | normalising is not idempotent: `https://` becomes `https:`, which becomes `https://https:` |
| Blossom.NormalizeAll | src/blossom.rs:182-212 | each server is normalised, in order |
| Blossom.AddServers | src/blossom.rs:191-199 | the add loop equals its specification fold |
| Blossom.CombineServerLists | src/blossom.rs:182-212 | the method computes hints, then author servers, then fallbacks, normalised and deduplicated |
| Blossom.AddAllKeepsInvariant | src/blossom.rs:182-212 | the seen-set stays the lower-cased result, with no case-insensitive duplicates, and covers every input |
| Blossom.DedupHasNoCaseDuplicates | src/blossom.rs:182-212 | the combined list never has two entries equal ignoring case |
| Blossom.DedupEntriesAreInputs | src/blossom.rs:182-212 | every entry is the normalisation of some input |
| Blossom.DedupCoversInputs | src/blossom.rs:182-212 | every input's normalisation is present, up to case |
| Blossom.DedupPrefix | src/blossom.rs:187-209 | what one list gives alone is a prefix of what it gives followed by a second list; every later entry is a normalised server of the second list that agrees up to case with no server of the first |
| Blossom.PriorityOrder | src/blossom.rs:202-209 | the combined list is the hints' servers, then author servers new up to case against the hints, then fallback servers new up to case against hints and authors |
| Blossom.DedupIsFirstOccurrences | src/blossom.rs:191-199 | the combined list is exactly the normalised candidates that agree up to case with no earlier candidate, in candidate order |
| Blossom.FirstVariantKept | src/blossom.rs:193-197 | of candidates agreeing up to case, the first one's spelling is listed and no other |
| Blossom.CombineExample | src/blossom.rs:228-240 | `[server1.com]`, `[server2.com, SERVER1.COM]`, `[server3.com]` combine to three `https://` URLs |
| Blossom.TagValues | src/blossom.rs:120-127 | at most one server per tag |
| Blossom.ServersFromTags | src/blossom.rs:120-127 | the tag loop equals its specification |
| Blossom.TagServerOrigin | src/blossom.rs:120-127 | each server comes from a `server` tag with a value, normalised |
| Blossom.ServerTagServed | src/blossom.rs:120-127 | every `server` tag with a value yields a server |
| Blossom.OtherTagsIgnored | src/blossom.rs:120-127 | with no `server` tags there are no servers |
| Blossom.LatestIndex | src/blossom.rs:115 | the chosen event has the greatest `created_at`; later ones are strictly older |
| Blossom.FetchAuthorServers | src/blossom.rs:81-132 | a failed or timed-out query, or no events, gives no servers; otherwise the newest event's tags decide |
| Blossom.NewestEventWins | src/blossom.rs:115 | of two events the newer one's servers are used |
| Blossom.FreshForTtl | src/blossom.rs:139-150 | a cache entry is fresh iff less than the TTL has elapsed |
| Blossom.AuthorServerCache.constructor | src/blossom.rs:42-60 | the cache starts empty with the TTL in seconds |
| Blossom.AuthorServerCache.GetAuthorServers | src/blossom.rs:135-166 | a bad key is rejected; a fresh entry is served without a query; otherwise the relays are queried and the result stored with its time |
| Blossom.RefreshedEntryServed | src/blossom.rs:154-163 | a stored entry is fresh and served within the TTL and other keys are untouched |
| ThumbQueries.ValidateThumbFilename | src/server.rs:187-195 | no `.` → invalid filename; else the stem must be 64 hex digits; a success splits at the last `.` |
| ThumbQueries.ThumbFilenameAccepted | src/server.rs:187-195 | `<digest>.<ext>` is accepted and split |
| ThumbQueries.BadDigestRejected | src/server.rs:187-195 | a stem that is not a digest is rejected as an invalid hash |
| ThumbQueries.LenientDimension | src/server.rs:349-350 | a query dimension is its `u32` value, or 0 when it does not parse |
| ThumbQueries.ParseResizeFromQuery | src/server.rs:334-353 | accepted iff three fields with a known mode; wrong field count and unknown mode are errors |
| ThumbQueries.QueryResizeExtendsPathResize | src/server.rs:334-353 | wherever the path parser accepts, the query parser agrees |
| ThumbQueries.QueryResizeRoundTrip | src/server.rs:334-353 | printing a resize and parsing it as a query gives it back |
| ThumbQueries.JunkDimensionsAreZero | src/server.rs:349-350 | unparsable dimensions become 0 where the path parser rejects them |
| ThumbQueries.ParseThumbParams | src/server.rs:294-331 | a successful parse has quality ≤ 100 |
| ThumbQueries.ThumbDefaults | src/server.rs:294-331 | no parameters give webp, the thumb quality and the thumb resize |
| ThumbQueries.ThumbParamsOutcome | src/server.rs:294-331 | unknown format and quality above 100 are rejected; success iff each given field parses; each output field is the given value or its default |
| ThumbQueries.ZeroByZeroAccepted | src/server.rs:294-331 | a 0×0 resize is accepted here, unlike on the imgproxy route |
| ThumbQueries.BuildQueryString | src/server.rs:356-376 | the method builds `f`, `rs`, `q`, each `xs`, then `as`, joined by `&` |
| ThumbQueries.QueryStringRoundTrip | src/server.rs:356-376 | for values without `&` the query string can be read back to the same query |
| ThumbQueries.QueryStringAmbiguous | src/server.rs:356-376 | an `rs` value holding `&q=n` prints like a separate quality n |
| ThumbQueries.CacheKeyCollision | src/server.rs:200-201 | two queries with different directives share one cache key |
| ThumbQueries.UnescapeEscape | src/server.rs:356-376 | escaping values is invertible |
| ThumbQueries.EscapeQuery | src/server.rs:356-376 | an escaped query has no `&` in any value |
| ThumbQueries.CanonicalQueryRoundTrip | src/server.rs:356-376 | the escaped query string reads back to the original query |
| ThumbQueries.CanonicalQueryInjective | src/server.rs:356-376 | distinct queries have distinct escaped query strings |
| ThumbQueries.CacheKeySeparatesQueries | src/server.rs:200-201 | with escaping, equal cache keys iff equal queries, hence equal directives |
| SourceFetch.ServerError | src/server.rs:410-436 | a failed server gives an upstream error with its non-success status, or 500 |
| SourceFetch.PrimaryError | src/server.rs:472-487 | a failed primary fetch is an upstream error carrying the status when one came back, and a fetch error otherwise |
| SourceFetch.FailuresAnswerAlike | src/server.rs:410-487 | both error forms answer 502 alike |
| SourceFetch.ExtractBlossomHash | src/server.rs:452-462 | an extracted digest is 64 hex digits and the extension has no `.` or `/` |
| SourceFetch.ExtractedNameEndsUrl | src/server.rs:452-462 | the extracted `<digest>.<ext>` is the URL's last path segment |
| SourceFetch.BlossomUrlIffHash | src/server.rs:440-448 | a URL is a Blossom URL iff a digest can be extracted from it |
| SourceFetch.ExtractFromBlossomUrl | src/server.rs:452-462 | a server URL built for a digest yields that digest and extension |
| SourceFetch.BlossomUrlSingleSlash | src/server.rs:392 | a blob URL joins server and name with one slash, whatever trailing slashes the server had |
| SourceFetch.ServerUrls | src/server.rs:391-392 | one URL per server, in order |
| SourceFetch.FirstDelivered | src/server.rs:389-408 | the index found is the first server that delivers; none means no server delivers |
| SourceFetch.FetchFromBlossomServers | src/server.rs:379-437 | the loop equals its specification and tries exactly the servers up to the first that delivers |
| SourceFetch.FirstServerWins | src/server.rs:408 | the first delivering server's bytes are returned and no later server is tried |
| SourceFetch.LastServerErrorReported | src/server.rs:410-436 | when all fail, the last server's error is returned |
| SourceFetch.BlossomFetchOutcomes | src/server.rs:379-437 | no servers iff the no-servers bad request; bytes always come from a delivering server; other failures are upstream errors |
| SourceFetch.PrimaryResult | src/server.rs:472-487 | the primary fetch succeeds iff it delivers |
| SourceFetch.FallbackUrls | src/server.rs:493-547 | fallbacks are tried only for Blossom URLs, one per fallback server |
| SourceFetch.TryFallbacks | src/server.rs:493-547 | the fallback loop returns the first delivering fallback's bytes and tries exactly the servers up to it |
| SourceFetch.FetchSource | src/server.rs:465-561 | the method equals its specification in result and in URLs tried |
| SourceFetch.SchemeCheckedFirst | src/server.rs:467-469 | a non-http(s) URL is rejected with nothing fetched |
| SourceFetch.NoFallbackForOtherUrls | src/server.rs:472-491 | for a non-Blossom URL only the primary is fetched |
| SourceFetch.FallbackRescues | src/server.rs:493-547 | a failed Blossom primary is rescued by the first delivering fallback |
| SourceFetch.FailureIsPrimaryError | src/server.rs:560 | an overall failure reports the primary's error |
| SourceFetch.FallbackUrlsKeepDigest | src/server.rs:493-547 | every fallback URL addresses the same digest and extension |
| DiskCache.ProcessedName | src/cache.rs:22-30 | a processed entry is named `<digest>.<ext>` |
| DiskCache.ProcessedPathsDistinct | src/cache.rs:22-30 | equal processed paths mean the same digest and format |
| DiskCache.NamespacesDisjoint | src/cache.rs:22-39 | processed and original entries never share a path |
| DiskCache.ProcessedTmpPathDiffers | src/cache.rs:73-89 | the temporary file of a processed entry is a different path |
| DiskCache.OriginalTmpPathDiffers | src/cache.rs:73-89 | the same holds for original entries |
| DiskCache.ExpiredIff | src/cache.rs:124-126 | a file is expired iff it is older than the TTL; a file from the future never is |
| DiskCache.Sweep | src/cache.rs:114-126 | a sweep only deletes listed, expired files and changes no content |
| DiskCache.SweepDeletesExactlyExpired | src/cache.rs:114-126 | with all metadata readable, exactly the listed expired files go |
| DiskCache.MetadataErrorStops | src/cache.rs:122-123 | unreadable metadata aborts the sweep with files after it untouched |
| DiskCache.SweepIdempotent | src/cache.rs:114-126 | sweeping twice is sweeping once |
| DiskCache.SweepIgnoresUnlisted | src/cache.rs:114-120 | files the walk does not list do not affect the sweep |
| DiskCache.SweepRoots | src/cache.rs:102-130 | cleanup only deletes files listed under an existing root and changes no content |
| DiskCache.CleanupOnlyTouchesRoots | src/cache.rs:106-112 | files outside the two cache roots survive cleanup |
| DiskCache.YoungFileSurvivesSweeps | src/cache.rs:124-126 | a file younger than the TTL survives cleanup |
| DiskCache.TwoRoots | src/cache.rs:106-120 | cleanup sweeps the original root, then the processed root unless the first failed |
| DiskCache.CleanupIdempotent | src/cache.rs:102-130 | cleaning up twice is cleaning up once |
| DiskCache.Disk.TryReadOriginalCache | src/cache.rs:65-70 | a cached original is read back when present; a miss is not an error |
| DiskCache.Disk.WriteCacheAtomic | src/cache.rs:73-89 | on success the file holds the bytes with the temporary file gone; each failure is an io error; only the path and its `.tmp` can change |
| DiskCache.Disk.SweepDirectory | src/cache.rs:114-126 | the janitor's walk over one root equals the sweep |
| DiskCache.Disk.RunCleanup | src/cache.rs:102-130 | cleanup equals the sweep over both roots and fails with an io error iff metadata could not be read |
| DiskCache.WriteThenRead | src/cache.rs:65-89 | an original written to the cache is read back as the same bytes, with no temporary file left |

## Left out

- Image decoding, `apply_resize`'s pixel work and `encode_image` are not modelled. The model covers only the geometry decisions.
- Resize floating point: the source computes scaled sizes in `f32`. `PlanResize` takes the scaled size as an input. The fit/fill/fill_down properties are proved on exact-real reference geometry (`FitExact`, `FillExact`, `FillDownExact`), not on `f32` rounding.
- ResizeGeometry.PlanResize: the aspect-derived dimension (`derived`) and the scaled size are inputs, because they come from `f32` arithmetic.
- HTTP and axum plumbing are not modelled: routing, headers, CORS, response bodies, metrics, configuration loading and `main`. `handle_insecure` and `handle_thumb` are covered only through the pieces they call (filename validation, parameters, cache key, fetch).
- `try_serve_cache` is not modelled: it only reads a file into a response.
- `janitor_loop` is not modelled: it is a timer around `run_cleanup`.
- Video thumbnails through ffmpeg and the semaphore that limits them are not modelled. Only `is_video_url` is.
- Nostr relay connections and event queries are replaced by a query outcome (events, failure or timeout). Public-key parsing is a parameter.
- The RwLock around the author cache and `Instant::now()` are not modelled. The clock is passed as `now`, and the time a query finished as `doneAt`.
- The network is a function from URL to outcome: a status and a body that either arrived or failed. Timeouts and partial reads are folded into these outcomes.
- SHA-256 and hex encoding are a digest function passed as a parameter. Paths assume it yields 64 hex digits.
- Unicode `to_lowercase` is modelled as ASCII lower-casing. It differs only on non-ASCII letters.
- Errors.IntoResponse: `error.rs` declares no `UpstreamError` variant, but `server.rs` uses one. The model maps it to 502, like `Fetch`.
- File system: `create_dir_all` is tracked only for the parent directory. Directory walks are a function from root to listed paths.
- DiskCache.Sweep: the model assumes every `remove_file` succeeds. In the source a failed removal is ignored and the file stays (src/cache.rs:125). So SweepDeletesExactlyExpired, SweepIdempotent and CleanupIdempotent hold only when removals succeed.
- DiskCache.CleanupIdempotent: requires that the two roots' walks list disjoint paths. This holds for the two cache subdirectories.
- Blossom.NormalizeServerUrl: strips every trailing slash and is not idempotent; `Blossom.NormalizeNotIdempotent` shows `https://` → `https:` → `https://https:`.

## Findings

| source | as written | input that shows it | evidently intended | confidence | as-written member | corrected member |
|---|---|---|---|---|---|---|
| src/server.rs:356-376 | `build_query_string` joins `key=value` pairs with `&` without escaping values, and the result is the processed-cache key (src/server.rs:200-201) | `rs=fit:1:1&q=5` (no `q`) and `rs=fit:1:1`, `q=5` give the same key, but parse to fit 1×0 at quality 82 and fit 1×1 at quality 5 | values escaped so that distinct queries get distinct cache keys | not executed | ThumbQueries.CacheKeyCollision | ThumbQueries.CacheKeySeparatesQueries |
