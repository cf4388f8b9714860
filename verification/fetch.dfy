/** Fetching image bytes: Blossom URLs (`<server>/<sha256>.<ext>`), the
    walk over candidate servers for `/thumb`, and the primary-then-fallback
    fetch of a source URL.  The network is the parameter `fetch`: the
    outcome of a GET for each URL. */
module SourceFetch {
  import opened Wrappers
  import opened Text
  import opened Errors
  import opened ThumbQueries

  // ----------------------------------------------------------- outcomes

  /** The body of a response, or the failure to read it. */
  datatype Body = Received(bytes: seq<u8>) | ReadFailed(detail: string)

  /** One GET: the request was never answered, or a status and a body. */
  datatype Outcome = SendFailed(detail: string) | Answered(status: u16, body: Body)

  predicate IsSuccess(status: u16) {
    200 <= status <= 299
  }

  /** A success status whose body was read. */
  predicate Delivered(o: Outcome) {
    o.Answered? && IsSuccess(o.status) && o.body.Received?
  }

  /** The error `fetch_from_blossom_servers` records for a failed attempt:
      the status when there is one to report, 500 otherwise. */
  function ServerError(o: Outcome): (e: SvcError)
    requires !Delivered(o)
    ensures e.UpstreamError?
    ensures e.status == (if o.Answered? && !IsSuccess(o.status) then o.status else 500)
  {
    match o
    case SendFailed(_) => UpstreamError(500)
    case Answered(status, _) => if IsSuccess(status) then UpstreamError(500) else UpstreamError(status)
  }

  /** The error of `fetch_source`'s primary attempt: the library error of a
      failed send or body read, the status otherwise. */
  function PrimaryError(o: Outcome): (e: SvcError)
    requires !Delivered(o)
    ensures e.UpstreamError? <==> o.Answered? && !IsSuccess(o.status)
    ensures e.UpstreamError? ==> e.status == o.status
  {
    match o
    case SendFailed(detail) => Fetch(detail)
    case Answered(status, body) => if IsSuccess(status) then Fetch(body.detail) else UpstreamError(status)
  }

  /** The two paths name a failure differently but answer the client the
      same way. */
  lemma FailuresAnswerAlike(o: Outcome)
    requires !Delivered(o)
    ensures IntoResponse(ServerError(o)) == IntoResponse(PrimaryError(o))
    ensures IntoResponse(ServerError(o)).status == BAD_GATEWAY
  {
  }

  // --------------------------------------------------------- Blossom URLs

  /** `format!("{}/{}.{}", server.trim_end_matches('/'), hash, ext)` */
  function BlossomUrl(server: string, hash: string, ext: string): string {
    TrimEndMatches(server, '/') + "/" + hash + "." + ext
  }

  /** `extract_blossom_hash`: the last `/`-segment split at its last `.`,
      when the part before is a SHA-256 hex digest. */
  function ExtractBlossomHash(url: string): (r: Option<(string, string)>)
    ensures r.Some? ==> IsSha256Hex(r.value.0) && '.' !in r.value.1 && '/' !in r.value.1
  {
    var filename := LastSegment(url, '/');
    match RSplitOnce(filename, '.')
    case None => None
    case Some((hash, ext)) => if IsSha256Hex(hash) then Some((hash, ext)) else None
  }

  /** The digest and extension are the end of the URL: `<digest>.<ext>`
      after the last `/`. */
  lemma ExtractedNameEndsUrl(url: string)
    requires ExtractBlossomHash(url).Some?
    ensures var (hash, ext) := ExtractBlossomHash(url).value;
            LastSegment(url, '/') == hash + "." + ext && EndsWith(url, hash + "." + ext)
  {
  }

  /** `is_blossom_url`: the same test, answering yes or no. */
  predicate IsBlossomUrl(url: string) {
    match RSplitOnce(LastSegment(url, '/'), '.')
    case None => false
    case Some((hash, _)) => IsSha256Hex(hash)
  }

  /** The recogniser and the extractor agree on every URL. */
  lemma BlossomUrlIffHash(url: string)
    ensures IsBlossomUrl(url) <==> ExtractBlossomHash(url).Some?
  {
  }

  lemma HexHasNoSlash(hash: string)
    requires IsSha256Hex(hash)
    ensures '/' !in hash
  {
  }

  /** A URL built for a server gives back the digest and extension it was
      built from, whatever the server's address. */
  lemma ExtractFromBlossomUrl(server: string, hash: string, ext: string)
    requires IsSha256Hex(hash) && '.' !in ext && '/' !in ext
    ensures ExtractBlossomHash(BlossomUrl(server, hash, ext)) == Some((hash, ext))
    ensures IsBlossomUrl(BlossomUrl(server, hash, ext))
  {
    HexHasNoSlash(hash);
    var name := hash + "." + ext;
    assert '/' !in name;
    assert BlossomUrl(server, hash, ext) == TrimEndMatches(server, '/') + ['/'] + name;
    LastSegmentAfter(TrimEndMatches(server, '/'), '/', name);
    RSplitOnceAt(hash, '.', ext);
  }

  /** Trailing slashes on the server address never double up. */
  lemma BlossomUrlSingleSlash(server: string, hash: string, ext: string)
    ensures var base := TrimEndMatches(server, '/');
            BlossomUrl(server, hash, ext) == base + "/" + hash + "." + ext
            && (|base| == 0 || base[|base| - 1] != '/')
            && BlossomUrl(server + "/", hash, ext) == BlossomUrl(server, hash, ext)
  {
  }

  /** The URL of `hash.ext` on each server, in order. */
  function ServerUrls(servers: seq<string>, hash: string, ext: string): (urls: seq<string>)
    ensures |urls| == |servers|
    ensures forall i :: 0 <= i < |servers| ==> urls[i] == BlossomUrl(servers[i], hash, ext)
  {
    seq(|servers|, i requires 0 <= i < |servers| => BlossomUrl(servers[i], hash, ext))
  }

  // --------------------------------------------------- sequential attempts

  /** The first URL whose GET delivers, if any. */
  function FirstDelivered(urls: seq<string>, fetch: string -> Outcome): (r: Option<nat>)
    ensures r.Some? ==> r.value < |urls| && Delivered(fetch(urls[r.value]))
                        && forall j :: 0 <= j < r.value ==> !Delivered(fetch(urls[j]))
    ensures r.None? ==> forall j :: 0 <= j < |urls| ==> !Delivered(fetch(urls[j]))
  {
    if |urls| == 0 then None
    else if Delivered(fetch(urls[0])) then Some(0)
    else
      match FirstDelivered(urls[1..], fetch)
      case None => None
      case Some(i) => Some(i + 1)
  }

  /** The URLs a walk requests: up to and including the first that
      delivers, or all of them. */
  function Attempted(urls: seq<string>, fetch: string -> Outcome): seq<string> {
    match FirstDelivered(urls, fetch)
    case Some(i) => urls[..i + 1]
    case None => urls
  }

  lemma FirstDeliveredAt(urls: seq<string>, fetch: string -> Outcome, i: nat)
    requires i < |urls| && Delivered(fetch(urls[i]))
    requires forall j :: 0 <= j < i ==> !Delivered(fetch(urls[j]))
    ensures FirstDelivered(urls, fetch) == Some(i)
    ensures Attempted(urls, fetch) == urls[..i + 1]
  {
    var r := FirstDelivered(urls, fetch);
    assert r.Some?;
  }

  lemma NoneDelivered(urls: seq<string>, fetch: string -> Outcome)
    requires forall j :: 0 <= j < |urls| ==> !Delivered(fetch(urls[j]))
    ensures FirstDelivered(urls, fetch) == None
    ensures Attempted(urls, fetch) == urls[..|urls|]
  {
    assert FirstDelivered(urls, fetch).None?;
  }

  // -------------------------------------------- fetch_from_blossom_servers

  const NO_SERVERS := "no servers available to fetch from"

  /** What `fetch_from_blossom_servers` returns: the bytes of the first
      server that delivers, else the error recorded for the last server. */
  function BlossomFetchResult(servers: seq<string>, hash: string, ext: string,
                              fetch: string -> Outcome): Result<seq<u8>, SvcError>
  {
    var urls := ServerUrls(servers, hash, ext);
    if |servers| == 0 then Err(BadRequest(NO_SERVERS))
    else
      match FirstDelivered(urls, fetch)
      case Some(i) => Ok(fetch(urls[i]).body.bytes)
      case None => Err(ServerError(fetch(urls[|urls| - 1])))
  }

  /** `fetch_from_blossom_servers`: try each server in order, stop at the
      first delivered body, remember the last failure. */
  method FetchFromBlossomServers(servers: seq<string>, hash: string, ext: string,
                                 fetch: string -> Outcome)
    returns (r: Result<seq<u8>, SvcError>, tried: seq<string>)
    ensures r == BlossomFetchResult(servers, hash, ext, fetch)
    ensures tried == (if |servers| == 0 then [] else Attempted(ServerUrls(servers, hash, ext), fetch))
  {
    if |servers| == 0 {
      return Err(BadRequest(NO_SERVERS)), [];
    }
    ghost var urls := ServerUrls(servers, hash, ext);
    var lastError: Option<SvcError> := None;
    tried := [];
    for i := 0 to |servers|
      invariant tried == urls[..i]
      invariant forall j :: 0 <= j < i ==> !Delivered(fetch(urls[j]))
      invariant i == 0 ==> lastError.None?
      invariant i > 0 ==> lastError == Some(ServerError(fetch(urls[i - 1])))
    {
      var url := BlossomUrl(servers[i], hash, ext);
      assert url == urls[i];
      assert urls[..i + 1] == urls[..i] + [url];
      tried := tried + [url];
      var outcome := fetch(url);
      match outcome {
        case Answered(status, body) =>
          if IsSuccess(status) {
            match body {
              case Received(bytes) =>
                BlossomDeliveredAt(servers, hash, ext, fetch, i);
                return Ok(bytes), tried;
              case ReadFailed(_) =>
                lastError := Some(UpstreamError(500));
            }
          } else {
            lastError := Some(UpstreamError(status));
          }
        case SendFailed(_) =>
          lastError := Some(UpstreamError(500));
      }
      assert !Delivered(outcome) && lastError == Some(ServerError(outcome));
    }
    BlossomNoneDelivered(servers, hash, ext, fetch);
    r := Err(lastError.GetOr(UpstreamError(404)));
  }

  lemma BlossomDeliveredAt(servers: seq<string>, hash: string, ext: string,
                           fetch: string -> Outcome, i: nat)
    requires var urls := ServerUrls(servers, hash, ext);
             && i < |urls| && Delivered(fetch(urls[i]))
             && forall j :: 0 <= j < i ==> !Delivered(fetch(urls[j]))
    ensures var urls := ServerUrls(servers, hash, ext);
            && BlossomFetchResult(servers, hash, ext, fetch) == Ok(fetch(urls[i]).body.bytes)
            && Attempted(urls, fetch) == urls[..i + 1]
  {
    FirstDeliveredAt(ServerUrls(servers, hash, ext), fetch, i);
  }

  lemma BlossomNoneDelivered(servers: seq<string>, hash: string, ext: string,
                             fetch: string -> Outcome)
    requires var urls := ServerUrls(servers, hash, ext);
             && |urls| > 0 && forall j :: 0 <= j < |urls| ==> !Delivered(fetch(urls[j]))
    ensures var urls := ServerUrls(servers, hash, ext);
            && BlossomFetchResult(servers, hash, ext, fetch) == Err(ServerError(fetch(urls[|urls| - 1])))
            && Attempted(urls, fetch) == urls[..|urls|]
  {
    var urls := ServerUrls(servers, hash, ext);
    assert FirstDelivered(urls, fetch).None?;
  }

  /** Servers are tried strictly in order: the result is the first
      delivered body, and a later server is asked only when every earlier
      one failed. */
  lemma FirstServerWins(servers: seq<string>, hash: string, ext: string,
                        fetch: string -> Outcome, i: nat)
    requires i < |servers|
    requires Delivered(fetch(BlossomUrl(servers[i], hash, ext)))
    requires forall j :: 0 <= j < i ==> !Delivered(fetch(BlossomUrl(servers[j], hash, ext)))
    ensures BlossomFetchResult(servers, hash, ext, fetch)
            == Ok(fetch(BlossomUrl(servers[i], hash, ext)).body.bytes)
    ensures Attempted(ServerUrls(servers, hash, ext), fetch)
            == ServerUrls(servers, hash, ext)[..i + 1]
  {
    FirstDeliveredAt(ServerUrls(servers, hash, ext), fetch, i);
  }

  /** When every server fails, the error is the one recorded for the last
      server: its status, or 500 for a failed request or body. */
  lemma LastServerErrorReported(servers: seq<string>, hash: string, ext: string,
                                fetch: string -> Outcome)
    requires |servers| > 0
    requires forall j :: 0 <= j < |servers| ==> !Delivered(fetch(BlossomUrl(servers[j], hash, ext)))
    ensures var last := fetch(BlossomUrl(servers[|servers| - 1], hash, ext));
            BlossomFetchResult(servers, hash, ext, fetch) == Err(ServerError(last))
  {
  }

  /** The outcome is either a delivered body from one of the servers or an
      upstream error, or the bad request for an empty list. */
  lemma BlossomFetchOutcomes(servers: seq<string>, hash: string, ext: string,
                             fetch: string -> Outcome)
    ensures var r := BlossomFetchResult(servers, hash, ext, fetch);
            && (|servers| == 0 <==> r == Err(BadRequest(NO_SERVERS)))
            && (r.Ok? ==> exists i :: 0 <= i < |servers|
                            && Delivered(fetch(BlossomUrl(servers[i], hash, ext)))
                            && r.value == fetch(BlossomUrl(servers[i], hash, ext)).body.bytes)
            && (|servers| > 0 && r.Err? ==> r.error.UpstreamError?)
  {
    var r := BlossomFetchResult(servers, hash, ext, fetch);
    if r.Ok? {
      var i := FirstDelivered(ServerUrls(servers, hash, ext), fetch).value;
      assert Delivered(fetch(BlossomUrl(servers[i], hash, ext)));
    }
  }

  // --------------------------------------------------------- fetch_source

  const UNSUPPORTED_SCHEME := "unsupported source scheme"

  predicate AllowedScheme(url: string) {
    StartsWith(url, "http://") || StartsWith(url, "https://")
  }

  /** The result of the primary attempt. */
  function PrimaryResult(o: Outcome): (r: Result<seq<u8>, SvcError>)
    ensures r.Ok? <==> Delivered(o)
  {
    if Delivered(o) then Ok(o.body.bytes) else Err(PrimaryError(o))
  }

  /** The fallback URLs for a source: the same digest and extension on
      each fallback server, or none when the source is not a Blossom URL. */
  function FallbackUrls(src: string, fallbacks: seq<string>): (urls: seq<string>)
    ensures |urls| == (if IsBlossomUrl(src) then |fallbacks| else 0)
  {
    match ExtractBlossomHash(src)
    case None => []
    case Some((hash, ext)) => ServerUrls(fallbacks, hash, ext)
  }

  /** What `fetch_source` returns. */
  function FetchSourceResult(src: string, fallbacks: seq<string>,
                             fetch: string -> Outcome): Result<seq<u8>, SvcError>
  {
    if !AllowedScheme(src) then Err(BadRequest(UNSUPPORTED_SCHEME))
    else
      var primary := PrimaryResult(fetch(src));
      if primary.Ok? then primary
      else
        var urls := FallbackUrls(src, fallbacks);
        match FirstDelivered(urls, fetch)
        case Some(i) => Ok(fetch(urls[i]).body.bytes)
        case None => primary
  }

  /** The URLs `fetch_source` requests, in order. */
  function FetchSourceAttempts(src: string, fallbacks: seq<string>,
                               fetch: string -> Outcome): seq<string>
  {
    if !AllowedScheme(src) then []
    else if Delivered(fetch(src)) then [src]
    else [src] + Attempted(FallbackUrls(src, fallbacks), fetch)
  }

  /** The fallback loop of `fetch_source`: ask each fallback server for
      `hash.ext` in order and keep the first delivered body; failures are
      only logged. */
  method TryFallbacks(fallbacks: seq<string>, hash: string, ext: string, fetch: string -> Outcome)
    returns (found: Option<seq<u8>>, tried: seq<string>)
    ensures var urls := ServerUrls(fallbacks, hash, ext);
            && found == (match FirstDelivered(urls, fetch)
                         case Some(i) => Some(fetch(urls[i]).body.bytes)
                         case None => None)
            && tried == Attempted(urls, fetch)
  {
    ghost var urls := ServerUrls(fallbacks, hash, ext);
    tried := [];
    for i := 0 to |fallbacks|
      invariant tried == urls[..i]
      invariant forall j :: 0 <= j < i ==> !Delivered(fetch(urls[j]))
    {
      var url := BlossomUrl(fallbacks[i], hash, ext);
      assert url == urls[i];
      assert urls[..i + 1] == urls[..i] + [url];
      tried := tried + [url];
      var outcome := fetch(url);
      if outcome.Answered? && IsSuccess(outcome.status) && outcome.body.Received? {
        FirstDeliveredAt(urls, fetch, i);
        return Some(outcome.body.bytes), tried;
      }
    }
    NoneDelivered(urls, fetch);
    found := None;
  }

  /** `fetch_source`: check the scheme, try the source itself, and after a
      failure on a Blossom URL try the fallback servers in order; when all
      fail, report the primary error. */
  method FetchSource(src: string, fallbacks: seq<string>, fetch: string -> Outcome)
    returns (r: Result<seq<u8>, SvcError>, tried: seq<string>)
    ensures r == FetchSourceResult(src, fallbacks, fetch)
    ensures tried == FetchSourceAttempts(src, fallbacks, fetch)
  {
    if !(StartsWith(src, "http://") || StartsWith(src, "https://")) {
      return Err(BadRequest(UNSUPPORTED_SCHEME)), [];
    }
    var result := PrimaryResult(fetch(src));
    if result.Ok? {
      return result, [src];
    }
    r, tried := result, [src];
    BlossomUrlIffHash(src);
    if IsBlossomUrl(src) {
      var extracted := ExtractBlossomHash(src);
      if extracted.Some? {
        var (hash, ext) := extracted.value;
        var found, more := TryFallbacks(fallbacks, hash, ext, fetch);
        tried := tried + more;
        if found.Some? {
          r := Ok(found.value);
        }
      }
    }
  }

  /** A source with any other scheme is refused before anything is fetched. */
  lemma SchemeCheckedFirst(src: string, fallbacks: seq<string>, fetch: string -> Outcome)
    requires !AllowedScheme(src)
    ensures FetchSourceResult(src, fallbacks, fetch) == Err(BadRequest(UNSUPPORTED_SCHEME))
    ensures FetchSourceAttempts(src, fallbacks, fetch) == []
  {
  }

  /** A source that is not a Blossom URL gets no fallback: its own outcome
      decides, and it is the only request. */
  lemma NoFallbackForOtherUrls(src: string, fallbacks: seq<string>, fetch: string -> Outcome)
    requires AllowedScheme(src) && !IsBlossomUrl(src)
    ensures FetchSourceResult(src, fallbacks, fetch) == PrimaryResult(fetch(src))
    ensures FetchSourceAttempts(src, fallbacks, fetch) == [src]
  {
    BlossomUrlIffHash(src);
  }

  /** After a failed primary attempt on a Blossom URL, the first fallback
      server that delivers the same digest supplies the bytes. */
  lemma FallbackRescues(src: string, fallbacks: seq<string>, fetch: string -> Outcome, i: nat)
    requires AllowedScheme(src) && !Delivered(fetch(src))
    requires ExtractBlossomHash(src).Some?
    requires var (hash, ext) := ExtractBlossomHash(src).value;
             && i < |fallbacks| && Delivered(fetch(BlossomUrl(fallbacks[i], hash, ext)))
             && forall j :: 0 <= j < i ==> !Delivered(fetch(BlossomUrl(fallbacks[j], hash, ext)))
    ensures var (hash, ext) := ExtractBlossomHash(src).value;
            FetchSourceResult(src, fallbacks, fetch)
            == Ok(fetch(BlossomUrl(fallbacks[i], hash, ext)).body.bytes)
  {
    FirstDeliveredAt(FallbackUrls(src, fallbacks), fetch, i);
  }

  /** Every failure of an allowed source is the primary attempt's error,
      never a fallback's. */
  lemma FailureIsPrimaryError(src: string, fallbacks: seq<string>, fetch: string -> Outcome)
    requires AllowedScheme(src)
    requires FetchSourceResult(src, fallbacks, fetch).Err?
    ensures !Delivered(fetch(src))
    ensures FetchSourceResult(src, fallbacks, fetch) == Err(PrimaryError(fetch(src)))
  {
  }

  /** Each fallback URL is itself a Blossom URL for the source's digest
      and extension. */
  lemma FallbackUrlsKeepDigest(src: string, fallbacks: seq<string>, i: nat)
    requires ExtractBlossomHash(src).Some? && i < |fallbacks|
    ensures ExtractBlossomHash(FallbackUrls(src, fallbacks)[i]) == ExtractBlossomHash(src)
  {
    var (hash, ext) := ExtractBlossomHash(src).value;
    ExtractFromBlossomUrl(fallbacks[i], hash, ext);
  }
}
