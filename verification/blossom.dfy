/** Blossom server resolution: normalising server URLs, merging the server
    lists a request can name, and the per-author server list (a kind 10063
    event of BUD-03) with its time-limited cache. */
module Blossom {
  import opened Wrappers
  import opened Text

  // --------------------------------------------------- normalize_server_url

  predicate HasScheme(t: string) {
    StartsWith(t, "http://") || StartsWith(t, "https://")
  }

  /** The URL with `https://` put in front unless it already has a scheme. */
  function WithScheme(t: string): (full: string)
    ensures HasScheme(full)
    ensures HasScheme(t) ==> full == t
    ensures !HasScheme(t) ==> full == "https://" + t
  {
    if HasScheme(t) then t else "https://" + t
  }

  /** The first five characters of a URL with a scheme are `http:` or
      `https`, none of them a `/`. */
  lemma SchemeHead(full: string)
    requires HasScheme(full)
    ensures |full| >= 7 && full[..4] == "http" && (full[4] == ':' || (full[4] == 's' && full[5] == ':'))
    ensures StartsWith(full, "http://") ==> full[..5] == "http:"
    ensures !StartsWith(full, "http://") ==> full[..6] == "https:"
  {
    if StartsWith(full, "http://") {
      assert full[..7] == "http://";
      assert full[..4] == full[..7][..4];
      assert full[..5] == full[..7][..5];
      assert full[4] == full[..7][4];
    } else {
      assert full[..8] == "https://";
      assert full[..4] == full[..8][..4];
      assert full[..6] == full[..8][..6];
      assert full[4] == full[..8][4];
      assert full[5] == full[..8][5];
    }
  }

  /** Stripping the trailing slashes of a schemed URL leaves at least its
      scheme head: `http:` when `t` had an `http://` scheme, else `https:`. */
  lemma StrippedShape(t: string)
    ensures var r := TrimEndMatches(WithScheme(t), '/');
      && |r| >= 5 && r[|r| - 1] != '/'
      && (StartsWith(t, "http://") ==> StartsWith(r, "http:"))
      && (!StartsWith(t, "http://") ==> StartsWith(r, "https:"))
  {
    var full := WithScheme(t);
    var r := TrimEndMatches(full, '/');
    SchemeHead(full);
    assert |r| >= 5;
    assert full[4] == 's' ==> |r| >= 6;
    if StartsWith(t, "http://") {
      assert full == t;
      assert r[..5] == full[..5];
    } else {
      if !HasScheme(t) {
        assert full[..8] == "https://";
      }
      assert !StartsWith(full, "http://");
      assert r[..6] == full[..6];
    }
  }

  /** `normalize_server_url`: trim white space, put `https://` in front
      unless an `http://` or `https://` scheme is already there, and strip
      every trailing `/`.  The result is never empty, never ends with `/`,
      and starts with the `http:` scheme it was given or else with `https:`. */
  function NormalizeServerUrl(url: string): (r: string)
    ensures |r| >= 5 && r[|r| - 1] != '/'
    ensures StartsWith(Trim(url), "http://") ==> StartsWith(r, "http:")
    ensures !StartsWith(Trim(url), "http://") ==> StartsWith(r, "https:")
  {
    var t := Trim(url);
    StrippedShape(t);
    TrimEndMatches(WithScheme(t), '/')
  }

  lemma TrimEndNoSlash(s: string)
    requires |s| > 0 && s[|s| - 1] != '/'
    ensures TrimEndMatches(s, '/') == s
    ensures TrimEndMatches(s + "/", '/') == s
  {
    assert (s + "/")[..|s|] == s;
  }

  /** Normalising a URL that already has its scheme. */
  lemma NormalizeSchemed(url: string)
    requires |url| > 0 && url[|url| - 1] != '/' && !IsWhitespace(url[0]) && !IsWhitespace(url[|url| - 1])
    requires HasScheme(url)
    ensures NormalizeServerUrl(url) == url
    ensures NormalizeServerUrl(url + "/") == url
  {
    TrimNoop(url);
    TrimNoop(url + "/");
    assert (url + "/")[..|url|] == url;
    assert HasScheme(url + "/") by {
      if StartsWith(url, "http://") {
        assert (url + "/")[..7] == url[..7];
      } else {
        assert (url + "/")[..8] == url[..8];
      }
    }
    TrimEndNoSlash(url);
  }

  /** The normalisations the source's own tests list: a bare host gets
      `https://`, trailing slashes go, and a given scheme is kept. */
  // String literals come in as parameters fixed by `requires`, which keeps the proof cheap.
  lemma NormalizeHostExamples(host: string)
    requires host == "example.com"
    ensures NormalizeServerUrl(host) == "https://" + host
    ensures NormalizeServerUrl(host + "/") == "https://" + host
  {
    assert host[0] == 'e' && host[|host| - 1] == 'm';
    NormalizeBareHost(host);
    NormalizeBareHostSlash(host);
  }

  // String literals come in as parameters fixed by `requires`, which keeps the proof cheap.
  lemma NormalizeSchemeExamples(https: string, http: string)
    requires https == "https://example.com" && http == "http://example.com"
    ensures NormalizeServerUrl(https) == "https://example.com"
    ensures NormalizeServerUrl(https + "/") == "https://example.com"
    ensures NormalizeServerUrl(http) == "http://example.com"
  {
    assert https[..8] == "https://";
    assert http[..7] == "http://";
    NormalizeSchemed(https);
    NormalizeSchemed(http);
  }

  /** A URL with no white space at its ends and no trailing `/` is left
      alone by normalisation exactly when it carries a whole scheme. */
  lemma NormalizeFixedIff(u: string)
    requires |u| > 0 && !IsWhitespace(u[0]) && !IsWhitespace(u[|u| - 1]) && u[|u| - 1] != '/'
    ensures NormalizeServerUrl(u) == u <==> HasScheme(u)
  {
    TrimNoop(u);
    if HasScheme(u) {
      TrimEndNoSlash(u);
    } else {
      var full := "https://" + u;
      assert full[|full| - 1] == u[|u| - 1];
      TrimEndNoSlash(full);
      assert |NormalizeServerUrl(u)| == |u| + 8;
    }
  }

  /** Normalisation is not idempotent: a bare scheme loses its slashes and
      is then taken for a host name. */
  // String literals come in as parameters fixed by `requires`, which keeps the proof cheap.
  lemma NormalizeNotIdempotent(url: string)
    requires url == "https://"
    ensures NormalizeServerUrl(url) == "https:"
    ensures NormalizeServerUrl(NormalizeServerUrl(url)) == url + NormalizeServerUrl(url)
  {
    var head := url[..6];
    assert url == head + "/" + "/";
    assert head[5] == ':' && head == "https:";
    BareSchemeCollapses(url, head);
    SchemelessGetsScheme(url, head);
  }

  /** A scheme with nothing after it loses both of its slashes. */
  lemma BareSchemeCollapses(url: string, head: string)
    requires StartsWith(url, "https://") && url == head + "/" + "/"
    requires |head| > 0 && head[0] == 'h' && head[|head| - 1] != '/'
    ensures NormalizeServerUrl(url) == head
  {
    TrimNoop(url);
    assert HasScheme(url);
    assert url[..|url| - 1] == head + "/";
    TrimEndNoSlash(head);
  }

  /** A host without a scheme gets `https://` in front. */
  lemma SchemelessGetsScheme(scheme: string, host: string)
    requires scheme == "https://" && |host| < 7
    requires |host| > 0 && host[0] == 'h' && host[|host| - 1] == ':'
    ensures NormalizeServerUrl(host) == scheme + host
  {
    TrimNoop(host);
    assert !HasScheme(host);
    TrimEndNoSlash(scheme + host);
  }

  // -------------------------------------------------- combine_server_lists

  function Lower(s: string): string { ToAsciiLowercase(s) }

  /** The lower-cased entries of a list, which is what the seen-set holds. */
  function LowerSet(result: seq<string>): set<string>
  {
    set i | 0 <= i < |result| :: Lower(result[i])
  }

  /** No two entries of a list are equal after lower-casing. */
  predicate NoCaseDuplicates(result: seq<string>) {
    forall i, j :: 0 <= i < j < |result| ==> Lower(result[i]) != Lower(result[j])
  }

  /** Every server of a list, normalised, in order. */
  function NormalizeAll(servers: seq<string>): (names: seq<string>)
    ensures |names| == |servers|
    ensures forall i :: 0 <= i < |servers| ==> names[i] == NormalizeServerUrl(servers[i])
  {
    seq(|servers|, i requires 0 <= i < |servers| => NormalizeServerUrl(servers[i]))
  }

  lemma NormalizeAllConcat(a: seq<string>, b: seq<string>)
    ensures NormalizeAll(a + b) == NormalizeAll(a) + NormalizeAll(b)
  {
  }

  /** What `add_servers` does with one normalised server: keep it unless its
      lower-cased form has been seen. */
  function AddOne(seen: set<string>, result: seq<string>, name: string): (set<string>, seq<string>)
  {
    if Lower(name) in seen then (seen, result) else (seen + {Lower(name)}, result + [name])
  }

  /** What `add_servers` does with a list of normalised servers, front first. */
  function AddAll(seen: set<string>, result: seq<string>, names: seq<string>): (set<string>, seq<string>)
    decreases |names|
  {
    if |names| == 0 then (seen, result)
    else
      var next := AddOne(seen, result, names[0]);
      AddAll(next.0, next.1, names[1..])
  }

  /** The closure `add_servers` of `combine_server_lists`. */
  method AddServers(seen0: set<string>, result0: seq<string>, servers: seq<string>)
    returns (seen: set<string>, result: seq<string>)
    ensures (seen, result) == AddAll(seen0, result0, NormalizeAll(servers))
  {
    var names := NormalizeAll(servers);
    seen, result := seen0, result0;
    for i := 0 to |servers|
      invariant AddAll(seen, result, names[i..]) == AddAll(seen0, result0, names)
    {
      assert names[i..][1..] == names[i + 1..];
      var normalized := NormalizeServerUrl(servers[i]);
      var lowercase := Lower(normalized);
      if lowercase !in seen {
        seen := seen + {lowercase};
        result := result + [normalized];
      }
    }
    assert names[|servers|..] == [];
  }

  /** The lists `combine_server_lists` walks, highest priority first. */
  function Candidates(xs: Option<seq<string>>, authors: Option<seq<string>>, fallback: seq<string>): seq<string>
  {
    xs.GetOr([]) + authors.GetOr([]) + fallback
  }

  /** The normalised servers of `all`, first occurrences up to case. */
  function Dedup(all: seq<string>): seq<string>
  {
    AddAll({}, [], NormalizeAll(all)).1
  }

  /** The list `combine_server_lists` returns. */
  function CombinedList(xs: Option<seq<string>>, authors: Option<seq<string>>, fallback: seq<string>): seq<string>
  {
    Dedup(Candidates(xs, authors, fallback))
  }

  /** `combine_server_lists`: the explicit hints, then the author's servers,
      then the fallback servers, each normalised, keeping the first of any
      entries that agree up to letter case. */
  method CombineServerLists(xs: Option<seq<string>>, authors: Option<seq<string>>, fallback: seq<string>)
    returns (result: seq<string>)
    ensures result == CombinedList(xs, authors, fallback)
  {
    var seen: set<string> := {};
    result := [];
    if xs.Some? {
      seen, result := AddServers(seen, result, xs.value);
    }
    if authors.Some? {
      seen, result := AddServers(seen, result, authors.value);
    }
    seen, result := AddServers(seen, result, fallback);
    var a, b := NormalizeAll(xs.GetOr([])), NormalizeAll(authors.GetOr([]));
    NormalizeAllConcat(xs.GetOr([]), authors.GetOr([]));
    NormalizeAllConcat(xs.GetOr([]) + authors.GetOr([]), fallback);
    AddAllConcat({}, [], a, b);
    AddAllConcat({}, [], a + b, NormalizeAll(fallback));
  }

  /** Walking two lists one after the other is walking their concatenation. */
  lemma {:induction false} AddAllConcat(seen: set<string>, result: seq<string>, a: seq<string>, b: seq<string>)
    ensures AddAll(seen, result, a + b) == AddAll(AddAll(seen, result, a).0, AddAll(seen, result, a).1, b)
    decreases |a|
  {
    if |a| == 0 {
      assert a + b == b;
    } else {
      assert (a + b)[1..] == a[1..] + b;
      var next := AddOne(seen, result, a[0]);
      AddAllConcat(next.0, next.1, a[1..], b);
    }
  }

  /** One step keeps the seen-set equal to the lower-cased result and
      admits no case-insensitive duplicate. */
  lemma AddOneKeepsInvariant(seen: set<string>, result: seq<string>, name: string)
    requires seen == LowerSet(result) && NoCaseDuplicates(result)
    ensures var next := AddOne(seen, result, name);
      next.0 == LowerSet(next.1) && NoCaseDuplicates(next.1) && Lower(name) in next.0
  {
    var lowercase := Lower(name);
    if lowercase !in seen {
      var r1 := result + [name];
      forall x ensures x in LowerSet(r1) <==> x in seen || x == lowercase {
        if x in LowerSet(r1) {
          var i :| 0 <= i < |r1| && x == Lower(r1[i]);
          if i < |result| { assert r1[i] == result[i]; }
        }
        if x in seen {
          var i :| 0 <= i < |result| && x == Lower(result[i]);
          assert r1[i] == result[i];
        }
        if x == lowercase { assert r1[|result|] == name; }
      }
      forall i, j | 0 <= i < j < |r1| ensures Lower(r1[i]) != Lower(r1[j]) {
        if j == |result| {
          assert Lower(result[i]) in seen;
        }
      }
    }
  }

  /** The seen-set only grows. */
  lemma {:induction false} AddAllSeenGrows(seen: set<string>, result: seq<string>, names: seq<string>)
    ensures seen <= AddAll(seen, result, names).0
    decreases |names|
  {
    if |names| > 0 {
      var next := AddOne(seen, result, names[0]);
      AddAllSeenGrows(next.0, next.1, names[1..]);
    }
  }

  /** The walk keeps the seen-set equal to the lower-cased result, never
      admits a case-insensitive duplicate, and afterwards every name walked
      is in the seen-set. */
  lemma {:induction false} AddAllKeepsInvariant(seen: set<string>, result: seq<string>, names: seq<string>)
    requires seen == LowerSet(result) && NoCaseDuplicates(result)
    ensures var after := AddAll(seen, result, names);
      && after.0 == LowerSet(after.1) && NoCaseDuplicates(after.1)
      && forall j :: 0 <= j < |names| ==> Lower(names[j]) in after.0
    decreases |names|
  {
    if |names| > 0 {
      var next := AddOne(seen, result, names[0]);
      AddOneKeepsInvariant(seen, result, names[0]);
      AddAllKeepsInvariant(next.0, next.1, names[1..]);
      AddAllSeenGrows(next.0, next.1, names[1..]);
      forall j | 0 <= j < |names| ensures Lower(names[j]) in AddAll(seen, result, names).0 {
        if j > 0 {
          assert names[j] == names[1..][j - 1];
        }
      }
    }
  }

  /** The walk only appends. */
  lemma {:induction false} AddAllExtends(seen: set<string>, result: seq<string>, names: seq<string>)
    ensures var result' := AddAll(seen, result, names).1;
      |result| <= |result'| && result'[..|result|] == result
    decreases |names|
  {
    if |names| > 0 {
      var next := AddOne(seen, result, names[0]);
      AddAllExtends(next.0, next.1, names[1..]);
      var result' := AddAll(next.0, next.1, names[1..]).1;
      assert result'[..|result|] == next.1[..|result|];
    }
  }

  /** Everything the walk appends is one of the names walked. */
  lemma {:induction false} AddAllAppendsInputs(seen: set<string>, result: seq<string>, names: seq<string>)
    ensures var result' := AddAll(seen, result, names).1;
      forall k :: |result| <= k < |result'| ==> exists j :: 0 <= j < |names| && result'[k] == names[j]
    decreases |names|
  {
    if |names| > 0 {
      var next := AddOne(seen, result, names[0]);
      AddAllAppendsInputs(next.0, next.1, names[1..]);
      AddAllExtends(next.0, next.1, names[1..]);
      var result' := AddAll(next.0, next.1, names[1..]).1;
      forall k | |result| <= k < |result'|
        ensures exists j :: 0 <= j < |names| && result'[k] == names[j]
      {
        if k < |next.1| {
          assert next.1 == result + [names[0]];
          assert result'[k] == next.1[k];
        } else {
          var j :| 0 <= j < |names[1..]| && result'[k] == names[1..][j];
          assert names[1..][j] == names[j + 1];
        }
      }
    }
  }

  /** What `combine_server_lists` promises of the list it builds from the
      candidates `all` (see `CombinedList`): no two entries agree up to
      case, every entry is the normalisation of a candidate, and every
      candidate's normalisation is there up to case. */
  lemma DedupHasNoCaseDuplicates(all: seq<string>)
    ensures NoCaseDuplicates(Dedup(all))
  {
    assert LowerSet([]) == {};
    AddAllKeepsInvariant({}, [], NormalizeAll(all));
  }

  lemma DedupEntriesAreInputs(all: seq<string>)
    ensures forall k :: 0 <= k < |Dedup(all)| ==> exists j :: 0 <= j < |all| && Dedup(all)[k] == NormalizeServerUrl(all[j])
  {
    var names := NormalizeAll(all);
    var result := AddAll({}, [], names).1;
    forall k | 0 <= k < |result| ensures exists j :: 0 <= j < |all| && result[k] == NormalizeServerUrl(all[j]) {
      var j := EntryIndex(names, k);
      assert names[j] == NormalizeServerUrl(all[j]);
    }
  }

  /** Where an entry of the walk's result came from. */
  lemma EntryIndex(names: seq<string>, k: nat) returns (j: nat)
    requires k < |AddAll({}, [], names).1|
    ensures j < |names| && AddAll({}, [], names).1[k] == names[j]
  {
    AddAllAppendsInputs({}, [], names);
    j :| 0 <= j < |names| && AddAll({}, [], names).1[k] == names[j];
  }

  lemma DedupCoversInputs(all: seq<string>)
    ensures forall j :: 0 <= j < |all| ==>
      exists k :: 0 <= k < |Dedup(all)| && Lower(Dedup(all)[k]) == Lower(NormalizeServerUrl(all[j]))
  {
    var names := NormalizeAll(all);
    assert LowerSet([]) == {};
    AddAllKeepsInvariant({}, [], names);
    var result := Dedup(all);
    forall j | 0 <= j < |all|
      ensures exists k :: 0 <= k < |result| && Lower(result[k]) == Lower(NormalizeServerUrl(all[j]))
    {
      assert Lower(names[j]) in LowerSet(result);
    }
  }

  /** `name` is the normalisation of one of `servers`. */
  predicate NormalizedFrom(name: string, servers: seq<string>) {
    exists j :: 0 <= j < |servers| && name == NormalizeServerUrl(servers[j])
  }

  /** Two lists walked one after the other: what the first list alone
      gives is a prefix of the result, and every later entry is a
      normalised server of the second list that agrees up to case with no
      server of the first. */
  lemma DedupPrefix(a: seq<string>, b: seq<string>)
    ensures |Dedup(a)| <= |Dedup(a + b)| && Dedup(a + b)[..|Dedup(a)|] == Dedup(a)
    ensures forall k :: |Dedup(a)| <= k < |Dedup(a + b)| ==>
              NormalizedFrom(Dedup(a + b)[k], b)
    ensures forall k, i :: |Dedup(a)| <= k < |Dedup(a + b)| && 0 <= i < |a| ==>
              Lower(Dedup(a + b)[k]) != Lower(NormalizeServerUrl(a[i]))
  {
    DedupTailFromSecond(a, b);
    DedupTailIsNew(a, b);
  }

  /** The walk over `a + b` is the walk over `a` continued over `b`. */
  lemma DedupSplit(a: seq<string>, b: seq<string>)
    ensures var after := AddAll({}, [], NormalizeAll(a));
      && after.1 == Dedup(a)
      && Dedup(a + b) == AddAll(after.0, after.1, NormalizeAll(b)).1
  {
    NormalizeAllConcat(a, b);
    AddAllConcat({}, [], NormalizeAll(a), NormalizeAll(b));
  }

  /** The first half of `DedupPrefix`: the prefix, and where later entries come from. */
  lemma DedupTailFromSecond(a: seq<string>, b: seq<string>)
    ensures |Dedup(a)| <= |Dedup(a + b)| && Dedup(a + b)[..|Dedup(a)|] == Dedup(a)
    ensures forall k :: |Dedup(a)| <= k < |Dedup(a + b)| ==>
              NormalizedFrom(Dedup(a + b)[k], b)
  {
    var nb := NormalizeAll(b);
    DedupSplit(a, b);
    var after := AddAll({}, [], NormalizeAll(a));
    AddAllExtends(after.0, after.1, nb);
    AddAllAppendsInputs(after.0, after.1, nb);
    var result := Dedup(a + b);
    forall k | |after.1| <= k < |result|
      ensures NormalizedFrom(result[k], b)
    {
      var j :| 0 <= j < |nb| && result[k] == nb[j];
    }
  }

  /** The second half of `DedupPrefix`: later entries are new up to case. */
  lemma DedupTailIsNew(a: seq<string>, b: seq<string>)
    ensures forall k, i :: |Dedup(a)| <= k < |Dedup(a + b)| && 0 <= i < |a| ==>
              Lower(Dedup(a + b)[k]) != Lower(NormalizeServerUrl(a[i]))
  {
    DedupTailFromSecond(a, b);
    DedupHasNoCaseDuplicates(a + b);
    DedupCoversInputs(a);
    var head, result := Dedup(a), Dedup(a + b);
    forall k, i | |head| <= k < |result| && 0 <= i < |a|
      ensures Lower(result[k]) != Lower(NormalizeServerUrl(a[i]))
    {
      var k' :| 0 <= k' < |head| && Lower(head[k']) == Lower(NormalizeServerUrl(a[i]));
      assert head[k'] == result[k'];
    }
  }

  /** Priority order of `combine_server_lists`: the hints' servers come
      first, then the author's servers that are new up to case, then the
      fallback servers that are new up to case. */
  lemma PriorityOrder(xs: Option<seq<string>>, authors: Option<seq<string>>, fallback: seq<string>)
    ensures var x, au := xs.GetOr([]), authors.GetOr([]);
      var hints, withAuthors := Dedup(x), Dedup(x + au);
      var result := CombinedList(xs, authors, fallback);
      && |hints| <= |withAuthors| <= |result|
      && withAuthors[..|hints|] == hints && result[..|withAuthors|] == withAuthors
      && (forall k :: |hints| <= k < |withAuthors| ==>
            NormalizedFrom(withAuthors[k], au))
      && (forall k :: |withAuthors| <= k < |result| ==>
            NormalizedFrom(result[k], fallback))
      && (forall k, i :: |hints| <= k < |withAuthors| && 0 <= i < |x| ==>
            Lower(withAuthors[k]) != Lower(NormalizeServerUrl(x[i])))
      && (forall k, i :: |withAuthors| <= k < |result| && 0 <= i < |x + au| ==>
            Lower(result[k]) != Lower(NormalizeServerUrl((x + au)[i])))
  {
    var x, au := xs.GetOr([]), authors.GetOr([]);
    DedupPrefix(x, au);
    DedupPrefix(x + au, fallback);
  }

  /** Whether a name before position `j` agrees with `names[j]` up to case. */
  predicate SeenBefore(names: seq<string>, j: nat)
    requires j < |names|
  {
    exists i :: 0 <= i < j && Lower(names[i]) == Lower(names[j])
  }

  /** Reference definition of the deduplication: the names that agree up
      to case with no earlier name, in their order. */
  function FirstOccurrences(names: seq<string>): seq<string>
    decreases |names|
  {
    if |names| == 0 then []
    else
      var j := |names| - 1;
      FirstOccurrences(names[..j]) + (if SeenBefore(names, j) then [] else [names[j]])
  }

  /** The lower-cased forms of a list of names. */
  function LowerNames(names: seq<string>): set<string>
  {
    set i | 0 <= i < |names| :: Lower(names[i])
  }

  /** The walk from an empty seen-set keeps exactly the first occurrences,
      and its seen-set is every name walked, lower-cased. */
  lemma {:induction false} AddAllFirstOccurrences(names: seq<string>)
    ensures AddAll({}, [], names) == (LowerNames(names), FirstOccurrences(names))
    decreases |names|
  {
    if |names| == 0 {
      assert LowerNames(names) == {};
    } else {
      var j := |names| - 1;
      var init, last := names[..j], names[j];
      assert names == init + [last];
      AddAllFirstOccurrences(init);
      AddAllConcat({}, [], init, [last]);
      var before := AddAll({}, [], init);
      assert [last][1..] == [];
      assert AddAll(before.0, before.1, [last]) == AddOne(before.0, before.1, last);
      assert Lower(last) in LowerNames(init) <==> SeenBefore(names, j) by {
        if Lower(last) in LowerNames(init) {
          var i :| 0 <= i < |init| && Lower(last) == Lower(init[i]);
          assert names[i] == init[i];
        }
        if SeenBefore(names, j) {
          var i :| 0 <= i < j && Lower(names[i]) == Lower(names[j]);
          assert init[i] == names[i];
        }
      }
      assert LowerNames(names) == LowerNames(init) + {Lower(last)} by {
        forall t ensures t in LowerNames(names) <==> t in LowerNames(init) + {Lower(last)} {
          if t in LowerNames(names) {
            var i :| 0 <= i < |names| && t == Lower(names[i]);
            if i < j { assert names[i] == init[i]; }
          }
          if t in LowerNames(init) {
            var i :| 0 <= i < |init| && t == Lower(init[i]);
            assert names[i] == init[i];
          }
        }
      }
      assert FirstOccurrences(names)
             == FirstOccurrences(init) + (if SeenBefore(names, j) then [] else [last]);
      assert AddAll({}, [], names) == AddOne(before.0, before.1, last);
      assert before == (LowerNames(init), FirstOccurrences(init));
      if SeenBefore(names, j) {
        assert Lower(last) in before.0;
        assert LowerNames(names) == LowerNames(init);
        assert FirstOccurrences(names) == FirstOccurrences(init) + [];
        assert AddOne(before.0, before.1, last) == before;
        assert FirstOccurrences(init) + [] == FirstOccurrences(init);
        assert before.1 == FirstOccurrences(names);
        assert before.0 == LowerNames(names);
        assert AddAll({}, [], names) == (LowerNames(names), FirstOccurrences(names));
      } else {
        assert AddOne(before.0, before.1, last) == (LowerNames(init) + {Lower(last)}, FirstOccurrences(init) + [last]);
      }
    }
  }

  /** `combine_server_lists` keeps, of any servers that agree up to case,
      the first one, and lists the kept servers in the order of the
      candidates. */
  lemma DedupIsFirstOccurrences(all: seq<string>)
    ensures Dedup(all) == FirstOccurrences(NormalizeAll(all))
  {
    AddAllFirstOccurrences(NormalizeAll(all));
  }

  /** A first occurrence is listed. */
  lemma {:induction false} FirstOccurrenceListed(names: seq<string>, j: nat)
    requires j < |names| && !SeenBefore(names, j)
    ensures names[j] in FirstOccurrences(names)
    decreases |names|
  {
    var n := |names| - 1;
    if j < n {
      assert names[..n][j] == names[j];
      assert !SeenBefore(names[..n], j);
      FirstOccurrenceListed(names[..n], j);
    }
  }

  /** Of the candidates that agree up to case, the first one's spelling is
      the one in the combined list. */
  lemma FirstVariantKept(all: seq<string>, j: nat)
    requires j < |all| && !SeenBefore(NormalizeAll(all), j)
    ensures NormalizeServerUrl(all[j]) in Dedup(all)
    ensures forall k :: 0 <= k < |Dedup(all)| && Lower(Dedup(all)[k]) == Lower(NormalizeServerUrl(all[j]))
                        ==> Dedup(all)[k] == NormalizeServerUrl(all[j])
  {
    DedupIsFirstOccurrences(all);
    FirstOccurrenceListed(NormalizeAll(all), j);
    DedupHasNoCaseDuplicates(all);
  }


  /** A host name that does not start with `h` and has no white space or
      `/` at its ends gets `https://` and nothing else. */
  lemma NormalizeBareHost(host: string)
    requires BareHost(host)
    ensures NormalizeServerUrl(host) == "https://" + host
  {
    TrimNoop(host);
    assert !HasScheme(host) by {
      assert !StartsWith(host, "http://") && !StartsWith(host, "https://") by {
        if |host| >= 7 { assert host[..7][0] == host[0]; }
      }
    }
    TrimEndNoSlash("https://" + host);
  }

  /** The same with a trailing `/`. */
  lemma NormalizeBareHostSlash(host: string)
    requires BareHost(host)
    ensures NormalizeServerUrl(host + "/") == "https://" + host
  {
    var url := host + "/";
    assert url[0] == host[0] && url[|url| - 1] == '/';
    TrimNoop(url);
    assert !HasScheme(url) by {
      assert !StartsWith(url, "http://") && !StartsWith(url, "https://") by {
        if |url| >= 7 { assert url[..7][0] == url[0]; }
      }
    }
    assert "https://" + url == ("https://" + host) + "/";
    TrimEndNoSlash("https://" + host);
  }

  predicate BareHost(h: string) {
    |h| > 0 && h[0] != 'h' && !IsWhitespace(h[0]) && h[|h| - 1] != '/' && !IsWhitespace(h[|h| - 1])
  }

  /** Four normalised names of which the third repeats the first up to case. */
  lemma AddAllFour(names: seq<string>)
    requires |names| == 4 && Lower(names[2]) == Lower(names[0])
    requires Lower(names[0]) != Lower(names[1]) && Lower(names[3]) != Lower(names[0]) && Lower(names[3]) != Lower(names[1])
    ensures AddAll({}, [], names).1 == [names[0], names[1], names[3]]
  {
    var n1, n2, n3, n4 := names[0], names[1], names[2], names[3];
    var l1, l2, l4 := Lower(n1), Lower(n2), Lower(n4);
    var t1, t2, t3 := names[1..], names[2..], names[3..];
    assert t1[0] == n2 && t1[1..] == t2;
    assert t2[0] == n3 && t2[1..] == t3;
    assert t3[0] == n4 && t3[1..] == [];
    var s1: set<string>, s2: set<string>, s3: set<string> := {l1}, {l1, l2}, {l1, l2, l4};
    var r1, r2, r3 := [n1], [n1, n2], [n1, n2, n4];
    assert AddOne({}, [], n1) == (s1, r1) by {
      assert {} + {l1} == s1;
      assert [] + [n1] == r1;
    }
    assert AddOne(s1, r1, n2) == (s2, r2) by {
      assert s1 + {l2} == s2;
      assert r1 + [n2] == r2;
    }
    assert AddOne(s2, r2, n3) == (s2, r2);
    assert AddOne(s2, r2, n4) == (s3, r3) by {
      assert s2 + {l4} == s3;
      assert r2 + [n4] == r3;
    }
    assert AddAll({}, [], names) == AddAll(s1, r1, t1);
    assert AddAll(s1, r1, t1) == AddAll(s2, r2, t2);
    assert AddAll(s2, r2, t2) == AddAll(s2, r2, t3);
    assert AddAll(s2, r2, t3) == AddAll(s3, r3, []);
  }

  /** The string facts the example below depends on. */
  // String literals come in as parameters fixed by `requires`, which keeps the proof cheap.
  lemma ExampleCaseVariant(h0: string, h2: string)
    requires h0 == "server1.com" && h2 == "SERVER1.COM"
    ensures Lower("https://" + h2) == Lower("https://" + h0)
  {
    assert Lower(h2) == Lower(h0) by {
      assert |h2| == |h0| == 11;
      forall k | 0 <= k < 11
        ensures Lower(h2)[k] == Lower(h0)[k]
      {
      }
    }
    LowercaseAppend("https://", h0);
    LowercaseAppend("https://", h2);
  }

  // String literals come in as parameters fixed by `requires`, which keeps the proof cheap.
  lemma ExampleHosts(h0: string, h1: string, h2: string, h3: string)
    requires h0 == "server1.com" && h1 == "server2.com" && h2 == "SERVER1.COM" && h3 == "server3.com"
    ensures RepeatsFirstOfFour([h0, h1, h2, h3])
  {
    var n1, n2, n3, n4 := "https://" + h0, "https://" + h1, "https://" + h2, "https://" + h3;
    ExampleCaseVariant(h0, h2);
    assert n1[14] == '1' && n2[14] == '2' && n4[14] == '3';
    assert Lower(n1)[14] == '1' && Lower(n2)[14] == '2' && Lower(n4)[14] == '3';
  }

  // String literals come in as parameters fixed by `requires`, which keeps the proof cheap.
  lemma ExampleUrls(h0: string, h1: string, h3: string)
    requires h0 == "server1.com" && h1 == "server2.com" && h3 == "server3.com"
    ensures ["https://" + h0, "https://" + h1, "https://" + h3]
      == ["https://server1.com", "https://server2.com", "https://server3.com"]
  {
    var e := ["https://server1.com", "https://server2.com", "https://server3.com"];
    assert "https://" + h0 == e[0] && "https://" + h1 == e[1] && "https://" + h3 == e[2];
  }

  lemma NormalizeAllBare(hosts: seq<string>)
    requires forall k :: 0 <= k < |hosts| ==> BareHost(hosts[k])
    ensures forall k :: 0 <= k < |hosts| ==> NormalizeAll(hosts)[k] == "https://" + hosts[k]
  {
    forall k | 0 <= k < |hosts|
      ensures NormalizeAll(hosts)[k] == "https://" + hosts[k]
    {
      NormalizeBareHost(hosts[k]);
    }
  }

  /** Four bare host names, the third a case variant of the first. */
  predicate RepeatsFirstOfFour(all: seq<string>) {
    && |all| == 4
    && (forall k :: 0 <= k < 4 ==> BareHost(all[k]))
    && var n1, n2, n3, n4 := "https://" + all[0], "https://" + all[1], "https://" + all[2], "https://" + all[3];
    Lower(n3) == Lower(n1) && Lower(n1) != Lower(n2) && Lower(n4) != Lower(n1) && Lower(n4) != Lower(n2)
  }

  lemma DedupBareHosts(all: seq<string>)
    requires RepeatsFirstOfFour(all)
    ensures Dedup(all) == ["https://" + all[0], "https://" + all[1], "https://" + all[3]]
  {
    NormalizeAllBare(all);
    var names := NormalizeAll(all);
    assert names[0] == "https://" + all[0] && names[1] == "https://" + all[1];
    assert names[2] == "https://" + all[2] && names[3] == "https://" + all[3];
    AddAllFour(names);
  }

  /** The merge the source's own test checks: the upper-case repeat of the
      first hint is dropped and the order is hints, author, fallback. */
  // String literals come in as parameters fixed by `requires`, which keeps the proof cheap.
  lemma CombineExample(xs: seq<string>, authors: seq<string>, fallback: seq<string>)
    requires xs == ["server1.com"] && authors == ["server2.com", "SERVER1.COM"] && fallback == ["server3.com"]
    ensures CombinedList(Some(xs), Some(authors), fallback)
      == ["https://server1.com", "https://server2.com", "https://server3.com"]
  {
    var all := Candidates(Some(xs), Some(authors), fallback);
    assert all == [xs[0], authors[0], authors[1], fallback[0]];
    ExampleHosts(all[0], all[1], all[2], all[3]);
    DedupBareHosts(all);
    ExampleUrls(all[0], all[1], all[3]);
  }

  // ------------------------------------------------ fetch_author_servers

  /** A kind 10063 event: its timestamp and its tags. */
  datatype Event = Event(createdAt: nat, tags: seq<seq<string>>)

  /** How the relay query ended. */
  datatype QueryOutcome = QueryFailed | QueryTimedOut | Events(events: seq<Event>)

  predicate IsServerTag(tag: seq<string>) {
    |tag| >= 2 && tag[0] == "server"
  }

  /** The raw second elements of the `server` tags (of at least two
      elements), in tag order. */
  function TagValues(tags: seq<seq<string>>): (values: seq<string>)
    ensures |values| <= |tags|
  {
    if |tags| == 0 then []
    else (if IsServerTag(tags[0]) then [tags[0][1]] else []) + TagValues(tags[1..])
  }

  /** The servers an event lists, each normalised. */
  function TagServers(tags: seq<seq<string>>): seq<string>
  {
    NormalizeAll(TagValues(tags))
  }

  lemma {:induction false} TagValuesAppend(a: seq<seq<string>>, b: seq<seq<string>>)
    ensures TagValues(a + b) == TagValues(a) + TagValues(b)
  {
    if |a| == 0 {
      assert a + b == b;
    } else {
      var head := if IsServerTag(a[0]) then [a[0][1]] else [];
      assert (a + b)[0] == a[0];
      assert (a + b)[1..] == a[1..] + b;
      assert TagValues(a + b) == head + TagValues(a[1..] + b);
      assert TagValues(a) == head + TagValues(a[1..]);
      TagValuesAppend(a[1..], b);
    }
  }

  /** One more tag adds its server, if it is a server tag. */
  lemma TagServersStep(tags: seq<seq<string>>, i: nat)
    requires i < |tags|
    ensures TagServers(tags[..i + 1])
      == TagServers(tags[..i]) + (if IsServerTag(tags[i]) then [NormalizeServerUrl(tags[i][1])] else [])
  {
    assert tags[..i + 1] == tags[..i] + [tags[i]];
    TagValuesAppend(tags[..i], [tags[i]]);
    NormalizeAllConcat(TagValues(tags[..i]), TagValues([tags[i]]));
  }

  /** The loop of `fetch_author_servers` over the chosen event's tags. */
  method ServersFromTags(tags: seq<seq<string>>) returns (servers: seq<string>)
    ensures servers == TagServers(tags)
  {
    servers := [];
    for i := 0 to |tags|
      invariant servers == TagServers(tags[..i])
    {
      TagServersStep(tags, i);
      var tag := tags[i];
      if |tag| >= 2 && tag[0] == "server" {
        servers := servers + [NormalizeServerUrl(tag[1])];
      }
    }
    assert tags[..|tags|] == tags;
  }

  /** Every listed value comes from a server tag: `i` is that tag. */
  lemma {:induction false} TagValueOrigin(tags: seq<seq<string>>, k: nat) returns (i: nat)
    requires k < |TagValues(tags)|
    ensures i < |tags| && IsServerTag(tags[i]) && TagValues(tags)[k] == tags[i][1]
  {
    if IsServerTag(tags[0]) && k == 0 {
      i := 0;
    } else {
      var k' := if IsServerTag(tags[0]) then k - 1 else k;
      var j := TagValueOrigin(tags[1..], k');
      i := j + 1;
    }
  }

  /** Every listed server is the normalised value of a server tag. */
  lemma TagServerOrigin(tags: seq<seq<string>>, k: nat) returns (i: nat)
    requires k < |TagServers(tags)|
    ensures i < |tags| && IsServerTag(tags[i]) && TagServers(tags)[k] == NormalizeServerUrl(tags[i][1])
  {
    i := TagValueOrigin(tags, k);
  }

  /** Every server tag contributes its value to the list. */
  lemma {:induction false} ServerTagListed(tags: seq<seq<string>>, i: nat)
    requires i < |tags| && IsServerTag(tags[i])
    ensures tags[i][1] in TagValues(tags)
  {
    if i > 0 {
      ServerTagListed(tags[1..], i - 1);
    }
  }

  /** Every server tag contributes its normalised server to the list. */
  lemma ServerTagServed(tags: seq<seq<string>>, i: nat)
    requires i < |tags| && IsServerTag(tags[i])
    ensures NormalizeServerUrl(tags[i][1]) in TagServers(tags)
  {
    ServerTagListed(tags, i);
    var values := TagValues(tags);
    var k :| 0 <= k < |values| && values[k] == tags[i][1];
    assert TagServers(tags)[k] == NormalizeServerUrl(tags[i][1]);
  }

  /** Tags other than `server` tags of at least two elements are ignored. */
  lemma {:induction false} OtherTagsIgnored(tags: seq<seq<string>>)
    requires forall i :: 0 <= i < |tags| ==> !IsServerTag(tags[i])
    ensures TagServers(tags) == []
  {
    if |tags| > 0 {
      OtherTagsIgnored(tags[1..]);
    }
  }

  /** `events.iter().max_by_key(|e| e.created_at)`: the index of the
      newest event, the last one among equals. */
  function LatestIndex(events: seq<Event>): (i: nat)
    requires |events| > 0
    ensures i < |events|
    ensures forall j :: 0 <= j < |events| ==> events[j].createdAt <= events[i].createdAt
    ensures forall j :: i < j < |events| ==> events[j].createdAt < events[i].createdAt
  {
    if |events| == 1 then 0
    else
      var k := LatestIndex(events[..|events| - 1]);
      if events[|events| - 1].createdAt >= events[k].createdAt then |events| - 1 else k
  }

  /** The list `fetch_author_servers` yields: empty when the query failed,
      timed out or found nothing, else the servers of the newest event. */
  function OutcomeServers(outcome: QueryOutcome): seq<string>
  {
    match outcome
    case QueryFailed => []
    case QueryTimedOut => []
    case Events(events) =>
      if |events| == 0 then [] else TagServers(events[LatestIndex(events)].tags)
  }

  /** `fetch_author_servers` once the relay query has ended. */
  method FetchAuthorServers(outcome: QueryOutcome) returns (servers: seq<string>)
    ensures servers == OutcomeServers(outcome)
    ensures outcome.QueryFailed? || outcome.QueryTimedOut? || (outcome.Events? && |outcome.events| == 0) ==> servers == []
  {
    match outcome
    case QueryFailed => return [];
    case QueryTimedOut => return [];
    case Events(events) =>
      if |events| == 0 {
        return [];
      }
      var event := events[LatestIndex(events)];
      servers := ServersFromTags(event.tags);
  }

  /** Of two events, the newer decides the list, and of two equally new
      ones the later. */
  lemma NewestEventWins(a: Event, b: Event)
    ensures a.createdAt <= b.createdAt ==> OutcomeServers(Events([a, b])) == TagServers(b.tags)
    ensures a.createdAt > b.createdAt ==> OutcomeServers(Events([a, b])) == TagServers(a.tags)
  {
    var events := [a, b];
    assert events[..1] == [a];
    var i := LatestIndex(events);
    assert i == if a.createdAt <= b.createdAt then 1 else 0;
  }

  // ------------------------------------------------- get_author_servers

  /** A cached list and the time it was stored. */
  datatype CacheEntry = CacheEntry(servers: seq<string>, cachedAt: int)

  /** `Instant::elapsed`: the time since `at`, zero when `at` is later. */
  function Elapsed(now: int, at: int): (d: nat)
    ensures now >= at ==> d == now - at
  {
    if now >= at then now - at else 0
  }

  /** An entry is served while less than the time-to-live has passed. */
  predicate IsFresh(e: CacheEntry, ttl: nat, now: int) {
    Elapsed(now, e.cachedAt) < ttl
  }

  /** An entry stored at `t` is fresh for the next `ttl` seconds and stale
      from then on. */
  lemma FreshForTtl(servers: seq<string>, t: int, ttl: nat, now: int)
    requires t <= now
    ensures IsFresh(CacheEntry(servers, t), ttl, now) <==> now < t + ttl
  {
  }

  /** The author-server cache of `BlossomState`.  Time is in seconds and is
      passed in; the relay query is represented by its outcome. */
  class AuthorServerCache {
    var entries: map<string, CacheEntry>
    const ttl: nat

    constructor(ttlHours: nat)
      ensures entries == map[] && ttl == ttlHours * 3600
    {
      entries := map[];
      ttl := ttlHours * 3600;
    }

    /** `get_author_servers`.  `parse` stands for `parse_pubkey` (npub or
        hex), giving the canonical key; `outcome` is how the relay query
        would end and `doneAt` the time it ended.  `queried` tells whether
        the relays were asked. */
    method GetAuthorServers(pubkeyStr: string, parse: string -> Option<string>, now: int,
                            outcome: QueryOutcome, doneAt: int)
      returns (r: Result<seq<string>, string>, queried: bool)
      modifies this
      ensures parse(pubkeyStr).None? ==>
        r == Err("Invalid pubkey format: " + pubkeyStr) && !queried && entries == old(entries)
      ensures parse(pubkeyStr).Some? ==>
        var key := parse(pubkeyStr).value;
        if key in old(entries) && IsFresh(old(entries)[key], ttl, now) then
          r == Ok(old(entries)[key].servers) && !queried && entries == old(entries)
        else
          r == Ok(OutcomeServers(outcome)) && queried
          && entries == old(entries)[key := CacheEntry(OutcomeServers(outcome), doneAt)]
    {
      var parsed := parse(pubkeyStr);
      if parsed.None? {
        return Err("Invalid pubkey format: " + pubkeyStr), false;
      }
      var key := parsed.value;
      if key in entries && Elapsed(now, entries[key].cachedAt) < ttl {
        return Ok(entries[key].servers), false;
      }
      var servers := FetchAuthorServers(outcome);
      entries := entries[key := CacheEntry(servers, doneAt)];
      return Ok(servers), true;
    }
  }

  /** After a query for one author, the cache serves that author's new list
      without asking again until the time-to-live has passed, and every
      other author's entry is as it was. */
  lemma RefreshedEntryServed(entries: map<string, CacheEntry>, key: string, servers: seq<string>,
                             doneAt: int, ttl: nat, now: int, other: string)
    requires doneAt <= now < doneAt + ttl
    requires other != key
    ensures var e := entries[key := CacheEntry(servers, doneAt)];
      key in e && IsFresh(e[key], ttl, now) && e[key].servers == servers
      && (other in e <==> other in entries) && (other in entries ==> e[other] == entries[other])
  {
  }
}
