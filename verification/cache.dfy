/** The on-disk cache: where processed and original images live, the
    temp-file-then-rename write, the forgiving read of an original, and the
    sweep that deletes files older than the TTL.  The file system is a map
    from path to file, the digest (SHA-256 then hex) a function parameter,
    the clock a `now` parameter and the directory walk a `walk` parameter. */
module DiskCache {
  import opened Wrappers
  import opened Text
  import opened Errors
  import opened Transform
  import opened ThumbQueries

  // ---------------------------------------------------------------- paths

  /** `base.join(name)` for a relative `name`: one `/` between the two. */
  function JoinPath(base: string, name: string): string {
    if base == "" then name
    else if base[|base| - 1] == '/' then base + name
    else base + "/" + name
  }

  lemma LastSegmentWhole(s: string, c: char)
    requires c !in s
    ensures LastSegment(s, c) == s
  {
  }

  /** The last component of a joined path is the name joined on. */
  lemma JoinedName(base: string, name: string)
    requires '/' !in name
    ensures LastSegment(JoinPath(base, name), '/') == name
    ensures JoinPath(base, name)[..|JoinPath(base, name)| - |name|] + name == JoinPath(base, name)
  {
    if base == "" {
      LastSegmentWhole(name, '/');
    } else if base[|base| - 1] == '/' {
      var head := base[..|base| - 1];
      assert base + name == head + ['/'] + name;
      LastSegmentAfter(head, '/', name);
    } else {
      assert base + "/" + name == base + ['/'] + name;
      LastSegmentAfter(base, '/', name);
    }
  }

  /** `cache_path_for`: `<cache_dir>/processed/<digest>.<ext>`. */
  function CachePathFor(cacheDir: string, digest: string -> string, requestUrl: string,
                        fmt: OutFmt): string
  {
    JoinPath(JoinPath(cacheDir, "processed"), digest(requestUrl) + "." + Extension(fmt))
  }

  /** `original_cache_path_for`: `<cache_dir>/original/<digest>`, with no
      extension. */
  function OriginalCachePathFor(cacheDir: string, digest: string -> string,
                                sourceUrl: string): string
  {
    JoinPath(JoinPath(cacheDir, "original"), digest(sourceUrl))
  }

  lemma DigestHasNoSeparator(hash: string)
    requires IsSha256Hex(hash)
    ensures '/' !in hash && '.' !in hash
  {
  }

  /** A processed path ends with `<digest>.<ext>`, and splitting that name
      at its last `.` gives the digest and the format's extension back. */
  lemma ProcessedName(cacheDir: string, digest: string -> string, requestUrl: string, fmt: OutFmt)
    requires IsSha256Hex(digest(requestUrl))
    ensures var name := digest(requestUrl) + "." + Extension(fmt);
            && LastSegment(CachePathFor(cacheDir, digest, requestUrl, fmt), '/') == name
            && RSplitOnce(name, '.') == Some((digest(requestUrl), Extension(fmt)))
  {
    var hash := digest(requestUrl);
    DigestHasNoSeparator(hash);
    JoinedName(JoinPath(cacheDir, "processed"), hash + "." + Extension(fmt));
    RSplitOnceAt(hash, '.', Extension(fmt));
  }

  /** Distinct requests (distinct digests) or distinct formats never share
      a processed path. */
  lemma ProcessedPathsDistinct(cacheDir: string, digest: string -> string,
                               u1: string, f1: OutFmt, u2: string, f2: OutFmt)
    requires IsSha256Hex(digest(u1)) && IsSha256Hex(digest(u2))
    requires CachePathFor(cacheDir, digest, u1, f1) == CachePathFor(cacheDir, digest, u2, f2)
    ensures digest(u1) == digest(u2) && f1 == f2
  {
    ProcessedName(cacheDir, digest, u1, f1);
    ProcessedName(cacheDir, digest, u2, f2);
    FormatNamesRoundTrip(f1, f2);
  }

  /** Originals and processed images never collide: an original's name has
      no `.`, a processed image's always has one. */
  lemma NamespacesDisjoint(cacheDir: string, digest: string -> string,
                           requestUrl: string, fmt: OutFmt, sourceUrl: string)
    requires IsSha256Hex(digest(requestUrl)) && IsSha256Hex(digest(sourceUrl))
    ensures CachePathFor(cacheDir, digest, requestUrl, fmt)
            != OriginalCachePathFor(cacheDir, digest, sourceUrl)
  {
    ProcessedName(cacheDir, digest, requestUrl, fmt);
    DigestHasNoSeparator(digest(sourceUrl));
    JoinedName(JoinPath(cacheDir, "original"), digest(sourceUrl));
    var name := digest(requestUrl) + "." + Extension(fmt);
    assert name[|digest(requestUrl)|] == '.';
  }

  /** `path.with_extension("tmp")`: the file name's extension (the text
      after its last `.`, unless that `.` starts the name) becomes `tmp`. */
  function TmpPath(path: string): string {
    var name := LastSegment(path, '/');
    var dir := path[..|path| - |name|];
    var stem := match RSplitOnce(name, '.')
      case None => name
      case Some((before, _)) => if before == "" then name else before;
    dir + stem + ".tmp"
  }

  lemma TmpPathOf(path: string, name: string, stem: string, ext: string)
    requires LastSegment(path, '/') == name
    requires RSplitOnce(name, '.') == Some((stem, ext)) && stem != ""
    ensures TmpPath(path) == path[..|path| - |name|] + stem + ".tmp"
  {
  }

  lemma ExtensionIsNotTmp(fmt: OutFmt)
    ensures Extension(fmt) != "tmp"
  {
    assert Extension(fmt)[0] != 't';
  }

  /** No processed path is its own temp path, so the rename really moves
      the temp file away. */
  lemma ProcessedTmpPathDiffers(cacheDir: string, digest: string -> string, requestUrl: string,
                                fmt: OutFmt)
    requires IsSha256Hex(digest(requestUrl))
    ensures var p := CachePathFor(cacheDir, digest, requestUrl, fmt); TmpPath(p) != p
  {
    var hash := digest(requestUrl);
    var ext := Extension(fmt);
    var name := hash + "." + ext;
    var p := CachePathFor(cacheDir, digest, requestUrl, fmt);
    ProcessedName(cacheDir, digest, requestUrl, fmt);
    JoinedName(JoinPath(cacheDir, "processed"), name);
    ExtensionIsNotTmp(fmt);
    assert hash != "";
    NamedTmpPathDiffers(p, hash, ext);
  }

  /** A path whose name is `<stem>.<ext>`, with a non-empty stem and an
      extension other than `tmp`, differs from its temp path. */
  lemma NamedTmpPathDiffers(p: string, stem: string, ext: string)
    requires var name := stem + "." + ext;
             && LastSegment(p, '/') == name && p[..|p| - |name|] + name == p
             && RSplitOnce(name, '.') == Some((stem, ext))
    requires stem != "" && ext != "tmp"
    ensures TmpPath(p) != p
  {
    var name := stem + "." + ext;
    var dir := p[..|p| - |name|];
    TmpPathOf(p, name, stem, ext);
    StemTmpDiffers(dir, stem, ext);
  }

  lemma StemTmpDiffers(dir: string, stem: string, ext: string)
    requires ext != "tmp"
    ensures dir + stem + ".tmp" != dir + (stem + "." + ext)
  {
    var a := dir + stem;
    assert dir + (stem + "." + ext) == a + "." + ext;
    assert (a + "." + ext)[|a| + 1..] == ext;
    assert (a + ".tmp")[|a| + 1..] == "tmp";
  }

  /** The same for an original: its temp path is four characters longer. */
  lemma OriginalTmpPathDiffers(cacheDir: string, digest: string -> string, sourceUrl: string)
    requires IsSha256Hex(digest(sourceUrl))
    ensures var o := OriginalCachePathFor(cacheDir, digest, sourceUrl); TmpPath(o) != o
  {
    var o := OriginalCachePathFor(cacheDir, digest, sourceUrl);
    DigestHasNoSeparator(digest(sourceUrl));
    JoinedName(JoinPath(cacheDir, "original"), digest(sourceUrl));
    assert |TmpPath(o)| == |o| + 4;
  }

  /** The directory part of a path (`Path::parent`). */
  function Parent(path: string): string {
    var name := LastSegment(path, '/');
    if |name| == |path| then "" else path[..|path| - |name| - 1]
  }

  // --------------------------------------------------------------- sweep

  /** A regular file: its bytes and its creation (or modification) time;
      `None` when the file's metadata cannot be read. */
  datatype StoredFile = StoredFile(bytes: seq<u8>, stamp: Option<int>)

  /** `now.duration_since(created).unwrap_or(ZERO)`: a stamp in the future
      has age zero. */
  function Age(stamp: int, now: int): nat {
    if stamp <= now then now - stamp else 0
  }

  /** Strictly older than the TTL. */
  predicate Expired(stamp: int, now: int, ttl: nat) {
    Age(stamp, now) > ttl
  }

  /** A file expires exactly when it was stamped more than `ttl` before
      `now`; a file stamped in the future never does. */
  lemma ExpiredIff(stamp: int, now: int, ttl: nat)
    ensures Expired(stamp, now, ttl) <==> now - stamp > ttl
    ensures stamp > now ==> !Expired(stamp, now, ttl)
  {
  }

  /** One directory's pass: visit the walked paths in order, skip what is
      not a regular file, stop at the first file without metadata (the
      flag), and delete every expired file. */
  function Sweep(files: map<string, StoredFile>, entries: seq<string>, now: int, ttl: nat)
    : (r: (map<string, StoredFile>, bool))
    ensures r.0.Keys <= files.Keys
    ensures forall p :: p in r.0 ==> r.0[p] == files[p]
    ensures forall p :: p in files && p !in r.0 ==>
              p in entries && files[p].stamp.Some? && Expired(files[p].stamp.value, now, ttl)
    decreases |entries|
  {
    if |entries| == 0 then (files, false)
    else
      var p := entries[0];
      if p !in files then Sweep(files, entries[1..], now, ttl)
      else
        match files[p].stamp
        case None => (files, true)
        case Some(t) => Sweep(if Expired(t, now, ttl) then files - {p} else files, entries[1..], now, ttl)
  }

  /** Every walked file has readable metadata. */
  predicate AllStamped(files: map<string, StoredFile>, entries: seq<string>) {
    forall i :: 0 <= i < |entries| && entries[i] in files ==> files[entries[i]].stamp.Some?
  }

  /** Without a metadata error the pass completes and deletes exactly the
      walked files that are expired. */
  lemma {:induction false} SweepDeletesExactlyExpired(files: map<string, StoredFile>,
                                                      entries: seq<string>, now: int, ttl: nat)
    requires AllStamped(files, entries)
    ensures !Sweep(files, entries, now, ttl).1
    ensures forall p :: p in Sweep(files, entries, now, ttl).0 <==>
              p in files && !(p in entries && Expired(files[p].stamp.value, now, ttl))
    decreases |entries|
  {
    if |entries| > 0 {
      var p := entries[0];
      var next := if p !in files || !Expired(files[p].stamp.value, now, ttl) then files else files - {p};
      assert AllStamped(next, entries[1..]) by {
        forall i | 0 <= i < |entries[1..]| && entries[1..][i] in next
          ensures next[entries[1..][i]].stamp.Some?
        {
          assert entries[1..][i] == entries[i + 1];
        }
      }
      SweepDeletesExactlyExpired(next, entries[1..], now, ttl);
      forall q ensures q in entries <==> q == p || q in entries[1..] {
        assert entries == [p] + entries[1..];
      }
    }
  }

  /** A metadata error ends the pass: nothing walked after it is deleted. */
  lemma {:induction false} MetadataErrorStops(files: map<string, StoredFile>, entries: seq<string>,
                                              now: int, ttl: nat, k: nat)
    requires k < |entries| && entries[k] in files && files[entries[k]].stamp.None?
    ensures Sweep(files, entries, now, ttl).1
    ensures forall p :: p in files && p !in entries[..k] ==> p in Sweep(files, entries, now, ttl).0
    decreases k
  {
    var p := entries[0];
    if k > 0 && (p !in files || files[p].stamp.Some?) {
      var next := if p !in files || !Expired(files[p].stamp.value, now, ttl) then files else files - {p};
      assert entries[1..][k - 1] == entries[k];
      assert entries[k] != p;
      MetadataErrorStops(next, entries[1..], now, ttl, k - 1);
      forall q | q in files && q !in entries[..k]
        ensures q in Sweep(files, entries, now, ttl).0
      {
        assert q != p by { assert entries[..k][0] == p; }
        assert q !in entries[1..][..k - 1] by {
          assert entries[1..][..k - 1] == entries[..k][1..];
        }
      }
    }
  }

  /** Sweeping again with the same clock changes nothing. */
  lemma {:induction false} SweepIdempotent(files: map<string, StoredFile>, entries: seq<string>,
                                           now: int, ttl: nat)
    ensures Sweep(Sweep(files, entries, now, ttl).0, entries, now, ttl) == Sweep(files, entries, now, ttl)
    decreases |entries|
  {
    if |entries| > 0 {
      var p := entries[0];
      var r := Sweep(files, entries, now, ttl);
      if p !in files {
        SweepIdempotent(files, entries[1..], now, ttl);
      } else if files[p].stamp.Some? {
        var next := if Expired(files[p].stamp.value, now, ttl) then files - {p} else files;
        SweepIdempotent(next, entries[1..], now, ttl);
        assert r == Sweep(next, entries[1..], now, ttl);
        if Expired(files[p].stamp.value, now, ttl) {
          assert p !in r.0;
        } else {
          assert p in r.0 && r.0[p] == files[p];
        }
      }
    }
  }

  /** Removing paths the walk never lists commutes with the sweep. */
  lemma {:induction false} SweepIgnoresUnlisted(files: map<string, StoredFile>, gone: set<string>,
                                                entries: seq<string>, now: int, ttl: nat)
    requires forall i :: 0 <= i < |entries| ==> entries[i] !in gone
    ensures Sweep(files - gone, entries, now, ttl)
            == (Sweep(files, entries, now, ttl).0 - gone, Sweep(files, entries, now, ttl).1)
    decreases |entries|
  {
    if |entries| > 0 {
      var p := entries[0];
      assert p !in gone;
      if p in files && files[p].stamp.Some? && Expired(files[p].stamp.value, now, ttl) {
        assert (files - gone) - {p} == (files - {p}) - gone;
        SweepIgnoresUnlisted(files - {p}, gone, entries[1..], now, ttl);
      } else {
        SweepIgnoresUnlisted(files, gone, entries[1..], now, ttl);
      }
    }
  }

  /** The two directories `run_cleanup` visits, in order. */
  function CacheRoots(cacheDir: string): seq<string> {
    [JoinPath(cacheDir, "original"), JoinPath(cacheDir, "processed")]
  }

  /** The whole pass over `roots`: a directory that does not exist is
      skipped, and a metadata error ends the pass. */
  function SweepRoots(files: map<string, StoredFile>, dirs: set<string>, roots: seq<string>,
                      walk: string -> seq<string>, now: int, ttl: nat)
    : (r: (map<string, StoredFile>, bool))
    ensures r.0.Keys <= files.Keys
    ensures forall p :: p in r.0 ==> r.0[p] == files[p]
    ensures forall p :: p in files && p !in r.0 ==>
              exists i :: 0 <= i < |roots| && roots[i] in dirs && p in walk(roots[i])
    decreases |roots|
  {
    if |roots| == 0 then (files, false)
    else if roots[0] !in dirs then
      var r := SweepRoots(files, dirs, roots[1..], walk, now, ttl);
      assert forall p :: p in files && p !in r.0 ==>
        exists i :: 0 <= i < |roots| && roots[i] in dirs && p in walk(roots[i]) by {
        forall p | p in files && p !in r.0
          ensures exists i :: 0 <= i < |roots| && roots[i] in dirs && p in walk(roots[i])
        {
          var j :| 0 <= j < |roots[1..]| && roots[1..][j] in dirs && p in walk(roots[1..][j]);
          assert roots[j + 1] == roots[1..][j];
        }
      }
      r
    else
      var first := Sweep(files, walk(roots[0]), now, ttl);
      if first.1 then first
      else
        var r := SweepRoots(first.0, dirs, roots[1..], walk, now, ttl);
        assert forall p :: p in files && p !in r.0 ==>
          exists i :: 0 <= i < |roots| && roots[i] in dirs && p in walk(roots[i]) by {
          forall p | p in files && p !in r.0
            ensures exists i :: 0 <= i < |roots| && roots[i] in dirs && p in walk(roots[i])
          {
            if p in first.0 {
              var j :| 0 <= j < |roots[1..]| && roots[1..][j] in dirs && p in walk(roots[1..][j]);
              assert roots[j + 1] == roots[1..][j];
            } else {
              assert roots[0] in dirs && p in walk(roots[0]);
            }
          }
        }
        r
  }

  /** A file outside the visited directories survives the cleanup: only
      files the walk of an existing `original` or `processed` directory
      lists can be deleted, and only when expired. */
  lemma CleanupOnlyTouchesRoots(files: map<string, StoredFile>, dirs: set<string>, cacheDir: string,
                                walk: string -> seq<string>, now: int, ttl: nat, p: string)
    requires p in files
    requires forall i :: 0 <= i < 2 && CacheRoots(cacheDir)[i] in dirs ==> p !in walk(CacheRoots(cacheDir)[i])
    ensures p in SweepRoots(files, dirs, CacheRoots(cacheDir), walk, now, ttl).0
  {
  }

  /** A file younger than the TTL survives any cleanup. */
  lemma YoungFileSurvives(files: map<string, StoredFile>, dirs: set<string>, roots: seq<string>,
                          walk: string -> seq<string>, now: int, ttl: nat, p: string)
    requires p in files && files[p].stamp.Some? && !Expired(files[p].stamp.value, now, ttl)
    ensures p in SweepRoots(files, dirs, roots, walk, now, ttl).0
  {
    var r := SweepRoots(files, dirs, roots, walk, now, ttl);
    if p !in r.0 {
      YoungFileSurvivesSweeps(files, dirs, roots, walk, now, ttl, p);
    }
  }

  lemma {:induction false} YoungFileSurvivesSweeps(files: map<string, StoredFile>, dirs: set<string>,
                                                   roots: seq<string>, walk: string -> seq<string>,
                                                   now: int, ttl: nat, p: string)
    requires p in files && files[p].stamp.Some? && !Expired(files[p].stamp.value, now, ttl)
    ensures p in SweepRoots(files, dirs, roots, walk, now, ttl).0
    decreases |roots|
  {
    if |roots| > 0 {
      if roots[0] !in dirs {
        YoungFileSurvivesSweeps(files, dirs, roots[1..], walk, now, ttl, p);
      } else {
        var first := Sweep(files, walk(roots[0]), now, ttl);
        assert p in first.0;
        if !first.1 {
          YoungFileSurvivesSweeps(first.0, dirs, roots[1..], walk, now, ttl, p);
        }
      }
    }
  }

  /** `SweepRoots` over exactly two directories, written out. */
  lemma TwoRoots(files: map<string, StoredFile>, dirs: set<string>, roots: seq<string>,
                 walk: string -> seq<string>, now: int, ttl: nat)
    requires |roots| == 2
    ensures SweepRoots(files, dirs, roots, walk, now, ttl)
            == var f1 := if roots[0] in dirs then Sweep(files, walk(roots[0]), now, ttl) else (files, false);
               if f1.1 then f1
               else if roots[1] in dirs then Sweep(f1.0, walk(roots[1]), now, ttl)
               else f1
  {
    var rest := roots[1..];
    assert rest[0] == roots[1] && rest[1..] == [];
    assert forall f :: SweepRoots(f, dirs, rest[1..], walk, now, ttl) == (f, false);
    assert forall f :: SweepRoots(f, dirs, rest, walk, now, ttl)
                       == if roots[1] in dirs then Sweep(f, walk(roots[1]), now, ttl) else (f, false);
  }

  /** A second cleanup with the same clock deletes nothing more, provided
      the two directories' walks list no common path. */
  lemma CleanupIdempotent(files: map<string, StoredFile>, dirs: set<string>, cacheDir: string,
                          walk: string -> seq<string>, now: int, ttl: nat)
    requires var roots := CacheRoots(cacheDir);
             forall i, j :: 0 <= i < |walk(roots[0])| && 0 <= j < |walk(roots[1])|
                            ==> walk(roots[0])[i] != walk(roots[1])[j]
    ensures var once := SweepRoots(files, dirs, CacheRoots(cacheDir), walk, now, ttl);
            SweepRoots(once.0, dirs, CacheRoots(cacheDir), walk, now, ttl) == once
  {
    var roots := CacheRoots(cacheDir);
    var e0, e1 := walk(roots[0]), walk(roots[1]);
    var once := SweepRoots(files, dirs, roots, walk, now, ttl);
    TwoRoots(files, dirs, roots, walk, now, ttl);
    TwoRoots(once.0, dirs, roots, walk, now, ttl);
    var f1 := if roots[0] in dirs then Sweep(files, e0, now, ttl) else (files, false);
    SweepIdempotent(files, e0, now, ttl);
    if !f1.1 && roots[1] in dirs {
      var f2 := Sweep(f1.0, e1, now, ttl);
      assert once == f2;
      SweepIdempotent(f1.0, e1, now, ttl);
      if roots[0] in dirs {
        var gone := f1.0.Keys - f2.0.Keys;
        assert f2.0 == f1.0 - gone;
        assert forall i :: 0 <= i < |e0| ==> e0[i] !in e1;
        SweepIgnoresUnlisted(f1.0, gone, e0, now, ttl);
        assert Sweep(f2.0, e0, now, ttl) == (f2.0, false);
      }
    }
  }

  // ---------------------------------------------------------------- disk

  /** What a failing write step does; the file system's own errors become
      this parameter. */
  datatype WriteFault =
    | NoFault
    | CreateDirFails
    | CreateTempFails
    | WriteFails(written: nat)
    | RenameFails

  /** `m` and `m0` hold the same files outside `keys`. */
  ghost predicate SameOutside(m: map<string, StoredFile>, m0: map<string, StoredFile>, keys: set<string>) {
    forall p :: p !in keys ==> (p in m <==> p in m0) && (p in m ==> m[p] == m0[p])
  }

  lemma SameOutsideUpdate(m: map<string, StoredFile>, k: string, v: StoredFile, keys: set<string>)
    requires k in keys
    ensures SameOutside(m[k := v], m, keys) && SameOutside(m[k := v], m, {k})
  {
  }

  lemma SameOutsideMove(m: map<string, StoredFile>, tmp: string, path: string, v: StoredFile)
    ensures SameOutside((m[tmp := v] - {tmp})[path := v], m, {path, tmp})
    ensures (m[tmp := v] - {tmp})[path := v] == (m - {tmp})[path := v]
  {
  }

  /** The cache's directory tree: regular files by path, and the
      directories that exist. */
  class Disk {
    var files: map<string, StoredFile>
    var dirs: set<string>

    constructor (files0: map<string, StoredFile>, dirs0: set<string>)
      ensures files == files0 && dirs == dirs0
    {
      files := files0;
      dirs := dirs0;
    }

    /** `try_read_original_cache`: the bytes when the file is there, a miss
        otherwise; never an error. */
    method TryReadOriginalCache(path: string) returns (r: Result<Option<seq<u8>>, SvcError>)
      ensures r.Ok?
      ensures r.value.Some? <==> path in files
      ensures r.value.Some? ==> r.value.value == files[path].bytes
    {
      if path in files {
        return Ok(Some(files[path].bytes));
      }
      return Ok(None);
    }

    /** `write_cache_atomic`: create the parent directory, write the whole
        body to `<path>.tmp` (stamped `now`), then rename it over `path`. */
    method WriteCacheAtomic(path: string, bytes: seq<u8>, now: int, fault: WriteFault)
      returns (r: Result<(), SvcError>)
      modifies this
      ensures r.Ok? <==> fault.NoFault?
      ensures r.Err? ==> r.error.Io?
      ensures r.Ok? ==> files == (old(files) - {TmpPath(path)})[path := StoredFile(bytes, Some(now))]
      ensures SameOutside(files, old(files), {path, TmpPath(path)})
      ensures r.Err? ==> SameOutside(files, old(files), {TmpPath(path)})
      ensures dirs == if fault.CreateDirFails? then old(dirs) else old(dirs) + {Parent(path)}
    {
      if fault.CreateDirFails? {
        return Err(Io("create_dir_all failed"));
      }
      dirs := dirs + {Parent(path)};
      var tmp := TmpPath(path);
      if fault.CreateTempFails? {
        return Err(Io("create failed"));
      }
      ghost var before := files;
      files := files[tmp := StoredFile([], Some(now))];
      if fault.WriteFails? {
        var n := if fault.written < |bytes| then fault.written else |bytes|;
        files := files[tmp := StoredFile(bytes[..n], Some(now))];
        SameOutsideUpdate(before, tmp, StoredFile(bytes[..n], Some(now)), {path, tmp});
        return Err(Io("write failed"));
      }
      files := files[tmp := StoredFile(bytes, Some(now))];
      SameOutsideUpdate(before, tmp, StoredFile(bytes, Some(now)), {path, tmp});
      if fault.RenameFails? {
        return Err(Io("rename failed"));
      }
      var moved := files[tmp];
      files := (files - {tmp})[path := moved];
      SameOutsideMove(before, tmp, path, moved);
      return Ok(());
    }

    /** One directory of `run_cleanup`: walk it in order, skip what is not
        a regular file, fail on a file without metadata, delete what is
        expired. */
    method SweepDirectory(entries: seq<string>, now: int, ttl: nat) returns (failed: bool)
      modifies this
      ensures (files, failed) == Sweep(old(files), entries, now, ttl)
      ensures dirs == old(dirs)
    {
      for i := 0 to |entries|
        invariant Sweep(old(files), entries, now, ttl) == Sweep(files, entries[i..], now, ttl)
        invariant dirs == old(dirs)
      {
        var p := entries[i];
        assert entries[i..][1..] == entries[i + 1..];
        if p in files {
          var stamp := files[p].stamp;
          if stamp.None? {
            return true;
          }
          if Age(stamp.value, now) > ttl {
            files := files - {p};
          }
        }
      }
      return false;
    }

    /** `run_cleanup`: sweep `original` and then `processed`, skipping a
        directory that does not exist; a metadata error ends the pass
        with an I/O error. */
    method RunCleanup(cacheDir: string, now: int, ttl: nat, walk: string -> seq<string>)
      returns (r: Result<(), SvcError>)
      modifies this
      ensures (files, r.Err?) == SweepRoots(old(files), dirs, CacheRoots(cacheDir), walk, now, ttl)
      ensures r.Err? ==> r.error.Io?
      ensures dirs == old(dirs)
    {
      var roots := CacheRoots(cacheDir);
      for i := 0 to |roots|
        invariant SweepRoots(old(files), dirs, roots, walk, now, ttl)
                  == SweepRoots(files, dirs, roots[i..], walk, now, ttl)
        invariant dirs == old(dirs)
      {
        assert roots[i..][1..] == roots[i + 1..];
        if roots[i] in dirs {
          var failed := SweepDirectory(walk(roots[i]), now, ttl);
          if failed {
            return Err(Io("metadata unavailable"));
          }
        }
      }
      return Ok(());
    }
  }

  /** After a successful write, reading the path gives the bytes written,
      and for a cache path the temp file is gone. */
  method WriteThenRead(disk: Disk, cacheDir: string, digest: string -> string, sourceUrl: string,
                       bytes: seq<u8>, now: int)
    returns (r: Result<Option<seq<u8>>, SvcError>)
    requires IsSha256Hex(digest(sourceUrl))
    modifies disk
    ensures r == Ok(Some(bytes))
    ensures TmpPath(OriginalCachePathFor(cacheDir, digest, sourceUrl)) !in disk.files
  {
    var path := OriginalCachePathFor(cacheDir, digest, sourceUrl);
    var w := disk.WriteCacheAtomic(path, bytes, now, NoFault);
    OriginalTmpPathDiffers(cacheDir, digest, sourceUrl);
    r := disk.TryReadOriginalCache(path);
  }
}
