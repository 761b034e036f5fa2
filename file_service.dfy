/**
  The library file-deletion gateway: `FileService` removes a media item from
  every place it may live (the download cache's `incomplete` and `complete`
  directories, the movies or TV library, and the path recorded in the
  database), over an abstract filesystem.

  The filesystem maps each existing entry, by its resolved name, to its
  kind. A path given to the service is resolved the way the kernel does it:
  trailing `/` are dropped (a path of slashes only is `/`), a path ending in
  `/` names only a directory, and the empty path names nothing. Whether
  removing an entry fails, and with which error, is recorded per entry; a
  failed removal changes nothing (a directory removal is all-or-nothing).
  Paths are otherwise taken as already normalised: no `.`/`..` components
  and no doubled `/` inside them.
 */
module Files {
  import opened Wrappers
  import opened Seqs
  import Strings

  /** What `Path.is_file` / `Path.is_dir` say about an existing path. */
  datatype Kind = File | Dir | Other

  /** The exception a removal raises. */
  datatype FsError = PermissionDenied | OsError(message: string)

  /** Existing entries (by resolved name) with their kinds, and the removals that would raise. */
  datatype FsState = FsState(entries: map<string, Kind>, failures: map<string, FsError>)

  /** The entry name `p` resolves to: trailing `/` dropped, and `/` for a path made of slashes only. */
  function Resolved(p: string): (k: string)
    ensures p != [] ==> k != []
    ensures k == "/" || k == [] || k[|k| - 1] != '/'
  {
    var r := Strings.RStripChar(p, '/');
    if r == [] && p != [] then "/" else r
  }

  /** `os.path.exists(p)`: the empty path names nothing, and a trailing `/` names only a directory. */
  predicate Names(s: FsState, p: string) {
    p != [] && Resolved(p) in s.entries && (p[|p| - 1] != '/' || s.entries[Resolved(p)] == Dir)
  }

  /** `p` names a file or directory whose removal does not raise. */
  predicate Removable(s: FsState, p: string) {
    Names(s, p) && s.entries[Resolved(p)] != Other && Resolved(p) !in s.failures
  }

  /** `q` is the entry `p` itself or lies beneath directory `p`. */
  predicate Under(q: string, p: string) {
    q == p || (if p != [] && p[|p| - 1] == '/' then p else p + "/") <= q
  }

  /** The entries left after `shutil.rmtree(p)`. */
  function RemoveTree(entries: map<string, Kind>, p: string): (r: map<string, Kind>)
    ensures forall q :: q in r <==> q in entries && !Under(q, p)
    ensures forall q :: q in r ==> r[q] == entries[q]
  {
    map q | q in entries && !Under(q, p) :: entries[q]
  }

  /** Resolution ignores a trailing `/` on a name that has none of its own. */
  lemma ResolvedWithSlash(p: string)
    requires p != [] && p[|p| - 1] != '/'
    ensures Resolved(p + "/") == p && Resolved(p) == p
  {
    assert (p + "/")[..|p + "/"| - 1] == p;
  }

  // ---------------------------------------------------------------------------
  // os.path.join
  // ---------------------------------------------------------------------------

  predicate IsAbsolute(p: string) {
    |p| > 0 && p[0] == '/'
  }

  /** `posixpath.join(a, b)`: an absolute `b` replaces `a`; otherwise one `/` goes between them unless `a` is empty or already ends with one. */
  function Join(a: string, b: string): (r: string)
    ensures IsAbsolute(b) ==> r == b
    ensures !IsAbsolute(b) ==> a <= r && |a| + |b| <= |r| <= |a| + |b| + 1
  {
    if IsAbsolute(b) then b
    else if a == [] || a[|a| - 1] == '/' then a + b
    else a + "/" + b
  }

  /** An absolute component discards everything before it. */
  lemma JoinAbsolute(a: string, b: string)
    requires IsAbsolute(b)
    ensures Join(a, b) == b
  {
  }

  /** A relative component is appended: the result starts with `a` and ends with `b`, with at most one `/` between. */
  lemma JoinRelative(a: string, b: string)
    requires !IsAbsolute(b)
    ensures Join(a, b) == a + b || Join(a, b) == a + "/" + b
    ensures a <= Join(a, b)
    ensures b == Join(a, b)[|Join(a, b)| - |b|..]
    ensures a != [] && a[|a| - 1] != '/' ==> Join(a, b) == a + "/" + b
  {
    var j := Join(a, b);
    if a == [] || a[|a| - 1] == '/' {
      assert j == a + b;
    } else {
      assert j == (a + "/") + b;
    }
  }

  // ---------------------------------------------------------------------------
  // Deleting one path
  // ---------------------------------------------------------------------------

  /** The dictionary `_delete_path` returns; `path` is set only on success. */
  datatype PathResult = PathResult(present: bool, deleted: bool, error: Option<string>, path: Option<string>)

  /** The error text for a failed removal of `p`. */
  function ErrorText(e: FsError, p: string): string {
    match e
    case PermissionDenied => "Permission denied: " + p
    case OsError(message) => message
  }

  /**
    `_delete_path`: a path naming nothing is reported as missing; a file is
    unlinked; a directory is removed with everything beneath it; anything
    else is left alone; a removal that raises is reported with its error and
    changes nothing.
   */
  function DeletePathOutcome(s: FsState, p: string): (out: (FsState, PathResult))
    ensures out.1.present <==> Names(s, p)
    ensures out.1.deleted <==> Removable(s, p)
    ensures !out.1.present ==> out.1.error.None?
    ensures !out.1.deleted ==> out.0 == s && out.1.path.None?
    ensures out.1.deleted ==> out.1.path == Some(p) && out.1.error.None?
    ensures Names(s, p) && s.entries[Resolved(p)] == Other ==> out.1.error == Some("Not a file or directory")
    ensures Names(s, p) && s.entries[Resolved(p)] != Other && Resolved(p) in s.failures ==>
      out.1.error == Some(ErrorText(s.failures[Resolved(p)], p))
    ensures out.0.failures == s.failures
    ensures out.1.deleted ==> Resolved(p) !in out.0.entries
    ensures out.1.deleted && s.entries[Resolved(p)] == Dir ==>
      forall q :: q in s.entries && Under(q, Resolved(p)) ==> q !in out.0.entries
    ensures forall q :: q in out.0.entries ==> q in s.entries && out.0.entries[q] == s.entries[q]
    ensures forall q :: q in s.entries && !Under(q, Resolved(p)) ==> q in out.0.entries
  {
    if !Names(s, p) then (s, PathResult(false, false, None, None))
    else
      var k := Resolved(p);
      if s.entries[k] == Other then (s, PathResult(true, false, Some("Not a file or directory"), None))
      else if k in s.failures then (s, PathResult(true, false, Some(ErrorText(s.failures[k], p)), None))
      else
        var entries := if s.entries[k] == File then s.entries - {k} else RemoveTree(s.entries, k);
        (FsState(entries, s.failures), PathResult(true, true, None, Some(p)))
  }

  // ---------------------------------------------------------------------------
  // Trying every candidate
  // ---------------------------------------------------------------------------

  /** `t` is `s` with some entries removed and nothing else changed. */
  predicate Shrunk(t: FsState, s: FsState) {
    && t.failures == s.failures
    && (forall q :: q in t.entries ==> q in s.entries && t.entries[q] == s.entries[q])
  }

  /**
    Attempting every path of `paths` in order, whatever happened to the
    earlier ones: the final state and the paths actually deleted, in
    attempt order.
   */
  function Run(s: FsState, paths: seq<string>): (out: (FsState, seq<string>))
    ensures IsSubsequence(out.1, paths)
    ensures Shrunk(out.0, s)
    ensures forall q :: q in out.1 ==> Names(s, q) && Resolved(q) !in out.0.entries
    ensures out.1 == [] ==> out.0 == s
    decreases |paths|
  {
    if paths == [] then (s, [])
    else
      var init := paths[..|paths| - 1];
      var last := paths[|paths| - 1];
      var (s1, deleted) := Run(s, init);
      var (s2, result) := DeletePathOutcome(s1, last);
      assert paths == init + [last];
      if result.deleted then
        SubsequenceAppendBoth(deleted, init, last);
        (s2, deleted + [last])
      else
        SubsequenceOfPrefix(deleted, init, last);
        (s2, deleted)
  }

  /** No path is reported deleted twice, even when it is a candidate twice. */
  lemma {:induction false} RunDeletedDistinct(s: FsState, paths: seq<string>)
    ensures Distinct(Run(s, paths).1)
    decreases |paths|
  {
    if paths != [] {
      var init := paths[..|paths| - 1];
      var last := paths[|paths| - 1];
      RunDeletedDistinct(s, init);
      var (s1, deleted) := Run(s, init);
      var (s2, result) := DeletePathOutcome(s1, last);
      if result.deleted {
        assert Resolved(last) in s1.entries;
        assert forall q :: q in deleted ==> Resolved(q) !in s1.entries;
        assert last !in deleted;
      }
    }
  }

  /**
    Every entry the run removed lies beneath (or is) the entry of a reported
    path: nothing disappears that the response does not account for.
   */
  lemma {:induction false} RunRemovesOnlyUnderReported(s: FsState, paths: seq<string>)
    ensures var out := Run(s, paths);
      forall x :: x in s.entries && x !in out.0.entries ==> exists p :: p in out.1 && Under(x, Resolved(p))
    decreases |paths|
  {
    if paths != [] {
      var init := paths[..|paths| - 1];
      var last := paths[|paths| - 1];
      RunRemovesOnlyUnderReported(s, init);
      var (s1, deleted) := Run(s, init);
      var (s2, result) := DeletePathOutcome(s1, last);
      var out := Run(s, paths);
      assert out.0 == s2;
      forall x | x in s.entries && x !in s2.entries ensures exists p :: p in out.1 && Under(x, Resolved(p)) {
        if x !in s1.entries {
          var p :| p in deleted && Under(x, Resolved(p));
          assert p in out.1;
        } else {
          assert result.deleted && Under(x, Resolved(last));
          assert last in out.1;
        }
      }
    }
  }

  /**
    A candidate whose entry was there before the run and is gone after it is
    reported, or lies beneath the entry of another reported path.
   */
  lemma RunListsEveryRemoval(s: FsState, paths: seq<string>)
    ensures var out := Run(s, paths);
      forall q :: q in paths && Names(s, q) && Resolved(q) !in out.0.entries ==>
        q in out.1 || exists p :: p in out.1 && p != q && Under(Resolved(q), Resolved(p))
  {
    RunRemovesOnlyUnderReported(s, paths);
  }

  /**
    After the run every candidate names nothing, unless its entry is neither
    a file nor a directory, or its removal raised: a failure on one candidate
    does not stop the others.
   */
  lemma {:induction false} RunLeavesOnlyBlocked(s: FsState, paths: seq<string>)
    ensures forall q :: q in paths && Names(Run(s, paths).0, q) ==>
      s.entries[Resolved(q)] == Other || Resolved(q) in s.failures
    decreases |paths|
  {
    if paths != [] {
      var init := paths[..|paths| - 1];
      var last := paths[|paths| - 1];
      RunLeavesOnlyBlocked(s, init);
      var (s1, deleted) := Run(s, init);
      var s2 := DeletePathOutcome(s1, last).0;
      assert Run(s, paths).0 == s2;
      forall q | q in paths && Names(s2, q) ensures s.entries[Resolved(q)] == Other || Resolved(q) in s.failures {
        assert Names(s1, q);
        if q != last {
          assert q in init;
        }
      }
    }
  }

  /** A candidate that names a removable file or directory guarantees that something is deleted. */
  lemma {:induction false} RunDeletesSomething(s: FsState, paths: seq<string>, q: string)
    requires q in paths && Removable(s, q)
    ensures Run(s, paths).1 != []
    decreases |paths|
  {
    var init := paths[..|paths| - 1];
    var last := paths[|paths| - 1];
    assert paths == init + [last];
    var (s1, deleted) := Run(s, init);
    if q in init {
      RunDeletesSomething(s, init, q);
    } else if deleted == [] {
      assert q == last && s1 == s;
    }
  }

  /** When no candidate names anything, nothing changes and nothing is reported deleted. */
  lemma {:induction false} RunNothingPresent(s: FsState, paths: seq<string>)
    requires forall q :: q in paths ==> !Names(s, q)
    ensures Run(s, paths) == (s, [])
    decreases |paths|
  {
    if paths != [] {
      var init := paths[..|paths| - 1];
      assert forall q :: q in init ==> q in paths;
      RunNothingPresent(s, init);
    }
  }

  // ---------------------------------------------------------------------------
  // The candidate list
  // ---------------------------------------------------------------------------

  /**
    `paths_to_try`: `cache/incomplete/target` and `cache/complete/target`
    when a cache is configured, `library/target` when a library base is
    configured, and finally `parent/target` unless it is already listed.
   */
  function Candidates(cachePath: string, libraryBase: string, parentPath: string, targetPath: string): (r: seq<string>)
    ensures Join(parentPath, targetPath) in r
    ensures 1 <= |r| <= 4
    ensures cachePath == "" && libraryBase == "" ==> r == [Join(parentPath, targetPath)]
  {
    var cached := if cachePath != "" then [Join(Join(cachePath, "incomplete"), targetPath), Join(Join(cachePath, "complete"), targetPath)] else [];
    var configured := cached + (if libraryBase != "" then [Join(libraryBase, targetPath)] else []);
    var fullDbPath := Join(parentPath, targetPath);
    if fullDbPath in configured then configured else configured + [fullDbPath]
  }

  /** The candidates are exactly the configured locations and the recorded path, the recorded path listed once. */
  lemma CandidatesMembers(cachePath: string, libraryBase: string, parentPath: string, targetPath: string)
    ensures var c := Candidates(cachePath, libraryBase, parentPath, targetPath);
      && (forall q :: q in c <==>
            || (cachePath != "" && q == Join(Join(cachePath, "incomplete"), targetPath))
            || (cachePath != "" && q == Join(Join(cachePath, "complete"), targetPath))
            || (libraryBase != "" && q == Join(libraryBase, targetPath))
            || q == Join(parentPath, targetPath))
      && 1 <= |c| <= 4
      && (cachePath != "" ==>
            c[0] == Join(Join(cachePath, "incomplete"), targetPath) && c[1] == Join(Join(cachePath, "complete"), targetPath))
      && (cachePath != "" && libraryBase != "" ==> c[2] == Join(libraryBase, targetPath))
      && (Join(parentPath, targetPath) !in c[..|c| - 1] ==> c[|c| - 1] == Join(parentPath, targetPath))
  {
    var incomplete := Join(Join(cachePath, "incomplete"), targetPath);
    var complete := Join(Join(cachePath, "complete"), targetPath);
    var library := Join(libraryBase, targetPath);
    var full := Join(parentPath, targetPath);
    var cached := if cachePath != "" then [incomplete, complete] else [];
    var configured := cached + (if libraryBase != "" then [library] else []);
    var c := Candidates(cachePath, libraryBase, parentPath, targetPath);
    assert c == if full in configured then configured else configured + [full];
    assert |configured| <= 3;
    assert forall q :: q in configured <==>
      (cachePath != "" && (q == incomplete || q == complete)) || (libraryBase != "" && q == library);
    if full !in configured {
      assert c[..|c| - 1] == configured;
    }
  }

  /** An absolute target path discards every configured root: each candidate is the target itself. */
  lemma CandidatesAbsoluteTarget(cachePath: string, libraryBase: string, parentPath: string, targetPath: string)
    requires IsAbsolute(targetPath)
    ensures forall q :: q in Candidates(cachePath, libraryBase, parentPath, targetPath) ==> q == targetPath
  {
    CandidatesMembers(cachePath, libraryBase, parentPath, targetPath);
  }

  // ---------------------------------------------------------------------------
  // delete_media
  // ---------------------------------------------------------------------------

  /** The dictionary `delete_media` returns; `paths` is empty when the source omits it. */
  datatype MediaResult = MediaResult(success: bool, deleted: bool, message: string, paths: seq<string>)

  /** The service's configuration, trailing `/` already stripped from the three roots. */
  datatype Config = Config(fileDeletionEnabled: bool, cachePath: string, libraryPathMovies: string, libraryPathTv: string)
  {
    /** The movies root for `media_type == 'movie'`, the TV root for any other value. */
    function LibraryBase(mediaType: string): (r: string)
      ensures mediaType == "movie" ==> r == libraryPathMovies
      ensures mediaType != "movie" ==> r == libraryPathTv
    {
      if mediaType == "movie" then libraryPathMovies else libraryPathTv
    }
  }

  /** The response for the paths actually deleted. */
  function Response(deleted: seq<string>, targetPath: string): MediaResult {
    if deleted != [] then MediaResult(true, true, "Deleted " + Strings.NatToString(|deleted|) + " path(s)", deleted)
    else MediaResult(true, false, "No files found in any location for: " + targetPath, [])
  }

  /** `delete_media` on a filesystem state: the new state and the response. */
  function DeleteMediaOutcome(c: Config, s: FsState, parentPath: string, targetPath: string, mediaType: string)
    : (out: (FsState, MediaResult))
    ensures out.1.success
    ensures out.1.deleted <==> out.1.paths != []
    ensures !c.fileDeletionEnabled ==> out == (s, MediaResult(true, false, "File deletion is disabled", []))
    ensures c.fileDeletionEnabled ==>
      IsSubsequence(out.1.paths, Candidates(c.cachePath, c.LibraryBase(mediaType), parentPath, targetPath))
    ensures out.1.deleted ==> out.1.message == "Deleted " + Strings.NatToString(|out.1.paths|) + " path(s)"
    ensures c.fileDeletionEnabled && !out.1.deleted ==> out.1.message == "No files found in any location for: " + targetPath
    ensures !out.1.deleted ==> out.0 == s
    ensures out.0.failures == s.failures
    ensures forall q :: q in out.0.entries ==> q in s.entries && out.0.entries[q] == s.entries[q]
  {
    if !c.fileDeletionEnabled then (s, MediaResult(true, false, "File deletion is disabled", []))
    else
      var (s', deleted) := Run(s, Candidates(c.cachePath, c.LibraryBase(mediaType), parentPath, targetPath));
      (s', Response(deleted, targetPath))
  }

  /**
    The reported paths are distinct, named an entry beforehand whose entry is
    gone afterwards, and every removed entry lies beneath a reported path.
   */
  lemma DeleteMediaReportsRealDeletions(c: Config, s: FsState, parentPath: string, targetPath: string, mediaType: string)
    ensures var out := DeleteMediaOutcome(c, s, parentPath, targetPath, mediaType);
      && Distinct(out.1.paths)
      && (forall q :: q in out.1.paths ==> Names(s, q) && Resolved(q) !in out.0.entries)
      && (forall x :: x in s.entries && x !in out.0.entries ==> exists p :: p in out.1.paths && Under(x, Resolved(p)))
  {
    if c.fileDeletionEnabled {
      var cands := Candidates(c.cachePath, c.LibraryBase(mediaType), parentPath, targetPath);
      RunDeletedDistinct(s, cands);
      RunRemovesOnlyUnderReported(s, cands);
    }
  }

  /** `deleted` is true exactly when some candidate could be removed. */
  lemma DeleteMediaDeletedIff(c: Config, s: FsState, parentPath: string, targetPath: string, mediaType: string)
    requires c.fileDeletionEnabled
    ensures var cands := Candidates(c.cachePath, c.LibraryBase(mediaType), parentPath, targetPath);
      (DeleteMediaOutcome(c, s, parentPath, targetPath, mediaType).1.deleted
       <==> exists q :: q in cands && Removable(s, q))
  {
    var cands := Candidates(c.cachePath, c.LibraryBase(mediaType), parentPath, targetPath);
    var (s', deleted) := Run(s, cands);
    if exists q :: q in cands && Removable(s, q) {
      var q :| q in cands && Removable(s, q);
      RunDeletesSomething(s, cands, q);
    }
    if deleted != [] {
      // The first deleted path is a candidate that was removable from the start.
      var q := deleted[0];
      SubsequenceElements(deleted, cands);
      RemovableWhenDeleted(s, cands, q);
    }
  }

  /** A path the run deleted was, in the initial state, a file or directory whose removal does not raise. */
  lemma {:induction false} RemovableWhenDeleted(s: FsState, paths: seq<string>, q: string)
    requires q in Run(s, paths).1
    ensures Removable(s, q)
    decreases |paths|
  {
    var init := paths[..|paths| - 1];
    var last := paths[|paths| - 1];
    var (s1, deleted) := Run(s, init);
    if q in deleted {
      RemovableWhenDeleted(s, init, q);
    } else {
      assert q == last && DeletePathOutcome(s1, last).1.deleted;
    }
  }

  /** Every candidate that is not blocked is gone after `delete_media`. */
  lemma DeleteMediaClearsCandidates(c: Config, s: FsState, parentPath: string, targetPath: string, mediaType: string)
    requires c.fileDeletionEnabled
    ensures var cands := Candidates(c.cachePath, c.LibraryBase(mediaType), parentPath, targetPath);
      var after := DeleteMediaOutcome(c, s, parentPath, targetPath, mediaType).0;
      forall q :: q in cands && Names(after, q) ==> s.entries[Resolved(q)] == Other || Resolved(q) in s.failures
  {
    RunLeavesOnlyBlocked(s, Candidates(c.cachePath, c.LibraryBase(mediaType), parentPath, targetPath));
  }

  /** With no candidate on disk, `delete_media` changes nothing and reports nothing found. */
  lemma DeleteMediaNothingFound(c: Config, s: FsState, parentPath: string, targetPath: string, mediaType: string)
    requires forall q :: q in Candidates(c.cachePath, c.LibraryBase(mediaType), parentPath, targetPath) ==> !Names(s, q)
    ensures DeleteMediaOutcome(c, s, parentPath, targetPath, mediaType).0 == s
    ensures !DeleteMediaOutcome(c, s, parentPath, targetPath, mediaType).1.deleted
  {
    RunNothingPresent(s, Candidates(c.cachePath, c.LibraryBase(mediaType), parentPath, targetPath));
  }

  /** Running `delete_media` a second time deletes nothing more. */
  lemma DeleteMediaTwice(c: Config, s: FsState, parentPath: string, targetPath: string, mediaType: string)
    ensures var s1 := DeleteMediaOutcome(c, s, parentPath, targetPath, mediaType).0;
      var second := DeleteMediaOutcome(c, s1, parentPath, targetPath, mediaType);
      second.0 == s1 && !second.1.deleted
  {
    var s1 := DeleteMediaOutcome(c, s, parentPath, targetPath, mediaType).0;
    if c.fileDeletionEnabled {
      var cands := Candidates(c.cachePath, c.LibraryBase(mediaType), parentPath, targetPath);
      RunLeavesOnlyBlocked(s, cands);
      var (s2, deleted) := Run(s1, cands);
      if deleted != [] {
        RemovableWhenDeleted(s1, cands, deleted[0]);
        SubsequenceElements(deleted, cands);
        assert false;
      }
    }
  }

  /**
    An empty target path makes the library candidate the library root itself
    (`os.path.join(base, "")` is `base/`): the whole configured root is
    removed and the call reports a deletion.
   */
  lemma EmptyTargetRemovesLibraryRoot(c: Config, s: FsState, parentPath: string, mediaType: string)
    requires c.fileDeletionEnabled
    requires var base := c.LibraryBase(mediaType);
      base != [] && base[|base| - 1] != '/' && base in s.entries && s.entries[base] == Dir && base !in s.failures
    ensures var base := c.LibraryBase(mediaType);
      var out := DeleteMediaOutcome(c, s, parentPath, "", mediaType);
      && Join(base, "") == base + "/"
      && Join(base, "") in Candidates(c.cachePath, base, parentPath, "")
      && out.1.deleted
      && base !in out.0.entries
      && exists p :: p in out.1.paths && Under(base, Resolved(p))
  {
    var base := c.LibraryBase(mediaType);
    var cands := Candidates(c.cachePath, base, parentPath, "");
    var candidate := Join(base, "");
    assert candidate == base + "/";
    ResolvedWithSlash(base);
    CandidatesMembers(c.cachePath, base, parentPath, "");
    assert candidate in cands;
    assert Removable(s, candidate);
    DeleteMediaDeletedIff(c, s, parentPath, "", mediaType);
    var after := DeleteMediaOutcome(c, s, parentPath, "", mediaType).0;
    DeleteMediaClearsCandidates(c, s, parentPath, "", mediaType);
    assert !Names(after, candidate);
    DeleteMediaReportsRealDeletions(c, s, parentPath, "", mediaType);
  }

  /** `delete_directory`'s guess: `movie` when `/movies` occurs anywhere in the parent path, else `tv`. */
  function InferMediaType(parentPath: string): (r: string)
    ensures r == "movie" || r == "tv"
  {
    if Strings.Contains(parentPath, "/movies") then "movie" else "tv"
  }

  lemma InferMediaTypeIsSubstringTest(parentPath: string)
    ensures InferMediaType(parentPath) == "movie" <==> exists i :: Strings.OccursAt(parentPath, "/movies", i)
  {
    Strings.ContainsIffOccurs(parentPath, "/movies");
  }

  // ---------------------------------------------------------------------------
  // The classes
  // ---------------------------------------------------------------------------

  /** The filesystem the service acts on. */
  class FileSystem {
    var entries: map<string, Kind>
    var failures: map<string, FsError>

    function State(): FsState
      reads this
    {
      FsState(entries, failures)
    }

    constructor (s: FsState)
      ensures State() == s
    {
      entries := s.entries;
      failures := s.failures;
    }
  }

  /** `FileService`. */
  class FileService {
    const fileDeletionEnabled: bool
    const cachePath: string
    const libraryPathMovies: string
    const libraryPathTv: string

    /** `__init__`: the three roots lose any trailing `/`. */
    constructor (enabled: bool, cache: string, movies: string, tv: string)
      ensures fileDeletionEnabled == enabled
      ensures cachePath == Strings.RStripChar(cache, '/')
      ensures libraryPathMovies == Strings.RStripChar(movies, '/')
      ensures libraryPathTv == Strings.RStripChar(tv, '/')
      ensures cachePath == [] || cachePath[|cachePath| - 1] != '/'
    {
      fileDeletionEnabled := enabled;
      cachePath := Strings.RStripChar(cache, '/');
      libraryPathMovies := Strings.RStripChar(movies, '/');
      libraryPathTv := Strings.RStripChar(tv, '/');
    }

    function Settings(): Config {
      Config(fileDeletionEnabled, cachePath, libraryPathMovies, libraryPathTv)
    }

    /** `_delete_path`. */
    method DeletePath(fs: FileSystem, path: string) returns (r: PathResult)
      modifies fs
      ensures (fs.State(), r) == DeletePathOutcome(old(fs.State()), path)
    {
      var key := Resolved(path);
      if path == [] || key !in fs.entries || (path[|path| - 1] == '/' && fs.entries[key] != Dir) {
        return PathResult(false, false, None, None);
      }
      var kind := fs.entries[key];
      if kind == File || kind == Dir {
        if key in fs.failures {
          return PathResult(true, false, Some(ErrorText(fs.failures[key], path)), None);
        }
        if kind == File {
          fs.entries := fs.entries - {key};
        } else {
          fs.entries := RemoveTree(fs.entries, key);
        }
        return PathResult(true, true, None, Some(path));
      }
      r := PathResult(true, false, Some("Not a file or directory"), None);
    }

    /** The `paths_to_try` list of `delete_media`, built by appending. */
    method PathsToTry(parentPath: string, targetPath: string, libraryBase: string) returns (paths: seq<string>)
      ensures paths == Candidates(cachePath, libraryBase, parentPath, targetPath)
    {
      var incomplete := Join(Join(cachePath, "incomplete"), targetPath);
      var complete := Join(Join(cachePath, "complete"), targetPath);
      var library := Join(libraryBase, targetPath);
      paths := [];
      if cachePath != "" {
        paths := paths + [incomplete];
      }
      if cachePath != "" {
        paths := paths + [complete];
      }
      if libraryBase != "" {
        paths := paths + [library];
      }
      assert paths == (if cachePath != "" then [incomplete, complete] else []) + (if libraryBase != "" then [library] else []);
      var fullDbPath := Join(parentPath, targetPath);
      if fullDbPath !in paths {
        paths := paths + [fullDbPath];
      }
    }

    /** `delete_media`: try every candidate in turn and report the ones deleted. */
    method DeleteMedia(fs: FileSystem, parentPath: string, targetPath: string, mediaType: string) returns (r: MediaResult)
      modifies fs
      ensures (fs.State(), r) == DeleteMediaOutcome(Settings(), old(fs.State()), parentPath, targetPath, mediaType)
    {
      if !fileDeletionEnabled {
        return MediaResult(true, false, "File deletion is disabled", []);
      }
      var libraryBase := if mediaType == "movie" then libraryPathMovies else libraryPathTv;
      var paths := PathsToTry(parentPath, targetPath, libraryBase);
      var deletedPaths: seq<string> := [];
      for i := 0 to |paths|
        invariant (fs.State(), deletedPaths) == Run(old(fs.State()), paths[..i])
      {
        var result := DeletePath(fs, paths[i]);
        if result.deleted {
          deletedPaths := deletedPaths + [paths[i]];
        }
        assert paths[..i + 1][..i] == paths[..i];
      }
      assert paths[..|paths|] == paths;
      if deletedPaths != [] {
        r := MediaResult(true, true, "Deleted " + Strings.NatToString(|deletedPaths|) + " path(s)", deletedPaths);
      } else {
        r := MediaResult(true, false, "No files found in any location for: " + targetPath, []);
      }
    }

    /** `delete_directory`: `delete_media` with the media type guessed from the parent path. */
    method DeleteDirectory(fs: FileSystem, parentPath: string, targetPath: string) returns (r: MediaResult)
      modifies fs
      ensures (fs.State(), r) == DeleteMediaOutcome(Settings(), old(fs.State()), parentPath, targetPath, InferMediaType(parentPath))
    {
      var mediaType := if Strings.Contains(parentPath, "/movies") then "movie" else "tv";
      r := DeleteMedia(fs, parentPath, targetPath, mediaType);
    }
  }
}
