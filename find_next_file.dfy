/**
 * Choosing the next file to encode (app/core/find-next-file.js). The scan of
 * the roots is an input: a list of files with their modification times. The
 * list is sorted oldest first, filtered, and one survivor is picked while
 * avoiding the oldest and the newest when there is a choice.
 */
module Selector {
  import opened Wrappers
  import opened Text
  import opened PosixPath
  import opened PathUtils

  /** A scanned file: its path and its modification time in milliseconds. */
  datatype ScannedFile = ScannedFile(path: string, modifiedAt: int)

  /** The options the selector reads; the exclusion pattern is passed as a predicate beside them. */
  datatype Options = Options(
    exclude: seq<string>,
    extensions: string,
    encodedSuffix: string,
    reverseOrder: bool)

  // ---------------------------------------------------------------- sorting

  ghost predicate SortedByModifiedAt(files: seq<ScannedFile>) {
    forall i, j :: 0 <= i < j < |files| ==> files[i].modifiedAt <= files[j].modifiedAt
  }

  /** Places `f` before the first file that is not older, so equal times keep their order. */
  function Insert(f: ScannedFile, sorted: seq<ScannedFile>): (r: seq<ScannedFile>)
    ensures |r| == |sorted| + 1
  {
    if sorted == [] then [f]
    else if f.modifiedAt <= sorted[0].modifiedAt then [f] + sorted
    else [sorted[0]] + Insert(f, sorted[1..])
  }

  /** Inserting into a sorted list keeps it sorted; the head is `f` or the old head. */
  lemma {:induction false} InsertSorted(f: ScannedFile, sorted: seq<ScannedFile>)
    requires SortedByModifiedAt(sorted)
    ensures SortedByModifiedAt(Insert(f, sorted))
    ensures Insert(f, sorted)[0] == f || (sorted != [] && Insert(f, sorted)[0] == sorted[0])
  {
    if sorted != [] && f.modifiedAt > sorted[0].modifiedAt {
      var rest := Insert(f, sorted[1..]);
      InsertSorted(f, sorted[1..]);
      var r := [sorted[0]] + rest;
      assert sorted[0].modifiedAt <= rest[0].modifiedAt;
      assert forall j :: 0 < j < |r| ==> r[j] == rest[j - 1];
    }
  }

  /** Inserting adds `f` and loses nothing. */
  lemma {:induction false} InsertPermutes(f: ScannedFile, sorted: seq<ScannedFile>)
    ensures multiset(Insert(f, sorted)) == multiset(sorted) + multiset{f}
  {
    if sorted != [] && f.modifiedAt > sorted[0].modifiedAt {
      InsertPermutes(f, sorted[1..]);
      assert sorted == [sorted[0]] + sorted[1..];
    }
  }

  /** `files.sort((a, b) => a.modifiedAt - b.modifiedAt)`: a stable sort, oldest first. */
  function SortByModifiedAt(files: seq<ScannedFile>): (r: seq<ScannedFile>)
    ensures |r| == |files|
  {
    if files == [] then [] else Insert(files[0], SortByModifiedAt(files[1..]))
  }

  /** The sort orders the files oldest first and is a permutation of them. */
  lemma {:induction false} SortSorts(files: seq<ScannedFile>)
    ensures SortedByModifiedAt(SortByModifiedAt(files))
    ensures multiset(SortByModifiedAt(files)) == multiset(files)
  {
    if files != [] {
      var rest := SortByModifiedAt(files[1..]);
      SortSorts(files[1..]);
      InsertSorted(files[0], rest);
      InsertPermutes(files[0], rest);
      assert files == [files[0]] + files[1..];
    }
  }

  /** The files with modification time `t`, in their order. */
  function WithTime(files: seq<ScannedFile>, t: int): seq<ScannedFile> {
    if files == [] then [] else (if files[0].modifiedAt == t then [files[0]] else []) + WithTime(files[1..], t)
  }

  /** Inserting `f` puts it before the files of its own time and keeps theirs in order. */
  lemma {:induction false} InsertStable(f: ScannedFile, sorted: seq<ScannedFile>, t: int)
    ensures WithTime(Insert(f, sorted), t) == (if f.modifiedAt == t then [f] else []) + WithTime(sorted, t)
  {
    var own := if f.modifiedAt == t then [f] else [];
    if sorted == [] {
      assert WithTime([f], t) == own + WithTime([], t);
    } else if f.modifiedAt <= sorted[0].modifiedAt {
      var r := [f] + sorted;
      assert r[0] == f && r[1..] == sorted;
      assert WithTime(r, t) == own + WithTime(sorted, t);
    } else {
      var rest := Insert(f, sorted[1..]);
      var r := [sorted[0]] + rest;
      assert r[0] == sorted[0] && r[1..] == rest;
      InsertStable(f, sorted[1..], t);
      var head := if sorted[0].modifiedAt == t then [sorted[0]] else [];
      assert WithTime(r, t) == head + (own + WithTime(sorted[1..], t));
      assert WithTime(sorted, t) == head + WithTime(sorted[1..], t);
      if f.modifiedAt == t {
        assert head == [];
      } else {
        assert own == [];
      }
    }
  }

  /** The sort is stable: files with the same modification time keep their input order. */
  lemma {:induction false} SortStable(files: seq<ScannedFile>, t: int)
    ensures WithTime(SortByModifiedAt(files), t) == WithTime(files, t)
  {
    if files != [] {
      SortStable(files[1..], t);
      InsertStable(files[0], SortByModifiedAt(files[1..]), t);
    }
  }

  function Paths(files: seq<ScannedFile>): (r: seq<string>)
    ensures |r| == |files|
    ensures forall i :: 0 <= i < |files| ==> r[i] == files[i].path
  {
    seq(|files|, i requires 0 <= i < |files| => files[i].path)
  }

  /** Inserting a file adds its path to the paths and loses none. */
  lemma {:induction false} InsertPathsPermute(f: ScannedFile, sorted: seq<ScannedFile>)
    ensures multiset(Paths(Insert(f, sorted))) == multiset(Paths(sorted)) + multiset{f.path}
  {
    if sorted == [] {
      assert Paths([f]) == [f.path];
    } else if f.modifiedAt <= sorted[0].modifiedAt {
      assert Paths([f] + sorted) == [f.path] + Paths(sorted);
    } else {
      var rest := Insert(f, sorted[1..]);
      InsertPathsPermute(f, sorted[1..]);
      assert Paths([sorted[0]] + rest) == [sorted[0].path] + Paths(rest);
      assert Paths(sorted) == [sorted[0].path] + Paths(sorted[1..]);
    }
  }

  /** `allPaths` holds each scanned path as many times as the scan does, in another order. */
  lemma {:induction false} AllPathsPermutes(files: seq<ScannedFile>)
    ensures multiset(AllPaths(files)) == multiset(Paths(files))
  {
    if files != [] {
      AllPathsPermutes(files[1..]);
      InsertPathsPermute(files[0], SortByModifiedAt(files[1..]));
      assert Paths(files) == [files[0].path] + Paths(files[1..]);
    }
  }

  /** The set of scanned paths. */
  function ScannedPaths(files: seq<ScannedFile>): set<string> {
    set i | 0 <= i < |files| :: files[i].path
  }

  /** `allPaths`: the scanned paths, oldest file first. */
  function AllPaths(files: seq<ScannedFile>): seq<string> {
    Paths(SortByModifiedAt(files))
  }

  lemma AllPathsMembers(files: seq<ScannedFile>)
    ensures forall p :: p in AllPaths(files) <==> p in ScannedPaths(files)
  {
    var sorted := SortByModifiedAt(files);
    SortSorts(files);
    forall p ensures p in AllPaths(files) <==> p in ScannedPaths(files) {
      if p in AllPaths(files) {
        var i :| 0 <= i < |sorted| && AllPaths(files)[i] == p;
        assert sorted[i] in multiset(files);
        var j :| 0 <= j < |files| && files[j] == sorted[i];
      }
      if p in ScannedPaths(files) {
        var j :| 0 <= j < |files| && files[j].path == p;
        assert files[j] in multiset(sorted);
        var i :| 0 <= i < |sorted| && sorted[i] == files[j];
        assert AllPaths(files)[i] == p;
      }
    }
  }

  // ---------------------------------------------------------------- filters

  /** `fileExtension`: the extension without its leading '.'. */
  function FileExtension(p: string): string {
    var e := Extname(p);
    if e == "" then "" else e[1..]
  }

  /** `extensions.split(",").map(e => e.toLowerCase())`. */
  function LowerCaseExtensions(extensions: string): (r: seq<string>)
    ensures |r| == |Split(extensions, ',')|
    ensures forall i :: 0 <= i < |r| ==> r[i] == ToLower(Split(extensions, ',')[i])
  {
    var pieces := Split(extensions, ',');
    seq(|pieces|, i requires 0 <= i < |pieces| => ToLower(pieces[i]))
  }

  /** `isEncodeable`: a non-empty extension that, lower-cased, is in the lower-cased list. */
  predicate IsEncodeable(p: string, extensions: string) {
    var e := ToLower(FileExtension(p));
    e != "" && e in LowerCaseExtensions(extensions)
  }

  /** A path is encodeable exactly when its extension is non-empty and equals a listed one, ignoring case. */
  lemma EncodeableIff(p: string, extensions: string)
    ensures IsEncodeable(p, extensions) <==>
              FileExtension(p) != "" &&
              exists q :: q in Split(extensions, ',') && ToLower(q) == ToLower(FileExtension(p))
  {
    var e := FileExtension(p);
    var pieces := Split(extensions, ',');
    var lowered := LowerCaseExtensions(extensions);
    if IsEncodeable(p, extensions) {
      var i :| 0 <= i < |lowered| && lowered[i] == ToLower(e);
      assert pieces[i] in pieces && ToLower(pieces[i]) == ToLower(e);
    }
    if e != "" && exists q :: q in pieces && ToLower(q) == ToLower(e) {
      var q :| q in pieces && ToLower(q) == ToLower(e);
      var i :| 0 <= i < |pieces| && pieces[i] == q;
      assert lowered[i] == ToLower(e);
    }
  }

  /** `alreadyEncodedPaths`: the scanned paths that match the exclusion pattern. */
  function AlreadyEncodedPaths(allPaths: seq<string>, matches: string -> bool): (r: seq<string>)
    ensures forall p {:trigger p in r} :: p in r <==> p in allPaths && matches(p)
  {
    if allPaths == [] then []
    else (if matches(allPaths[0]) then [allPaths[0]] else []) + AlreadyEncodedPaths(allPaths[1..], matches)
  }

  /** The six filters of `filesToEncode`, in their order. */
  predicate Eligible(p: string, allPaths: seq<string>, opts: Options, matches: string -> bool) {
    var target := TargetPath(p, opts.encodedSuffix);
    && p !in opts.exclude
    && IsEncodeable(p, opts.extensions)
    && !matches(p)
    && target !in AlreadyEncodedPaths(allPaths, matches)
    && WorkInProgressPath(target) !in allPaths
    && FailedPath(target) !in allPaths
  }

  predicate IsSubsequence(a: seq<string>, b: seq<string>) {
    a == [] || (b != [] && ((a[0] == b[0] && IsSubsequence(a[1..], b[1..])) || IsSubsequence(a, b[1..])))
  }

  /** `paths.filter(keep)`: the paths `keep` accepts, in their order. */
  function Filter(paths: seq<string>, keep: string -> bool): (r: seq<string>)
    ensures forall p {:trigger p in r} :: p in r <==> p in paths && keep(p)
    ensures IsSubsequence(r, paths)
  {
    if paths == [] then []
    else
      var rest := Filter(paths[1..], keep);
      if keep(paths[0]) then [paths[0]] + rest
      else
        assert paths == [paths[0]] + paths[1..];
        rest
  }

  /** A filter keeps every copy of a path it accepts and none of a path it rejects. */
  lemma {:induction false} FilterCounts(paths: seq<string>, keep: string -> bool)
    ensures forall p :: multiset(Filter(paths, keep))[p] == if keep(p) then multiset(paths)[p] else 0
  {
    if paths != [] {
      FilterCounts(paths[1..], keep);
      assert paths == [paths[0]] + paths[1..];
    }
  }

  /** Two filters that accept the same paths keep the same list. */
  lemma {:induction false} FilterSameTest(paths: seq<string>, keep1: string -> bool, keep2: string -> bool)
    requires forall p :: keep1(p) == keep2(p)
    ensures Filter(paths, keep1) == Filter(paths, keep2)
  {
    if paths != [] {
      FilterSameTest(paths[1..], keep1, keep2);
    }
  }

  /** Keeps the paths of `paths` that pass every filter, in their order. */
  function FilterEligible(paths: seq<string>, allPaths: seq<string>, opts: Options, matches: string -> bool)
    : (r: seq<string>)
    ensures forall p {:trigger p in r} :: p in r <==> p in paths && Eligible(p, allPaths, opts, matches)
    ensures IsSubsequence(r, paths)
  {
    Filter(paths, p => Eligible(p, allPaths, opts, matches))
  }

  /** The eligible paths keep as many copies as `paths` holds, and no copy of an ineligible path. */
  lemma FilterEligibleCounts(paths: seq<string>, allPaths: seq<string>, opts: Options, matches: string -> bool)
    ensures forall p :: multiset(FilterEligible(paths, allPaths, opts, matches))[p] ==
                          if Eligible(p, allPaths, opts, matches) then multiset(paths)[p] else 0
  {
    FilterCounts(paths, p => Eligible(p, allPaths, opts, matches));
  }

  /** `filesToEncode`. */
  function FilesToEncode(files: seq<ScannedFile>, opts: Options, matches: string -> bool): seq<string> {
    FilterEligible(AllPaths(files), AllPaths(files), opts, matches)
  }

  // ---------------------------------------------------------------- selection

  /** null, the only candidate, or the second (second-to-last in reverse order). */
  function Select(candidates: seq<string>, reverseOrder: bool): Option<string> {
    if |candidates| == 0 then None
    else if |candidates| == 1 then Some(candidates[0])
    else if reverseOrder then Some(candidates[|candidates| - 2])
    else Some(candidates[1])
  }

  /** The exported selector, on the scan it would make. */
  function FindNextFile(files: seq<ScannedFile>, opts: Options, matches: string -> bool): Option<string> {
    Select(FilesToEncode(files, opts, matches), opts.reverseOrder)
  }

  // ---------------------------------------------------------------- properties

  /** Eligibility, stated on the set of scanned paths. */
  predicate Selectable(p: string, files: seq<ScannedFile>, opts: Options, matches: string -> bool) {
    var present := ScannedPaths(files);
    var target := TargetPath(p, opts.encodedSuffix);
    && p in present
    && p !in opts.exclude
    && IsEncodeable(p, opts.extensions)
    && !matches(p)
    && !(target in present && matches(target))
    && WorkInProgressPath(target) !in present
    && FailedPath(target) !in present
  }

  lemma CandidatesAreSelectable(files: seq<ScannedFile>, opts: Options, matches: string -> bool)
    ensures forall p :: p in FilesToEncode(files, opts, matches) <==> Selectable(p, files, opts, matches)
  {
    AllPathsMembers(files);
  }

  /** Nothing is found exactly when no scanned path passes every filter. */
  lemma NothingFoundIff(files: seq<ScannedFile>, opts: Options, matches: string -> bool)
    ensures FindNextFile(files, opts, matches).None? <==>
              forall i :: 0 <= i < |files| ==> !Selectable(files[i].path, files, opts, matches)
  {
    CandidatesAreSelectable(files, opts, matches);
    var c := FilesToEncode(files, opts, matches);
    if c != [] {
      assert Selectable(c[0], files, opts, matches);
      var i :| 0 <= i < |files| && files[i].path == c[0];
    }
  }

  /**
   * A returned path was scanned, is not excluded, has an allowed extension, does not match the
   * pattern, has no scanned target matching the pattern and no scanned in-progress or failed marker.
   */
  lemma FoundIsSelectable(files: seq<ScannedFile>, opts: Options, matches: string -> bool)
    requires FindNextFile(files, opts, matches).Some?
    ensures Selectable(FindNextFile(files, opts, matches).value, files, opts, matches)
  {
    CandidatesAreSelectable(files, opts, matches);
  }

  lemma EmptyPathNotEncodeable(extensions: string)
    ensures !IsEncodeable("", extensions)
  {
    assert LastIndex("", '/') == -1;
    assert Extname("") == "";
  }

  /** A returned path is never empty, so the caller's truthiness test on it is the same as `!= null`. */
  lemma NoEmptyPathSelected(files: seq<ScannedFile>, opts: Options, matches: string -> bool)
    ensures FindNextFile(files, opts, matches) != Some("")
  {
    var r := FindNextFile(files, opts, matches);
    if r.Some? {
      FoundIsSelectable(files, opts, matches);
      assert IsEncodeable(r.value, opts.extensions);
      EmptyPathNotEncodeable(opts.extensions);
    }
  }

  /** The candidates keep the order of a sorted permutation of the scan: oldest first. */
  lemma CandidatesOldestFirst(files: seq<ScannedFile>, opts: Options, matches: string -> bool)
    ensures var sorted := SortByModifiedAt(files);
            && SortedByModifiedAt(sorted)
            && multiset(sorted) == multiset(files)
            && IsSubsequence(FilesToEncode(files, opts, matches), Paths(sorted))
  {
    SortSorts(files);
  }

  /** Where the pick sits among the candidates, for one, two, and three or more of them. */
  lemma SelectPosition(candidates: seq<string>, reverseOrder: bool)
    ensures |candidates| == 1 ==> Select(candidates, reverseOrder) == Some(candidates[0])
    ensures |candidates| >= 3 ==>
              exists i :: 0 < i < |candidates| - 1 && Select(candidates, reverseOrder) == Some(candidates[i])
    ensures |candidates| == 2 ==>
              Select(candidates, reverseOrder) == Some(if reverseOrder then candidates[0] else candidates[1])
  {
    if |candidates| >= 3 {
      var i := if reverseOrder then |candidates| - 2 else 1;
      assert 0 < i < |candidates| - 1 && Select(candidates, reverseOrder) == Some(candidates[i]);
    }
  }

  /** A scanned target counts as "already encoded" only when it matches the pattern. */
  lemma TargetIgnoredUnlessMatched(p: string, files: seq<ScannedFile>, opts: Options, matches: string -> bool, t: int)
    requires Selectable(p, files, opts, matches)
    requires !matches(TargetPath(p, opts.encodedSuffix))
    ensures Selectable(p, files + [ScannedFile(TargetPath(p, opts.encodedSuffix), t)], opts, matches)
  {
    var target := TargetPath(p, opts.encodedSuffix);
    ScannedPathsAppend(files, ScannedFile(target, t));
    DerivedPathsDistinct(p, opts.encodedSuffix);
  }

  lemma ScannedPathsAppend(files: seq<ScannedFile>, f: ScannedFile)
    ensures ScannedPaths(files + [f]) == ScannedPaths(files) + {f.path}
  {
    var more := files + [f];
    forall q ensures q in ScannedPaths(more) <==> q in ScannedPaths(files) + {f.path} {
      if q in ScannedPaths(more) {
        var i :| 0 <= i < |more| && more[i].path == q;
        if i < |files| {
          assert files[i].path == q;
        }
      }
      if q in ScannedPaths(files) {
        var i :| 0 <= i < |files| && files[i].path == q;
        assert more[i].path == q;
      }
      if q == f.path {
        assert more[|files|].path == q;
      }
    }
  }

  /** A scanner that hides dot-files can never report an in-progress marker, so that filter never fires. */
  lemma HiddenMarkersNeverScanned(p: string, files: seq<ScannedFile>, encodedSuffix: string)
    requires forall i :: 0 <= i < |files| ==> Basename(files[i].path) == [] || Basename(files[i].path)[0] != '.'
    ensures WorkInProgressPath(TargetPath(p, encodedSuffix)) !in ScannedPaths(files)
  {
    var w := WorkInProgressPath(TargetPath(p, encodedSuffix));
    WorkInProgressPathShape(TargetPath(p, encodedSuffix));
    assert forall i :: 0 <= i < |files| ==> files[i].path != w;
  }

  lemma FilterIgnoresOrder(paths: seq<string>, allPaths: seq<string>, o1: Options, o2: Options,
                           matches: string -> bool)
    requires o1.(reverseOrder := o2.reverseOrder) == o2
    ensures FilterEligible(paths, allPaths, o1, matches) == FilterEligible(paths, allPaths, o2, matches)
  {
    var keep1 := p => Eligible(p, allPaths, o1, matches);
    var keep2 := p => Eligible(p, allPaths, o2, matches);
    forall p ensures keep1(p) == keep2(p) {
      assert Eligible(p, allPaths, o1, matches) == Eligible(p, allPaths, o2, matches);
    }
    FilterSameTest(paths, keep1, keep2);
  }

  /** The candidate list does not depend on the order option; only the pick does. */
  lemma CandidatesIgnoreOrder(files: seq<ScannedFile>, o1: Options, o2: Options, matches: string -> bool)
    requires o1.(reverseOrder := o2.reverseOrder) == o2
    ensures FilesToEncode(files, o1, matches) == FilesToEncode(files, o2, matches)
  {
    FilterIgnoresOrder(AllPaths(files), AllPaths(files), o1, o2, matches);
  }
}
