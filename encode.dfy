/**
 * The encoder's main loop (app/core/encode.js): search for the next file,
 * attempt it, remember the files whose encoding failed so that they are not
 * picked again, and, when nothing is left, either stop or sleep and search
 * again. The scan of the roots and the encoder's outcomes are inputs.
 */
module Encode {
  import opened Wrappers
  import opened PathUtils
  import opened Files
  import opened Selector
  import opened Attempts

  /** The options `run` reads; preview, debug and workDir change nothing modelled here. */
  datatype RunOptions = RunOptions(
    extensions: string,
    loopInterval: nat,
    encodedSuffix: string,
    deleteSource: bool,
    reverseOrder: bool)

  const EncodedExtension: string := "mp4"

  /** `${encodedSuffix}.mp4`: the suffix given to every search and every attempt. */
  function SuffixWithExtension(encodedSuffix: string): string {
    encodedSuffix + "." + EncodedExtension
  }

  /** The argument object of a call to the selector; `scanPaths` is None when the object has no such key. */
  datatype SearchRequest = SearchRequest(
    exclude: seq<string>,
    scanPaths: Option<seq<string>>,
    encodedSuffix: string,
    extensions: string,
    reverseOrder: bool)

  /**
   * The object encode.js builds for the selector: its key is `scanPath` (singular) and it has
   * no `reverseOrder`, so the selector sees `scanPaths` and `reverseOrder` as undefined.
   */
  function RequestAsWritten(scanPaths: seq<string>, opts: RunOptions, failedFiles: seq<string>): SearchRequest {
    SearchRequest(failedFiles, None, SuffixWithExtension(opts.encodedSuffix), opts.extensions, false)
  }

  /** The object the selector expects: the roots under `scanPaths` and the run's `reverseOrder`. */
  function Request(scanPaths: seq<string>, opts: RunOptions, failedFiles: seq<string>): SearchRequest {
    SearchRequest(failedFiles, Some(scanPaths), SuffixWithExtension(opts.encodedSuffix), opts.extensions,
                  opts.reverseOrder)
  }

  /** The selector's options for the run's options and its failures so far. */
  function SearchOptions(opts: RunOptions, failedFiles: seq<string>): Options {
    Options(failedFiles, opts.extensions, SuffixWithExtension(opts.encodedSuffix), opts.reverseOrder)
  }

  /** The selector's options for a request. */
  function SelectorOptions(req: SearchRequest): Options {
    Options(req.exclude, req.extensions, req.encodedSuffix, req.reverseOrder)
  }

  /** Calls the selector: `scanPaths.map(...)` on undefined throws a TypeError. */
  function Search(req: SearchRequest, scan: seq<string> -> seq<ScannedFile>, matches: string -> bool)
    : Result<Option<string>, Error>
  {
    match req.scanPaths
    case None => Err(TypeError)
    case Some(roots) => Ok(FindNextFile(scan(roots), SelectorOptions(req), matches))
  }

  /** Which argument object the loop hands to the selector. */
  datatype Caller = AsWritten | Corrected

  function RequestFor(caller: Caller, scanPaths: seq<string>, opts: RunOptions, failedFiles: seq<string>)
    : SearchRequest
  {
    if caller.AsWritten? then RequestAsWritten(scanPaths, opts, failedFiles) else Request(scanPaths, opts, failedFiles)
  }

  /**
   * A pass of the loop that did something. Both kinds record the paths that existed when the pass began,
   * what the scan reported and the exclude list searched with; an attempt also records the file, the
   * encoder's outcome and the attempt's result.
   */
  datatype Step =
    | Attempted(present: set<string>, scanned: seq<ScannedFile>, exclude: seq<string>, file: string,
                outcome: EncoderOutcome, result: AttemptResult)
    | Slept(present: set<string>, scanned: seq<ScannedFile>, exclude: seq<string>)

  /** How `run` ends: it returns the count, it throws, or it is still looping when the model stops watching. */
  datatype RunOutcome = Finished(filesEncoded: nat) | Raised(error: Error) | StillRunning

  predicate FailedWithEncodingError(s: Step) {
    s.Attempted? && s.result == Threw(EncodingError)
  }

  /** `failedFiles` after the given steps: the files whose attempt threw an EncodingError, in order. */
  function FailedFiles(steps: seq<Step>): seq<string> {
    if steps == [] then []
    else
      var last := steps[|steps| - 1];
      FailedFiles(steps[..|steps| - 1]) + if FailedWithEncodingError(last) then [last.file] else []
  }

  /** `filesEncoded` after the given steps: the attempts that returned normally. */
  function EncodedCount(steps: seq<Step>): nat {
    if steps == [] then 0
    else
      var last := steps[|steps| - 1];
      EncodedCount(steps[..|steps| - 1]) + if last.Attempted? && last.result.Completed? then 1 else 0
  }

  /** The step follows the selector: an attempt is on the file it returned, a sleep follows an empty search. */
  predicate Chosen(s: Step, opts: RunOptions, matches: string -> bool) {
    FindNextFile(s.scanned, SearchOptions(opts, s.exclude), matches) == if s.Attempted? then Some(s.file) else None
  }

  /**
   * What holds of the steps of a run: sleeps happen only with a loop interval, every step follows
   * the selector, and its exclude list is the failures of the steps before it.
   */
  predicate ValidSteps(steps: seq<Step>, opts: RunOptions, matches: string -> bool) {
    && (forall i :: 0 <= i < |steps| && steps[i].Slept? ==> opts.loopInterval != 0)
    && (forall i :: 0 <= i < |steps| ==> Chosen(steps[i], opts, matches))
    && ExcludesEarlierFailures(steps)
  }

  /** The exclude list of each step is `failedFiles` as the earlier steps left it. */
  predicate ExcludesEarlierFailures(steps: seq<Step>) {
    forall i :: 0 <= i < |steps| ==> steps[i].exclude == FailedFiles(steps[..i])
  }

  /** The attempt a step made, on the paths that existed when it began. */
  function AttemptFor(s: Step, opts: RunOptions, faulty: set<string>): Attempt
    requires s.Attempted?
  {
    AttemptOf(s.present, faulty, s.file, SuffixWithExtension(opts.encodedSuffix), opts.deleteSource, s.outcome)
  }

  /** The paths a step leaves: those of its attempt, or the same paths after a sleep. */
  function PathsAfterStep(s: Step, opts: RunOptions, faulty: set<string>): set<string> {
    if s.Attempted? then AttemptFor(s, opts, faulty).paths else s.present
  }

  /**
   * Step `s`, made by the pass numbered `n`, scanned the paths that existed when it began, and an
   * attempt's result is the attempt runner's on those paths and the outcome the encoder gave on that pass.
   */
  predicate StepPerformed(s: Step, n: nat, scanPaths: seq<string>, opts: RunOptions,
                          scan: (seq<string>, set<string>) -> seq<ScannedFile>,
                          encoder: (nat, string) -> EncoderOutcome, faulty: set<string>)
  {
    && s.scanned == scan(scanPaths, s.present)
    && (s.Attempted? ==> s.outcome == encoder(n, s.file) && s.result == AttemptFor(s, opts, faulty).result)
  }

  /** The step follows the selector on the failures of the steps before it, and sleeps only with an interval. */
  predicate Follows(s: Step, previous: seq<Step>, opts: RunOptions, matches: string -> bool) {
    && (s.Slept? ==> opts.loopInterval != 0)
    && Chosen(s, opts, matches)
    && s.exclude == FailedFiles(previous)
  }

  /**
   * The steps are what the passes of a run did, starting on the paths `start`: each follows the
   * selector, began on the paths the step before it left and was performed on them, and the last
   * leaves the paths `paths`.
   */
  predicate Recorded(steps: seq<Step>, start: set<string>, paths: set<string>, scanPaths: seq<string>, opts: RunOptions,
                     matches: string -> bool, scan: (seq<string>, set<string>) -> seq<ScannedFile>,
                     encoder: (nat, string) -> EncoderOutcome, faulty: set<string>)
    decreases |steps|
  {
    if steps == [] then paths == start
    else
      var previous, s := steps[..|steps| - 1], steps[|steps| - 1];
      && Recorded(previous, start, s.present, scanPaths, opts, matches, scan, encoder, faulty)
      && Follows(s, previous, opts, matches)
      && StepPerformed(s, |previous|, scanPaths, opts, scan, encoder, faulty)
      && paths == PathsAfterStep(s, opts, faulty)
  }

  /** Every encoder run in the trace writes to the in-progress path of the source's target. */
  predicate EncoderRunsIntoWorkInProgress(ops: seq<Op>, encodedSuffix: string) {
    forall k {:trigger ops[k].destination} :: 0 <= k < |ops| && ops[k].Encode? ==>
      ops[k].destination == WorkInProgressPath(TargetPath(ops[k].source, encodedSuffix))
  }

  /** Every attempt among the steps that threw, threw an EncodingError. */
  predicate OnlyEncodingErrors(steps: seq<Step>) {
    forall i :: 0 <= i < |steps| && steps[i].Attempted? && steps[i].result.Threw? ==>
      steps[i].result.error == EncodingError
  }

  /** A step that ends the run: an attempt that threw something other than an EncodingError. */
  predicate Fatal(s: Step) {
    s.Attempted? && s.result.Threw? && s.result.error != EncodingError
  }

  /**
   * The state of `run` between passes: `failedFiles` and `filesEncoded` are those of the steps, the
   * steps are recorded from `start` to `paths`, and none of them threw anything but an EncodingError.
   */
  predicate Running(steps: seq<Step>, failedFiles: seq<string>, filesEncoded: nat, start: set<string>,
                    paths: set<string>, scanPaths: seq<string>, opts: RunOptions, matches: string -> bool,
                    scan: (seq<string>, set<string>) -> seq<ScannedFile>, encoder: (nat, string) -> EncoderOutcome,
                    faulty: set<string>)
  {
    && failedFiles == FailedFiles(steps)
    && filesEncoded == EncodedCount(steps)
    && Recorded(steps, start, paths, scanPaths, opts, matches, scan, encoder, faulty)
    && OnlyEncodingErrors(steps)
  }

  /**
   * Step `s` is what pass number `n` did when it began on the paths `paths` with the failures
   * `failedFiles`: it followed the selector, slept only with an interval, and was performed on `paths`.
   */
  predicate Made(s: Step, n: nat, paths: set<string>, failedFiles: seq<string>, scanPaths: seq<string>,
                 opts: RunOptions, matches: string -> bool, scan: (seq<string>, set<string>) -> seq<ScannedFile>,
                 encoder: (nat, string) -> EncoderOutcome, faulty: set<string>)
  {
    && (s.Slept? ==> opts.loopInterval != 0)
    && Chosen(s, opts, matches)
    && s.exclude == failedFiles
    && s.present == paths
    && StepPerformed(s, n, scanPaths, opts, scan, encoder, faulty)
  }

  /**
   * How the steps end the run: it throws anything but an EncodingError; corrected, a run that throws does so
   * at its last step, an attempt, and no step before it threw anything but an EncodingError; a run that
   * does not throw has no step that threw anything but an EncodingError.
   */
  predicate EndedAs(steps: seq<Step>, outcome: RunOutcome, caller: Caller) {
    && (outcome.Raised? ==> outcome.error != EncodingError)
    && (caller.Corrected? && outcome.Raised? ==>
          && steps != [] && steps[|steps| - 1].Attempted? && steps[|steps| - 1].result == Threw(outcome.error)
          && OnlyEncodingErrors(steps[..|steps| - 1]))
    && (!outcome.Raised? ==> OnlyEncodingErrors(steps))
  }

  /**
   * `run`, for at most `fuel` passes that attempt or sleep. `scan(roots, paths)` is what scanning
   * the roots reports when `paths` exist; `encoder(n, file)` is the outcome of the n-th pass's encoding.
   */
  method Run(fs: FileSystem, caller: Caller, scanPaths: seq<string>, opts: RunOptions, matches: string -> bool,
             scan: (seq<string>, set<string>) -> seq<ScannedFile>, encoder: (nat, string) -> EncoderOutcome,
             fuel: nat)
    returns (outcome: RunOutcome, failedFiles: seq<string>, steps: seq<Step>, ghost ops: seq<Op>)
    modifies fs
    ensures |steps| <= fuel && (outcome.StillRunning? ==> |steps| == fuel)
    ensures failedFiles == FailedFiles(steps)
    ensures caller.AsWritten? && fuel > 0 ==> outcome == Raised(TypeError) && steps == []
    ensures outcome.Finished? ==>
              && outcome.filesEncoded == EncodedCount(steps)
              && opts.loopInterval == 0
              && FindNextFile(scan(scanPaths, fs.paths), SearchOptions(opts, failedFiles), matches).None?
    ensures EndedAs(steps, outcome, caller)
    ensures Recorded(steps, old(fs.paths), fs.paths, scanPaths, opts, matches, scan, encoder, fs.faulty)
    ensures fs.trace == old(fs.trace) + ops && EncoderRunsIntoWorkInProgress(ops, SuffixWithExtension(opts.encodedSuffix))
  {
    failedFiles := [];
    ops := [];
    var filesEncoded := 0;
    steps := [];
    var suffix := SuffixWithExtension(opts.encodedSuffix);
    while |steps| < fuel
      invariant |steps| <= fuel
      invariant caller.AsWritten? ==> steps == []
      invariant Running(steps, failedFiles, filesEncoded, old(fs.paths), fs.paths, scanPaths, opts, matches, scan,
                        encoder, fs.faulty)
      invariant fs.trace == old(fs.trace) + ops && EncoderRunsIntoWorkInProgress(ops, suffix)
    {
      ghost var paths := fs.paths;
      var next, more := Pass(fs, caller, scanPaths, opts, matches, scan, encoder, |steps|, failedFiles);
      OpsAppended(old(fs.trace), ops, more, suffix);
      ops := ops + more;
      if next.Err? {
        assert caller.AsWritten?;
        outcome := Raised(next.error);
        return;
      }
      assert caller.Corrected?;
      if next.value.None? {
        outcome := Finished(filesEncoded);
        StoppedQuietly(steps, outcome, caller);
        return;
      }
      var step := next.value.value;
      StepRecorded(steps, step, failedFiles, filesEncoded, old(fs.paths), paths, scanPaths, opts, matches, scan,
                   encoder, fs.faulty);
      if Fatal(step) {
        StepFatal(steps, step, caller);
        steps := steps + [step];
        outcome := Raised(step.result.error);
        return;
      }
      steps := steps + [step];
      if FailedWithEncodingError(step) {
        failedFiles := failedFiles + [step.file];
      } else if step.Attempted? && step.result.Completed? {
        filesEncoded := filesEncoded + 1;
      }
    }
    assert caller.AsWritten? ==> fuel == 0;
    outcome := StillRunning;
    StoppedQuietly(steps, outcome, caller);
  }

  /**
   * One pass of the loop: search with the failures so far, then attempt the file found, sleep, or (None)
   * break. This is pass number `n`, and `encoder(n, file)` is the outcome of its encoding.
   */
  method Pass(fs: FileSystem, caller: Caller, scanPaths: seq<string>, opts: RunOptions, matches: string -> bool,
              scan: (seq<string>, set<string>) -> seq<ScannedFile>, encoder: (nat, string) -> EncoderOutcome,
              n: nat, failedFiles: seq<string>)
    returns (next: Result<Option<Step>, Error>, ghost ops: seq<Op>)
    modifies fs
    ensures caller.AsWritten? ==> next == Err(TypeError)
    ensures caller.Corrected? ==> next.Ok?
    ensures next.Err? ==> next == Err(TypeError) && fs.paths == old(fs.paths) && fs.trace == old(fs.trace)
    ensures next == Ok(None) ==>
              && opts.loopInterval == 0 && fs.paths == old(fs.paths)
              && FindNextFile(scan(scanPaths, fs.paths), SearchOptions(opts, failedFiles), matches).None?
    ensures next.Ok? && next.value.Some? ==>
              var s := next.value.value;
              && Made(s, n, old(fs.paths), failedFiles, scanPaths, opts, matches, scan, encoder, fs.faulty)
              && fs.paths == PathsAfterStep(s, opts, fs.faulty)
    ensures fs.trace == old(fs.trace) + ops && EncoderRunsIntoWorkInProgress(ops, SuffixWithExtension(opts.encodedSuffix))
  {
    var suffix := SuffixWithExtension(opts.encodedSuffix);
    var present := fs.paths;
    var request := RequestFor(caller, scanPaths, opts, failedFiles);
    var found := Search(request, roots => scan(roots, present), matches);
    ops := [];
    assert fs.trace == old(fs.trace) + ops;
    if found.Err? {
      next := Err(found.error);
      return;
    }
    assert request == Request(scanPaths, opts, failedFiles);
    assert SelectorOptions(request) == SearchOptions(opts, failedFiles);
    var scanned := scan(scanPaths, present);
    var nextFile := found.value;
    assert nextFile == FindNextFile(scanned, SearchOptions(opts, failedFiles), matches);
    if nextFile.Some? && nextFile.value != "" {
      var file := nextFile.value;
      var outcome := encoder(n, file);
      var result := ProcessFile(fs, file, suffix, opts.deleteSource, outcome);
      ops := AttemptOf(present, fs.faulty, file, suffix, opts.deleteSource, outcome).ops;
      EncodesIntoWorkInProgress(present, fs.faulty, file, suffix, opts.deleteSource, outcome);
      AttemptTrace(ops, file, suffix, outcome);
      next := Ok(Some(Attempted(present, scanned, failedFiles, file, outcome, result)));
    } else if opts.loopInterval != 0 {
      NoEmptyPathSelected(scanned, SearchOptions(opts, failedFiles), matches);
      next := Ok(Some(Slept(present, scanned, failedFiles)));
    } else {
      NoEmptyPathSelected(scanned, SearchOptions(opts, failedFiles), matches);
      next := Ok(None);
    }
  }

  /** Operations appended after operations whose encoder runs target in-progress paths keep the whole run so. */
  lemma OpsAppended(start: seq<Op>, ops: seq<Op>, more: seq<Op>, encodedSuffix: string)
    requires EncoderRunsIntoWorkInProgress(ops, encodedSuffix) && EncoderRunsIntoWorkInProgress(more, encodedSuffix)
    ensures EncoderRunsIntoWorkInProgress(ops + more, encodedSuffix)
    ensures start + ops + more == start + (ops + more)
  {
    forall k | 0 <= k < |ops + more| && (ops + more)[k].Encode?
      ensures (ops + more)[k].destination == WorkInProgressPath(TargetPath((ops + more)[k].source, encodedSuffix))
    {
      if k >= |ops| {
        assert (ops + more)[k] == more[k - |ops|];
      }
    }
  }

  /** Appending a step extends `failedFiles` and the count by that step. */
  lemma StepAppended(previous: seq<Step>, s: Step)
    ensures FailedFiles(previous + [s]) == FailedFiles(previous) + if FailedWithEncodingError(s) then [s.file] else []
    ensures EncodedCount(previous + [s]) ==
              EncodedCount(previous) + if s.Attempted? && s.result.Completed? then 1 else 0
  {
    assert (previous + [s])[..|previous|] == previous;
  }

  /** Valid steps followed by a step that follows them are valid. */
  lemma FollowsAppended(previous: seq<Step>, s: Step, opts: RunOptions, matches: string -> bool)
    requires ValidSteps(previous, opts, matches) && Follows(s, previous, opts, matches)
    ensures ValidSteps(previous + [s], opts, matches)
  {
    var steps := previous + [s];
    forall i | 0 <= i < |steps|
      ensures (steps[i].Slept? ==> opts.loopInterval != 0) && Chosen(steps[i], opts, matches)
      ensures steps[i].exclude == FailedFiles(steps[..i])
    {
      if i < |previous| {
        assert steps[i] == previous[i] && steps[..i] == previous[..i];
      } else {
        assert steps[i] == s && steps[..i] == previous;
      }
    }
  }

  lemma SplitLast<T>(xs: seq<T>)
    requires xs != []
    ensures xs == xs[..|xs| - 1] + [xs[|xs| - 1]]
  {
  }

  /** A step that one pass made on the paths the earlier steps left extends the record of the run. */
  lemma RecordedAppended(previous: seq<Step>, s: Step, start: set<string>, paths: set<string>, scanPaths: seq<string>,
                         opts: RunOptions, matches: string -> bool, scan: (seq<string>, set<string>) -> seq<ScannedFile>,
                         encoder: (nat, string) -> EncoderOutcome, faulty: set<string>)
    requires Recorded(previous, start, paths, scanPaths, opts, matches, scan, encoder, faulty)
    requires s.Slept? ==> opts.loopInterval != 0
    requires Chosen(s, opts, matches) && s.exclude == FailedFiles(previous)
    requires s.present == paths && StepPerformed(s, |previous|, scanPaths, opts, scan, encoder, faulty)
    ensures Recorded(previous + [s], start, PathsAfterStep(s, opts, faulty), scanPaths, opts, matches, scan, encoder, faulty)
    ensures FailedFiles(previous + [s]) == FailedFiles(previous) + if FailedWithEncodingError(s) then [s.file] else []
    ensures EncodedCount(previous + [s]) ==
              EncodedCount(previous) + if s.Attempted? && s.result.Completed? then 1 else 0
  {
    assert (previous + [s])[..|previous|] == previous;
    StepAppended(previous, s);
  }

  /** The steps of a run, as recorded, are valid steps. */
  lemma {:induction false} RecordedValid(steps: seq<Step>, start: set<string>, paths: set<string>,
                                         scanPaths: seq<string>, opts: RunOptions, matches: string -> bool,
                                         scan: (seq<string>, set<string>) -> seq<ScannedFile>,
                                         encoder: (nat, string) -> EncoderOutcome, faulty: set<string>)
    requires Recorded(steps, start, paths, scanPaths, opts, matches, scan, encoder, faulty)
    ensures ValidSteps(steps, opts, matches)
  {
    if steps != [] {
      var previous, s := steps[..|steps| - 1], steps[|steps| - 1];
      RecordedValid(previous, start, s.present, scanPaths, opts, matches, scan, encoder, faulty);
      FollowsAppended(previous, s, opts, matches);
      SplitLast(steps);
    }
  }

  /**
   * A step that a pass made on the state the steps before it left is recorded after them. A step that
   * does not end the run keeps the loop's state with `failedFiles` and the count moved on; before one
   * that does, nothing but EncodingErrors was thrown.
   */
  lemma StepRecorded(previous: seq<Step>, s: Step, failedFiles: seq<string>, filesEncoded: nat, start: set<string>,
                     paths: set<string>, scanPaths: seq<string>, opts: RunOptions, matches: string -> bool,
                     scan: (seq<string>, set<string>) -> seq<ScannedFile>, encoder: (nat, string) -> EncoderOutcome,
                     faulty: set<string>)
    requires Running(previous, failedFiles, filesEncoded, start, paths, scanPaths, opts, matches, scan, encoder, faulty)
    requires Made(s, |previous|, paths, failedFiles, scanPaths, opts, matches, scan, encoder, faulty)
    ensures Recorded(previous + [s], start, PathsAfterStep(s, opts, faulty), scanPaths, opts, matches, scan, encoder,
                     faulty)
    ensures !Fatal(s) ==>
              Running(previous + [s], failedFiles + if FailedWithEncodingError(s) then [s.file] else [],
                      filesEncoded + if !FailedWithEncodingError(s) && s.Attempted? && s.result.Completed? then 1 else 0,
                      start, PathsAfterStep(s, opts, faulty), scanPaths, opts, matches, scan, encoder, faulty)
    ensures Fatal(s) ==> failedFiles == FailedFiles(previous + [s])
  {
    RecordedAppended(previous, s, start, paths, scanPaths, opts, matches, scan, encoder, faulty);
    if !Fatal(s) {
      OnlyEncodingErrorsAppended(previous, s);
    }
  }

  /** A fatal step after steps that threw only EncodingErrors ends the run with its error. */
  lemma StepFatal(previous: seq<Step>, s: Step, caller: Caller)
    requires OnlyEncodingErrors(previous) && Fatal(s)
    ensures EndedAs(previous + [s], Raised(s.result.error), caller)
  {
    assert (previous + [s])[..|previous|] == previous;
  }

  /** A run that stops without throwing, after steps that threw only EncodingErrors, ends as they do. */
  lemma StoppedQuietly(steps: seq<Step>, outcome: RunOutcome, caller: Caller)
    requires OnlyEncodingErrors(steps) && !outcome.Raised?
    ensures EndedAs(steps, outcome, caller)
  {
  }

  lemma OnlyEncodingErrorsAppended(previous: seq<Step>, s: Step)
    requires OnlyEncodingErrors(previous) && !Fatal(s)
    ensures OnlyEncodingErrors(previous + [s])
  {
    var steps := previous + [s];
    forall i | 0 <= i < |steps| && steps[i].Attempted? && steps[i].result.Threw?
      ensures steps[i].result.error == EncodingError
    {
      if i < |previous| {
        assert steps[i] == previous[i];
      }
    }
  }

  /** Operations whose only encoder run, the first, targets the in-progress path of the source's target. */
  lemma AttemptTrace(ops: seq<Op>, source: string, encodedSuffix: string, outcome: EncoderOutcome)
    requires |ops| >= 1 && ops[0] == Encode(source, WorkInProgressPath(TargetPath(source, encodedSuffix)), outcome)
    requires forall i :: 0 < i < |ops| ==> !ops[i].Encode?
    ensures EncoderRunsIntoWorkInProgress(ops, encodedSuffix)
  {
    forall k | 0 <= k < |ops| && ops[k].Encode?
      ensures ops[k].destination == WorkInProgressPath(TargetPath(ops[k].source, encodedSuffix))
    {
      assert k == 0;
    }
  }

  // ---------------------------------------------------------------- properties

  lemma {:induction false} FailedFilesRecorded(steps: seq<Step>, i: nat)
    requires i < |steps| && FailedWithEncodingError(steps[i])
    ensures steps[i].file in FailedFiles(steps)
  {
    if i < |steps| - 1 {
      FailedFilesRecorded(steps[..|steps| - 1], i);
    }
  }

  /** A file whose attempt threw an EncodingError is never attempted again in the same run. */
  lemma NoRetryAfterEncodingError(steps: seq<Step>, opts: RunOptions, matches: string -> bool)
    requires ValidSteps(steps, opts, matches)
    ensures forall i, j :: 0 <= i < j < |steps| && FailedWithEncodingError(steps[i]) && steps[j].Attempted? ==>
              steps[j].file != steps[i].file
  {
    forall i, j | 0 <= i < j < |steps| && FailedWithEncodingError(steps[i]) && steps[j].Attempted?
      ensures steps[j].file != steps[i].file
    {
      assert steps[..j][i] == steps[i];
      FailedFilesRecorded(steps[..j], i);
      assert Chosen(steps[j], opts, matches);
      FoundIsSelectable(steps[j].scanned, SearchOptions(opts, steps[j].exclude), matches);
    }
  }

  /** Every entry of `failedFiles` is a file whose attempt threw an EncodingError. */
  lemma {:induction false} FailedFilesAreFailures(steps: seq<Step>)
    ensures forall f :: f in FailedFiles(steps) ==>
              exists i :: 0 <= i < |steps| && FailedWithEncodingError(steps[i]) && steps[i].file == f
  {
    if steps != [] {
      var init := steps[..|steps| - 1];
      FailedFilesAreFailures(init);
      forall f | f in FailedFiles(steps)
        ensures exists i :: 0 <= i < |steps| && FailedWithEncodingError(steps[i]) && steps[i].file == f
      {
        if f in FailedFiles(init) {
          var i :| 0 <= i < |init| && FailedWithEncodingError(init[i]) && init[i].file == f;
          assert steps[i] == init[i];
        } else {
          assert FailedWithEncodingError(steps[|steps| - 1]) && steps[|steps| - 1].file == f;
        }
      }
    }
  }

  /** Each step adds to at most one of the count and the failures. */
  lemma {:induction false} CountsBoundedBySteps(steps: seq<Step>)
    ensures EncodedCount(steps) + |FailedFiles(steps)| <= |steps|
  {
    if steps != [] {
      CountsBoundedBySteps(steps[..|steps| - 1]);
    }
  }

  /** As written, the selector is called without `scanPaths` and throws a TypeError on every search. */
  lemma SearchAsWrittenThrows(scanPaths: seq<string>, opts: RunOptions, failedFiles: seq<string>,
                              scan: seq<string> -> seq<ScannedFile>, matches: string -> bool)
    ensures Search(RequestAsWritten(scanPaths, opts, failedFiles), scan, matches) == Err(TypeError)
  {
  }

  /** With the corrected call every search returns the selector's choice for the run's options. */
  lemma SearchCorrected(scanPaths: seq<string>, opts: RunOptions, failedFiles: seq<string>,
                        scan: seq<string> -> seq<ScannedFile>, matches: string -> bool)
    ensures Search(Request(scanPaths, opts, failedFiles), scan, matches) ==
              Ok(FindNextFile(scan(scanPaths), SearchOptions(opts, failedFiles), matches))
  {
  }

  /**
   * As written, `reverseOrder` never reaches the selector: with reverse order asked for and a
   * second candidate that is not the second-to-last, the call as written picks the wrong file.
   */
  lemma ReverseOrderDropped(files: seq<ScannedFile>, scanPaths: seq<string>, opts: RunOptions,
                            failedFiles: seq<string>, matches: string -> bool)
    requires opts.reverseOrder
    requires var c := FilesToEncode(files, SearchOptions(opts, failedFiles), matches);
             |c| >= 2 && c[1] != c[|c| - 2]
    ensures var c := FilesToEncode(files, SearchOptions(opts, failedFiles), matches);
            && FindNextFile(files, SelectorOptions(Request(scanPaths, opts, failedFiles)), matches) == Some(c[|c| - 2])
            && FindNextFile(files, SelectorOptions(RequestAsWritten(scanPaths, opts, failedFiles)), matches) == Some(c[1])
  {
    var asked := SearchOptions(opts, failedFiles);
    assert SelectorOptions(Request(scanPaths, opts, failedFiles)) == asked;
    CandidatesIgnoreOrder(files, asked, asked.(reverseOrder := false), matches);
    assert SelectorOptions(RequestAsWritten(scanPaths, opts, failedFiles)) == asked.(reverseOrder := false);
  }
}
