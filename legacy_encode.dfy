/**
 * The older encoder (domain/encode.js): pick the first scanned file whose
 * extension is listed and that the exclusion pattern does not match, encode it
 * straight to its target path, and loop. There is no in-progress file, no
 * failure marker and no error handling: the first error ends the run. The
 * listing of each scan root and the encoder's outcomes are inputs.
 */
module LegacyEncode {
  import opened Wrappers
  import opened PosixPath
  import opened Files
  import LegacyPathUtils

  // ---------------------------------------------------------------- findNextFile

  /** `fileExtension`: `path.extname` with its '.' removed (case kept). */
  function FileExtension(p: string): (x: string)
    ensures '.' !in x
    ensures Extname(p) == "" ==> x == ""
    ensures Extname(p) != "" ==> Extname(p) == "." + x
  {
    StemAndExtension(p);
    var e := Extname(p);
    if e == "" then "" else e[1..]
  }

  /** `isEncodeable(p) && isNotExcluded(p)`: the extension is listed as is, and the pattern does not match. */
  predicate Qualifies(p: string, extensions: seq<string>, matches: string -> bool) {
    FileExtension(p) in extensions && !matches(p)
  }

  /** `allFilesByScanPath.flat()`: the listings of the roots, one after the other. */
  function AllFiles(scanPaths: seq<string>, listing: string -> seq<string>): seq<string> {
    if scanPaths == [] then [] else AllFiles(scanPaths[..|scanPaths| - 1], listing) + listing(scanPaths[|scanPaths| - 1])
  }

  /** `files.filter(keep)`: the files `keep` accepts, in order. */
  function Filter(files: seq<string>, keep: string -> bool): seq<string> {
    if files == [] then []
    else (if keep(files[0]) then [files[0]] else []) + Filter(files[1..], keep)
  }

  /** The first file of a filtered list is the first file accepted, and the list is empty when none is. */
  lemma {:induction false} FilterFirst(files: seq<string>, keep: string -> bool)
    ensures Filter(files, keep) == [] <==> forall i :: 0 <= i < |files| ==> !keep(files[i])
    ensures Filter(files, keep) != [] ==>
              exists k :: 0 <= k < |files| && files[k] == Filter(files, keep)[0] && keep(files[k])
                          && forall j :: 0 <= j < k ==> !keep(files[j])
  {
    if files != [] && !keep(files[0]) {
      var rest := files[1..];
      FilterFirst(rest, keep);
      assert Filter(files, keep) == Filter(rest, keep);
      assert forall i :: 1 <= i < |files| ==> files[i] == rest[i - 1];
      if Filter(rest, keep) != [] {
        var k :| 0 <= k < |rest| && rest[k] == Filter(rest, keep)[0] && keep(rest[k])
                 && forall j :: 0 <= j < k ==> !keep(rest[j]);
        assert files[k + 1] == rest[k];
      }
    }
  }

  /** Filtering a concatenation filters each part. */
  lemma {:induction false} FilterAppend(a: seq<string>, b: seq<string>, keep: string -> bool)
    ensures Filter(a + b, keep) == Filter(a, keep) + Filter(b, keep)
  {
    if a != [] {
      assert (a + b)[0] == a[0];
      assert (a + b)[1..] == a[1..] + b;
      FilterAppend(a[1..], b, keep);
      var head := if keep(a[0]) then [a[0]] else [];
      assert Filter(a + b, keep) == head + Filter(a[1..] + b, keep);
      assert head + (Filter(a[1..], keep) + Filter(b, keep)) == (head + Filter(a[1..], keep)) + Filter(b, keep);
    } else {
      assert a + b == b;
    }
  }

  /** `allFiles.filter(isEncodeable).filter(isNotExcluded)`, in scan order. */
  function FilesToEncode(files: seq<string>, extensions: seq<string>, matches: string -> bool): seq<string> {
    Filter(files, p => Qualifies(p, extensions, matches))
  }

  /** The scan of `scanPaths` when `paths` exist. */
  function Scan(scanPaths: seq<string>, listing: (string, set<string>) -> seq<string>, paths: set<string>): seq<string> {
    AllFiles(scanPaths, root => listing(root, paths))
  }

  /** `findNextFile` on the scanned files: the first file to encode, or None for `null`. */
  function FindNextFile(files: seq<string>, extensions: seq<string>, matches: string -> bool): Option<string> {
    var candidates := FilesToEncode(files, extensions, matches);
    if |candidates| > 0 then Some(candidates[0]) else None
  }

  /** `if (nextFile)`: a file was found and its path is not the empty string, which is falsy. */
  predicate Found(nextFile: Option<string>) {
    nextFile.Some? && nextFile.value != ""
  }

  /** The first qualifying file in scan order is chosen, and nothing exactly when no file qualifies. */
  lemma FirstQualifying(files: seq<string>, extensions: seq<string>, matches: string -> bool)
    ensures FindNextFile(files, extensions, matches).None? <==>
              forall i :: 0 <= i < |files| ==> !Qualifies(files[i], extensions, matches)
    ensures FindNextFile(files, extensions, matches).Some? ==>
              exists k :: 0 <= k < |files| && files[k] == FindNextFile(files, extensions, matches).value
                          && Qualifies(files[k], extensions, matches)
                          && forall j :: 0 <= j < k ==> !Qualifies(files[j], extensions, matches)
  {
    FilterFirst(files, p => Qualifies(p, extensions, matches));
  }

  /**
   * `if (nextFile)` differs from a test for `null` only on the empty path, which is chosen only when it
   * is listed and the empty extension is listed too.
   */
  lemma EmptyPathChosen(files: seq<string>, extensions: seq<string>, matches: string -> bool)
    ensures FindNextFile(files, extensions, matches) == Some("") ==>
              "" in files && "" in extensions && !matches("")
    ensures "" !in extensions ==>
              (Found(FindNextFile(files, extensions, matches)) <==> FindNextFile(files, extensions, matches).Some?)
  {
    FirstQualifying(files, extensions, matches);
    assert FileExtension("") == "";
  }

  /** The earlier listing wins: files scanned later matter only when the earlier ones have nothing to encode. */
  lemma ScanOrderDecides(a: seq<string>, b: seq<string>, extensions: seq<string>, matches: string -> bool)
    ensures FindNextFile(a + b, extensions, matches) ==
              if FindNextFile(a, extensions, matches).Some? then FindNextFile(a, extensions, matches)
              else FindNextFile(b, extensions, matches)
  {
    FilterAppend(a, b, p => Qualifies(p, extensions, matches));
  }

  /** The roots are searched in their order: a later root matters only when the earlier ones have nothing to encode. */
  lemma RootOrderDecides(scanPaths: seq<string>, root: string, listing: string -> seq<string>,
                         extensions: seq<string>, matches: string -> bool)
    ensures var earlier := FindNextFile(AllFiles(scanPaths, listing), extensions, matches);
            FindNextFile(AllFiles(scanPaths + [root], listing), extensions, matches) ==
              if earlier.Some? then earlier else FindNextFile(listing(root), extensions, matches)
  {
    assert (scanPaths + [root])[..|scanPaths|] == scanPaths;
    ScanOrderDecides(AllFiles(scanPaths, listing), listing(root), extensions, matches);
  }

  /** A file that does not qualify, wherever it appears in the scan, leaves the choice unchanged. */
  lemma NonQualifyingIgnored(a: seq<string>, x: string, b: seq<string>, extensions: seq<string>,
                             matches: string -> bool)
    requires !Qualifies(x, extensions, matches)
    ensures FindNextFile(a + [x] + b, extensions, matches) == FindNextFile(a + b, extensions, matches)
  {
    var keep := p => Qualifies(p, extensions, matches);
    FilterAppend(a + [x], b, keep);
    FilterAppend(a, [x], keep);
    FilterAppend(a, b, keep);
    assert Filter([x], keep) == [];
  }

  /** A name "stem.ext" qualifies exactly when "ext", with its case, is listed and the pattern does not match. */
  lemma ExtensionMatchedExactly(dir: string, stem: string, ext: string, extensions: seq<string>,
                                matches: string -> bool)
    requires dir != "" && stem != "" && '/' !in stem && '/' !in ext && '.' !in ext
    requires stem + "." + ext != ".."
    ensures var p := Join(dir, stem + "." + ext);
            Qualifies(p, extensions, matches) <==> ext in extensions && !matches(p)
  {
    NameParts(dir, stem, ext);
  }

  // ---------------------------------------------------------------- processFile

  /** How `processFile` calls the encoding service. */
  datatype ServiceCall =
    | AsWritten // `encode(sourcePath, targetPath)`: the service destructures `{ preview }` from a missing argument
    | Corrected // `encode(sourcePath, targetPath, {})`: no preview limit

  /** `encodedSuffix = ""`: the default when the option is undefined. */
  function SuffixOrDefault(encodedSuffix: Option<string>): string {
    if encodedSuffix.Some? then encodedSuffix.value else ""
  }

  /** The file `processFile` encodes into: the source's directory and name without extension, suffix, ".mp4". */
  function Target(sourcePath: string, encodedSuffix: Option<string>): string {
    LegacyPathUtils.TargetPathForSourcePath(sourcePath, SuffixOrDefault(encodedSuffix))
  }

  /** What `processFile` returns or throws for an encoder outcome. */
  function ProcessResult(call: ServiceCall, outcome: EncoderOutcome): Result<(), Error> {
    if call.AsWritten? then Err(TypeError) else if outcome.Encoded? then Ok(()) else Err(EncodingError)
  }

  /**
   * `processFile`: encodes straight into the target path, with no in-progress file and no failure marker.
   * As written the service throws a TypeError before the encoder starts.
   */
  method ProcessFile(fs: FileSystem, call: ServiceCall, sourcePath: string, encodedSuffix: Option<string>,
                     outcome: EncoderOutcome)
    returns (r: Result<(), Error>)
    modifies fs
    ensures r == ProcessResult(call, outcome)
    ensures call.AsWritten? ==> r == Err(TypeError) && fs.paths == old(fs.paths) && fs.trace == old(fs.trace)
    ensures call.Corrected? ==>
              && (r.Ok? <==> outcome.Encoded?)
              && (r.Err? ==> r.error == EncodingError)
              && fs.trace == old(fs.trace) + [Op.Encode(sourcePath, Target(sourcePath, encodedSuffix), outcome)]
              && fs.paths == if WritesOutput(outcome) then old(fs.paths) + {Target(sourcePath, encodedSuffix)}
                             else old(fs.paths)
  {
    var targetPath := Target(sourcePath, encodedSuffix);
    if call.AsWritten? {
      return Err(TypeError);
    }
    var ok := fs.RunEncoder(sourcePath, targetPath, outcome);
    if ok {
      r := Ok(());
    } else {
      r := Err(EncodingError);
    }
  }

  /** The target keeps the source's directory, and its name is the source name without extension + suffix + ".mp4". */
  lemma TargetShape(sourcePath: string, encodedSuffix: Option<string>)
    requires encodedSuffix.Some? ==> '/' !in encodedSuffix.value
    ensures Dirname(Target(sourcePath, encodedSuffix)) == Dirname(sourcePath)
    ensures Basename(Target(sourcePath, encodedSuffix)) == Stem(sourcePath) + SuffixOrDefault(encodedSuffix) + ".mp4"
  {
    LegacyPathUtils.TargetPathForSourcePathShape(sourcePath, SuffixOrDefault(encodedSuffix));
  }

  // ---------------------------------------------------------------- run

  /** The options `run` reads; `loopInterval` 0 is JavaScript's falsy value. */
  datatype LegacyOptions = LegacyOptions(extensions: seq<string>, loopInterval: nat, encodedSuffix: Option<string>)

  /**
   * A pass of the loop that did something. Both kinds record the paths that existed when the pass began
   * and what the scan reported; an attempt also records the file, the encoder's outcome and the result.
   */
  datatype Step =
    | Attempted(present: set<string>, scanned: seq<string>, file: string, outcome: EncoderOutcome,
                result: Result<(), Error>)
    | Slept(present: set<string>, scanned: seq<string>)

  /** How `run` ends: it returns, it throws, or it is still looping when the model stops watching. */
  datatype RunOutcome = Finished | Raised(error: Error) | StillRunning

  /** An attempt is on the file `findNextFile` chose from its scan; a sleep follows a search that found nothing. */
  predicate Follows(s: Step, opts: LegacyOptions, matches: string -> bool) {
    var nextFile := FindNextFile(s.scanned, opts.extensions, matches);
    match s
    case Slept(_, _) => opts.loopInterval != 0 && !Found(nextFile)
    case Attempted(_, _, file, _, _) => Found(nextFile) && nextFile == Some(file)
  }

  /**
   * Step `s`, made by the pass numbered `n`, scanned the paths that existed when it began, and an attempt's
   * result is `processFile`'s on the outcome the encoder gave on that pass.
   */
  predicate StepPerformed(s: Step, n: nat, scanPaths: seq<string>, listing: (string, set<string>) -> seq<string>,
                          opts: LegacyOptions, call: ServiceCall, encoder: (nat, string) -> EncoderOutcome)
  {
    && s.scanned == Scan(scanPaths, listing, s.present)
    && (s.Attempted? ==> s.outcome == encoder(n, s.file) && s.result == ProcessResult(call, s.outcome))
  }

  /** The paths a step leaves: an encoding that writes output adds the target. */
  function PathsAfterStep(s: Step, opts: LegacyOptions, call: ServiceCall): set<string> {
    if s.Attempted? && call.Corrected? && WritesOutput(s.outcome) then s.present + {Target(s.file, opts.encodedSuffix)}
    else s.present
  }

  /**
   * The steps are what the passes of a run did, starting on the paths `start`: each follows
   * `findNextFile`, began on the paths the step before it left and was performed on them, and the
   * last leaves the paths `paths`.
   */
  predicate Recorded(steps: seq<Step>, start: set<string>, paths: set<string>, scanPaths: seq<string>,
                     listing: (string, set<string>) -> seq<string>, opts: LegacyOptions, matches: string -> bool,
                     call: ServiceCall, encoder: (nat, string) -> EncoderOutcome)
    decreases |steps|
  {
    if steps == [] then paths == start
    else
      var previous, s := steps[..|steps| - 1], steps[|steps| - 1];
      && Recorded(previous, start, s.present, scanPaths, listing, opts, matches, call, encoder)
      && Follows(s, opts, matches)
      && StepPerformed(s, |previous|, scanPaths, listing, opts, call, encoder)
      && paths == PathsAfterStep(s, opts, call)
  }

  predicate Succeeded(s: Step) {
    s.Slept? || s.result.Ok?
  }

  /** Every step returned normally. */
  predicate AllSucceeded(steps: seq<Step>) {
    forall i :: 0 <= i < |steps| ==> Succeeded(steps[i])
  }

  /** No step attempted a file. */
  predicate OnlySlept(steps: seq<Step>) {
    forall i :: 0 <= i < |steps| ==> steps[i].Slept?
  }

  /** What holds while the loop goes on: the steps are recorded and none has thrown. */
  predicate Running(steps: seq<Step>, start: set<string>, paths: set<string>, scanPaths: seq<string>,
                    listing: (string, set<string>) -> seq<string>, opts: LegacyOptions, matches: string -> bool,
                    call: ServiceCall, encoder: (nat, string) -> EncoderOutcome)
  {
    && Recorded(steps, start, paths, scanPaths, listing, opts, matches, call, encoder)
    && AllSucceeded(steps)
    && (call.AsWritten? ==> OnlySlept(steps))
  }

  /**
   * How the steps end the run: a run that did not throw threw at no step; one that threw did so at its
   * last step and with that step's error. As written only that last step is an attempt, and it threw a
   * TypeError; corrected, every attempt that threw threw an EncodingError.
   */
  predicate EndedAs(steps: seq<Step>, outcome: RunOutcome, call: ServiceCall) {
    && (!outcome.Raised? ==> AllSucceeded(steps))
    && (outcome.Raised? ==>
          && steps != [] && AllSucceeded(steps[..|steps| - 1]) && !Succeeded(steps[|steps| - 1])
          && outcome.error == steps[|steps| - 1].result.error)
    && (call.AsWritten? ==>
          forall i :: 0 <= i < |steps| && steps[i].Attempted? ==> i == |steps| - 1 && outcome == Raised(TypeError))
    && (call.Corrected? ==>
          forall i :: 0 <= i < |steps| && steps[i].Attempted? && steps[i].result.Err? ==>
            steps[i].result.error == EncodingError)
  }

  /** Every encoder run in the trace writes its source's target. */
  predicate EncodesIntoTargets(ops: seq<Op>, encodedSuffix: Option<string>) {
    forall k {:trigger ops[k].destination} :: 0 <= k < |ops| && ops[k].Encode? ==>
      ops[k].destination == Target(ops[k].source, encodedSuffix)
  }

  /**
   * `run`, for at most `fuel` passes that attempt or sleep. `listing(root, paths)` is what scanning `root`
   * reports when `paths` exist; `encoder(n, file)` is the outcome of the n-th pass's encoding.
   */
  method Run(fs: FileSystem, call: ServiceCall, scanPaths: seq<string>, opts: LegacyOptions, matches: string -> bool,
             listing: (string, set<string>) -> seq<string>, encoder: (nat, string) -> EncoderOutcome, fuel: nat)
    returns (outcome: RunOutcome, steps: seq<Step>, ghost ops: seq<Op>)
    modifies fs
    ensures |steps| <= fuel && (outcome.StillRunning? ==> |steps| == fuel)
    ensures Recorded(steps, old(fs.paths), fs.paths, scanPaths, listing, opts, matches, call, encoder)
    ensures outcome.Finished? ==>
              opts.loopInterval == 0 && !Found(FindNextFile(Scan(scanPaths, listing, fs.paths), opts.extensions, matches))
    ensures EndedAs(steps, outcome, call)
    ensures call.AsWritten? ==> fs.trace == old(fs.trace) && fs.paths == old(fs.paths)
    ensures old(fs.paths) <= fs.paths
    ensures fs.trace == old(fs.trace) + ops && EncodesIntoTargets(ops, opts.encodedSuffix)
  {
    steps := [];
    ops := [];
    while |steps| < fuel
      invariant |steps| <= fuel
      invariant Running(steps, old(fs.paths), fs.paths, scanPaths, listing, opts, matches, call, encoder)
      invariant call.AsWritten? ==> fs.trace == old(fs.trace) && fs.paths == old(fs.paths)
      invariant fs.trace == old(fs.trace) + ops && EncodesIntoTargets(ops, opts.encodedSuffix)
    {
      ghost var paths := fs.paths;
      var step, more := Pass(fs, call, scanPaths, opts, matches, listing, encoder, |steps|);
      OpsAppended(old(fs.trace), ops, more, opts.encodedSuffix);
      ops := ops + more;
      if step.None? {
        outcome := Finished;
        StoppedQuietly(steps, outcome, call);
        PathsOnlyGrow(steps, old(fs.paths), fs.paths, scanPaths, listing, opts, matches, call, encoder);
        return;
      }
      StepRecorded(steps, step.value, old(fs.paths), paths, scanPaths, listing, opts, matches, call, encoder);
      if !Succeeded(step.value) {
        StepThrew(steps, step.value, scanPaths, listing, opts, call, encoder);
        steps := steps + [step.value];
        outcome := Raised(step.value.result.error);
        PathsOnlyGrow(steps, old(fs.paths), fs.paths, scanPaths, listing, opts, matches, call, encoder);
        return;
      }
      steps := steps + [step.value];
    }
    outcome := StillRunning;
    StoppedQuietly(steps, outcome, call);
    PathsOnlyGrow(steps, old(fs.paths), fs.paths, scanPaths, listing, opts, matches, call, encoder);
  }

  /**
   * One pass of the loop: search, then attempt the file found, sleep, or (None) break. This is pass
   * number `n`, and `encoder(n, file)` is the outcome of its encoding.
   */
  method Pass(fs: FileSystem, call: ServiceCall, scanPaths: seq<string>, opts: LegacyOptions, matches: string -> bool,
              listing: (string, set<string>) -> seq<string>, encoder: (nat, string) -> EncoderOutcome, n: nat)
    returns (step: Option<Step>, ghost ops: seq<Op>)
    modifies fs
    ensures step.None? <==>
              opts.loopInterval == 0
              && !Found(FindNextFile(Scan(scanPaths, listing, old(fs.paths)), opts.extensions, matches))
    ensures step.Some? ==>
              && Follows(step.value, opts, matches)
              && step.value.present == old(fs.paths)
              && StepPerformed(step.value, n, scanPaths, listing, opts, call, encoder)
    ensures step.None? ==> fs.paths == old(fs.paths)
    ensures step.Some? ==> fs.paths == PathsAfterStep(step.value, opts, call)
    ensures (call.AsWritten? || !(step.Some? && step.value.Attempted?)) ==> ops == []
    ensures fs.trace == old(fs.trace) + ops && EncodesIntoTargets(ops, opts.encodedSuffix)
  {
    var present := fs.paths;
    var scanned := Scan(scanPaths, listing, present);
    var nextFile := FindNextFile(scanned, opts.extensions, matches);
    ops := [];
    if nextFile.Some? && nextFile.value != "" {
      var file := nextFile.value;
      var outcome := encoder(n, file);
      var result := ProcessFile(fs, call, file, opts.encodedSuffix, outcome);
      if call.Corrected? {
        ops := [Op.Encode(file, Target(file, opts.encodedSuffix), outcome)];
        assert ops[0].destination == Target(ops[0].source, opts.encodedSuffix);
      } else {
        assert fs.trace == old(fs.trace) + ops;
      }
      step := Some(Attempted(present, scanned, file, outcome, result));
    } else if opts.loopInterval != 0 {
      assert fs.trace == old(fs.trace) + ops;
      step := Some(Slept(present, scanned));
    } else {
      assert fs.trace == old(fs.trace) + ops;
      step := None;
    }
  }

  /** Operations appended after operations that encode into targets keep the whole run doing so. */
  lemma OpsAppended(start: seq<Op>, ops: seq<Op>, more: seq<Op>, encodedSuffix: Option<string>)
    requires EncodesIntoTargets(ops, encodedSuffix) && EncodesIntoTargets(more, encodedSuffix)
    ensures EncodesIntoTargets(ops + more, encodedSuffix)
    ensures start + ops + more == start + (ops + more)
  {
    forall k | 0 <= k < |ops + more| && (ops + more)[k].Encode?
      ensures (ops + more)[k].destination == Target((ops + more)[k].source, encodedSuffix)
    {
      if k >= |ops| {
        assert (ops + more)[k] == more[k - |ops|];
      }
    }
  }

  /**
   * A step that a pass made on the paths the steps before it left is recorded after them, and the loop
   * goes on after it when it did not throw.
   */
  lemma StepRecorded(previous: seq<Step>, s: Step, start: set<string>, paths: set<string>, scanPaths: seq<string>,
                     listing: (string, set<string>) -> seq<string>, opts: LegacyOptions, matches: string -> bool,
                     call: ServiceCall, encoder: (nat, string) -> EncoderOutcome)
    requires Running(previous, start, paths, scanPaths, listing, opts, matches, call, encoder)
    requires Follows(s, opts, matches) && s.present == paths
    requires StepPerformed(s, |previous|, scanPaths, listing, opts, call, encoder)
    ensures Recorded(previous + [s], start, PathsAfterStep(s, opts, call), scanPaths, listing, opts, matches, call,
                     encoder)
    ensures Succeeded(s) ==>
              Running(previous + [s], start, PathsAfterStep(s, opts, call), scanPaths, listing, opts, matches, call,
                      encoder)
  {
    var steps := previous + [s];
    assert steps[..|previous|] == previous;
    assert forall i :: 0 <= i < |previous| ==> steps[i] == previous[i];
  }

  /**
   * A step that threw after steps that did not ends the run with its error: as written it is the only
   * attempt and threw a TypeError, corrected it threw an EncodingError.
   */
  lemma StepThrew(previous: seq<Step>, s: Step, scanPaths: seq<string>, listing: (string, set<string>) -> seq<string>,
                  opts: LegacyOptions, call: ServiceCall, encoder: (nat, string) -> EncoderOutcome)
    requires AllSucceeded(previous) && (call.AsWritten? ==> OnlySlept(previous))
    requires StepPerformed(s, |previous|, scanPaths, listing, opts, call, encoder)
    requires !Succeeded(s)
    ensures EndedAs(previous + [s], Raised(s.result.error), call)
    ensures call.AsWritten? ==> s.result == Err(TypeError)
  {
    var steps := previous + [s];
    assert steps[..|previous|] == previous;
    assert forall i :: 0 <= i < |previous| ==> steps[i] == previous[i] && Succeeded(steps[i]);
  }

  /** Nothing a run records removes a path: every step leaves at least the paths it began on. */
  lemma {:induction false} PathsOnlyGrow(steps: seq<Step>, start: set<string>, paths: set<string>,
                                         scanPaths: seq<string>, listing: (string, set<string>) -> seq<string>,
                                         opts: LegacyOptions, matches: string -> bool, call: ServiceCall,
                                         encoder: (nat, string) -> EncoderOutcome)
    requires Recorded(steps, start, paths, scanPaths, listing, opts, matches, call, encoder)
    ensures start <= paths
    decreases |steps|
  {
    if steps != [] {
      var s := steps[|steps| - 1];
      PathsOnlyGrow(steps[..|steps| - 1], start, s.present, scanPaths, listing, opts, matches, call, encoder);
    }
  }

  /** A run that stops without throwing, after steps none of which threw, ends as they do. */
  lemma StoppedQuietly(steps: seq<Step>, outcome: RunOutcome, call: ServiceCall)
    requires AllSucceeded(steps) && (call.AsWritten? ==> OnlySlept(steps))
    requires !outcome.Raised?
    ensures EndedAs(steps, outcome, call)
  {
    assert forall i :: 0 <= i < |steps| ==> Succeeded(steps[i]);
  }

  // ---------------------------------------------------------------- properties

  /**
   * Encoding never removes the source, and a target the exclusion pattern matches does not qualify: after a
   * successful encoding the next scan, if it only gains the target, chooses the same source again.
   */
  lemma SourceChosenAgain(a: seq<string>, b: seq<string>, source: string, opts: LegacyOptions,
                          matches: string -> bool)
    requires FindNextFile(a + b, opts.extensions, matches) == Some(source)
    requires matches(Target(source, opts.encodedSuffix))
    ensures FindNextFile(a + [Target(source, opts.encodedSuffix)] + b, opts.extensions, matches) == Some(source)
  {
    NonQualifyingIgnored(a, Target(source, opts.encodedSuffix), b, opts.extensions, matches);
  }
}
