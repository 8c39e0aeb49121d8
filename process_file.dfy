/**
 * One encoding attempt (app/core/process-file.js): encode into the hidden
 * in-progress file, publish it by renaming it to the target, and on any error
 * leave a failed tombstone and re-throw. The source is removed only after a
 * successful publish, and only when asked to.
 */
module Attempts {
  import opened PathUtils
  import opened Files

  /** How an attempt ends: it returns, or it throws. */
  datatype AttemptResult = Completed | Threw(error: Error)

  /** The outcome of an attempt: its result, the paths that exist afterwards and the operations it made. */
  datatype Attempt = Attempt(result: AttemptResult, paths: set<string>, ops: seq<Op>)

  /** The catch block: tombstone the in-progress file (or create an empty tombstone) and re-throw. */
  function Tombstone(paths: set<string>, faulty: set<string>, wip: string, failed: string, error: Error, ops: seq<Op>)
    : Attempt
  {
    if wip in paths then
      var moved := wip !in faulty && failed !in faulty;
      Attempt(Threw(error), if moved then paths - {wip} + {failed} else paths,
              ops + [Probe(wip, true), Move(wip, failed, moved)])
    else
      var touched := failed !in faulty;
      Attempt(if touched then Threw(error) else Threw(FileSystemError),
              if touched then paths + {failed} else paths,
              ops + [Probe(wip, false), Touch(failed, touched)])
  }

  /** The try block and its catch, on the source and the three paths derived from it. */
  function AttemptAt(paths: set<string>, faulty: set<string>, source: string, target: string, wip: string,
                     failed: string, deleteSource: bool, outcome: EncoderOutcome): Attempt
  {
    var encoded := if WritesOutput(outcome) then paths + {wip} else paths;
    var ops := [Encode(source, wip, outcome)];
    if !outcome.Encoded? then
      Tombstone(encoded, faulty, wip, failed, EncodingError, ops)
    else if !(wip !in faulty && target !in faulty) then
      Tombstone(encoded, faulty, wip, failed, FileSystemError, ops + [Move(wip, target, false)])
    else
      var published := encoded - {wip} + {target};
      var ops' := ops + [Move(wip, target, true)];
      if !deleteSource then Attempt(Completed, published, ops')
      else if source in faulty then Attempt(Threw(FileSystemError), published, ops' + [Remove(source, false)])
      else Attempt(Completed, published - {source}, ops' + [Remove(source, true)])
  }

  /** The whole attempt on source `source`, as a function of the file system before it. */
  function AttemptOf(paths: set<string>, faulty: set<string>, source: string, encodedSuffix: string,
                     deleteSource: bool, outcome: EncoderOutcome): Attempt
  {
    var target := TargetPath(source, encodedSuffix);
    AttemptAt(paths, faulty, source, target, WorkInProgressPath(target), FailedPath(target), deleteSource, outcome)
  }

  /** The attempt runner: it performs exactly the attempt AttemptOf describes. */
  method ProcessFile(fs: FileSystem, source: string, encodedSuffix: string, deleteSource: bool,
                     outcome: EncoderOutcome)
    returns (result: AttemptResult)
    modifies fs
    ensures var a := AttemptOf(old(fs.paths), fs.faulty, source, encodedSuffix, deleteSource, outcome);
            result == a.result && fs.paths == a.paths && fs.trace == old(fs.trace) + a.ops
  {
    var target := TargetPath(source, encodedSuffix);
    result := RunAttempt(fs, source, target, WorkInProgressPath(target), FailedPath(target), deleteSource, outcome);
  }

  /** The try block and its catch, on the derived paths. */
  method RunAttempt(fs: FileSystem, source: string, target: string, wip: string, failed: string, deleteSource: bool,
                   outcome: EncoderOutcome)
    returns (result: AttemptResult)
    modifies fs
    ensures var a := AttemptAt(old(fs.paths), fs.faulty, source, target, wip, failed, deleteSource, outcome);
            result == a.result && fs.paths == a.paths && fs.trace == old(fs.trace) + a.ops
  {
    var error: Error;
    var encoded := fs.RunEncoder(source, wip, outcome);
    if encoded {
      var published := fs.Move(wip, target);
      if published {
        if deleteSource {
          var removed := fs.Remove(source);
          if !removed {
            return Threw(FileSystemError);
          }
        }
        return Completed;
      }
      error := FileSystemError;
    } else {
      error := EncodingError;
    }
    var present := fs.Exists(wip);
    if present {
      var _ := fs.Move(wip, failed);
    } else {
      var touched := fs.Touch(failed);
      if !touched {
        return Threw(FileSystemError);
      }
    }
    return Threw(error);
  }

  // ---------------------------------------------------------------- properties

  /**
   * The properties below hold for any three different derived paths; DerivedPathsDistinct shows that the
   * target, in-progress and failed paths of every source are different, so they hold for AttemptOf.
   */
  predicate Distinct(target: string, wip: string, failed: string) {
    target != wip && target != failed && wip != failed
  }

  /** The encoder is run first, on the source, and writes to the in-progress path; it is never run again. */
  lemma EncodesFirst(paths: set<string>, faulty: set<string>, source: string, target: string, wip: string,
                     failed: string, deleteSource: bool, outcome: EncoderOutcome)
    ensures var a := AttemptAt(paths, faulty, source, target, wip, failed, deleteSource, outcome);
            && |a.ops| >= 2
            && a.ops[0] == Encode(source, wip, outcome)
            && forall i :: 0 < i < |a.ops| ==> !a.ops[i].Encode?
  {
  }

  /** For a real source: the encoder writes to the in-progress path of its target, which is never the target. */
  lemma EncodesIntoWorkInProgress(paths: set<string>, faulty: set<string>, source: string, encodedSuffix: string,
                                  deleteSource: bool, outcome: EncoderOutcome)
    ensures var a := AttemptOf(paths, faulty, source, encodedSuffix, deleteSource, outcome);
            var target := TargetPath(source, encodedSuffix);
            && |a.ops| >= 2
            && a.ops[0] == Encode(source, WorkInProgressPath(target), outcome)
            && a.ops[0].destination != target
            && forall i :: 0 < i < |a.ops| ==> !a.ops[i].Encode?
  {
    var target := TargetPath(source, encodedSuffix);
    DerivedPathsDistinct(source, encodedSuffix);
    EncodesFirst(paths, faulty, source, target, WorkInProgressPath(target), FailedPath(target), deleteSource, outcome);
  }

  /** A finished encoding with healthy in-progress and target paths is published and leaves no tombstone. */
  lemma SuccessPublishes(paths: set<string>, faulty: set<string>, source: string, target: string, wip: string,
                         failed: string, deleteSource: bool)
    requires Distinct(target, wip, failed)
    requires wip !in faulty && target !in faulty
    requires failed !in paths
    requires deleteSource ==> source != target
    ensures var a := AttemptAt(paths, faulty, source, target, wip, failed, deleteSource, Encoded);
            && target in a.paths
            && wip !in a.paths
            && failed !in a.paths
            && (a.result.Completed? <==> !deleteSource || source !in faulty)
            && (forall i :: 0 <= i < |a.ops| ==> !a.ops[i].Touch? && !a.ops[i].Probe?)
  {
  }

  /**
   * On any error the in-progress file, when present, becomes the tombstone; when absent an empty
   * tombstone is created. Only a failing touch changes what is thrown.
   */
  lemma FailureTombstones(paths: set<string>, faulty: set<string>, source: string, target: string, wip: string,
                          failed: string, deleteSource: bool, outcome: EncoderOutcome)
    requires Distinct(target, wip, failed)
    requires !outcome.Encoded? || wip in faulty || target in faulty
    ensures var a := AttemptAt(paths, faulty, source, target, wip, failed, deleteSource, outcome);
            var present := WritesOutput(outcome) || wip in paths;
            var error := if outcome.Encoded? then FileSystemError else EncodingError;
            && a.result.Threw?
            && (present ==> Probe(wip, true) in a.ops && Move(wip, failed, wip !in faulty && failed !in faulty) in a.ops)
            && (present && wip !in faulty && failed !in faulty ==> failed in a.paths && wip !in a.paths)
            && (present ==> a.result == Threw(error))
            && (!present ==> Probe(wip, false) in a.ops && Touch(failed, failed !in faulty) in a.ops)
            && (!present && failed !in faulty ==> failed in a.paths && a.result == Threw(error))
            && (!present && failed in faulty ==> a.result == Threw(FileSystemError))
            && (target in a.paths <==> target in paths)
  {
  }

  /** An encoder failure is re-thrown as it is, unless the tombstone itself cannot be created. */
  lemma EncodingErrorRethrown(paths: set<string>, faulty: set<string>, source: string, target: string, wip: string,
                              failed: string, deleteSource: bool, wroteOutput: bool)
    ensures var a := AttemptAt(paths, faulty, source, target, wip, failed, deleteSource, EncodeFailed(wroteOutput));
            a.result == Threw(EncodingError) <==> (wroteOutput || wip in paths || failed !in faulty)
  {
  }

  /** The source is removed exactly when asked to and the in-progress file was published to the target. */
  lemma SourceRemovedOnlyAfterPublish(paths: set<string>, faulty: set<string>, source: string, target: string,
                                      wip: string, failed: string, deleteSource: bool, outcome: EncoderOutcome)
    requires Distinct(target, wip, failed)
    ensures var a := AttemptAt(paths, faulty, source, target, wip, failed, deleteSource, outcome);
            && ((exists i :: 0 <= i < |a.ops| && a.ops[i].Remove?) <==>
                  deleteSource && outcome.Encoded? && Move(wip, target, true) in a.ops)
            && (forall i :: 0 <= i < |a.ops| && a.ops[i].Remove? ==>
                  a.ops[i].path == source && i == |a.ops| - 1 && a.ops[i - 1] == Move(wip, target, true))
  {
    var a := AttemptAt(paths, faulty, source, target, wip, failed, deleteSource, outcome);
    if deleteSource && outcome.Encoded? && Move(wip, target, true) in a.ops {
      assert a.ops[|a.ops| - 1].Remove?;
    }
  }

  /** The attempt returns normally exactly when the encoding was published and, if asked, the source removed. */
  lemma CompletedIff(paths: set<string>, faulty: set<string>, source: string, target: string, wip: string,
                     failed: string, deleteSource: bool, outcome: EncoderOutcome)
    ensures var a := AttemptAt(paths, faulty, source, target, wip, failed, deleteSource, outcome);
            a.result.Completed? <==>
              outcome.Encoded? && wip !in faulty && target !in faulty && (deleteSource ==> source !in faulty)
  {
  }

  /** No path other than the source and its three derived paths is created or removed. */
  lemma OnlyDerivedPathsTouched(paths: set<string>, faulty: set<string>, source: string, target: string, wip: string,
                                failed: string, deleteSource: bool, outcome: EncoderOutcome, other: string)
    requires other != source && other != target && other != wip && other != failed
    ensures var a := AttemptAt(paths, faulty, source, target, wip, failed, deleteSource, outcome);
            other in a.paths <==> other in paths
  {
  }
}
