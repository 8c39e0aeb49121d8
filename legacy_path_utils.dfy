/**
 * The older path helpers (utils/path.js): the ".mp4" extension is appended to
 * the suffix here rather than by the caller, and no name is capped.
 */
module LegacyPathUtils {
  import opened PosixPath
  import PathUtils

  /** `getTargetPathForSourcePath`: source name without extension + suffix + ".mp4", uncapped. */
  function TargetPathForSourcePath(sourcePath: string, encodedSuffix: string): string {
    Join(Dirname(sourcePath), Stem(sourcePath) + encodedSuffix + ".mp4")
  }

  /** `getFailedPathForTargetPath`: target name + ".failed", uncapped. */
  function FailedPathForTargetPath(targetPath: string): string {
    Join(Dirname(targetPath), Basename(targetPath) + ".failed")
  }

  /** `getWorkInProgressPathFromTargetPath`: "." + target name + ".tmp", uncapped. */
  function WorkInProgressPathFromTargetPath(targetPath: string): string {
    Join(Dirname(targetPath), "." + Basename(targetPath) + ".tmp")
  }

  /** The legacy target keeps the directory and appends suffix and ".mp4" to the name without extension. */
  lemma TargetPathForSourcePathShape(sourcePath: string, encodedSuffix: string)
    requires '/' !in encodedSuffix
    ensures Dirname(TargetPathForSourcePath(sourcePath, encodedSuffix)) == Dirname(sourcePath)
    ensures Basename(TargetPathForSourcePath(sourcePath, encodedSuffix)) == Stem(sourcePath) + encodedSuffix + ".mp4"
  {
    var name := Stem(sourcePath) + encodedSuffix + ".mp4";
    StemHasNoSlash(sourcePath);
    assert '/' !in name;
    JoinParts(Dirname(sourcePath), name);
  }

  /** The legacy markers sit beside the target with the whole target name inside, however long. */
  lemma MarkerShapes(targetPath: string)
    ensures Dirname(FailedPathForTargetPath(targetPath)) == Dirname(targetPath)
    ensures Basename(FailedPathForTargetPath(targetPath)) == Basename(targetPath) + ".failed"
    ensures Dirname(WorkInProgressPathFromTargetPath(targetPath)) == Dirname(targetPath)
    ensures Basename(WorkInProgressPathFromTargetPath(targetPath)) == "." + Basename(targetPath) + ".tmp"
  {
    JoinParts(Dirname(targetPath), Basename(targetPath) + ".failed");
    JoinParts(Dirname(targetPath), "." + Basename(targetPath) + ".tmp");
  }

  /** Without the cap, a target name longer than 248 characters gets a failed name longer than 255. */
  lemma FailedNameUnbounded(targetPath: string)
    requires |Basename(targetPath)| > 248
    ensures |Basename(FailedPathForTargetPath(targetPath))| > 255
  {
    MarkerShapes(targetPath);
  }

  /** While names fit in 240 characters the legacy helpers agree with the capped ones (given suffix + ".mp4"). */
  lemma AgreesWithCappedPaths(sourcePath: string, encodedSuffix: string)
    requires |Stem(sourcePath) + encodedSuffix + ".mp4"| <= PathUtils.MaxNameLength
    ensures TargetPathForSourcePath(sourcePath, encodedSuffix) == PathUtils.TargetPath(sourcePath, encodedSuffix + ".mp4")
  {
    var stem := Stem(sourcePath);
    var name := stem + encodedSuffix + ".mp4";
    assert stem + (encodedSuffix + ".mp4") == name;
    assert PathUtils.Take(name, PathUtils.MaxNameLength) == name;
  }

  lemma MarkersAgreeWithCappedPaths(targetPath: string)
    requires |Basename(targetPath)| <= PathUtils.MaxNameLength
    ensures FailedPathForTargetPath(targetPath) == PathUtils.FailedPath(targetPath)
    ensures WorkInProgressPathFromTargetPath(targetPath) == PathUtils.WorkInProgressPath(targetPath)
  {
  }
}
