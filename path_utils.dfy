/**
 * The derived paths of one source file (app/utils/path.js): where the encoded
 * file goes (the target), the hidden file the encoder writes while it works
 * (in progress) and the tombstone left after a failure (failed). Every name
 * built here is cut to 240 characters before the marker is added.
 */
module PathUtils {
  import opened PosixPath

  const MaxNameLength: nat := 240

  /** `s.slice(0, n)`. */
  function Take(s: string, n: nat): (r: string)
    ensures |r| == if |s| <= n then |s| else n
    ensures r == s[..|r|]
    ensures |s| <= n ==> r == s
    ensures forall c :: c in r ==> c in s
  {
    if |s| <= n then s else s[..n]
  }

  /** `getTargetPathFromSourcePath`: the source's directory, its name without extension plus the suffix, capped. */
  function TargetPath(sourcePath: string, encodedSuffix: string): string {
    Join(Dirname(sourcePath), Take(Stem(sourcePath) + encodedSuffix, MaxNameLength))
  }

  /** `getWorkInProgressPathFromTargetPath`: "." + capped target name + ".tmp", beside the target. */
  function WorkInProgressPath(targetPath: string): string {
    Join(Dirname(targetPath), "." + Take(Basename(targetPath), MaxNameLength) + ".tmp")
  }

  /** `getFailedPathFromTargetPath`: capped target name + ".failed", beside the target. */
  function FailedPath(targetPath: string): string {
    Join(Dirname(targetPath), Take(Basename(targetPath), MaxNameLength) + ".failed")
  }

  /** The failed path stays in the target's directory and its name is the capped target name + ".failed". */
  lemma FailedPathShape(targetPath: string)
    ensures Dirname(FailedPath(targetPath)) == Dirname(targetPath)
    ensures Basename(FailedPath(targetPath)) == Take(Basename(targetPath), MaxNameLength) + ".failed"
    ensures |Basename(targetPath)| <= MaxNameLength ==>
              Basename(FailedPath(targetPath)) == Basename(targetPath) + ".failed"
    ensures |Basename(FailedPath(targetPath))| <= MaxNameLength + 7
  {
    var name := Take(Basename(targetPath), MaxNameLength) + ".failed";
    assert '/' !in name;
    JoinParts(Dirname(targetPath), name);
  }

  /** The in-progress path stays beside the target, is hidden, and its name is at most 245 characters. */
  lemma WorkInProgressPathShape(targetPath: string)
    ensures Dirname(WorkInProgressPath(targetPath)) == Dirname(targetPath)
    ensures Basename(WorkInProgressPath(targetPath)) == "." + Take(Basename(targetPath), MaxNameLength) + ".tmp"
    ensures |Basename(targetPath)| <= MaxNameLength ==>
              Basename(WorkInProgressPath(targetPath)) == "." + Basename(targetPath) + ".tmp"
    ensures Basename(WorkInProgressPath(targetPath))[0] == '.'
    ensures |Basename(WorkInProgressPath(targetPath))| <= MaxNameLength + 5
  {
    var name := "." + Take(Basename(targetPath), MaxNameLength) + ".tmp";
    assert '/' !in name;
    JoinParts(Dirname(targetPath), name);
  }

  /**
   * The target stays in the source's directory; with a suffix free of '/' its name is the
   * first 240 characters of the source name without extension followed by the suffix.
   */
  lemma TargetPathShape(sourcePath: string, encodedSuffix: string)
    requires '/' !in encodedSuffix
    ensures Dirname(TargetPath(sourcePath, encodedSuffix)) == Dirname(sourcePath)
    ensures Basename(TargetPath(sourcePath, encodedSuffix)) == Take(Stem(sourcePath) + encodedSuffix, MaxNameLength)
  {
    var name := Take(Stem(sourcePath) + encodedSuffix, MaxNameLength);
    StemHasNoSlash(sourcePath);
    assert '/' !in Stem(sourcePath) + encodedSuffix;
    JoinParts(Dirname(sourcePath), name);
  }

  /** Whatever the source name and the suffix, the target name is at most 240 characters long. */
  lemma TargetNameBounded(sourcePath: string, encodedSuffix: string)
    ensures |Basename(TargetPath(sourcePath, encodedSuffix))| <= MaxNameLength
  {
    JoinBasenameTail(Dirname(sourcePath), Take(Stem(sourcePath) + encodedSuffix, MaxNameLength));
  }

  /** A name of at most 240 characters gets strictly longer markers, so neither marker is the target itself. */
  lemma MarkersDifferFromTarget(targetPath: string)
    requires |Basename(targetPath)| <= MaxNameLength
    ensures FailedPath(targetPath) != targetPath
    ensures WorkInProgressPath(targetPath) != targetPath
  {
    FailedPathShape(targetPath);
    WorkInProgressPathShape(targetPath);
  }

  /** The two markers never coincide: one name ends in "d", the other in "p". */
  lemma MarkersDiffer(targetPath: string)
    ensures FailedPath(targetPath) != WorkInProgressPath(targetPath)
  {
    FailedPathShape(targetPath);
    WorkInProgressPathShape(targetPath);
    var f := Basename(FailedPath(targetPath));
    var w := Basename(WorkInProgressPath(targetPath));
    assert f[|f| - 1] == 'd' && w[|w| - 1] == 'p';
  }

  /** For every source and suffix, the target, in-progress and failed paths are three different paths. */
  lemma DerivedPathsDistinct(sourcePath: string, encodedSuffix: string)
    ensures var t := TargetPath(sourcePath, encodedSuffix);
            t != WorkInProgressPath(t) && t != FailedPath(t) && WorkInProgressPath(t) != FailedPath(t)
  {
    var t := TargetPath(sourcePath, encodedSuffix);
    TargetNameBounded(sourcePath, encodedSuffix);
    MarkersDifferFromTarget(t);
    MarkersDiffer(t);
  }

  /** A target named `name` (at most 240 characters) in `dir` fails to `dir`/`name`.failed. */
  lemma FailedPathOfName(dir: string, name: string)
    requires dir != "" && '/' !in name && |name| <= MaxNameLength
    ensures FailedPath(Join(dir, name)) == Join(dir, name + ".failed")
  {
    JoinParts(dir, name);
  }

  /** A target named `name` (at most 240 characters) in `dir` is staged at `dir`/.`name`.tmp. */
  lemma WorkInProgressPathOfName(dir: string, name: string)
    requires dir != "" && '/' !in name && |name| <= MaxNameLength
    ensures WorkInProgressPath(Join(dir, name)) == Join(dir, "." + name + ".tmp")
  {
    JoinParts(dir, name);
  }

  /** A source `dir`/`stem`.`ext` is encoded to `dir`/`stem``suffix` while that name fits in 240 characters. */
  lemma TargetPathOfName(dir: string, stem: string, ext: string, encodedSuffix: string)
    requires dir != "" && stem != "" && '/' !in stem && '/' !in ext && '.' !in ext
    requires stem + "." + ext != ".."
    requires |stem + encodedSuffix| <= MaxNameLength
    ensures TargetPath(Join(dir, stem + "." + ext), encodedSuffix) == Join(dir, stem + encodedSuffix)
  {
    JoinParts(dir, stem + "." + ext);
    NameParts(dir, stem, ext);
  }
}
