# mediaplay-encode, modelled in Dafny

mediaplay-encode scans directories for video files and encodes them, one at a
time, into MP4 files beside the source. It keeps no database: the state of
each source lives in files beside it.

- The target `<name><suffix>` records a finished encoding.
- The hidden `.<name><suffix>.tmp` is the file the encoder writes while it works.
- `<name><suffix>.failed` is a tombstone left after a failure.

This project models the engine that picks files and runs attempts, plus the two
small text parsers beside it:

| file | module | models |
|---|---|---|
| `wrappers.dfy` | `Wrappers` | `Option` and `Result` |
| `text.dfy` | `Text` | the JavaScript string operations the code relies on: `trim`, `split` on one character, ASCII `toLowerCase`, `includes`, digit strings, `parseInt(s, 10)` |
| `posix_path.dfy` | `PosixPath` | Node's posix `dirname`, `basename`, `extname`, `basename(p, ext)` and `join`, for paths with no trailing '/' and no leading "//" (see Left out) |
| `path_utils.dfy` | `PathUtils` | `app/utils/path.js`: target, in-progress and failed paths, with names capped at 240 characters |
| `legacy_path_utils.dfy` | `LegacyPathUtils` | `utils/path.js`: the older uncapped helpers, which append `.mp4` themselves |
| `find_next_file.dfy` | `Selector` | `app/core/find-next-file.js`: sort by modification time, six filters, then the pick of the second (or second-to-last) candidate |
| `files.dfy` | `Files` | the file system and the encoder as a class: existing paths, paths on which every operation fails, and a trace of operations |
| `process_file.dfy` | `Attempts` | `app/core/process-file.js`: encode into the in-progress file, publish by rename, tombstone on failure, re-throw, optionally delete the source |
| `encode.dfy` | `Encode` | `app/core/encode.js`: the run loop with `failedFiles`, `filesEncoded`, the EncodingError test and the sleep/stop decision |
| `legacy_encode.dfy` | `LegacyEncode` | `domain/encode.js`: the older first-match selector, target naming and loop |
| `timeout.dfy` | `Timeout` | `parseTimeout` of `app/utils/timeout.js`, with the number kept as an exact decimal (`real`) |
| `progress.dfy` | `Progress` | `parseProgressKeyValue` and `parseProgress` of `app/utils/progress.js`: the integer fields and `timeFormatted` |

Some inputs of the system are parameters of the model:

- The directory scan is a list of `{path, modifiedAt}` records, or a listing function of the existing paths for the legacy code.
- The user's exclusion regular expression is a predicate `string -> bool`.
- Each encoder run's outcome is an input: finished, or failed after or before writing output.
- The file system is a `FileSystem` object. Its `paths` is the set of existing paths. Its `faulty` set holds the paths on which every move, touch or remove fails. Its `trace` records every operation.
- The run loops have no natural bound, so they take a `fuel` argument: the number of passes that attempt a file or sleep. Reaching it gives `StillRunning`.

Where the design description and the code disagree, the model follows the code:

- A scanned target blocks its source only when the exclusion pattern matches it (`app/core/find-next-file.js:46-50`). The mere existence of the target does not block it.
- `process-file.js` has no "already in progress" check before encoding. It also does not re-check the target after encoding. The model has neither.
- There is no encoder timeout in the attempt runner.
- The description has a fourth error kind, PreconditionError. The code has only the errors the encoder or the file system raise, plus the TypeErrors recorded under Findings.

## Model

| member | source | states |
|---|---|---|
| Text.Trim | app/utils/timeout.js:6 | `trim` leaves no white space at either end |
| Text.TrimPadded | app/utils/timeout.js:6 | white space around a trimmed string is exactly what `trim` removes |
| Text.SplitJoin | app/utils/progress.js:6 | joining the pieces of `split` with the separator gives the string back |
| Text.JoinSplit | app/utils/progress.js:80 | separator-free pieces joined with the separator split back into the same pieces |
| Text.SplitHasSeparator | app/utils/progress.js:16-17 | a line containing "=" splits into at least a key and a value |
| Text.ToLower | app/core/find-next-file.js:25 | `toLowerCase` keeps the length and lower-cases each ASCII letter |
| Text.SpacePrefix | app/utils/timeout.js:12 | greedy `\s*`: the longest white-space prefix, followed by a non-space or the end |
| Text.DigitPrefix | app/utils/timeout.js:12 | greedy `\d*`: the longest digit prefix, followed by a non-digit or the end |
| Text.DigitPrefixOf | app/utils/timeout.js:12 | digits followed by a non-digit are matched back exactly |
| Text.ParseIntDigits | app/utils/progress.js:20 | `parseInt(s, 10)` of a string starting with digits is the value of those digits; the rest is ignored |
| Text.ParseIntRoundTrip | app/utils/progress.js:101-103 | `parseInt(String(n), 10) === n` for every non-negative integer |
| Text.NatToDecimal | app/utils/progress.js:64-66 | `n.toString()` is a non-empty digit string denoting `n`, with no leading zero |
| PosixPath.Basename | app/utils/path.js:5 | `basename` is the tail of the path after the last '/', and holds no '/' |
| PosixPath.StemAndExtension | app/utils/path.js:12-13 | the base name is the name without extension followed by `extname`; `extname` is "" or one '.' and no other, and a non-empty extension follows a non-empty stem |
| PosixPath.JoinParts | app/utils/path.js:16 | `dirname` and `basename` take a `join` of a directory and a '/'-free name apart again |
| PosixPath.JoinBasenameTail | app/utils/path.js:16 | whatever the name, the base name of a `join` is a tail of that name |
| PosixPath.NameParts | app/utils/path.js:12-13 | a name "stem.ext" has extension ".ext" and name without extension "stem" |
| PathUtils.Take | app/utils/path.js:15 | `slice(0, n)` is the prefix of length exactly `min(n, length)` |
| PathUtils.FailedPathShape | app/utils/path.js:3-8 | the failed path stays in the target's directory; its name is the target name cut to 240 characters plus ".failed", so it is at most 247 characters long |
| PathUtils.WorkInProgressPathShape | app/utils/path.js:20-25 | the in-progress path stays in the target's directory; its name is "." + the target name cut to 240 + ".tmp"; it is hidden and at most 245 characters long |
| PathUtils.TargetPathShape | app/utils/path.js:10-18 | the target stays in the source's directory; its name is the first 240 characters of the name without extension plus the suffix |
| PathUtils.TargetNameBounded | app/utils/path.js:15 | for every source and suffix the target name is at most 240 characters long |
| PathUtils.MarkersDifferFromTarget | app/utils/path.js:3-25 | for a target name of at most 240 characters, neither marker path is the target path |
| PathUtils.MarkersDiffer | app/utils/path.js:3-25 | the failed and in-progress paths of a target never coincide |
| PathUtils.DerivedPathsDistinct | app/utils/path.js:3-25 | the target, in-progress and failed paths of every source are three different paths |
| PathUtils.FailedPathOfName | app/utils/path.js:3-8 | "dir/name" fails to "dir/name.failed" when the name fits in 240 characters |
| PathUtils.WorkInProgressPathOfName | app/utils/path.js:20-25 | "dir/name" is staged at "dir/.name.tmp" when the name fits in 240 characters |
| PathUtils.TargetPathOfName | app/utils/path.js:10-18 | "dir/stem.ext" is encoded to "dir/stem" + suffix while that name fits in 240 characters |
| LegacyPathUtils.TargetPathForSourcePathShape | utils/path.js:9-16 | the legacy target stays in the source's directory; its name is the name without extension + suffix + ".mp4" |
| LegacyPathUtils.MarkerShapes | utils/path.js:3-22 | the legacy failed and in-progress paths stay beside the target; their names hold the whole target name |
| LegacyPathUtils.FailedNameUnbounded | utils/path.js:3-7 | with no cap, a target name longer than 248 characters gets a failed name longer than 255 |
| LegacyPathUtils.AgreesWithCappedPaths | utils/path.js:9-16 | while the name fits in 240 characters, the legacy target with suffix S is the capped target with S + ".mp4" |
| LegacyPathUtils.MarkersAgreeWithCappedPaths | utils/path.js:3-22 | while the target name fits in 240 characters, the legacy markers are the capped ones |
| Selector.Insert | app/core/find-next-file.js:41-44 | inserting one file lengthens the list by one |
| Selector.InsertSorted | app/core/find-next-file.js:41-44 | inserting into a list sorted by `modifiedAt` keeps it sorted |
| Selector.InsertPermutes | app/core/find-next-file.js:41-44 | inserting adds exactly the new file (as multisets) |
| Selector.SortByModifiedAt | app/core/find-next-file.js:44 | the sort keeps the number of files |
| Selector.SortSorts | app/core/find-next-file.js:41-44 | the sort orders the files oldest first and is a permutation of them |
| Selector.InsertStable | app/core/find-next-file.js:41-44 | inserting a file puts it before the files of its own time and keeps their order |
| Selector.SortStable | app/core/find-next-file.js:41-44 | the sort is stable: files with the same modification time keep their input order |
| Selector.AllPathsMembers | app/core/find-next-file.js:44-45 | `allPaths` holds exactly the scanned paths |
| Selector.InsertPathsPermute | app/core/find-next-file.js:44-45 | inserting a file adds its path to the paths and loses none (as multisets) |
| Selector.AllPathsPermutes | app/core/find-next-file.js:44-45 | `allPaths` holds every scanned path as many times as the scan does: the same multiset as the scan's paths |
| Selector.EncodeableIff | app/core/find-next-file.js:23-30 | a path is encodeable exactly when its extension is non-empty and some comma-separated piece of `extensions` equals it ignoring case |
| Selector.AlreadyEncodedPaths | app/core/find-next-file.js:46 | `alreadyEncodedPaths` holds exactly the scanned paths that match the pattern |
| Selector.Filter | app/core/find-next-file.js:63-69 | `filter` keeps exactly the accepted paths, as a subsequence of the input |
| Selector.FilterSameTest | app/core/find-next-file.js:63-69 | two tests that accept the same paths filter a list alike |
| Selector.FilterCounts | app/core/find-next-file.js:63-69 | `filter` keeps every copy of an accepted path and no copy of a rejected one |
| Selector.FilterEligible | app/core/find-next-file.js:63-69 | the six chained filters keep exactly the eligible paths, in their order |
| Selector.FilterEligibleCounts | app/core/find-next-file.js:63-69 | the six chained filters keep as many copies of an eligible path as the input holds, and none of an ineligible one |
| Selector.CandidatesAreSelectable | app/core/find-next-file.js:21-69 | a path is a candidate exactly when it is scanned, not excluded, has an allowed extension, does not match the pattern, has no scanned target matching the pattern, and has no scanned in-progress or failed marker |
| Selector.NothingFoundIff | app/core/find-next-file.js:63-76 | the result is null exactly when no scanned path passes every filter |
| Selector.FoundIsSelectable | app/core/find-next-file.js:63-91 | a returned path was scanned and passes every filter |
| Selector.EmptyPathNotEncodeable | app/core/find-next-file.js:27-30 | the empty path has no extension, so it is never encodeable |
| Selector.NoEmptyPathSelected | app/core/find-next-file.js:27-30 | no returned path is empty, so the caller's truthiness test is a null test |
| Selector.CandidatesOldestFirst | app/core/find-next-file.js:41-69 | the candidates are a subsequence of the scan sorted oldest first, and that sort is a permutation of the scan |
| Selector.SelectPosition | app/core/find-next-file.js:74-91 | one candidate is returned as is; with two, the second (or, in reverse, the first); with three or more, never the first or the last |
| Selector.TargetIgnoredUnlessMatched | app/core/find-next-file.js:46-50 | a scanned target that the pattern does not match does not block its source |
| Selector.HiddenMarkersNeverScanned | app/core/find-next-file.js:51-56 | a scan that hides dot-files never reports an in-progress marker |
| Selector.FilterIgnoresOrder | app/core/find-next-file.js:63-69 | the filters do not read `reverseOrder` |
| Selector.CandidatesIgnoreOrder | app/core/find-next-file.js:63-69 | the candidate list does not depend on `reverseOrder`; only the pick does |
| Files.FileSystem.RunEncoder | app/core/process-file.js:21-25 | the encoder reports success exactly when it finished, and creates its destination when it wrote output |
| Files.FileSystem.Move | app/core/process-file.js:26 | `mv` succeeds exactly when the source exists and neither end is faulty, and then renames |
| Files.FileSystem.Exists | app/core/process-file.js:33 | `exists` reports membership and leaves the paths as they were |
| Files.FileSystem.Touch | app/core/process-file.js:44 | `touch` creates the path unless it is faulty |
| Files.FileSystem.Remove | app/core/process-file.js:54 | `rm` removes the path unless it is faulty |
| Attempts.ProcessFile | app/core/process-file.js:11-56 | the attempt runner's result, paths and trace are those of AttemptOf on the paths derived from the source |
| Attempts.RunAttempt | app/core/process-file.js:20-48 | the try block and its catch perform exactly AttemptAt: result, new paths, and operations |
| Attempts.EncodesFirst | app/core/process-file.js:21-25 | the encoder runs once, first, from the source into the in-progress path |
| Attempts.EncodesIntoWorkInProgress | app/core/process-file.js:15-25 | for a real source the encoder writes the in-progress path of its target, never the target |
| Attempts.SuccessPublishes | app/core/process-file.js:20-26 | a finished encoding is moved to the target, no in-progress file or tombstone is left, nothing is probed or touched, and the attempt completes unless the source cannot be removed |
| Attempts.FailureTombstones | app/core/process-file.js:27-47 | on any error a present in-progress file is moved to the failed path, and otherwise an empty tombstone is touched; the original error is re-thrown and only a failing touch replaces it; the target is untouched |
| Attempts.EncodingErrorRethrown | app/core/process-file.js:33-47 | an encoder failure comes out as EncodingError exactly when the tombstone step does not throw; a failed move to the failed path is swallowed |
| Attempts.SourceRemovedOnlyAfterPublish | app/core/process-file.js:52-55 | the source is removed exactly when `deleteSource` is set and the publish succeeded, as the last operation, right after the publish |
| Attempts.CompletedIff | app/core/process-file.js:20-55 | the attempt returns normally exactly when the encoding finished, the publish could succeed, and any requested removal could succeed |
| Attempts.OnlyDerivedPathsTouched | app/core/process-file.js:15-55 | no path other than the source and its three derived paths is created or removed |
| Encode.Run | app/core/encode.js:7-65 | as written, any run throws a TypeError before any step; corrected: the returned count is the number of completed attempts and `failedFiles` the files that threw EncodingError, in order; the run returns only with no loop interval and nothing found on the final paths; it throws only a non-EncodingError, at its last step, which was an attempt; the steps are recorded from the starting paths to the final ones, each scanned on the paths the step before it left and performed by the encoder and the attempt runner; every encoder run writes an in-progress path |
| Encode.Pass | app/core/encode.js:30-62 | one pass searches the current paths with the failures so far, then attempts the file found with the encoder's outcome for this pass and leaves the attempt runner's paths, sleeps when an interval is set, or breaks; its encoder run writes the in-progress path |
| Encode.OpsAppended | app/core/encode.js:30-62 | operations whose encoder runs all write in-progress paths stay so when more such operations follow |
| Encode.StepAppended | app/core/encode.js:24-55 | a further pass extends `failedFiles` by an EncodingError's file and the count by a completed attempt |
| Encode.FollowsAppended | app/core/encode.js:30-60 | valid steps followed by a step that follows the selector on their failures are valid |
| Encode.RecordedAppended | app/core/encode.js:30-60 | a step performed on the paths the earlier steps left extends the record of the run, with `failedFiles` and the count moved on |
| Encode.RecordedValid | app/core/encode.js:30-60 | every recorded run consists of valid steps: sleeps only with an interval, each step the selector's choice for the failures before it |
| Encode.StepRecorded | app/core/encode.js:40-60 | a step made by a pass extends the record; one that does not end the run keeps the loop state with `failedFiles` and the count moved on; one that ends it leaves `failedFiles` as it was |
| Encode.StepFatal | app/core/encode.js:49-54 | a step that threw something other than an EncodingError, after steps that threw only EncodingErrors, ends the run with its own error at its last step |
| Encode.StoppedQuietly | app/core/encode.js:55-64 | a run that breaks or is still looping after steps that threw only EncodingErrors threw nothing else |
| Encode.OnlyEncodingErrorsAppended | app/core/encode.js:49-54 | a step that does not end the run keeps "only EncodingErrors were thrown" |
| Encode.AttemptTrace | app/core/encode.js:42-47 | operations whose only encoder run, the first, goes into the in-progress path of the file's target write only in-progress paths |
| Encode.FailedFilesRecorded | app/core/encode.js:49-51 | a file whose attempt threw EncodingError is in `failedFiles` from then on |
| Encode.NoRetryAfterEncodingError | app/core/encode.js:24-51 | a file whose attempt threw EncodingError is never attempted again in the same run |
| Encode.FailedFilesAreFailures | app/core/encode.js:49-51 | every entry of `failedFiles` is a file whose attempt threw EncodingError |
| Encode.CountsBoundedBySteps | app/core/encode.js:24-51 | each pass adds to at most one of the count and the failures |
| Encode.SearchAsWrittenThrows | app/core/encode.js:32-38 | as written, the selector gets no `scanPaths` and every search throws a TypeError |
| Encode.SearchCorrected | app/core/encode.js:32-38 | with the roots under `scanPaths`, every search returns the selector's choice for the run's options and failures |
| Encode.ReverseOrderDropped | app/core/encode.js:32-38 | as written, `reverseOrder` never reaches the selector, so the second candidate is picked where the second-to-last was asked for |
| LegacyEncode.FileExtension | domain/encode.js:7 | `fileExtension` is `extname` without its '.', and holds no '.' |
| LegacyEncode.FilterFirst | domain/encode.js:21-23 | a filtered list is empty exactly when nothing is accepted; otherwise its head is the first accepted file |
| LegacyEncode.FilterAppend | domain/encode.js:19-21 | filtering the flattened listings filters each listing in turn |
| LegacyEncode.EmptyPathChosen | domain/encode.js:46 | the truthiness test differs from a null test only when the empty path is scanned and the empty extension is listed |
| LegacyEncode.FirstQualifying | domain/encode.js:9-24 | `findNextFile` returns the first scanned file with a listed extension (case kept) that the pattern does not match, and null exactly when there is none |
| LegacyEncode.ScanOrderDecides | domain/encode.js:15-23 | files scanned later matter only when the earlier ones have nothing to encode |
| LegacyEncode.RootOrderDecides | domain/encode.js:15-23 | a later scan root matters only when the earlier roots have nothing to encode |
| LegacyEncode.NonQualifyingIgnored | domain/encode.js:10-21 | a file that does not qualify, wherever it is scanned, leaves the choice unchanged |
| LegacyEncode.ExtensionMatchedExactly | domain/encode.js:7-11 | "stem.ext" qualifies exactly when "ext", with its case, is listed and the pattern does not match |
| LegacyEncode.ProcessFile | domain/encode.js:26-33 | as written, the service call throws a TypeError before encoding and nothing changes; with the third argument supplied, the encoder writes straight into the target, the call returns exactly when it finished, and its failure is thrown as EncodingError |
| LegacyEncode.TargetShape | domain/encode.js:27-31 | the legacy target stays in the source's directory; its name is the name without extension + suffix (default "") + ".mp4" |
| LegacyEncode.Run | domain/encode.js:35-55 | the run stops only with no loop interval and nothing truthy found on the final paths; the steps are recorded from the starting paths to the final ones, each attempt being the first qualifying file of the scan of the paths the step before it left, with the encoder's outcome for that pass; the first error ends the run with that error; as written that error is a TypeError at the first attempt and nothing on disk changes; corrected, every error is an EncodingError; paths only grow; every encoder run writes a target |
| LegacyEncode.Pass | domain/encode.js:40-54 | one pass scans the current paths and attempts the first qualifying file when it is truthy, with `processFile`'s result and paths for this pass's encoder outcome; otherwise it sleeps when an interval is set, or breaks |
| LegacyEncode.OpsAppended | domain/encode.js:40-54 | operations whose encoder runs all write targets stay so when more such operations follow |
| LegacyEncode.StepRecorded | domain/encode.js:40-54 | a step performed on the paths the earlier steps left extends the record of the run, and the loop goes on after it when it did not throw |
| LegacyEncode.StepThrew | domain/encode.js:40-54 | a step that threw after steps that did not ends the run with its error: as written a TypeError at the only attempt, corrected an EncodingError |
| LegacyEncode.StoppedQuietly | domain/encode.js:49-53 | a run that breaks or is still looping after steps none of which threw has thrown at no step |
| LegacyEncode.PathsOnlyGrow | domain/encode.js:26-33 | every path that existed when the recorded steps began still exists after them: `processFile` only adds its target |
| LegacyEncode.SourceChosenAgain | domain/encode.js:35-55 | a target the pattern matches does not qualify, and the source is kept, so after a successful encoding the next scan chooses the same source again |
| Timeout.SplitFraction | app/utils/timeout.js:12 | greedy `(?:\.\d+)?`: a '.' and at least one digit, or nothing, followed by the rest |
| Timeout.SplitNumber | app/utils/timeout.js:12 | greedy `\d+(?:\.\d+)?`: digits, an optional fraction and the rest, which put together give the string back |
| Timeout.SplitFractionOf | app/utils/timeout.js:12 | a fraction followed by neither a digit nor a '.' is matched back exactly |
| Timeout.SplitNumberOf | app/utils/timeout.js:12 | a number followed by neither a digit nor a '.' is matched back exactly |
| Timeout.UnitFactor | app/utils/timeout.js:28-45 | every known unit scales by at least 1 |
| Timeout.Milliseconds | app/utils/timeout.js:21-45 | a matched number that is zero throws "must be positive"; otherwise the result is at least the number, so strictly positive |
| Timeout.UnitStart | app/utils/timeout.js:12 | a unit starts with neither a digit, a space nor a '.', and ends with no space |
| Timeout.UnitHasFactor | app/utils/timeout.js:41-44 | every unit the pattern admits has a case in the switch: the `default` branch is unreachable |
| Timeout.MatchWellFormed | app/utils/timeout.js:12 | every match has digits, an optional non-empty fraction, white space and a unit, and spans the whole trimmed string |
| Timeout.MatchComplete | app/utils/timeout.js:12 | every well-formed match is found in the text it spans, so the pattern is exactly WellFormed |
| Timeout.UnitMeaning | app/utils/timeout.js:28-40 | the result is the number times 1 (ms), 1000 (s or none), 60000 (m), 3600000 (h) or 86400000 (d) |
| Timeout.NullIff | app/utils/timeout.js:2-9 | null comes back exactly for a non-string and for an empty or all-white-space string |
| Timeout.RenderTrimmed | app/utils/timeout.js:6-12 | a matched duration with a unit after any spaces has no white space at either end |
| Timeout.ParsesMatch | app/utils/timeout.js:6-45 | a string whose trimmed text matches is converted from that match |
| Timeout.ParsesWellFormed | app/utils/timeout.js:6-45 | a well-formed duration with white space around it parses as its match |
| Timeout.NoLeadingDigitInvalid | app/utils/timeout.js:12-18 | a trimmed string that does not start with a digit (a sign, a letter, a '.') throws "Invalid timeout format" |
| Timeout.UnitCaseInsensitive | app/utils/timeout.js:12-28 | two spellings of the unit with the same lower case parse alike |
| Progress.LastExtractIsLast | app/utils/progress.js:15-57 | a field takes the value of the last line that sets it, and keeps its default when no line does |
| Progress.LastExtractAppend | app/utils/progress.js:15-57 | one more line replaces a field it sets and leaves the others |
| Progress.LastLineWins | app/utils/progress.js:15-57 | earlier lines matter only when no later line sets the field |
| Progress.KeyValue | app/utils/progress.js:16-17 | a line has a key and a value exactly when it contains "="; the value stops at the next "=" |
| Progress.RoundKiB | app/utils/progress.js:31-32 | `Math.round(bytes / 1024)`: within half a kB of the byte count |
| Progress.Seconds | app/utils/progress.js:40-41 | `Math.floor(us / 1000000)`: the whole seconds in the microseconds |
| Progress.Pad2 | app/utils/progress.js:64-66 | `padStart(2, "0")` gives digits denoting the number, exactly two of them below 100, and no leading zero when there are more than two |
| Progress.KeyValueReport | app/utils/progress.js:59-75 | the report is `{}` exactly when frame and time are both 0; otherwise it carries the three fields, and `timeFormatted` exactly when time is positive |
| Progress.ParseProgressKeyValue | app/utils/progress.js:5-76 | the report holds the time, frame and size that the last relevant lines set |
| Progress.ReadFields | app/utils/progress.js:15-57 | the loop leaves each field as the last line setting it made it |
| Progress.FieldsAfter | app/utils/progress.js:15-57 | a line setting a field replaces it; any other line leaves the fields as they were |
| Progress.ReadLine | app/utils/progress.js:16-55 | the switch on one line's trimmed key sets frame, size or time; "N/A" leaves size and time alone |
| Progress.UnavailableIgnored | app/utils/progress.js:27-43 | a further `total_size` or `out_time_us` line saying "N/A" changes neither field |
| Progress.SplitClock | app/utils/progress.js:64-66 | the three digit groups of a clock split back on ':' |
| Progress.FormattedTimeDecodes | app/utils/progress.js:60-67 | `timeFormatted` reads back as the time: hours, then minutes and seconds below 60, each zero-padded to two digits |
| Progress.ClockParts | app/utils/progress.js:61-63 | whole hours, the minutes left and the seconds left add back up to the time |
| Progress.SearchIsLeftmost | app/utils/progress.js:92-97 | a regular-expression search returns the leftmost match, and nothing when no position matches |
| Progress.DigitsThen | app/utils/progress.js:92 | `(\d+)` before a separator captures a non-empty digit string |
| Progress.DigitsThenOf | app/utils/progress.js:92 | every non-empty digit string followed by the separator is captured whole, and the text after the separator is left |
| Progress.ClockAt | app/utils/progress.js:92 | the captured hours, minutes and seconds are digit strings and their values are what `parseInt` reads |
| Progress.ClockAtOf | app/utils/progress.js:92 | every "time=H:M:S.F" with non-empty digit groups is matched, whatever follows, capturing H, M and S and their values |
| Progress.ParseProgress | app/utils/progress.js:79-123 | scanning back from the last line, the result is the progress of the last status line, or `{}` when there is none |
| Progress.StderrTimeDecodes | app/utils/progress.js:100-113 | the copied `timeFormatted` reads back as the time H*3600+M*60+S, though M and S need not be below 60 |
| Progress.FrameMentionsAme | app/utils/progress.js:88-91 | a line containing "frame=" contains "ame=", so the garbled-prefix test subsumes the normal one |

## Left out

- The encoders (`app/services/ffmpeg.js`, `services/encode.js`): the ffmpeg command, its options and its events. The encoder is an outcome given to the model; `preview`, `highQuality`, `h265` and `workDir` change nothing modelled.
- The file services (`app/services/files.js`, `services/files.js`): directory walking, `stat`, hidden-file filtering. The scan is an input. As shown, `app/services/files.js` `find` returns plain strings (lines 5-23) and the service exports only `find` and `touch` (lines 25-30), not `mv`, `exists` or `rm`. The model uses the record shape the selector reads and the operations the attempt runner calls, so it does not capture what these gaps do to the code as written:
  - Plain strings: with the search corrected, every scanned `file.path` is undefined. Any non-empty scan then throws a TypeError when `alreadyEncodedPaths` calls `matchesExclusionPattern`, which calls `undefined.match` (app/core/find-next-file.js:32, reached from :46).
  - Missing `mv` and `exists`: every attempt throws "filesService.mv is not a function" at app/core/process-file.js:26. In the catch, `filesService.exists` at :33 throws a second TypeError that replaces the first. The run therefore ends at its first attempt, with the in-progress file left on disk.
- The exclusion regular expression: it is user-supplied, so it is a predicate. An undefined pattern, which JavaScript's `match` treats as matching every string, is whatever predicate the caller passes.
- Logging, `sleep`/`sleepSeconds` (a sleep is a step that changes nothing), the CLI entry points and the process exit code.
- `formatTimeout`, `getVideoDuration`, `displayProgress`, `clearProgress` and `createProgressTracker`: floating-point formatting, a child process, stdout and clock-based throttling.
- The `fps` and `speed` fields of both progress parsers: they are floating point.
- JavaScript numbers: `parseInt` results, sizes and times are unbounded integers. `parseFloat` in `parseTimeout` is the exact decimal the digits spell. Precision loss above 2^53 and rounding of the millisecond products are not modelled.
- Unicode case mapping: `toLowerCase` is modelled on ASCII letters only; other letters keep their case.
- Path normalisation by `path.join` (".." segments, repeated or trailing '/'): `Join` adds one '/' between a directory and a name. It drops "." and does not double the root '/'.
- Concurrency between two encoder processes, and crashes part-way through an attempt.
- PathUtils.Take: counts characters, where JavaScript's `slice` counts UTF-16 code units. A name of 240 emoji keeps 120 of them in the source and all 240 here. The model also does not produce the lone surrogates that the source's slice can leave.
- PosixPath.Basename: a path with a trailing '/' is not stripped as Node does. `basename("a/b/")` is "" here and "b" in Node.
- PosixPath.Dirname: a trailing '/' and a leading "//" are not treated as Node does. `dirname("a/b/")` is "a/b" here and "a" in Node; `dirname("//b")` is "/" here and "//" in Node.
- PosixPath.Extname: a trailing '/' is not stripped as Node does. `extname("a.b/")` is "" here and ".b" in Node. The derived paths meet a trailing '/' only when the encoded suffix contains one.
- Files.FileSystem: which paths are faulty is fixed for a whole run, and `exists` never fails. `Move` overwrites an existing destination. No shown source fixes that behaviour, and fs-extra's `move` refuses an existing destination by default. A file system that fails only sometimes, or a failing `stat`, is not modelled.
- Encode.Run: observes at most `fuel` passes that attempt or sleep; a run that loops forever is seen as `StillRunning`.
- LegacyEncode.Run: observes at most `fuel` passes; `loopInterval` is a number, and 0 stands for every falsy value.
- Encode.Run: the `RunOptions` loop interval is a number, and 0 stands for every falsy value.
- Encode.Run: each pass scans only the paths that the run's own steps leave. Files that a user or another program creates or removes between passes, in particular during a sleep (app/core/encode.js:56-58), are not modelled. So in the model a run that has slept once finds nothing new and sleeps at every later pass until its fuel runs out, where the real run would pick up a newly arrived file.
- LegacyEncode.Run: each pass lists only the paths that the run's own steps leave. Files that a user or another program creates or removes between passes, in particular during a sleep (domain/encode.js:49-50), are not modelled. So in the model a run that has slept once sleeps at every later pass until its fuel runs out.

## Findings

| source | as written | input that shows it | evidently intended | confidence | as-written member | corrected member |
|---|---|---|---|---|---|---|
| app/core/encode.js:35 | the search object carries `scanPath`, but the selector destructures `scanPaths` (app/core/find-next-file.js:17) and calls `scanPaths.map`, which throws a TypeError on undefined | any run: the first search throws before any file is looked at | pass the roots as `scanPaths` | not executed | Encode.SearchAsWrittenThrows | Encode.SearchCorrected |
| app/core/encode.js:32-38 | `reverseOrder` is read by the selector (app/core/find-next-file.js:85-88) but never put in the search object | reverse order asked for with candidates [A, B, C, D] oldest first: B is picked instead of C | forward the run's `reverseOrder` | not executed | Encode.ReverseOrderDropped | Encode.SearchCorrected |
| domain/encode.js:32 | `encodeService.encode(sourcePath, targetPath)` passes no third argument, and the service destructures `{ preview }` from it (services/encode.js:41), which throws a TypeError | any scan with one qualifying file: the first attempt throws and ends the run with nothing encoded | pass an options object such as `{}` | not executed | LegacyEncode.Run | LegacyEncode.ProcessFile |

Encode.Run takes the search call as a parameter, `AsWritten` or `Corrected`. Its contract states that the as-written call ends any run with a TypeError before anything happens. Every other clause of the contract describes the corrected call. In the same way, LegacyEncode.Run and LegacyEncode.ProcessFile take the service call as a parameter. For `AsWritten` they state the TypeError with nothing on disk changed. For `Corrected`, ProcessFile states the encoding into the target and its result. Run states, through the record of its steps, each attempt's result and the target each successful or partial encoding adds.
