/**
 * The two ffmpeg progress parsers of app/utils/progress.js: the key=value
 * report ffmpeg writes with `-progress`, and the older stderr status line
 * (`frame= 100 fps= 25 ... time=00:01:05.12 ... speed=1.0x`). Only the
 * integer fields (time in seconds, frame, size in kB) and `timeFormatted` are
 * modelled; `fps` and `speed` are floating point.
 */
module Progress {
  import opened Wrappers
  import opened Text

  // ---------------------------------------------------------------- the last line that says something

  /** What `extract` gives for the last line it gives something for. */
  function LastExtract<T>(lines: seq<string>, extract: string -> Option<T>): Option<T> {
    if lines == [] then None
    else if extract(lines[|lines| - 1]).Some? then extract(lines[|lines| - 1])
    else LastExtract(lines[..|lines| - 1], extract)
  }

  /** The result is what the last line with a match gives, and None exactly when no line matches. */
  lemma {:induction false} LastExtractIsLast<T>(lines: seq<string>, extract: string -> Option<T>)
    ensures LastExtract(lines, extract).None? <==> forall j :: 0 <= j < |lines| ==> extract(lines[j]).None?
    ensures LastExtract(lines, extract).Some? ==>
              exists k :: 0 <= k < |lines| && LastExtract(lines, extract) == extract(lines[k])
                          && forall j :: k < j < |lines| ==> extract(lines[j]).None?
  {
    if lines != [] && extract(lines[|lines| - 1]).None? {
      var init := lines[..|lines| - 1];
      LastExtractIsLast(init, extract);
      if LastExtract(init, extract).Some? {
        var k :| 0 <= k < |init| && LastExtract(init, extract) == extract(init[k])
                 && forall j :: k < j < |init| ==> extract(init[j]).None?;
        assert LastExtract(lines, extract) == extract(lines[k]);
      }
    }
  }

  /** One more line decides the result if it has a match, and otherwise changes nothing. */
  lemma LastExtractAppend<T>(lines: seq<string>, line: string, extract: string -> Option<T>)
    ensures LastExtract(lines + [line], extract) ==
              if extract(line).Some? then extract(line) else LastExtract(lines, extract)
  {
    assert (lines + [line])[..|lines|] == lines;
  }

  /** The last line wins: earlier lines matter only when no later line has a match. */
  lemma {:induction false} LastLineWins<T>(earlier: seq<string>, later: seq<string>, extract: string -> Option<T>)
    ensures LastExtract(earlier + later, extract) ==
              if LastExtract(later, extract).Some? then LastExtract(later, extract) else LastExtract(earlier, extract)
  {
    if later == [] {
      assert earlier + later == earlier;
    } else {
      var all := earlier + later;
      assert all[|all| - 1] == later[|later| - 1];
      assert all[..|all| - 1] == earlier + later[..|later| - 1];
      LastLineWins(earlier, later[..|later| - 1], extract);
    }
  }

  // ---------------------------------------------------------------- key=value reports

  /** A non-empty key=value progress object; `timeFormatted` is absent unless time is positive. */
  datatype KeyValueProgress = KeyValueProgress(time: int, frame: int, size: int, timeFormatted: Option<string>)

  /** `line.split("=", 2)` with the key trimmed, for a line containing '=': the key and the text up to the next '='. */
  function KeyValue(line: string): (kv: Option<(string, string)>)
    ensures kv.Some? <==> '=' in line
    ensures kv.Some? ==> '=' !in kv.value.1
  {
    if '=' in line then
      SplitHasSeparator(line, '=');
      var pieces := Split(line, '=');
      Some((Trim(pieces[0]), pieces[1]))
    else None
  }

  /** The value a line gives `key`; with `skipUnavailable`, a value of "N/A" gives nothing. */
  function Setting(line: string, key: string, skipUnavailable: bool): Option<string> {
    var kv := KeyValue(line);
    if kv.Some? && kv.value.0 == key && !(skipUnavailable && kv.value.1 == "N/A") then Some(kv.value.1) else None
  }

  function FrameSetting(line: string): Option<string> {
    Setting(line, "frame", false)
  }

  function SizeSetting(line: string): Option<string> {
    Setting(line, "total_size", true)
  }

  function TimeSetting(line: string): Option<string> {
    Setting(line, "out_time_us", true)
  }

  /** `Math.round(bytes / 1024)`: the nearest whole kB, halves rounded up. */
  function RoundKiB(bytes: int): (kib: int)
    ensures kib * 1024 - 512 <= bytes < kib * 1024 + 512
  {
    (bytes + 512) / 1024
  }

  /** `Math.floor(microseconds / 1000000)`. */
  function Seconds(microseconds: int): (s: int)
    ensures s * 1000000 <= microseconds < (s + 1) * 1000000
  {
    microseconds / 1000000
  }

  /** The frame field: the last `frame` value through `parseInt(value, 10) || 0`; "N/A" reads as 0. */
  function FrameOf(lines: seq<string>): int {
    match LastExtract(lines, FrameSetting)
    case None => 0
    case Some(v) => IntOrZero(v)
  }

  /** The size field in kB, from the last `total_size` that is not "N/A". */
  function SizeOf(lines: seq<string>): int {
    match LastExtract(lines, SizeSetting)
    case None => 0
    case Some(v) => RoundKiB(IntOrZero(v))
  }

  /** The time field in whole seconds, from the last `out_time_us` that is not "N/A". */
  function TimeOf(lines: seq<string>): int {
    match LastExtract(lines, TimeSetting)
    case None => 0
    case Some(v) => Seconds(IntOrZero(v))
  }

  /** `n.toString().padStart(2, "0")`. */
  function Pad2(n: nat): (d: string)
    ensures |d| >= 2 && AllDigits(d) && DecimalValue(d) == n
    ensures n < 100 ==> |d| == 2
    ensures |d| > 2 ==> d[0] != '0'
  {
    var digits := NatToDecimal(n);
    if |digits| < 2 then
      LeadingZero(digits);
      "0" + digits
    else
      assert n < 100 ==> digits == NatToDecimal(n / 10) + [DigitChar(n % 10)];
      digits
  }

  /** `timeFormatted`: HH:MM:SS, each part at least two digits. */
  function FormatTime(time: int): string
    requires time > 0
  {
    Pad2(time / 3600) + ":" + Pad2(time % 3600 / 60) + ":" + Pad2(time % 60)
  }

  /** The object built from the three fields; None is the empty object `{}`. */
  function KeyValueReport(time: int, frame: int, size: int): (r: Option<KeyValueProgress>)
    ensures r.None? <==> frame == 0 && time == 0
    ensures r.Some? ==> r.value.time == time && r.value.frame == frame && r.value.size == size
    ensures r.Some? ==> (r.value.timeFormatted.Some? <==> time > 0)
  {
    if frame == 0 && time == 0 then None
    else Some(KeyValueProgress(time, frame, size, if time > 0 then Some(FormatTime(time)) else None))
  }

  /** `parseProgressKeyValue`: the fields the last relevant lines set, gathered into a report. */
  method ParseProgressKeyValue(data: string) returns (r: Option<KeyValueProgress>)
    ensures var lines := Split(data, '\n');
            r == KeyValueReport(TimeOf(lines), FrameOf(lines), SizeOf(lines))
  {
    var time, frame, size := ReadFields(Split(data, '\n'));
    var timeFormatted := None;
    if time > 0 {
      timeFormatted := Some(FormatTime(time));
    }
    if frame == 0 && time == 0 {
      return None;
    }
    return Some(KeyValueProgress(time, frame, size, timeFormatted));
  }

  /** The loop of `parseProgressKeyValue`: each line read in turn, later settings replacing earlier ones. */
  method ReadFields(lines: seq<string>) returns (time: int, frame: int, size: int)
    ensures time == TimeOf(lines) && frame == FrameOf(lines) && size == SizeOf(lines)
  {
    time, frame, size := 0, 0, 0;
    for i := 0 to |lines|
      invariant time == TimeOf(lines[..i]) && frame == FrameOf(lines[..i]) && size == SizeOf(lines[..i])
    {
      FieldsAfter(lines[..i], lines[i]);
      assert lines[..i + 1] == lines[..i] + [lines[i]];
      time, frame, size := ReadLine(lines[i], time, frame, size);
    }
    assert lines[..|lines|] == lines;
  }

  /** One more line: a line setting a field replaces it, any other line leaves the fields as they were. */
  lemma FieldsAfter(lines: seq<string>, line: string)
    ensures FrameOf(lines + [line]) == match FrameSetting(line) case None => FrameOf(lines) case Some(v) => IntOrZero(v)
    ensures SizeOf(lines + [line]) ==
              match SizeSetting(line) case None => SizeOf(lines) case Some(v) => RoundKiB(IntOrZero(v))
    ensures TimeOf(lines + [line]) ==
              match TimeSetting(line) case None => TimeOf(lines) case Some(v) => Seconds(IntOrZero(v))
  {
    LastExtractAppend(lines, line, FrameSetting);
    LastExtractAppend(lines, line, SizeSetting);
    LastExtractAppend(lines, line, TimeSetting);
  }

  /** The loop body of `parseProgressKeyValue`: the switch on one line's trimmed key. */
  method ReadLine(line: string, time: int, frame: int, size: int) returns (time': int, frame': int, size': int)
    ensures frame' == match FrameSetting(line) case None => frame case Some(v) => IntOrZero(v)
    ensures size' == match SizeSetting(line) case None => size case Some(v) => RoundKiB(IntOrZero(v))
    ensures time' == match TimeSetting(line) case None => time case Some(v) => Seconds(IntOrZero(v))
  {
    time', frame', size' := time, frame, size;
    if '=' in line {
      SplitHasSeparator(line, '=');
      var pieces := Split(line, '=');
      var key, value := Trim(pieces[0]), pieces[1];
      // "fps" and "speed" set floating-point fields, which are not modelled.
      if key == "frame" {
        frame' := IntOrZero(value);
      } else if key == "total_size" {
        if value != "N/A" {
          size' := RoundKiB(IntOrZero(value));
        }
      } else if key == "out_time_us" {
        if value != "N/A" {
          time' := Seconds(IntOrZero(value));
        }
      }
    }
  }

  /** `total_size` and `out_time_us` ignore "N/A": a further line with that value changes neither field. */
  lemma UnavailableIgnored(lines: seq<string>, line: string)
    requires KeyValue(line).Some? && KeyValue(line).value.1 == "N/A"
    ensures SizeOf(lines + [line]) == SizeOf(lines) && TimeOf(lines + [line]) == TimeOf(lines)
  {
    FieldsAfter(lines, line);
  }

  /** The four pieces of a clock string, split back on ':'. */
  lemma SplitClock(h: string, m: string, s: string)
    requires AllDigits(h) && AllDigits(m) && AllDigits(s)
    ensures Split(h + ":" + m + ":" + s, ':') == [h, m, s]
  {
    assert ':' !in h && ':' !in m && ':' !in s by {
      assert !IsDigit(':');
    }
    var pieces := [h, m, s];
    assert Join(pieces[2..], ':') == s;
    assert Join(pieces[1..], ':') == m + [':'] + s;
    assert Join(pieces, ':') == h + ":" + m + ":" + s;
    JoinSplit(pieces, ':');
  }

  /** `timeFormatted` reads back as the time: hours, minutes below 60 and seconds below 60, zero-padded. */
  lemma FormattedTimeDecodes(time: int)
    requires time > 0
    ensures var p := Split(FormatTime(time), ':');
            && |p| == 3 && AllDigits(p[0]) && AllDigits(p[1]) && AllDigits(p[2])
            && |p[0]| >= 2 && |p[1]| == 2 && |p[2]| == 2
            && DecimalValue(p[1]) < 60 && DecimalValue(p[2]) < 60
            && DecimalValue(p[0]) * 3600 + DecimalValue(p[1]) * 60 + DecimalValue(p[2]) == time
  {
    ClockParts(time);
    var ph, pm, ps := Pad2(time / 3600), Pad2(time % 3600 / 60), Pad2(time % 60);
    SplitClock(ph, pm, ps);
    assert Split(FormatTime(time), ':') == [ph, pm, ps];
  }

  /** Whole hours, the minutes left and the seconds left add back up to the time. */
  lemma ClockParts(time: int)
    requires time > 0
    ensures time / 3600 >= 0 && 0 <= time % 3600 / 60 < 60 && 0 <= time % 60 < 60
    ensures (time / 3600) * 3600 + (time % 3600 / 60) * 60 + time % 60 == time
  {
    var h, r := time / 3600, time % 3600;
    assert time == h * 3600 + r && 0 <= r < 3600;
    var m, s := r / 60, r % 60;
    assert r == m * 60 + s && 0 <= s < 60;
    RemainderOf60(time, h * 60 + m, s);
  }

  /** A number written as q * 60 + r with r a valid remainder has remainder r. */
  lemma RemainderOf60(x: int, q: int, r: int)
    requires x == q * 60 + r && 0 <= r < 60
    ensures x % 60 == r
  {
  }

  // ---------------------------------------------------------------- stderr status lines

  /** A stderr progress object: seconds, frame, size in kB, and `timeFormatted` as H:M:S copied from the line. */
  datatype StderrProgress = StderrProgress(time: nat, frame: nat, size: nat, timeFormatted: string)

  /** The captured hours, minutes and seconds of `time=(\d+):(\d+):(\d+)\.(\d+)`, and their `parseInt` values. */
  datatype Clock = Clock(hours: string, minutes: string, seconds: string, h: nat, m: nat, s: nat)

  /** A regular-expression search: the match at the leftmost position where `at` matches a suffix of `s`. */
  function Search<T>(s: string, at: string -> Option<T>): Option<T>
    decreases |s|
  {
    if at(s).Some? then at(s)
    else if s == [] then None
    else Search(s[1..], at)
  }

  /** The search finds the leftmost match, and nothing when no position matches. */
  lemma {:induction false} SearchIsLeftmost<T>(s: string, at: string -> Option<T>)
    ensures Search(s, at).None? <==> forall k :: 0 <= k <= |s| ==> at(s[k..]).None?
    ensures Search(s, at).Some? ==>
              exists k :: 0 <= k <= |s| && at(s[k..]) == Search(s, at) && forall j :: 0 <= j < k ==> at(s[j..]).None?
  {
    assert s[0..] == s;
    if at(s).None? && s != [] {
      SearchIsLeftmost(s[1..], at);
      assert forall k :: 1 <= k <= |s| ==> s[1..][k - 1..] == s[k..];
      if Search(s, at).Some? {
        var k :| 0 <= k <= |s[1..]| && at(s[1..][k..]) == Search(s, at) && forall j :: 0 <= j < k ==> at(s[1..][j..]).None?;
        assert at(s[k + 1..]) == Search(s, at);
      }
    }
  }

  /** Greedy `\d+` followed by `sep`: the digits and what follows the separator. */
  function DigitsThen(s: string, sep: char): (r: Option<(string, string)>)
    ensures r.Some? ==> r.value.0 != "" && AllDigits(r.value.0)
  {
    var d := DigitPrefix(s);
    if d != "" && |s| > |d| && s[|d|] == sep then Some((d, s[|d| + 1..])) else None
  }

  /** Digits followed by the separator are read up to it, and what follows is left. */
  lemma DigitsThenOf(d: string, sep: char, rest: string)
    requires d != "" && AllDigits(d) && !IsDigit(sep)
    ensures DigitsThen(d + [sep] + rest, sep) == Some((d, rest))
  {
    var s := d + [sep] + rest;
    assert s == d + ([sep] + rest);
    DigitPrefixOf(d, [sep] + rest);
    assert s[|d|] == sep && s[|d| + 1..] == rest;
  }

  /** `time=(\d+):(\d+):(\d+)\.(\d+)` matched at the start of `s`. */
  function ClockAt(s: string): (r: Option<Clock>)
    ensures r.Some? ==> var c := r.value;
                        && AllDigits(c.hours) && AllDigits(c.minutes) && AllDigits(c.seconds)
                        && c.h == DecimalValue(c.hours) && c.m == DecimalValue(c.minutes) && c.s == DecimalValue(c.seconds)
  {
    if !StartsWith(s, "time=") then None
    else
      match DigitsThen(s[5..], ':')
      case None => None
      case Some((hours, afterHours)) =>
        match DigitsThen(afterHours, ':')
        case None => None
        case Some((minutes, afterMinutes)) =>
          match DigitsThen(afterMinutes, '.')
          case None => None
          case Some((seconds, fraction)) =>
            if DigitPrefix(fraction) == "" then None
            else Some(Clock(hours, minutes, seconds, DecimalValue(hours), DecimalValue(minutes), DecimalValue(seconds)))
  }

  lemma Regroup(a: string, b: string, c: string)
    ensures a + b + c == a + (b + c)
  {
  }

  /** The clock is matched when its three numbers and the fraction are read in turn. */
  lemma ClockRead(line: string, afterTime: string, h: string, afterHours: string, m: string, afterMinutes: string,
                  s: string, fraction: string)
    requires StartsWith(line, "time=") && line[5..] == afterTime
    requires DigitsThen(afterTime, ':') == Some((h, afterHours))
    requires DigitsThen(afterHours, ':') == Some((m, afterMinutes))
    requires DigitsThen(afterMinutes, '.') == Some((s, fraction))
    requires DigitPrefix(fraction) != ""
    ensures ClockAt(line) == Some(Clock(h, m, s, DecimalValue(h), DecimalValue(m), DecimalValue(s)))
  {
  }

  /** The clock line, grouped from the right. */
  lemma ClockLine(h: string, m: string, s: string, f: string, rest: string)
    ensures "time=" + h + ":" + m + ":" + s + "." + f + rest == "time=" + (h + ":" + (m + ":" + (s + "." + (f + rest))))
  {
    Regroup("time=" + h + ":" + m + ":" + s + ".", f, rest);
    Regroup("time=" + h + ":" + m + ":" + s, ".", f + rest);
    Regroup("time=" + h + ":" + m + ":", s, "." + (f + rest));
    Regroup("time=" + h + ":" + m, ":", s + "." + (f + rest));
    Regroup("time=" + h + ":", m, ":" + (s + "." + (f + rest)));
    Regroup("time=" + h, ":", m + ":" + (s + "." + (f + rest)));
    Regroup("time=", h, ":" + (m + ":" + (s + "." + (f + rest))));
  }

  /** Every clock of the pattern's shape is matched, with its three captures read in decimal. */
  lemma ClockAtOf(h: string, m: string, s: string, f: string, rest: string)
    requires h != "" && m != "" && s != "" && f != ""
    requires AllDigits(h) && AllDigits(m) && AllDigits(s) && AllDigits(f)
    ensures ClockAt("time=" + h + ":" + m + ":" + s + "." + f + rest) ==
              Some(Clock(h, m, s, DecimalValue(h), DecimalValue(m), DecimalValue(s)))
  {
    assert !IsDigit(':') && !IsDigit('.');
    var afterMinutes := s + "." + (f + rest);
    DigitsThenOf(s, '.', f + rest);
    var afterHours := m + ":" + afterMinutes;
    DigitsThenOf(m, ':', afterMinutes);
    var afterTime := h + ":" + afterHours;
    DigitsThenOf(h, ':', afterHours);
    var line := "time=" + h + ":" + m + ":" + s + "." + f + rest;
    ClockLine(h, m, s, f, rest);
    assert line == "time=" + afterTime;
    assert StartsWith(line, "time=") && line[5..] == afterTime;
    assert DigitPrefix(f + rest) != "" by {
      assert (f + rest)[0] == f[0];
    }
    ClockRead(line, afterTime, h, afterHours, m, afterMinutes, s, f + rest);
  }

  /** Greedy `\s*(\d+)` at the start of `s`, read by `parseInt`. */
  function SpacedNumber(s: string): Option<nat> {
    var d := DigitPrefix(s[|SpacePrefix(s)|..]);
    if d == "" then None else Some(DecimalValue(d))
  }

  /** `(?:\{?ame=|frame=)\s*(\d+)` matched at the start of `s`, read by `parseInt`. */
  function FrameAt(s: string): Option<nat> {
    if StartsWith(s, "{ame=") then SpacedNumber(s[5..])
    else if StartsWith(s, "ame=") then SpacedNumber(s[4..])
    else if StartsWith(s, "frame=") then SpacedNumber(s[6..])
    else None
  }

  /** Whether `s` starts with `lowerPrefix`, ignoring ASCII case. */
  predicate StartsWithIgnoringCase(s: string, lowerPrefix: string) {
    |lowerPrefix| <= |s| && ToLower(s[..|lowerPrefix|]) == lowerPrefix
  }

  /** `(?:L?size=\s*)(\d+)(?:KiB|kB)`, case-insensitive, matched at the start of `s`, read by `parseInt`. */
  function SizeAt(s: string): Option<nat> {
    var afterL := if s != [] && LowerChar(s[0]) == 'l' then s[1..] else s;
    if !StartsWithIgnoringCase(afterL, "size=") then None
    else
      var value := afterL[5..];
      var spaces := SpacePrefix(value);
      var digits := DigitPrefix(value[|spaces|..]);
      var unit := value[|spaces| + |digits|..];
      if digits != "" && (StartsWithIgnoringCase(unit, "kib") || StartsWithIgnoringCase(unit, "kb"))
      then Some(DecimalValue(digits))
      else None
  }

  /**
   * The progress one status line reports: a line that mentions "time=" and "frame=" (or a garbled "ame=") and
   * holds a full clock. A missing frame or size is 0.
   */
  function StatusLine(line: string): Option<StderrProgress> {
    if Contains(line, "time=") && (Contains(line, "frame=") || Contains(line, "ame=")) then
      match Search(line, ClockAt)
      case None => None
      case Some(clock) =>
        var frame := Search(line, FrameAt);
        var size := Search(line, SizeAt);
        Some(StderrProgress(
          clock.h * 3600 + clock.m * 60 + clock.s,
          if frame.Some? then frame.value else 0,
          if size.Some? then size.value else 0,
          clock.hours + ":" + clock.minutes + ":" + clock.seconds))
    else None
  }

  /** `parseProgress`: scanning from the last line back, the progress of the first status line met. */
  method ParseProgress(stderr: string) returns (r: Option<StderrProgress>)
    ensures r == LastExtract(Split(stderr, '\n'), StatusLine)
  {
    var lines := Split(stderr, '\n');
    var i := |lines|;
    assert lines[..i] == lines;
    while i > 0
      invariant 0 <= i <= |lines|
      invariant LastExtract(lines, StatusLine) == LastExtract(lines[..i], StatusLine)
    {
      assert lines[..i][..i - 1] == lines[..i - 1];
      i := i - 1;
      var progress := StatusLine(lines[i]);
      if progress.Some? {
        return progress;
      }
    }
    return None;
  }

  /** The copied `timeFormatted` reads back as the time, though minutes and seconds are not bounded by 60. */
  lemma StderrTimeDecodes(line: string)
    requires StatusLine(line).Some?
    ensures var p := StatusLine(line).value;
            var parts := Split(p.timeFormatted, ':');
            && |parts| == 3 && AllDigits(parts[0]) && AllDigits(parts[1]) && AllDigits(parts[2])
            && DecimalValue(parts[0]) * 3600 + DecimalValue(parts[1]) * 60 + DecimalValue(parts[2]) == p.time
  {
    SearchIsLeftmost(line, ClockAt);
    var clock := Search(line, ClockAt).value;
    SplitClock(clock.hours, clock.minutes, clock.seconds);
  }

  /** A line with "frame=" always contains "ame=", so the garbled-prefix test subsumes the normal one. */
  lemma {:induction false} FrameMentionsAme(line: string)
    requires Contains(line, "frame=")
    ensures Contains(line, "ame=")
  {
    if StartsWith(line, "frame=") {
      assert line[2..][..4] == "ame=";
      ContainsSuffix(line, 2, "ame=");
    } else {
      FrameMentionsAme(line[1..]);
      ContainsSuffix(line, 1, "ame=");
    }
  }
}
