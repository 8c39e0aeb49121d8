/**
 * `parseTimeout` (app/utils/timeout.js): a duration such as "4h", "30m",
 * "1.5s" or "500ms" becomes a number of milliseconds. The number is kept as
 * the exact decimal it spells (a `real`), not as a floating-point value.
 */
module Timeout {
  import opened Wrappers
  import opened Text

  /** The argument: a string, or anything else (null, undefined, a number). */
  datatype TimeoutArg = Str(s: string) | NotAString

  /** The errors `parseTimeout` throws. */
  datatype TimeoutError =
    | InvalidFormat // "Invalid timeout format"
    | NotPositive   // "Timeout must be a positive number"
    | InvalidUnit   // "Invalid timeout unit"

  /** The parts of a match of `^(\d+(?:\.\d+)?)\s*(ms|[smhd]?)$` (case-insensitive). */
  datatype TimeoutMatch = TimeoutMatch(whole: string, fraction: Option<string>, spaces: string, unit: string)

  /** The unit alternatives `ms|[smhd]?`, matched ignoring ASCII case. */
  predicate IsUnit(u: string) {
    || |u| == 0
    || (|u| == 1 && var c := LowerChar(u[0]); c == 's' || c == 'm' || c == 'h' || c == 'd')
    || (|u| == 2 && LowerChar(u[0]) == 'm' && LowerChar(u[1]) == 's')
  }

  /** A match as the pattern describes it. */
  predicate WellFormed(m: TimeoutMatch) {
    && m.whole != "" && AllDigits(m.whole)
    && (m.fraction.Some? ==> m.fraction.value != "" && AllDigits(m.fraction.value))
    && AllSpace(m.spaces)
    && IsUnit(m.unit)
  }

  /** The text of the optional fraction group `(?:\.\d+)?`. */
  function FractionText(fraction: Option<string>): string {
    if fraction.Some? then "." + fraction.value else ""
  }

  /** The text a match spans. */
  function Render(m: TimeoutMatch): string {
    m.whole + FractionText(m.fraction) + m.spaces + m.unit
  }

  /** The number group matched greedily at the start of a string, and what follows it. */
  datatype NumberSplit = NumberSplit(whole: string, fraction: Option<string>, rest: string)

  /** The optional fraction `(?:\.\d+)?` matched greedily at the start of `s`, and what follows it. */
  function SplitFraction(s: string): (r: (Option<string>, string))
    ensures r.0.Some? ==> r.0.value != "" && AllDigits(r.0.value)
    ensures s == FractionText(r.0) + r.1
  {
    if |s| >= 1 && s[0] == '.' && DigitPrefix(s[1..]) != "" then
      var f := DigitPrefix(s[1..]);
      assert s[1..] == f + s[1 + |f|..];
      assert s == "." + s[1..];
      (Some(f), s[1 + |f|..])
    else (None, s)
  }

  /** `\d+(?:\.\d+)?` matched greedily at the start of `t`; `whole` is empty when `t` does not start with a digit. */
  function SplitNumber(t: string): (n: NumberSplit)
    ensures AllDigits(n.whole) && (n.fraction.Some? ==> n.fraction.value != "" && AllDigits(n.fraction.value))
    ensures t == n.whole + FractionText(n.fraction) + n.rest
    ensures n.whole == "" <==> t == [] || !IsDigit(t[0])
  {
    var whole := DigitPrefix(t);
    var r := SplitFraction(t[|whole|..]);
    Reassemble(t, whole, FractionText(r.0), r.1);
    NumberSplit(whole, r.0, r.1)
  }

  /** A string that starts with `a` is `a` followed by the rest; if the rest is `b + c`, it is `a + b + c`. */
  lemma Reassemble(t: string, a: string, b: string, c: string)
    requires |a| <= |t| && a == t[..|a|] && t[|a|..] == b + c
    ensures t == a + b + c
  {
    assert t == a + t[|a|..];
  }

  /** A fraction group followed by neither a digit nor a '.' is split back off. */
  lemma SplitFractionOf(fraction: Option<string>, rest: string)
    requires fraction.Some? ==> fraction.value != "" && AllDigits(fraction.value)
    requires rest == [] || (!IsDigit(rest[0]) && rest[0] != '.')
    ensures SplitFraction(FractionText(fraction) + rest) == (fraction, rest)
  {
    if fraction.Some? {
      var f := fraction.value;
      var s := "." + f + rest;
      assert s[1..] == f + rest;
      DigitPrefixOf(f, rest);
      assert s[1 + |f|..] == rest;
    } else {
      assert FractionText(fraction) + rest == rest;
    }
  }

  /** A number group followed by neither a digit nor a '.' is split back into its parts. */
  lemma SplitNumberOf(whole: string, fraction: Option<string>, rest: string)
    requires AllDigits(whole) && (fraction.Some? ==> fraction.value != "" && AllDigits(fraction.value))
    requires rest == [] || (!IsDigit(rest[0]) && rest[0] != '.')
    ensures SplitNumber(whole + FractionText(fraction) + rest) == NumberSplit(whole, fraction, rest)
  {
    var after := FractionText(fraction) + rest;
    var t := whole + after;
    assert whole + FractionText(fraction) + rest == t;
    assert after == [] || !IsDigit(after[0]) by {
      if fraction.Some? {
        assert after[0] == '.';
      }
    }
    DigitPrefixOf(whole, after);
    assert t[|whole|..] == after;
    SplitFractionOf(fraction, rest);
  }

  /** Matches the whole (trimmed) string against the pattern: digits, an optional fraction, spaces, a unit. */
  function MatchTimeout(t: string): Option<TimeoutMatch> {
    var n := SplitNumber(t);
    var spaces := SpacePrefix(n.rest);
    var unit := n.rest[|spaces|..];
    if n.whole != "" && IsUnit(unit) then Some(TimeoutMatch(n.whole, n.fraction, spaces, unit)) else None
  }

  function Pow10(n: nat): (p: nat)
    ensures p >= 1
  {
    if n == 0 then 1 else 10 * Pow10(n - 1)
  }

  /** `parseFloat` of the matched number, as the exact decimal it spells. */
  function NumberOf(m: TimeoutMatch): real
    requires WellFormed(m)
  {
    DecimalValue(m.whole) as real
    + if m.fraction.Some? then DecimalValue(m.fraction.value) as real / Pow10(|m.fraction.value|) as real else 0.0
  }

  /** Milliseconds per unit; no unit means seconds. */
  function UnitFactor(lowerUnit: string): (factor: Option<real>)
    ensures factor.Some? ==> factor.value >= 1.0
  {
    if lowerUnit == "ms" then Some(1.0)
    else if lowerUnit == "s" || lowerUnit == "" then Some(1000.0)
    else if lowerUnit == "m" then Some(60.0 * 1000.0)
    else if lowerUnit == "h" then Some(60.0 * 60.0 * 1000.0)
    else if lowerUnit == "d" then Some(24.0 * 60.0 * 60.0 * 1000.0)
    else None
  }

  /** `parseTimeout`: Ok(None) is null, Ok(Some(ms)) a duration, Err a thrown error. */
  function ParseTimeout(arg: TimeoutArg): Result<Option<real>, TimeoutError> {
    if arg.NotAString? || arg.s == "" then Ok(None)
    else
      var trimmed := Trim(arg.s);
      if trimmed == "" then Ok(None)
      else
        match MatchTimeout(trimmed)
        case None => Err(InvalidFormat)
        case Some(m) =>
          MatchWellFormed(trimmed);
          Milliseconds(m)
  }

  /** The part after a successful match: the positivity check and the unit switch. */
  function Milliseconds(m: TimeoutMatch): (r: Result<Option<real>, TimeoutError>)
    requires WellFormed(m)
    ensures r.Ok? ==> r.value.Some? && r.value.value >= NumberOf(m) > 0.0
    ensures r.Err? ==> r == Err(NotPositive) && NumberOf(m) == 0.0
  {
    UnitHasFactor(m.unit);
    Scale(NumberOf(m), ToLower(m.unit))
  }

  function Scale(number: real, lowerUnit: string): Result<Option<real>, TimeoutError> {
    if number <= 0.0 then Err(NotPositive)
    else
      match UnitFactor(lowerUnit)
      case None => Err(InvalidUnit)
      case Some(factor) => Ok(Some(number * factor))
  }

  // ---------------------------------------------------------------- the pattern

  lemma UnitStart(u: string)
    requires IsUnit(u) && u != ""
    ensures !IsDigit(u[0]) && !IsSpace(u[0]) && u[0] != '.'
    ensures !IsSpace(u[|u| - 1])
  {
  }

  /** Every unit the pattern admits has a case in the unit switch. */
  lemma UnitHasFactor(u: string)
    requires IsUnit(u)
    ensures UnitFactor(ToLower(u)).Some?
  {
    var l := ToLower(u);
    if |u| == 2 {
      assert l == "ms";
    } else if |u| == 1 {
      assert l == [LowerChar(u[0])];
    } else {
      assert l == "";
    }
  }

  /** Every match is well formed and spans exactly the string matched. */
  lemma MatchWellFormed(t: string)
    ensures MatchTimeout(t).Some? ==> WellFormed(MatchTimeout(t).value) && Render(MatchTimeout(t).value) == t
  {
    var n := SplitNumber(t);
    var spaces := SpacePrefix(n.rest);
    if n.whole != "" && IsUnit(n.rest[|spaces|..]) {
      Regroup(t, n.whole + FractionText(n.fraction), n.rest, spaces);
    }
  }

  /** If `t` is `a + r` and `r` starts with `c`, then `t` is `a`, `c` and the rest of `r`. */
  lemma Regroup(t: string, a: string, r: string, c: string)
    requires t == a + r && |c| <= |r| && c == r[..|c|]
    ensures t == a + c + r[|c|..]
  {
    assert r == c + r[|c|..];
  }

  /** Conversely, every well-formed match is found in the text it spans: the pattern is exactly WellFormed. */
  lemma MatchComplete(m: TimeoutMatch)
    requires WellFormed(m)
    ensures MatchTimeout(Render(m)) == Some(m)
  {
    var tail := m.spaces + m.unit;
    if m.unit != [] {
      UnitStart(m.unit);
    }
    assert tail == [] || (!IsDigit(tail[0]) && tail[0] != '.') by {
      if m.spaces != [] { assert tail[0] == m.spaces[0]; }
    }
    assert Render(m) == m.whole + FractionText(m.fraction) + tail;
    SplitNumberOf(m.whole, m.fraction, tail);
    SpacePrefixOf(m.spaces, m.unit);
    assert tail[|m.spaces|..] == m.unit;
  }

  // ---------------------------------------------------------------- parseTimeout

  /** What each unit means: "ms" milliseconds, "s" or none seconds, "m" minutes, "h" hours, "d" days. */
  lemma UnitMeaning(m: TimeoutMatch)
    requires WellFormed(m) && NumberOf(m) > 0.0
    ensures var c := if m.unit == "" then 's' else LowerChar(m.unit[0]);
            Milliseconds(m) == Ok(Some(NumberOf(m) *
              if |m.unit| == 2 then 1.0
              else if c == 's' then 1000.0
              else if c == 'm' then 60000.0
              else if c == 'h' then 3600000.0
              else 86400000.0))
  {
    var l := ToLower(m.unit);
    if |m.unit| == 2 {
      assert l == "ms";
    } else if |m.unit| == 1 {
      assert l == [LowerChar(m.unit[0])];
    } else {
      assert l == "";
    }
  }

  /** null comes back exactly for a non-string and for a string that is empty or only white space. */
  lemma NullIff(arg: TimeoutArg)
    ensures ParseTimeout(arg) == Ok(None) <==> arg.NotAString? || AllSpace(arg.s)
  {
    if arg.Str? {
      var s := arg.s;
      if AllSpace(s) {
        TrimPadded(s, "", "");
        assert s + "" + "" == s;
      }
      if Trim(s) == "" && s != "" {
        assert AllSpace(s) by {
          var st := TrimStart(s);
          assert TrimEnd(st) == "";
          assert AllSpace(st[..0] + st[0..]);
        }
      }
    }
  }

  /** A rendered match is trimmed when a unit follows any spaces. */
  lemma RenderTrimmed(m: TimeoutMatch)
    requires WellFormed(m)
    requires m.unit == "" ==> m.spaces == ""
    ensures Trimmed(Render(m))
  {
    var t := Render(m);
    assert t[0] == m.whole[0];
    if m.unit != "" {
      UnitStart(m.unit);
      assert t[|t| - 1] == m.unit[|m.unit| - 1];
    } else if m.fraction.Some? {
      assert t[|t| - 1] == m.fraction.value[|m.fraction.value| - 1];
    } else {
      assert t[|t| - 1] == m.whole[|m.whole| - 1];
    }
  }

  lemma ParsesMatch(s: string, m: TimeoutMatch)
    requires WellFormed(m) && MatchTimeout(Trim(s)) == Some(m)
    ensures ParseTimeout(Str(s)) == Milliseconds(m)
  {
    assert Trim(s) != "" by {
      assert SplitNumber(Trim(s)).whole != "";
    }
  }

  /** A well-formed duration with white space around it parses as its match: white space is ignored. */
  lemma ParsesWellFormed(w1: string, m: TimeoutMatch, w2: string)
    requires WellFormed(m) && AllSpace(w1) && AllSpace(w2)
    requires m.unit == "" ==> m.spaces == ""
    ensures ParseTimeout(Str(w1 + Render(m) + w2)) == Milliseconds(m)
  {
    RenderTrimmed(m);
    TrimPadded(w1, Render(m), w2);
    MatchComplete(m);
    ParsesMatch(w1 + Render(m) + w2, m);
  }

  /** A trimmed string that does not start with a digit (a sign, a letter, a '.') is an invalid format. */
  lemma NoLeadingDigitInvalid(s: string)
    requires Trim(s) != "" && !IsDigit(Trim(s)[0])
    ensures ParseTimeout(Str(s)) == Err(InvalidFormat)
  {
  }

  /** Units ignore case: two spellings with the same lower-case unit parse alike. */
  lemma UnitCaseInsensitive(w1: string, m: TimeoutMatch, unit: string, w2: string)
    requires WellFormed(m) && AllSpace(w1) && AllSpace(w2)
    requires m.unit == "" ==> m.spaces == ""
    requires ToLower(unit) == ToLower(m.unit)
    ensures ParseTimeout(Str(w1 + Render(m.(unit := unit)) + w2)) == ParseTimeout(Str(w1 + Render(m) + w2))
  {
    var m' := m.(unit := unit);
    assert |unit| == |m.unit|;
    assert IsUnit(unit) by {
      if |unit| > 0 { assert LowerChar(unit[0]) == ToLower(unit)[0]; }
      if |unit| > 1 { assert LowerChar(unit[1]) == ToLower(unit)[1]; }
    }
    assert NumberOf(m') == NumberOf(m);
    assert ToLower(m'.unit) == ToLower(m.unit);
    ParsesWellFormed(w1, m, w2);
    ParsesWellFormed(w1, m', w2);
  }
}
