/**
 Dates in file names and in the database: `extract_date_from_filename`, `parse_date`, and the conversions between
 stored timestamps and their text. Digits are the ASCII digits.
 */
module Dates {
  import opened Text
  import Paths

  datatype DateTime = DateTime(year: int, month: int, day: int, hour: int, minute: int, second: int)

  datatype Day = Day(year: int, month: int, day: int)

  function DayOfDateTime(t: DateTime): Day {
    Day(t.year, t.month, t.day)
  }

  predicate IsLeap(year: int) {
    year % 4 == 0 && (year % 100 != 0 || year % 400 == 0)
  }

  function DaysInMonth(year: int, month: int): int {
    if month == 2 then (if IsLeap(year) then 29 else 28)
    else if month == 4 || month == 6 || month == 9 || month == 11 then 30
    else 31
  }

  /** The values that `datetime(...)` accepts. */
  predicate IsCalendar(t: DateTime) {
    && 1 <= t.year <= 9999 && 1 <= t.month <= 12 && 1 <= t.day <= DaysInMonth(t.year, t.month)
    && 0 <= t.hour < 24 && 0 <= t.minute < 60 && 0 <= t.second < 60
  }

  type Timestamp = t: DateTime | IsCalendar(t) witness DateTime(1970, 1, 1, 0, 0, 0)

  // ---- Digits ----

  predicate IsDigit(c: char) {
    '0' <= c <= '9'
  }

  predicate IsLetter(c: char) {
    'A' <= c <= 'Z' || 'a' <= c <= 'z'
  }

  function DigitChar(n: int): char
    requires 0 <= n < 10
  {
    '0' + n as char
  }

  function DigitValue(c: char): int {
    c as int - '0' as int
  }

  function Pad2(n: int): string
    requires 0 <= n < 100
  {
    [DigitChar(n / 10), DigitChar(n % 10)]
  }

  function Pad4(n: int): string
    requires 0 <= n < 10000
  {
    Pad2(n / 100) + Pad2(n % 100)
  }

  function Num2(s: string, i: int): int
    requires 0 <= i && i + 2 <= |s|
  {
    10 * DigitValue(s[i]) + DigitValue(s[i + 1])
  }

  function Num4(s: string, i: int): int
    requires 0 <= i && i + 4 <= |s|
  {
    100 * Num2(s, i) + Num2(s, i + 2)
  }

  lemma Pad2Reads(n: int, s: string, i: int)
    requires 0 <= n < 100 && 0 <= i && i + 2 <= |s| && s[i..i + 2] == Pad2(n)
    ensures Num2(s, i) == n && IsDigit(s[i]) && IsDigit(s[i + 1])
  {
    assert s[i] == s[i..i + 2][0] && s[i + 1] == s[i..i + 2][1];
  }

  lemma Pad4Reads(n: int, s: string, i: int)
    requires 0 <= n < 10000 && 0 <= i && i + 4 <= |s| && s[i..i + 4] == Pad4(n)
    ensures Num4(s, i) == n
    ensures IsDigit(s[i]) && IsDigit(s[i + 1]) && IsDigit(s[i + 2]) && IsDigit(s[i + 3])
  {
    assert s[i..i + 2] == s[i..i + 4][..2] == Pad2(n / 100);
    assert s[i + 2..i + 4] == s[i..i + 4][2..] == Pad2(n % 100);
    Pad2Reads(n / 100, s, i);
    Pad2Reads(n % 100, s, i + 2);
  }

  // ---- Text of a timestamp ----

  /** `isoformat(timespec="seconds")` with the given separator between date and time. */
  function TextWith(t: DateTime, separator: char): (s: string)
    requires IsCalendar(t)
    ensures |s| == 19
  {
    Pad4(t.year) + "-" + Pad2(t.month) + "-" + Pad2(t.day) + [separator]
    + Pad2(t.hour) + ":" + Pad2(t.minute) + ":" + Pad2(t.second)
  }

  function IsoText(t: DateTime): string
    requires IsCalendar(t)
  {
    TextWith(t, 'T')
  }

  /** The camera form YYYYMMDD_HHMMSS, with `-` or `_` in the middle. */
  function Stamp(t: DateTime, separator: char): (s: string)
    requires IsCalendar(t)
    ensures |s| == 15
  {
    Pad4(t.year) + Pad2(t.month) + Pad2(t.day) + [separator] + Pad2(t.hour) + Pad2(t.minute) + Pad2(t.second)
  }

  /** YYYY-MM-DD?HH:MM:SS with any one character between date and time. */
  predicate HasIsoShape(s: string) {
    && |s| == 19
    && (forall i :: i in {0, 1, 2, 3, 5, 6, 8, 9, 11, 12, 14, 15, 17, 18} ==> IsDigit(s[i]))
    && s[4] == '-' && s[7] == '-' && s[13] == ':' && s[16] == ':'
  }

  function ReadIso(s: string): DateTime
    requires HasIsoShape(s)
  {
    DateTime(Num4(s, 0), Num2(s, 5), Num2(s, 8), Num2(s, 11), Num2(s, 14), Num2(s, 17))
  }

  /** `_parse_datetime` on text; `other` stands for what `fromisoformat` makes of every other form. */
  function ParseDateTime(s: string, other: string -> Option<Timestamp>): Option<Timestamp> {
    if s == "" then None
    else if HasIsoShape(s) then (if IsCalendar(ReadIso(s)) then Some(ReadIso(s)) else None)
    else other(s)
  }

  /** `_datetime_text` on a stored timestamp. */
  function DateTimeText(t: Option<Timestamp>): string {
    if t.Some? then IsoText(t.value) else ""
  }

  function ReplaceT(s: string): string {
    seq(|s|, i requires 0 <= i < |s| => if s[i] == 'T' then ' ' else s[i])
  }

  /** `parse_date`; `other` stands for what `strptime` makes of every other form, `None` where it raises. */
  function ParseDate(s: string, other: string -> Option<Timestamp>): Option<Timestamp> {
    var spaced := ReplaceT(s);
    var head := if |spaced| > 19 then spaced[..19] else spaced;
    if HasIsoShape(head) && head[10] == ' '
    then (if IsCalendar(ReadIso(head)) then Some(ReadIso(head)) else None)
    else other(head)
  }

  lemma TextReads(t: DateTime, separator: char)
    requires IsCalendar(t)
    ensures HasIsoShape(TextWith(t, separator)) && TextWith(t, separator)[10] == separator
    ensures ReadIso(TextWith(t, separator)) == t
  {
    var s := TextWith(t, separator);
    assert s[0..4] == Pad4(t.year) && s[5..7] == Pad2(t.month) && s[8..10] == Pad2(t.day);
    assert s[11..13] == Pad2(t.hour) && s[14..16] == Pad2(t.minute) && s[17..19] == Pad2(t.second);
    Pad4Reads(t.year, s, 0);
    Pad2Reads(t.month, s, 5);
    Pad2Reads(t.day, s, 8);
    Pad2Reads(t.hour, s, 11);
    Pad2Reads(t.minute, s, 14);
    Pad2Reads(t.second, s, 17);
  }

  /** Text and timestamps convert back and forth without loss, whatever the parsers do with other forms. */
  lemma IsoTextRoundTrips(t: DateTime, other: string -> Option<Timestamp>)
    requires IsCalendar(t)
    ensures ParseDateTime(IsoText(t), other) == Some(t)
    ensures ParseDate(IsoText(t), other) == Some(t)
    ensures DateTimeText(ParseDateTime(IsoText(t), other)) == IsoText(t)
  {
    TextReads(t, 'T');
    TextReads(t, ' ');
    var s := IsoText(t);
    assert forall i :: 0 <= i < 19 && i != 10 ==> s[i] != 'T' by {
      forall i | 0 <= i < 19 && i != 10 ensures s[i] != 'T' {
        assert i in {0, 1, 2, 3, 5, 6, 8, 9, 11, 12, 14, 15, 17, 18} || i in {4, 7, 13, 16};
      }
    }
    assert ReplaceT(s) == TextWith(t, ' ');
  }

  lemma IsoTextIsInjective(t: DateTime, u: DateTime)
    requires IsCalendar(t) && IsCalendar(u) && IsoText(t) == IsoText(u)
    ensures t == u
  {
    TextReads(t, 'T');
    TextReads(u, 'T');
  }

  // ---- Patterns ----

  /**
   A fixed-length pattern: `d` is a digit, `u` one of `-_`, `s` one of ` _`, `c` one of `.-:`, anything else itself.
   With `afterLetters` the match must follow at least one letter and an underscore. The numbers are the offsets of
   the fields after the year; a pattern without time has `hour == 0`.
   */
  datatype Pattern = Pattern(afterLetters: bool, shape: string, month: nat, day: nat, hour: nat, minute: nat, second: nat)

  const PATTERNS: seq<Pattern> := [
    Pattern(false, "dddddddd" + "u" + "dddddd", 4, 6, 9, 11, 13),
    Pattern(true, "dddddddd" + "u" + "dddddd", 4, 6, 9, 11, 13),
    Pattern(false, "dddd-dd-dd-dd-dd-dd", 5, 8, 11, 14, 17),
    Pattern(false, "dddd-dd-dd" + "s" + "dd" + "c" + "dd" + "c" + "dd", 5, 8, 11, 14, 17),
    Pattern(false, "dddddddd", 4, 6, 0, 0, 0)
  ]

  /** The fields lie inside the pattern. */
  predicate WellFormed(p: Pattern) {
    4 <= |p.shape| && p.month + 2 <= |p.shape| && p.day + 2 <= |p.shape|
    && p.hour + 2 <= |p.shape| && p.minute + 2 <= |p.shape| && p.second + 2 <= |p.shape|
  }

  predicate CharMatches(code: char, c: char) {
    if code == 'd' then IsDigit(c)
    else if code == 'u' then c == '-' || c == '_'
    else if code == 's' then c == ' ' || c == '_'
    else if code == 'c' then c == '.' || c == '-' || c == ':'
    else c == code
  }

  predicate MatchAt(p: Pattern, s: string, i: nat) {
    && i + |p.shape| <= |s|
    && (forall k :: 0 <= k < |p.shape| ==> CharMatches(p.shape[k], s[i + k]))
    && (p.afterLetters ==> i >= 2 && s[i - 1] == '_' && IsLetter(s[i - 2]))
  }

  /** The leftmost match at or after `from`, as `pattern.search` finds it. */
  function Search(p: Pattern, s: string, from: nat): (found: Option<nat>)
    ensures found.Some? ==> from <= found.value && MatchAt(p, s, found.value)
    ensures forall j: nat :: from <= j && (found.Some? ==> j < found.value) ==> !MatchAt(p, s, j)
    decreases |s| - from
  {
    if from > |s| then None
    else if MatchAt(p, s, from) then Some(from)
    else Search(p, s, from + 1)
  }

  /** The date a match at `i` stands for; an impossible time of day counts as midnight. */
  function ReadMatch(p: Pattern, s: string, i: nat): (t: Option<Timestamp>)
    requires WellFormed(p) && i + |p.shape| <= |s|
    ensures t.Some? ==> 1970 <= t.value.year <= 2099
  {
    var year, month, day := Num4(s, i), Num2(s, i + p.month), Num2(s, i + p.day);
    if !(1970 <= year <= 2099 && 1 <= month <= 12 && 1 <= day <= 31) then None
    else
      var hh, mm, ss := Num2(s, i + p.hour), Num2(s, i + p.minute), Num2(s, i + p.second);
      var timed := p.hour > 0 && 0 <= hh < 24 && 0 <= mm < 60 && 0 <= ss < 60;
      var t := if timed then DateTime(year, month, day, hh, mm, ss) else DateTime(year, month, day, 0, 0, 0);
      if IsCalendar(t) then Some(t) else None
  }

  function TryPattern(p: Pattern, s: string): (t: Option<Timestamp>)
    requires WellFormed(p)
    ensures t.Some? ==> 1970 <= t.value.year <= 2099
  {
    var found := Search(p, s, 0);
    if found.None? then None else ReadMatch(p, s, found.value)
  }

  /** The date of the first pattern from the k-th on that yields one. */
  function FirstDate(s: string, k: nat): (t: Option<Timestamp>)
    requires k <= |PATTERNS|
    ensures t.Some? ==> 1970 <= t.value.year <= 2099
    decreases |PATTERNS| - k
  {
    if k == |PATTERNS| then None
    else
      var t := TryPattern(PATTERNS[k], s);
      if t.Some? then t else FirstDate(s, k + 1)
  }

  /** The date in a file name, if it has one. */
  function FilenameDate(name: string): (t: Option<Timestamp>)
    ensures t.Some? ==> 1970 <= t.value.year <= 2099
  {
    if name == "" then None else FirstDate(Paths.Stem(Paths.Name(name)), 0)
  }

  /** One round of the loop: the date that one pattern finds in the stem. */
  method MatchDate(p: Pattern, stem: string) returns (t: Option<Timestamp>)
    requires WellFormed(p)
    ensures t == TryPattern(p, stem)
  {
    var found := Search(p, stem, 0);
    if found.None? {
      return None;
    }
    var i := found.value;
    var year, month, day := Num4(stem, i), Num2(stem, i + p.month), Num2(stem, i + p.day);
    if !(1970 <= year <= 2099 && 1 <= month <= 12 && 1 <= day <= 31) {
      return None;
    }
    var hh, mm, ss := 0, 0, 0;
    if p.hour > 0 {
      hh, mm, ss := Num2(stem, i + p.hour), Num2(stem, i + p.minute), Num2(stem, i + p.second);
      if !(0 <= hh < 24 && 0 <= mm < 60 && 0 <= ss < 60) {
        hh, mm, ss := 0, 0, 0;
      }
    }
    var candidate := DateTime(year, month, day, hh, mm, ss);
    t := if IsCalendar(candidate) then Some(candidate) else None;
  }

  /** `extract_date_from_filename`: every result is "" or the text of a real calendar datetime of 1970-2099. */
  method ExtractDateFromFilename(name: string) returns (text: string)
    ensures text == DateTimeText(FilenameDate(name))
  {
    if name == "" {
      return "";
    }
    var stem := Paths.Stem(Paths.Name(name));
    for k := 0 to |PATTERNS|
      invariant FirstDate(stem, 0) == FirstDate(stem, k)
    {
      var t := MatchDate(PATTERNS[k], stem);
      if t.Some? {
        return IsoText(t.value);
      }
    }
    text := "";
  }

  // ---- Reading back what cameras write ----

  lemma StampReads(t: DateTime, separator: char, s: string, i: nat)
    requires IsCalendar(t) && (separator == '-' || separator == '_')
    requires i + 15 <= |s| && s[i..i + 15] == Stamp(t, separator)
    ensures MatchAt(PATTERNS[0], s, i)
    ensures 1970 <= t.year <= 2099 ==> ReadMatch(PATTERNS[0], s, i) == Some(t)
  {
    var stamp := Stamp(t, separator);
    assert forall k :: 0 <= k < 15 ==> s[i + k] == s[i..i + 15][k] == stamp[k];
    assert s[i..i + 4] == stamp[0..4] == Pad4(t.year);
    assert s[i + 4..i + 6] == stamp[4..6] == Pad2(t.month);
    assert s[i + 6..i + 8] == stamp[6..8] == Pad2(t.day);
    assert s[i + 9..i + 11] == stamp[9..11] == Pad2(t.hour);
    assert s[i + 11..i + 13] == stamp[11..13] == Pad2(t.minute);
    assert s[i + 13..i + 15] == stamp[13..15] == Pad2(t.second);
    Pad4Reads(t.year, s, i);
    Pad2Reads(t.month, s, i + 4);
    Pad2Reads(t.day, s, i + 6);
    Pad2Reads(t.hour, s, i + 9);
    Pad2Reads(t.minute, s, i + 11);
    Pad2Reads(t.second, s, i + 13);
    assert s[i + 8] == stamp[8] == separator;
    assert DaysInMonth(t.year, t.month) <= 31;
    var shape := PATTERNS[0].shape;
    forall k | 0 <= k < 15 ensures CharMatches(shape[k], s[i + k]) {
      assert k < 4 || k in {4, 5, 6, 7, 8, 9, 10, 11, 12, 13, 14};
    }
  }

  /** A datetime written as YYYYMMDD_HHMMSS after a digit-free prefix of the stem is recovered exactly. */
  lemma StampIsRecovered(name: string, prefix: string, t: DateTime, separator: char, tail: string)
    requires IsCalendar(t) && 1970 <= t.year <= 2099 && (separator == '-' || separator == '_')
    requires forall k :: 0 <= k < |prefix| ==> !IsDigit(prefix[k])
    requires Paths.Stem(Paths.Name(name)) == prefix + Stamp(t, separator) + tail
    ensures FilenameDate(name) == Some(t)
  {
    var stem := prefix + Stamp(t, separator) + tail;
    var i := |prefix|;
    assert stem[i..i + 15] == Stamp(t, separator);
    StampReads(t, separator, stem, i);
    forall j: nat | j < i ensures !MatchAt(PATTERNS[0], stem, j) {
      assert stem[j] == prefix[j];
      NoMatchAtLetter(PATTERNS[0], stem, j);
    }
    SearchFinds(PATTERNS[0], stem, i);
    assert name != "" by {
      assert Paths.Name("") == "";
    }
    FirstPatternWins(stem, t);
  }

  lemma NoMatchAtLetter(p: Pattern, s: string, j: nat)
    requires p.shape != "" && p.shape[0] == 'd' && j < |s| && !IsDigit(s[j])
    ensures !MatchAt(p, s, j)
  {
    assert MatchAt(p, s, j) ==> CharMatches(p.shape[0], s[j + 0]);
  }

  lemma SearchFinds(p: Pattern, s: string, i: nat)
    requires MatchAt(p, s, i) && forall j: nat :: j < i ==> !MatchAt(p, s, j)
    ensures Search(p, s, 0) == Some(i)
  {
  }

  lemma FirstPatternWins(stem: string, t: Timestamp)
    requires TryPattern(PATTERNS[0], stem) == Some(t)
    ensures FirstDate(stem, 0) == Some(t)
  {
  }

  /** In particular for the names phones give: a plain prefix, the stamp, and an extension. */
  lemma CameraNameIsRecovered(prefix: string, t: DateTime, separator: char, extension: string)
    requires IsCalendar(t) && 1970 <= t.year <= 2099 && (separator == '-' || separator == '_')
    requires forall k :: 0 <= k < |prefix| ==> !IsDigit(prefix[k]) && prefix[k] != '/'
    requires |extension| >= 2 && extension[0] == '.' && '.' !in extension[1..] && '/' !in extension
    ensures FilenameDate(prefix + Stamp(t, separator) + extension) == Some(t)
  {
    var stem := prefix + Stamp(t, separator);
    var name := stem + extension;
    assert '/' !in Stamp(t, separator) by {
      var stamp := Stamp(t, separator);
      StampReads(t, separator, stamp, 0);
      assert stamp[0..15] == stamp;
    }
    Paths.NameOfPlain(name);
    Paths.SplitIsRecovered(stem, extension);
    assert stem + [] == stem;
    StampIsRecovered(name, prefix, t, separator, "");
  }
}
