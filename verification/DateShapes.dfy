/** The dates that file names hold in the forms the application knows, each read back for every day it accepts. */
module DateShapes {
  import opened Text
  import opened Dates
  import Paths

  /** A day that names can hold: any day of the calendar from 1970 to 2099. */
  predicate Readable(d: Day) {
    1970 <= d.year <= 2099 && IsCalendar(Midnight(d))
  }

  function Midnight(d: Day): DateTime {
    DateTime(d.year, d.month, d.day, 0, 0, 0)
  }

  /** Two digits each for hour, minute and second, which need not make a time of day. */
  datatype Clock = Clock(hour: int, minute: int, second: int)

  predicate TwoDigits(c: Clock) {
    0 <= c.hour < 100 && 0 <= c.minute < 100 && 0 <= c.second < 100
  }

  /** The time on that day, or midnight if there is no such time. */
  function At(d: Day, c: Clock): DateTime {
    if c.hour < 24 && c.minute < 60 && c.second < 60 then DateTime(d.year, d.month, d.day, c.hour, c.minute, c.second)
    else Midnight(d)
  }

  predicate DigitFree(s: string) {
    forall k :: 0 <= k < |s| ==> !IsDigit(s[k])
  }

  predicate SixDigitsAt(s: string, i: nat) {
    i + 6 <= |s| && forall k :: i <= k < i + 6 ==> IsDigit(s[k])
  }

  predicate DashedPairAt(s: string, i: nat) {
    i + 4 <= |s| && s[i] == '-' && IsDigit(s[i + 1]) && IsDigit(s[i + 2]) && s[i + 3] == '-'
  }

  /** Nothing that could belong to another date: no six digits in a row, and no two digits between dashes. */
  ghost predicate Plain(tail: string) {
    forall i: nat :: !SixDigitsAt(tail, i) && !DashedPairAt(tail, i)
  }

  // ---- The forms ----

  function Compact(d: Day): string
    requires Readable(d)
  {
    Pad4(d.year) + Pad2(d.month) + Pad2(d.day)
  }

  function Dashed(d: Day): string
    requires Readable(d)
  {
    Pad4(d.year) + "-" + Pad2(d.month) + "-" + Pad2(d.day)
  }

  function Pairs(c: Clock, first: string, second: string): string
    requires TwoDigits(c)
  {
    Pad2(c.hour) + first + Pad2(c.minute) + second + Pad2(c.second)
  }

  /** Where the fields of a date stand in `s`. */
  predicate HoldsDay(s: string, i: nat, month: nat, day: nat, d: Day) {
    && i + 4 <= |s| && month + 2 <= |s| && day + 2 <= |s|
    && Num4(s, i) == d.year && Num2(s, month) == d.month && Num2(s, day) == d.day
    && IsDigit(s[i]) && IsDigit(s[i + 1]) && IsDigit(s[i + 2]) && IsDigit(s[i + 3])
    && IsDigit(s[month]) && IsDigit(s[month + 1]) && IsDigit(s[day]) && IsDigit(s[day + 1])
  }

  predicate HoldsClock(s: string, hour: nat, minute: nat, second: nat, c: Clock) {
    && hour + 2 <= |s| && minute + 2 <= |s| && second + 2 <= |s|
    && Num2(s, hour) == c.hour && Num2(s, minute) == c.minute && Num2(s, second) == c.second
    && IsDigit(s[hour]) && IsDigit(s[hour + 1]) && IsDigit(s[minute]) && IsDigit(s[minute + 1])
    && IsDigit(s[second]) && IsDigit(s[second + 1])
  }

  lemma CompactHolds(d: Day, s: string, i: nat)
    requires Readable(d) && i + 8 <= |s| && s[i..i + 8] == Compact(d)
    ensures HoldsDay(s, i, i + 4, i + 6, d)
  {
    var text := Compact(d);
    assert s[i..i + 4] == text[0..4] == Pad4(d.year);
    assert s[i + 4..i + 6] == text[4..6] == Pad2(d.month);
    assert s[i + 6..i + 8] == text[6..8] == Pad2(d.day);
    Pad4Reads(d.year, s, i);
    Pad2Reads(d.month, s, i + 4);
    Pad2Reads(d.day, s, i + 6);
  }

  lemma DashedHolds(d: Day, s: string, i: nat)
    requires Readable(d) && i + 10 <= |s| && s[i..i + 10] == Dashed(d)
    ensures HoldsDay(s, i, i + 5, i + 8, d) && s[i + 4] == '-' && s[i + 7] == '-'
  {
    var text := Dashed(d);
    assert text[5] == Pad2(d.month)[0] && text[6] == Pad2(d.month)[1];
    assert text[8] == Pad2(d.day)[0] && text[9] == Pad2(d.day)[1];
    assert s[i..i + 4] == text[0..4] == Pad4(d.year);
    assert s[i + 5..i + 7] == text[5..7] == Pad2(d.month);
    assert s[i + 8..i + 10] == text[8..10] == Pad2(d.day);
    assert s[i + 4] == text[4] && s[i + 7] == text[7];
    Pad4Reads(d.year, s, i);
    Pad2Reads(d.month, s, i + 5);
    Pad2Reads(d.day, s, i + 8);
  }

  lemma TightPairsHold(c: Clock, s: string, i: nat)
    requires TwoDigits(c) && i + 6 <= |s| && s[i..i + 6] == Pairs(c, "", "")
    ensures HoldsClock(s, i, i + 2, i + 4, c)
  {
    var text := Pairs(c, "", "");
    assert text == Pad2(c.hour) + Pad2(c.minute) + Pad2(c.second);
    assert text[2] == Pad2(c.minute)[0] && text[3] == Pad2(c.minute)[1];
    assert s[i..i + 2] == text[0..2] == Pad2(c.hour);
    assert s[i + 2..i + 4] == s[i..i + 6][2..4] == text[2..4] == Pad2(c.minute);
    assert s[i + 4..i + 6] == text[4..6] == Pad2(c.second);
    Pad2Reads(c.hour, s, i);
    Pad2Reads(c.minute, s, i + 2);
    Pad2Reads(c.second, s, i + 4);
  }

  lemma PairsHold(c: Clock, first: char, second: char, s: string, i: nat)
    requires TwoDigits(c) && i + 8 <= |s| && s[i..i + 8] == Pairs(c, [first], [second])
    ensures HoldsClock(s, i, i + 3, i + 6, c) && s[i + 2] == first && s[i + 5] == second
  {
    var text := Pairs(c, [first], [second]);
    assert s[i..i + 2] == text[0..2] == Pad2(c.hour);
    assert text[3] == Pad2(c.minute)[0] && text[4] == Pad2(c.minute)[1];
    assert s[i + 3..i + 5] == s[i..i + 8][3..5] == text[3..5] == Pad2(c.minute);
    assert s[i + 6..i + 8] == text[6..8] == Pad2(c.second);
    assert s[i + 2] == text[2] && s[i + 5] == text[5];
    Pad2Reads(c.hour, s, i);
    Pad2Reads(c.minute, s, i + 3);
    Pad2Reads(c.second, s, i + 6);
  }

  // ---- Where patterns do not match ----

  lemma Unfit(p: Pattern, s: string, j: nat, k: nat)
    requires k < |p.shape| && j + k < |s| && !CharMatches(p.shape[k], s[j + k])
    ensures !MatchAt(p, s, j)
  {
  }

  lemma StampShape(p: Pattern)
    requires p == PATTERNS[0] || p == PATTERNS[1]
    ensures |p.shape| == 15 && forall k :: 0 <= k < 15 && k != 8 ==> p.shape[k] == 'd'
  {
    forall k | 0 <= k < 15 && k != 8 ensures p.shape[k] == 'd' {
      assert k < 4 || k in {4, 5, 6, 7} || k in {9, 10, 11, 12, 13, 14};
    }
  }

  lemma DashedShape(p: Pattern)
    requires p == PATTERNS[2] || p == PATTERNS[3]
    ensures |p.shape| == 19 && p.shape[4] == '-' && p.shape[5] == p.shape[6] == 'd' && p.shape[7] == '-'
    ensures p.shape[0] == p.shape[1] == p.shape[2] == p.shape[3] == 'd'
  {
  }

  lemma NotInPrefix(p: Pattern, s: string, i: nat, j: nat)
    requires p.shape != "" && p.shape[0] == 'd' && j < i <= |s| && DigitFree(s[..i])
    ensures !MatchAt(p, s, j)
  {
    assert s[j] == s[..i][j];
    NoMatchAtLetter(p, s, j);
  }

  lemma NoStampInTail(p: Pattern, s: string, n: nat, j: nat)
    requires p == PATTERNS[0] || p == PATTERNS[1]
    requires n <= |s| && n <= j + 9 && Plain(s[n..])
    ensures !MatchAt(p, s, j)
  {
    StampShape(p);
    if MatchAt(p, s, j) {
      forall k | j + 9 - n <= k < j + 15 - n ensures IsDigit(s[n..][k]) {
        assert CharMatches(p.shape[n + k - j], s[j + (n + k - j)]);
      }
      assert SixDigitsAt(s[n..], j + 9 - n);
    }
  }

  lemma NoDashedInTail(p: Pattern, s: string, n: nat, j: nat)
    requires p == PATTERNS[2] || p == PATTERNS[3]
    requires n <= |s| && n <= j + 4 && Plain(s[n..])
    ensures !MatchAt(p, s, j)
  {
    DashedShape(p);
    if MatchAt(p, s, j) {
      assert CharMatches(p.shape[4], s[j + 4]) && CharMatches(p.shape[5], s[j + 5]);
      assert CharMatches(p.shape[6], s[j + 6]) && CharMatches(p.shape[7], s[j + 7]);
      assert DashedPairAt(s[n..], j + 4 - n);
    }
  }

  lemma FoundBehindPrefix(p: Pattern, s: string, i: nat)
    requires p.shape != "" && p.shape[0] == 'd' && i <= |s| && DigitFree(s[..i]) && MatchAt(p, s, i)
    ensures Search(p, s, 0) == Some(i)
  {
    forall j: nat | j < i ensures !MatchAt(p, s, j) {
      NotInPrefix(p, s, i, j);
    }
    SearchFinds(p, s, i);
  }

  // ---- Digits that are a date and nothing more ----

  lemma CompactIsNoStamp(p: Pattern, s: string, i: nat)
    requires p == PATTERNS[0] || p == PATTERNS[1]
    requires i + 8 <= |s| && DigitFree(s[..i]) && Plain(s[i + 8..])
    ensures Search(p, s, 0) == None
  {
    StampShape(p);
    forall j: nat ensures !MatchAt(p, s, j) {
      if j < i {
        NotInPrefix(p, s, i, j);
      } else {
        NoStampInTail(p, s, i + 8, j);
      }
    }
  }

  lemma CompactIsNotDashed(p: Pattern, d: Day, s: string, i: nat)
    requires p == PATTERNS[2] || p == PATTERNS[3]
    requires i + 8 <= |s| && DigitFree(s[..i]) && Plain(s[i + 8..]) && HoldsDay(s, i, i + 4, i + 6, d)
    ensures Search(p, s, 0) == None
  {
    DashedShape(p);
    forall j: nat ensures !MatchAt(p, s, j) {
      if j < i {
        NotInPrefix(p, s, i, j);
      } else if j + 4 < i + 8 {
        assert IsDigit(s[j + 4]);
        Unfit(p, s, j, 4);
      } else {
        NoDashedInTail(p, s, i + 8, j);
      }
    }
  }

  lemma CompactIsFound(d: Day, s: string, i: nat)
    requires Readable(d) && i + 8 <= |s| && DigitFree(s[..i]) && HoldsDay(s, i, i + 4, i + 6, d)
    ensures TryPattern(PATTERNS[4], s) == Some(Midnight(d))
  {
    forall k | 0 <= k < 8 ensures CharMatches(PATTERNS[4].shape[k], s[i + k]) {
      assert k < 4 || k in {4, 5, 6, 7};
    }
    FoundBehindPrefix(PATTERNS[4], s, i);
    assert DaysInMonth(d.year, d.month) <= 31;
  }

  lemma OnlyDays(s: string, t: Option<Timestamp>)
    requires Search(PATTERNS[0], s, 0) == None && Search(PATTERNS[1], s, 0) == None
    requires Search(PATTERNS[2], s, 0) == None && Search(PATTERNS[3], s, 0) == None
    requires TryPattern(PATTERNS[4], s) == t && t.Some?
    ensures FirstDate(s, 0) == t
  {
    assert FirstDate(s, 4) == t;
    assert FirstDate(s, 3) == t;
    assert FirstDate(s, 2) == t;
    assert FirstDate(s, 1) == t;
  }

  lemma NameIsNotEmpty(name: string)
    requires Paths.Stem(Paths.Name(name)) != ""
    ensures name != ""
  {
    assert Paths.Name("") == "";
  }

  /** YYYYMMDD with nothing like a time after it is midnight of that day. */
  lemma CompactDayIsRecovered(name: string, prefix: string, d: Day, tail: string)
    requires Readable(d) && DigitFree(prefix) && Plain(tail)
    requires Paths.Stem(Paths.Name(name)) == prefix + Compact(d) + tail
    ensures FilenameDate(name) == Some(Midnight(d))
  {
    var s, i := Paths.Stem(Paths.Name(name)), |prefix|;
    assert |Compact(d)| == 8;
    assert s[..i] == prefix && s[i + 8..] == tail && s[i..i + 8] == Compact(d);
    CompactHolds(d, s, i);
    CompactIsNoStamp(PATTERNS[0], s, i);
    CompactIsNoStamp(PATTERNS[1], s, i);
    CompactIsNotDashed(PATTERNS[2], d, s, i);
    CompactIsNotDashed(PATTERNS[3], d, s, i);
    CompactIsFound(d, s, i);
    OnlyDays(s, Some(Midnight(d)));
    NameIsNotEmpty(name);
  }

  // ---- Digits with a time ----

  lemma StampIsFound(p: Pattern, d: Day, c: Clock, s: string, i: nat)
    requires p == PATTERNS[0] || p == PATTERNS[1]
    requires Readable(d) && TwoDigits(c) && i + 15 <= |s| && (s[i + 8] == '-' || s[i + 8] == '_')
    requires HoldsDay(s, i, i + 4, i + 6, d) && HoldsClock(s, i + 9, i + 11, i + 13, c)
    requires p.afterLetters ==> i >= 2 && s[i - 1] == '_' && IsLetter(s[i - 2])
    ensures MatchAt(p, s, i) && ReadMatch(p, s, i) == Some(At(d, c))
  {
    StampShape(p);
    assert p.shape[8] == 'u';
    forall k | 0 <= k < 15 ensures CharMatches(p.shape[k], s[i + k]) {
      assert k < 4 || k in {4, 5, 6, 7, 8, 9, 10, 11, 12, 13, 14};
    }
    assert DaysInMonth(d.year, d.month) <= 31;
  }

  /** YYYYMMDD_HHMMSS is that time, or midnight of that day if there is no such time, whatever comes after it. */
  lemma StampWithAnyTimeIsRecovered(name: string, prefix: string, d: Day, separator: char, c: Clock, tail: string)
    requires Readable(d) && TwoDigits(c) && DigitFree(prefix) && (separator == '-' || separator == '_')
    requires Paths.Stem(Paths.Name(name)) == prefix + Compact(d) + [separator] + Pairs(c, "", "") + tail
    ensures FilenameDate(name) == Some(At(d, c))
  {
    var s, i := Paths.Stem(Paths.Name(name)), |prefix|;
    assert |Compact(d)| == 8 && |Pairs(c, "", "")| == 6;
    assert s[..i] == prefix && s[i..i + 8] == Compact(d) && s[i + 8] == separator;
    assert s[i + 9..i + 15] == Pairs(c, "", "");
    CompactHolds(d, s, i);
    TightPairsHold(c, s, i + 9);
    StampIsFound(PATTERNS[0], d, c, s, i);
    StampShape(PATTERNS[0]);
    FoundBehindPrefix(PATTERNS[0], s, i);
    FirstPatternWins(s, At(d, c));
    NameIsNotEmpty(name);
  }

  /** A dashed date at `i` with separators every third character of the time behind it. */
  predicate Spaced(s: string, i: nat) {
    && i + 19 <= |s| && s[i + 4] == '-' && s[i + 7] == '-'
    && !IsDigit(s[i + 10]) && !IsDigit(s[i + 13]) && !IsDigit(s[i + 16])
  }

  lemma SpacedIsNoStamp(p: Pattern, s: string, i: nat)
    requires p == PATTERNS[0] || p == PATTERNS[1]
    requires Spaced(s, i) && DigitFree(s[..i]) && Plain(s[i + 19..])
    ensures Search(p, s, 0) == None
  {
    StampShape(p);
    forall j: nat ensures !MatchAt(p, s, j) {
      if j < i {
        NotInPrefix(p, s, i, j);
      } else if j + 9 < i + 19 {
        var gap := if j <= i + 4 then i + 4 else if j <= i + 7 then i + 7 else i + 10;
        Unfit(p, s, j, gap - j);
      } else {
        NoStampInTail(p, s, i + 19, j);
      }
    }
  }

  lemma SpacedIsNotDashed(s: string, i: nat)
    requires Spaced(s, i) && s[i + 10] != '-' && DigitFree(s[..i]) && Plain(s[i + 19..])
    ensures Search(PATTERNS[2], s, 0) == None
  {
    var p := PATTERNS[2];
    DashedShape(p);
    forall j: nat ensures !MatchAt(p, s, j) {
      if j < i {
        NotInPrefix(p, s, i, j);
      } else if j == i {
        assert p.shape[10] == '-';
        Unfit(p, s, j, 10);
      } else if j + 4 < i + 19 {
        var gap := if j <= i + 4 then i + 4 else if j <= i + 7 then i + 7 else if j <= i + 10 then i + 10 else if j <= i + 13 then i + 13 else i + 16;
        Unfit(p, s, j, gap - j);
      } else {
        NoDashedInTail(p, s, i + 19, j);
      }
    }
  }

  lemma DashedIsFound(p: Pattern, d: Day, c: Clock, s: string, i: nat)
    requires p == PATTERNS[2] || p == PATTERNS[3]
    requires Readable(d) && TwoDigits(c) && Spaced(s, i) && DigitFree(s[..i])
    requires HoldsDay(s, i, i + 5, i + 8, d) && HoldsClock(s, i + 11, i + 14, i + 17, c)
    requires CharMatches(p.shape[10], s[i + 10]) && CharMatches(p.shape[13], s[i + 13]) && CharMatches(p.shape[16], s[i + 16])
    ensures TryPattern(p, s) == Some(At(d, c))
  {
    DashedShape(p);
    DashedMatches(p, d, c, s, i);
    FoundBehindPrefix(p, s, i);
    DashedReads(p, d, c, s, i);
  }

  lemma DashedMatches(p: Pattern, d: Day, c: Clock, s: string, i: nat)
    requires p == PATTERNS[2] || p == PATTERNS[3]
    requires i + 19 <= |s| && s[i + 4] == '-' && s[i + 7] == '-'
    requires HoldsDay(s, i, i + 5, i + 8, d) && HoldsClock(s, i + 11, i + 14, i + 17, c)
    requires CharMatches(p.shape[10], s[i + 10]) && CharMatches(p.shape[13], s[i + 13]) && CharMatches(p.shape[16], s[i + 16])
    ensures MatchAt(p, s, i)
  {
    DashedShape(p);
    DashedDigits(p);
    forall k | 0 <= k < 19 ensures CharMatches(p.shape[k], s[i + k]) {
      assert k < 4 || k in {4, 5, 6, 7, 8, 9, 10} || k in {11, 12, 13, 14, 15, 16, 17, 18};
    }
  }

  lemma DashedDigits(p: Pattern)
    requires p == PATTERNS[2] || p == PATTERNS[3]
    ensures |p.shape| == 19 && forall k :: k in {8, 9, 11, 12, 14, 15, 17, 18} ==> p.shape[k] == 'd'
  {
  }

  lemma DashedReads(p: Pattern, d: Day, c: Clock, s: string, i: nat)
    requires p == PATTERNS[2] || p == PATTERNS[3]
    requires Readable(d) && TwoDigits(c) && i + 19 <= |s|
    requires HoldsDay(s, i, i + 5, i + 8, d) && HoldsClock(s, i + 11, i + 14, i + 17, c)
    ensures ReadMatch(p, s, i) == Some(At(d, c))
  {
    assert p.month == 5 && p.day == 8 && p.hour == 11 && p.minute == 14 && p.second == 17;
    assert DaysInMonth(d.year, d.month) <= 31;
  }

  lemma DashedTimeIsRead(d: Day, c: Clock, s: string, i: nat)
    requires Readable(d) && TwoDigits(c) && Spaced(s, i) && DigitFree(s[..i]) && Plain(s[i + 19..])
    requires HoldsDay(s, i, i + 5, i + 8, d) && HoldsClock(s, i + 11, i + 14, i + 17, c)
    requires s[i + 10] == s[i + 13] == s[i + 16] == '-'
    ensures FirstDate(s, 0) == Some(At(d, c))
  {
    SpacedIsNoStamp(PATTERNS[0], s, i);
    SpacedIsNoStamp(PATTERNS[1], s, i);
    DashedIsFound(PATTERNS[2], d, c, s, i);
    SkipStamps(s);
  }

  lemma SpacedTimeIsRead(d: Day, c: Clock, s: string, i: nat)
    requires Readable(d) && TwoDigits(c) && Spaced(s, i) && DigitFree(s[..i]) && Plain(s[i + 19..])
    requires HoldsDay(s, i, i + 5, i + 8, d) && HoldsClock(s, i + 11, i + 14, i + 17, c)
    requires s[i + 10] == ' ' || s[i + 10] == '_'
    requires CharMatches('c', s[i + 13]) && CharMatches('c', s[i + 16])
    ensures FirstDate(s, 0) == Some(At(d, c))
  {
    SpacedIsNoStamp(PATTERNS[0], s, i);
    SpacedIsNoStamp(PATTERNS[1], s, i);
    SpacedIsNotDashed(s, i);
    DashedIsFound(PATTERNS[3], d, c, s, i);
    SkipStamps(s);
  }

  lemma SkipStamps(s: string)
    requires Search(PATTERNS[0], s, 0) == None && Search(PATTERNS[1], s, 0) == None
    ensures FirstDate(s, 0) == FirstDate(s, 2)
    ensures TryPattern(PATTERNS[2], s).Some? ==> FirstDate(s, 2) == TryPattern(PATTERNS[2], s)
    ensures Search(PATTERNS[2], s, 0) == None && TryPattern(PATTERNS[3], s).Some? ==> FirstDate(s, 2) == TryPattern(PATTERNS[3], s)
  {
    assert FirstDate(s, 1) == FirstDate(s, 2);
    assert Search(PATTERNS[2], s, 0) == None ==> FirstDate(s, 2) == FirstDate(s, 3);
  }

  /** YYYY-MM-DD-HH-MM-SS is that time, or midnight of that day if there is no such time. */
  lemma DashedTimeIsRecovered(name: string, prefix: string, d: Day, c: Clock, tail: string)
    requires Readable(d) && TwoDigits(c) && DigitFree(prefix) && Plain(tail)
    requires Paths.Stem(Paths.Name(name)) == prefix + Dashed(d) + "-" + Pairs(c, "-", "-") + tail
    ensures FilenameDate(name) == Some(At(d, c))
  {
    var s, i := Paths.Stem(Paths.Name(name)), |prefix|;
    SpacedTimeHolds(prefix, d, '-', c, '-', '-', tail, s);
    DashedTimeIsRead(d, c, s, i);
    NameIsNotEmpty(name);
  }

  /** YYYY-MM-DD HH.MM.SS, also with `_`, `-` and `:`, is that time, or midnight of that day if there is no such time. */
  lemma SpacedTimeIsRecovered(name: string, prefix: string, d: Day, gap: char, c: Clock, first: char, second: char, tail: string)
    requires Readable(d) && TwoDigits(c) && DigitFree(prefix) && Plain(tail)
    requires (gap == ' ' || gap == '_') && first in ".-:" && second in ".-:"
    requires Paths.Stem(Paths.Name(name)) == prefix + Dashed(d) + [gap] + Pairs(c, [first], [second]) + tail
    ensures FilenameDate(name) == Some(At(d, c))
  {
    var s, i := Paths.Stem(Paths.Name(name)), |prefix|;
    SpacedTimeHolds(prefix, d, gap, c, first, second, tail, s);
    SpacedTimeIsRead(d, c, s, i);
    NameIsNotEmpty(name);
  }

  lemma SpacedTimeHolds(prefix: string, d: Day, gap: char, c: Clock, first: char, second: char, tail: string, s: string)
    requires Readable(d) && TwoDigits(c) && s == prefix + Dashed(d) + [gap] + Pairs(c, [first], [second]) + tail
    requires !IsDigit(gap) && !IsDigit(first) && !IsDigit(second)
    ensures var i := |prefix|;
            && s[..i] == prefix && Spaced(s, i) && s[i + 19..] == tail
            && HoldsDay(s, i, i + 5, i + 8, d) && HoldsClock(s, i + 11, i + 14, i + 17, c)
            && s[i + 10] == gap && s[i + 13] == first && s[i + 16] == second
  {
    var i := |prefix|;
    var date, time := Dashed(d), Pairs(c, [first], [second]);
    assert |date| == 10 && |time| == 8;
    assert s[..i] == prefix && s[i + 19..] == tail && s[i + 10] == gap;
    assert s[i..i + 10] == date && s[i + 11..i + 19] == time;
    DashedHolds(d, s, i);
    PairsHold(c, first, second, s, i + 11);
  }

  // ---- A stamp behind letters ----

  /** Eight digits that are no day, a separator, and six digits. */
  predicate NoRealStamp(lead: string) {
    && |lead| == 15 && (lead[8] == '-' || lead[8] == '_')
    && (forall k :: 0 <= k < 15 && k != 8 ==> IsDigit(lead[k]))
    && !Readable(Day(Num4(lead, 0), Num2(lead, 4), Num2(lead, 6)))
  }

  lemma LeadIsNoDate(lead: string, s: string)
    requires NoRealStamp(lead) && lead <= s
    ensures TryPattern(PATTERNS[0], s) == None
  {
    var p := PATTERNS[0];
    StampShape(p);
    assert p.shape[8] == 'u';
    forall k | 0 <= k < 15 ensures CharMatches(p.shape[k], s[0 + k]) {
      assert s[k] == lead[k];
    }
    SearchFinds(p, s, 0);
  }

  /** When the first stamp of a name is no date, one behind letters and an underscore is still found. */
  lemma StampBehindLettersIsRecovered(name: string, lead: string, letters: string, d: Day, separator: char, c: Clock, tail: string)
    requires NoRealStamp(lead) && letters != "" && forall k :: 0 <= k < |letters| ==> IsLetter(letters[k])
    requires Readable(d) && TwoDigits(c) && (separator == '-' || separator == '_')
    requires Paths.Stem(Paths.Name(name)) == lead + letters + "_" + Compact(d) + [separator] + Pairs(c, "", "") + tail
    ensures FilenameDate(name) == Some(At(d, c))
  {
    var s, i := Paths.Stem(Paths.Name(name)), 16 + |letters|;
    StampBehindLettersHolds(lead, letters, d, separator, c, tail, s);
    StampBehindLettersIsRead(lead, letters, d, c, s, i);
    NameIsNotEmpty(name);
  }

  lemma StampBehindLettersIsRead(lead: string, letters: string, d: Day, c: Clock, s: string, i: nat)
    requires NoRealStamp(lead) && letters != "" && forall k :: 0 <= k < |letters| ==> IsLetter(letters[k])
    requires Readable(d) && TwoDigits(c) && i == 16 + |letters| && i + 15 <= |s|
    requires lead <= s && lead + letters + "_" <= s && (s[i + 8] == '-' || s[i + 8] == '_')
    requires HoldsDay(s, i, i + 4, i + 6, d) && HoldsClock(s, i + 9, i + 11, i + 13, c)
    requires s[i - 1] == '_' && IsLetter(s[i - 2])
    ensures FirstDate(s, 0) == Some(At(d, c))
  {
    LeadIsNoDate(lead, s);
    StampIsFound(PATTERNS[1], d, c, s, i);
    StampIsFirst(lead, letters, s);
    SecondPatternWins(s, At(d, c));
  }

  lemma StampBehindLettersHolds(lead: string, letters: string, d: Day, separator: char, c: Clock, tail: string, s: string)
    requires |lead| == 15 && letters != "" && forall k :: 0 <= k < |letters| ==> IsLetter(letters[k])
    requires Readable(d) && TwoDigits(c)
    requires s == lead + letters + "_" + Compact(d) + [separator] + Pairs(c, "", "") + tail
    ensures var i := 16 + |letters|;
            && i + 15 <= |s| && s[i + 8] == separator && lead <= s && lead + letters + "_" <= s
            && HoldsDay(s, i, i + 4, i + 6, d) && HoldsClock(s, i + 9, i + 11, i + 13, c)
            && s[i - 1] == '_' && IsLetter(s[i - 2])
  {
    var i := 16 + |letters|;
    var front := lead + letters + "_";
    assert |Compact(d)| == 8 && |Pairs(c, "", "")| == 6;
    assert s == front + Compact(d) + [separator] + Pairs(c, "", "") + tail;
    assert s[i..i + 8] == Compact(d) && s[i + 9..i + 15] == Pairs(c, "", "");
    assert s[i - 2] == front[i - 2] == letters[|letters| - 1];
    CompactHolds(d, s, i);
    TightPairsHold(c, s, i + 9);
  }

  lemma SecondPatternWins(s: string, t: Timestamp)
    requires TryPattern(PATTERNS[0], s) == None && TryPattern(PATTERNS[1], s) == Some(t)
    ensures FirstDate(s, 0) == Some(t)
  {
    assert FirstDate(s, 1) == Some(t);
  }

  lemma StampIsFirst(lead: string, letters: string, s: string)
    requires NoRealStamp(lead) && letters != "" && forall k :: 0 <= k < |letters| ==> IsLetter(letters[k])
    requires lead + letters + "_" <= s && MatchAt(PATTERNS[1], s, 16 + |letters|)
    ensures Search(PATTERNS[1], s, 0) == Some(16 + |letters|)
  {
    forall j: nat | j < 16 + |letters| ensures !MatchAt(PATTERNS[1], s, j) {
      NoStampInLead(lead, letters, s, j);
    }
    SearchFinds(PATTERNS[1], s, 16 + |letters|);
  }

  lemma NoStampInLead(lead: string, letters: string, s: string, j: nat)
    requires NoRealStamp(lead) && letters != "" && forall k :: 0 <= k < |letters| ==> IsLetter(letters[k])
    requires lead + letters + "_" <= s && j < 16 + |letters|
    ensures !MatchAt(PATTERNS[1], s, j)
  {
    var p := PATTERNS[1];
    StampShape(p);
    var front := lead + letters + "_";
    assert forall k :: 15 <= k < |front| ==> !IsDigit(front[k]);
    if 0 < j {
      var gap := if j <= 8 then 8 else if j <= 15 then 15 else j;
      assert s[gap] == front[gap] && !IsDigit(front[gap]);
      Unfit(p, s, j, gap - j);
    }
  }

  /** A letter and an underscore it takes: behind anything else the stamp is not found, and such a name has no date. */
  lemma StampBehindOthersIsNotFound(name: string, lead: string, a: char, b: char, d: Day, separator: char, c: Clock)
    requires NoRealStamp(lead) && !IsDigit(a) && !IsDigit(b) && a != '-' && b != '-' && !(IsLetter(a) && b == '_')
    requires Readable(d) && TwoDigits(c) && (separator == '-' || separator == '_')
    requires Paths.Stem(Paths.Name(name)) == lead + [a, b] + Compact(d) + [separator] + Pairs(c, "", "")
    ensures FilenameDate(name) == None
  {
    var s := Paths.Stem(Paths.Name(name));
    TwoStampsHold(lead, a, b, d, separator, c, s);
    NoDateInTwoStamps(lead, s);
    NameIsNotEmpty(name);
  }

  lemma TwoStampsHold(lead: string, a: char, b: char, d: Day, separator: char, c: Clock, s: string)
    requires NoRealStamp(lead) && !IsDigit(a) && !IsDigit(b) && a != '-' && b != '-' && !(IsLetter(a) && b == '_')
    requires Readable(d) && TwoDigits(c) && (separator == '-' || separator == '_')
    requires s == lead + [a, b] + Compact(d) + [separator] + Pairs(c, "", "")
    ensures TwoStamps(s) && lead <= s
  {
    assert |Compact(d)| == 8 && |Pairs(c, "", "")| == 6;
    assert s[17..25] == Compact(d) && s[26..32] == Pairs(c, "", "") && s[15] == a && s[16] == b && s[25] == separator;
    CompactHolds(d, s, 17);
    TightPairsHold(c, s, 26);
    assert forall k :: 0 <= k < 15 ==> s[k] == lead[k];
  }

  /** Two stamps with two characters between them that are not a letter and an underscore. */
  predicate TwoStamps(s: string) {
    && |s| == 32 && (s[8] == '-' || s[8] == '_') && (s[25] == '-' || s[25] == '_')
    && !IsDigit(s[15]) && !IsDigit(s[16]) && s[15] != '-' && s[16] != '-' && !(IsLetter(s[15]) && s[16] == '_')
    && forall k :: 0 <= k < 32 && k != 8 && k != 15 && k != 16 && k != 25 ==> IsDigit(s[k])
  }

  lemma NoDateInTwoStamps(lead: string, s: string)
    requires NoRealStamp(lead) && lead <= s && TwoStamps(s)
    ensures FirstDate(s, 0) == None
  {
    LeadIsNoDate(lead, s);
    SecondStampIsNotFound(s);
    NoDashesInStamps(PATTERNS[2], s);
    NoDashesInStamps(PATTERNS[3], s);
    LeadIsNoDay(lead, s);
    assert FirstDate(s, 4) == None;
    assert FirstDate(s, 3) == None;
    assert FirstDate(s, 2) == None;
    assert FirstDate(s, 1) == None;
  }

  lemma SecondStampIsNotFound(s: string)
    requires TwoStamps(s)
    ensures Search(PATTERNS[1], s, 0) == None
  {
    var p := PATTERNS[1];
    StampShape(p);
    forall j: nat ensures !MatchAt(p, s, j) {
      if 0 < j <= 16 {
        var gap := if j <= 8 then 8 else if j <= 15 then 15 else 16;
        Unfit(p, s, j, gap - j);
      }
    }
  }

  lemma NoDashesInStamps(p: Pattern, s: string)
    requires (p == PATTERNS[2] || p == PATTERNS[3]) && TwoStamps(s)
    ensures Search(p, s, 0) == None
  {
    DashedShape(p);
    forall j: nat ensures !MatchAt(p, s, j) {
      if j <= 13 {
        if j == 4 {
          Unfit(p, s, j, 7);
        } else {
          Unfit(p, s, j, 4);
        }
      }
    }
  }

  lemma LeadIsNoDay(lead: string, s: string)
    requires NoRealStamp(lead) && lead <= s
    ensures TryPattern(PATTERNS[4], s) == None
  {
    forall k | 0 <= k < 8 ensures CharMatches(PATTERNS[4].shape[k], s[0 + k]) {
      assert s[k] == lead[k];
      assert k < 4 || k in {4, 5, 6, 7};
    }
    SearchFinds(PATTERNS[4], s, 0);
  }

  // ---- The calendar ----

  /** How many days a month has; every fourth year is a leap year but for the full centuries not divisible by 400. */
  function MonthLength(year: int, month: int): int
    requires 1 <= month <= 12
  {
    if month == 2 then (if year % 400 == 0 then 29 else if year % 100 == 0 then 28 else if year % 4 == 0 then 29 else 28)
    else [31, 28, 31, 30, 31, 30, 31, 31, 30, 31, 30, 31][month - 1]
  }

  /** The datetimes that are accepted are those of the Gregorian calendar. */
  lemma CalendarIff(t: DateTime)
    ensures IsCalendar(t) <==>
            && 1 <= t.year <= 9999 && 1 <= t.month <= 12 && 1 <= t.day <= MonthLength(t.year, t.month)
            && 0 <= t.hour <= 23 && 0 <= t.minute <= 59 && 0 <= t.second <= 59
  {
  }

  lemma DigitsAre(c: char)
    ensures IsDigit(c) <==> c in "0123456789"
  {
    if IsDigit(c) {
      assert "0123456789"[c as int - 48] == c;
    }
  }

  lemma LettersAre(c: char)
    ensures IsLetter(c) <==> OneOf(c, "ABCDEFGHIJKLMNOPQRSTUVWXYZ") || OneOf(c, "abcdefghijklmnopqrstuvwxyz")
  {
    RunOf(c, "ABCDEFGHIJKLMNOPQRSTUVWXYZ", 'A');
    RunOf(c, "abcdefghijklmnopqrstuvwxyz", 'a');
  }

  predicate OneOf(c: char, s: string) {
    exists i :: 0 <= i < |s| && s[i] == c
  }

  /** The characters of a text in which each is the next after the one before. */
  lemma RunOf(c: char, s: string, first: char)
    requires s != "" && forall i :: 0 <= i < |s| ==> s[i] as int == first as int + i
    ensures OneOf(c, s) <==> first <= c <= s[|s| - 1]
  {
    if first <= c <= s[|s| - 1] {
      assert s[c as int - first as int] == c;
    }
  }

  // ---- Text of dates ----

  /** Only the text of a date is read as one: what has the form and is a calendar datetime is its text again. */
  lemma FormIsText(s: string)
    requires HasIsoShape(s) && IsCalendar(ReadIso(s))
    ensures s == TextWith(ReadIso(s), s[10])
  {
    var t := TextWith(ReadIso(s), s[10]);
    assert IsDigit(s[0]) && IsDigit(s[1]) && IsDigit(s[2]) && IsDigit(s[3]) && IsDigit(s[5]) && IsDigit(s[6]);
    assert IsDigit(s[8]) && IsDigit(s[9]) && IsDigit(s[11]) && IsDigit(s[12]);
    assert IsDigit(s[14]) && IsDigit(s[15]) && IsDigit(s[17]) && IsDigit(s[18]);
    TextReads(ReadIso(s), s[10]);
    TwoDigitsDecide(s, t, 0);
    TwoDigitsDecide(s, t, 2);
    TwoDigitsDecide(s, t, 5);
    TwoDigitsDecide(s, t, 8);
    TwoDigitsDecide(s, t, 11);
    TwoDigitsDecide(s, t, 14);
    TwoDigitsDecide(s, t, 17);
  }

  lemma TwoDigitsDecide(s: string, t: string, i: nat)
    requires i + 2 <= |s| && i + 2 <= |t| && Num2(s, i) == Num2(t, i)
    requires IsDigit(s[i]) && IsDigit(s[i + 1]) && IsDigit(t[i]) && IsDigit(t[i + 1])
    ensures s[i] == t[i] && s[i + 1] == t[i + 1]
  {
  }

  /** A date is read with or without more text behind it, where a `T` or a space separates it from the time. */
  lemma ReadWithMoreBehind(t: DateTime, separator: char, rest: string, other: string -> Option<Timestamp>)
    requires IsCalendar(t)
    ensures separator == 'T' || separator == ' ' ==> ParseDate(TextWith(t, separator) + rest, other) == Some(t)
    ensures separator != 'T' && separator != ' ' ==> ParseDate(TextWith(t, separator) + rest, other) == other(TextWith(t, separator))
  {
    TextReads(t, separator);
    TextReads(t, ' ');
    var s := TextWith(t, separator);
    assert forall i :: 0 <= i < 19 && i != 10 ==> s[i] != 'T' by {
      forall i | 0 <= i < 19 && i != 10 ensures s[i] != 'T' {
        assert i in {0, 1, 2, 3, 5, 6, 8, 9, 11, 12, 14, 15, 17, 18} || i in {4, 7, 13, 16};
      }
    }
    var spaced := ReplaceT(s + rest);
    if separator == 'T' || separator == ' ' {
      assert spaced[..19] == TextWith(t, ' ');
      assert |spaced| == 19 ==> spaced == spaced[..19];
    } else {
      assert spaced[..19] == s;
      assert |spaced| == 19 ==> spaced == spaced[..19];
    }
  }
}
