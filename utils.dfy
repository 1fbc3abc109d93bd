/**
 * The time-string and formatting helpers of lib/utils.ts: reading and
 * printing decimal numbers, `parseTimeString`, `formatTimeString`,
 * `formatDuration` and `formatPhoneNumber`.
 */
module Utils {
  import opened Wrappers

  // ---------------------------------------------------------------------
  // Decimal digits
  // ---------------------------------------------------------------------

  predicate IsDigit(c: char) {
    '0' <= c <= '9'
  }

  predicate AllDigits(s: string) {
    forall i | 0 <= i < |s| :: IsDigit(s[i])
  }

  function DigitValue(c: char): nat
    requires IsDigit(c)
  {
    c as int - '0' as int
  }

  function DigitChar(d: nat): char
    requires d < 10
  {
    ('0' as int + d) as char
  }

  /** The value of a string of decimal digits, most significant digit first. */
  function DigitsValue(s: string): nat
    requires AllDigits(s)
  {
    if s == [] then 0 else 10 * DigitsValue(s[..|s| - 1]) + DigitValue(s[|s| - 1])
  }

  /** `n.toString()` for a non-negative integer: shortest decimal digits, no leading zero. */
  function NatToString(n: nat): (s: string)
    ensures |s| >= 1 && AllDigits(s)
    ensures DigitsValue(s) == n
    ensures s[0] == '0' ==> s == "0"
  {
    if n < 10 then [DigitChar(n)]
    else
      var s := NatToString(n / 10) + [DigitChar(n % 10)];
      assert s[..|s| - 1] == NatToString(n / 10);
      s
  }

  /** `i.toString()` (and `${i}`) for an integer. */
  function IntToString(i: int): string {
    if i < 0 then "-" + NatToString(-i) else NatToString(i)
  }

  /** Length of the longest prefix of `s` made of decimal digits. */
  function DigitRun(s: string): (n: nat)
    ensures n <= |s| && AllDigits(s[..n])
    ensures n < |s| ==> !IsDigit(s[n])
  {
    if s == [] || !IsDigit(s[0]) then 0
    else
      var n := 1 + DigitRun(s[1..]);
      assert s[..n] == [s[0]] + s[1..][..n - 1];
      n
  }

  /**
   * `parseInt(s)`: an optional sign followed by the longest run of decimal
   * digits; whatever follows the run is ignored. `None` stands for `NaN`
   * (no digit after the sign).
   */
  function ParseInt(s: string): Option<int> {
    var body := if |s| > 0 && (s[0] == '-' || s[0] == '+') then s[1..] else s;
    var k := DigitRun(body);
    if k == 0 then None
    else if |s| > 0 && s[0] == '-' then Some(-(DigitsValue(body[..k]) as int))
    else Some(DigitsValue(body[..k]))
  }

  /** `parseInt` gives `NaN` exactly when no digit follows the optional sign. */
  lemma ParseIntNaN(s: string)
    ensures ParseInt(s).None? <==>
            if |s| > 0 && (s[0] == '-' || s[0] == '+') then |s| == 1 || !IsDigit(s[1])
            else s == [] || !IsDigit(s[0])
  {
    if |s| > 1 && (s[0] == '-' || s[0] == '+') {
      assert s[1..][0] == s[1];
    }
  }

  /** A leading '+' is dropped and a leading '-' negates what follows. */
  lemma ParseIntSign(t: string)
    requires t == [] || (t[0] != '-' && t[0] != '+')
    ensures ParseInt("+" + t) == ParseInt(t)
    ensures ParseInt("-" + t) == if ParseInt(t).None? then None else Some(-ParseInt(t).value)
  {
    assert ("+" + t)[1..] == t;
    assert ("-" + t)[1..] == t;
  }

  lemma {:induction false} DigitRunOfDigits(s: string, rest: string)
    requires AllDigits(s)
    requires rest == [] || !IsDigit(rest[0])
    ensures DigitRun(s + rest) == |s|
  {
    if s != [] {
      assert (s + rest)[1..] == s[1..] + rest;
      DigitRunOfDigits(s[1..], rest);
    }
  }

  /** `parseInt` reads back every digit string, whatever non-digit text follows it. */
  lemma ParseIntOfDigits(s: string, rest: string)
    requires |s| >= 1 && AllDigits(s)
    requires rest == [] || !IsDigit(rest[0])
    ensures ParseInt(s + rest) == Some(DigitsValue(s))
  {
    DigitRunOfDigits(s, rest);
    assert (s + rest)[..|s|] == s;
  }

  lemma ParseIntDigits(s: string)
    requires |s| >= 1 && AllDigits(s)
    ensures ParseInt(s) == Some(DigitsValue(s))
  {
    ParseIntOfDigits(s, []);
    assert s + [] == s;
  }

  /** `parseInt` inverts `toString` on every integer. */
  lemma ParseIntRoundTrip(i: int)
    ensures ParseInt(IntToString(i)) == Some(i)
  {
    if i < 0 {
      var t := NatToString(-i);
      assert IntToString(i) == "-" + t && IntToString(i)[1..] == t + [];
      ParseIntOfDigits(t, []);
    } else {
      assert IntToString(i) == NatToString(i) + [];
      ParseIntOfDigits(NatToString(i), []);
    }
  }

  /** Leading zeros do not change the value of a digit string. */
  lemma {:induction false} LeadingZero(s: string)
    requires AllDigits(s)
    ensures AllDigits("0" + s) && DigitsValue("0" + s) == DigitsValue(s)
  {
    if s != [] {
      var t := "0" + s;
      assert t[..|t| - 1] == "0" + s[..|s| - 1];
      LeadingZero(s[..|s| - 1]);
    }
  }

  // ---------------------------------------------------------------------
  // String.split and toUpperCase
  // ---------------------------------------------------------------------

  /** The first element of `s.split(sep)`: the text before the first `sep`, or all of `s`. */
  function FirstField(s: string, sep: char): (r: string)
    ensures |r| <= |s|
  {
    if s == [] || s[0] == sep then [] else [s[0]] + FirstField(s[1..], sep)
  }

  /** The first field is a prefix free of `sep`, followed by `sep` unless it is all of `s`. */
  lemma {:induction false} FirstFieldPrefix(s: string, sep: char)
    ensures var r := FirstField(s, sep);
            r == s[..|r|] && sep !in r && (|r| < |s| ==> s[|r|] == sep)
  {
    if s != [] && s[0] != sep {
      FirstFieldPrefix(s[1..], sep);
    }
  }

  /** The second element of `s.split(sep)`; `None` (JavaScript `undefined`) when `sep` does not occur. */
  function SecondField(s: string, sep: char): (r: Option<string>)
    ensures r.None? <==> sep !in s
    ensures r.Some? ==> sep !in r.value
  {
    FirstFieldPrefix(s, sep);
    var k := |FirstField(s, sep)|;
    if k == |s| then None
    else
      FirstFieldPrefix(s[k + 1..], sep);
      Some(FirstField(s[k + 1..], sep))
  }

  lemma {:induction false} FirstFieldOf(a: string, sep: char, b: string)
    requires sep !in a
    ensures FirstField(a + [sep] + b, sep) == a
  {
    if a != [] {
      assert (a + [sep] + b)[1..] == a[1..] + [sep] + b;
      FirstFieldOf(a[1..], sep, b);
    }
  }

  lemma FirstFieldWhole(a: string, sep: char)
    requires sep !in a
    ensures FirstField(a, sep) == a
  {
  }

  /** `s.split(sep)` on `a + sep + b` gives `a` then `b`, when neither contains `sep`. */
  lemma SplitTwo(a: string, sep: char, b: string)
    requires sep !in a && sep !in b
    ensures FirstField(a + [sep] + b, sep) == a
    ensures SecondField(a + [sep] + b, sep) == Some(b)
  {
    FirstFieldOf(a, sep, b);
    assert (a + [sep] + b)[|a| + 1..] == b;
    FirstFieldWhole(b, sep);
  }

  /** The second field is the text between the first and the second `sep`; whatever follows is dropped. */
  lemma SplitMany(a: string, sep: char, b: string, c: string)
    requires sep !in a && sep !in b
    ensures FirstField(a + [sep] + b + [sep] + c, sep) == a
    ensures SecondField(a + [sep] + b + [sep] + c, sep) == Some(b)
  {
    var s := a + [sep] + b + [sep] + c;
    assert s == a + [sep] + (b + [sep] + c);
    FirstFieldOf(a, sep, b + [sep] + c);
    assert s[|a| + 1..] == b + [sep] + c;
    FirstFieldOf(b, sep, c);
  }

  /** `toUpperCase` on ASCII letters. */
  function ToUpper(s: string): (r: string)
    ensures |r| == |s|
    ensures forall i | 0 <= i < |r| :: !('a' <= r[i] <= 'z')
    ensures forall i | 0 <= i < |s| && !('a' <= s[i] <= 'z') :: r[i] == s[i]
  {
    seq(|s|, i requires 0 <= i < |s| => if 'a' <= s[i] <= 'z' then (s[i] as int - 32) as char else s[i])
  }

  /** Each lower-case ASCII letter becomes its capital, 32 code points below it. */
  lemma ToUpperLetters(s: string)
    ensures forall i | 0 <= i < |s| && 'a' <= s[i] <= 'z' :: ToUpper(s)[i] as int == s[i] as int - 32
  {
  }

  // ---------------------------------------------------------------------
  // parseTimeString / formatTimeString
  // ---------------------------------------------------------------------

  /** A wall-clock hour and minute as `parseTimeString` returns them (not range-checked). */
  datatype Clock = Clock(hour: int, minute: int)

  predicate ValidClock(c: Clock) {
    0 <= c.hour <= 23 && 0 <= c.minute <= 59
  }

  /** The 12-hour adjustment of `parseTimeString`, given the period text after the first space. */
  function ApplyPeriod(hour: int, period: Option<string>): int {
    if period.Some? && ToUpper(period.value) == "PM" && hour != 12 then hour + 12
    else if period.Some? && ToUpper(period.value) == "AM" && hour == 12 then 0
    else hour
  }

  /**
   * `parseTimeString`: split at the first space into time and period, then
   * read the time with `ParseTimeFields`.
   */
  function ParseTimeString(s: string): Option<Clock> {
    ParseTimeFields(FirstField(s, ' '), SecondField(s, ' '))
  }

  /**
   * The rest of `parseTimeString`: split the time at the first colon into
   * hour and minute text, read both with `parseInt` (a missing or empty
   * minute reads as "0") and apply the AM/PM adjustment. `None` when the
   * hour or the minute is `NaN`.
   */
  function ParseTimeFields(time: string, period: Option<string>): Option<Clock> {
    var minuteStr := SecondField(time, ':');
    var hour := ParseInt(FirstField(time, ':'));
    var minute := ParseInt(if minuteStr.None? || minuteStr.value == "" then "0" else minuteStr.value);
    if hour.None? || minute.None? then None
    else Some(Clock(ApplyPeriod(hour.value, period), minute.value))
  }

  /** `padStart(2, '0')`. */
  function PadTwo(s: string): (r: string)
    ensures |r| == if |s| < 2 then 2 else |s|
  {
    if |s| == 0 then "00" else if |s| == 1 then "0" + s else s
  }

  /** Padding only puts zeros in front: the text itself ends the result unchanged. */
  lemma PadTwoPads(s: string)
    ensures var r := PadTwo(s);
            r[|r| - |s|..] == s && forall i | 0 <= i < |r| - |s| :: r[i] == '0'
  {
  }

  /** The hour `formatTimeString` shows: 12 for hour 0, hour - 12 past noon. */
  function DisplayHour(hour: int): (d: int)
    ensures 0 <= hour <= 23 ==> 1 <= d <= 12
  {
    if hour == 0 then 12 else if hour > 12 then hour - 12 else hour
  }

  /** `formatTimeString`: "<display hour>:<two-digit minute> AM|PM". */
  function FormatTimeString(hour: int, minute: int): string {
    var period := if hour >= 12 then "PM" else "AM";
    IntToString(DisplayHour(hour)) + ":" + PadTwo(IntToString(minute)) + " " + period
  }

  /** "<digits>:<digits>" reads as the two digit values, before the period is applied. */
  lemma TimeFieldsOfDigits(h: string, m: string, period: Option<string>)
    requires |h| >= 1 && AllDigits(h) && |m| >= 1 && AllDigits(m)
    ensures ParseTimeFields(h + ":" + m, period)
            == Some(Clock(ApplyPeriod(DigitsValue(h), period), DigitsValue(m)))
  {
    NoOtherInDigits(h, ':');
    NoOtherInDigits(m, ':');
    assert h + ":" + m == h + [':'] + m;
    SplitTwo(h, ':', m);
    ParseIntDigits(h);
    ParseIntDigits(m);
  }

  /** The time part of "<digits>:<digits>" holds no space. */
  lemma NoSpaceInClockText(h: string, m: string)
    requires AllDigits(h) && AllDigits(m)
    ensures ' ' !in h + ":" + m
  {
    NoOtherInDigits(h, ' ');
    NoOtherInDigits(m, ' ');
  }

  /**
   * `parseTimeString` on "<digits>:<digits> <period>": the hour and minute
   * are the digit values, and a "PM" hour other than 12 gains 12 while
   * "12 AM" becomes 0, with the period matched in any letter case.
   */
  lemma ParseTimeWithPeriod(h: string, m: string, period: string)
    requires |h| >= 1 && AllDigits(h) && |m| >= 1 && AllDigits(m)
    requires ' ' !in period
    ensures var H := DigitsValue(h);
            ParseTimeString(h + ":" + m + " " + period)
            == Some(Clock(if ToUpper(period) == "PM" && H != 12 then H + 12
                          else if ToUpper(period) == "AM" && H == 12 then 0
                          else H, DigitsValue(m)))
  {
    var time := h + ":" + m;
    NoSpaceInClockText(h, m);
    assert h + ":" + m + " " + period == time + [' '] + period;
    SplitTwo(time, ' ', period);
    TimeFieldsOfDigits(h, m, Some(period));
  }

  /** Without a period the hour is taken as written: this is how "09:00" and "17:00" rule times read. */
  lemma ParseTimeTwentyFour(h: string, m: string)
    requires |h| >= 1 && AllDigits(h) && |m| >= 1 && AllDigits(m)
    ensures ParseTimeString(h + ":" + m) == Some(Clock(DigitsValue(h), DigitsValue(m)))
  {
    NoSpaceInClockText(h, m);
    FirstFieldWhole(h + ":" + m, ' ');
    TimeFieldsOfDigits(h, m, None);
  }

  /** Hour text with no minute part, or with an empty one, reads as minute 0. */
  lemma MissingMinuteFields(h: string, colon: bool, period: Option<string>)
    requires |h| >= 1 && AllDigits(h)
    ensures ParseTimeFields(if colon then h + ":" else h, period) == Some(Clock(ApplyPeriod(DigitsValue(h), period), 0))
  {
    NoOtherInDigits(h, ':');
    ParseIntDigits(h);
    ParseIntZero();
    if colon {
      EmptyMinuteFields(h, period);
    } else {
      NoMinuteFields(h, period);
    }
  }

  lemma ParseIntZero()
    ensures ParseInt("0") == Some(0)
  {
    ParseIntDigits("0");
  }

  lemma NoMinuteFields(h: string, period: Option<string>)
    requires |h| >= 1 && AllDigits(h) && ':' !in h
    requires ParseInt(h) == Some(DigitsValue(h)) && ParseInt("0") == Some(0)
    ensures ParseTimeFields(h, period) == Some(Clock(ApplyPeriod(DigitsValue(h), period), 0))
  {
    FirstFieldWhole(h, ':');
  }

  lemma EmptyMinuteFields(h: string, period: Option<string>)
    requires |h| >= 1 && AllDigits(h) && ':' !in h
    requires ParseInt(h) == Some(DigitsValue(h)) && ParseInt("0") == Some(0)
    ensures ParseTimeFields(h + ":", period) == Some(Clock(ApplyPeriod(DigitsValue(h), period), 0))
  {
    assert h + ":" == h + [':'] + [];
    SplitTwo(h, ':', []);
  }

  /** A missing minute part ("9", "9:") reads as minute 0. */
  lemma ParseTimeMissingMinute(h: string, colon: bool)
    requires |h| >= 1 && AllDigits(h)
    ensures ParseTimeString(if colon then h + ":" else h) == Some(Clock(DigitsValue(h), 0))
  {
    NoOtherInDigits(h, ' ');
    FirstFieldWhole(if colon then h + ":" else h, ' ');
    MissingMinuteFields(h, colon, None);
  }

  /** The period is matched whatever the letter case of its text. */
  lemma ParseTimePeriodCase(time: string, period: string)
    requires ' ' !in time && ' ' !in period
    ensures ParseTimeString(time + " " + period) == ParseTimeString(time + " " + ToUpper(period))
  {
    assert ' ' !in ToUpper(period) by {
      forall i | 0 <= i < |period| ensures ToUpper(period)[i] != ' ' {
        assert period[i] != ' ';
      }
    }
    assert time + " " + period == time + [' '] + period;
    assert time + " " + ToUpper(period) == time + [' '] + ToUpper(period);
    SplitTwo(time, ' ', period);
    SplitTwo(time, ' ', ToUpper(period));
    assert ToUpper(ToUpper(period)) == ToUpper(period);
  }

  lemma TwoDigitString(n: nat)
    requires 10 <= n < 100
    ensures |NatToString(n)| == 2
  {
    assert NatToString(n) == NatToString(n / 10) + [DigitChar(n % 10)];
  }

  /** The minute field of `formatTimeString` is two digits worth the minute. */
  lemma MinuteField(m: int)
    requires 0 <= m <= 59
    ensures var t := PadTwo(IntToString(m));
            |t| == 2 && AllDigits(t) && DigitsValue(t) == m
  {
    var d := NatToString(m);
    if m < 10 {
      assert PadTwo(d) == "0" + d;
      LeadingZero(d);
    } else {
      TwoDigitString(m);
    }
  }

  /** The display hour is the hour modulo 12, with 12 in place of 0. */
  lemma DisplayHourModTwelve(hour: int)
    requires 0 <= hour <= 23
    ensures DisplayHour(hour) == if hour % 12 == 0 then 12 else hour % 12
  {
    if hour < 12 {
      assert hour % 12 == hour;
    } else {
      assert hour % 12 == hour - 12;
    }
  }

  /**
   * The shape of a label: a display hour from 1 to 12 congruent to the hour
   * modulo 12 (so 0 shows as 12 and 13..23 as 1..11), a colon, two digits
   * worth the minute, a space, and "AM" before noon or "PM" from noon on.
   */
  lemma FormatTimeStringShape(c: Clock)
    requires ValidClock(c)
    ensures var d := if c.hour % 12 == 0 then 12 else c.hour % 12;
            var hd := NatToString(d);
            var s := FormatTimeString(c.hour, c.minute);
            var k := |hd|;
            1 <= d <= 12 && |s| == k + 6
            && s[..k] == hd && s[k] == ':' && AllDigits(s[k + 1..k + 3]) && DigitsValue(s[k + 1..k + 3]) == c.minute
            && s[k + 3] == ' ' && s[k + 4..] == (if c.hour < 12 then "AM" else "PM")
  {
    MinuteField(c.minute);
    DisplayHourModTwelve(c.hour);
    var d := DisplayHour(c.hour);
    var hd := NatToString(d);
    var t := PadTwo(IntToString(c.minute));
    var p := if c.hour >= 12 then "PM" else "AM";
    var s := FormatTimeString(c.hour, c.minute);
    assert s == hd + ":" + t + " " + p;
    LabelLayout(hd, t, p);
  }

  /** Where the parts of "<hour>:<minute> <period>" sit in the label. */
  lemma LabelLayout(hd: string, t: string, p: string)
    requires |t| == 2 && |p| == 2
    ensures var s := hd + ":" + t + " " + p;
            var k := |hd|;
            |s| == k + 6 && s[..k] == hd && s[k] == ':' && s[k + 1..k + 3] == t && s[k + 3] == ' ' && s[k + 4..] == p
  {
    var s := hd + ":" + t + " " + p;
    var k := |hd|;
    var tail := ":" + t + " " + p;
    assert s == hd + tail;
    assert s[..k] == hd;
    assert s[k..] == tail;
    assert tail[1..3] == t && tail[4..] == p;
    assert s[k + 1..k + 3] == tail[1..3];
    assert s[k + 4..] == tail[4..];
  }

  /** The period suffix restores the hour that the display hour dropped. */
  lemma PeriodRestoresHour(hour: int)
    requires 0 <= hour <= 23
    ensures var dh := DisplayHour(hour);
            var period := if hour >= 12 then "PM" else "AM";
            (if period == "PM" && dh != 12 then dh + 12 else if period == "AM" && dh == 12 then 0 else dh) == hour
  {
  }

  /** The periods `formatTimeString` prints are already upper case and hold no space. */
  lemma PrintedPeriod(period: string)
    requires period == "AM" || period == "PM"
    ensures ToUpper(period) == period && ' ' !in period
  {
    assert ToUpper(period)[0] == period[0] && ToUpper(period)[1] == period[1];
  }

  /** The label of a valid time of day, cut into the parts `parseTimeString` reads. */
  lemma FormatTimeStringParts(c: Clock)
    requires ValidClock(c)
    ensures FormatTimeString(c.hour, c.minute)
            == NatToString(DisplayHour(c.hour)) + ":" + PadTwo(IntToString(c.minute)) + " " + (if c.hour >= 12 then "PM" else "AM")
  {
  }

  /** `parseTimeString` inverts `formatTimeString` on every valid time of day. */
  lemma TimeStringRoundTrip(c: Clock)
    requires ValidClock(c)
    ensures ParseTimeString(FormatTimeString(c.hour, c.minute)) == Some(c)
  {
    var h := NatToString(DisplayHour(c.hour));
    var m := PadTwo(IntToString(c.minute));
    var period := if c.hour >= 12 then "PM" else "AM";
    FormatTimeStringParts(c);
    PrintedPeriod(period);
    MinuteField(c.minute);
    ParseTimeWithPeriod(h, m, period);
    PeriodRestoresHour(c.hour);
  }

  /**
   * Zero-padded 24-hour text, the form schedule rules are stored in
   * ("09:00", "17:00"), reads back as the time it names.
   */
  lemma PaddedTwentyFourHour(c: Clock)
    requires ValidClock(c)
    ensures ParseTimeString(PadTwo(IntToString(c.hour)) + ":" + PadTwo(IntToString(c.minute))) == Some(c)
  {
    MinuteField(c.hour);
    MinuteField(c.minute);
    ParseTimeTwentyFour(PadTwo(IntToString(c.hour)), PadTwo(IntToString(c.minute)));
  }

  /** Distinct valid times of day never share a label. */
  lemma FormatTimeStringInjective(c: Clock, d: Clock)
    requires ValidClock(c) && ValidClock(d)
    requires FormatTimeString(c.hour, c.minute) == FormatTimeString(d.hour, d.minute)
    ensures c == d
  {
    TimeStringRoundTrip(c);
    TimeStringRoundTrip(d);
  }

  // ---------------------------------------------------------------------
  // formatDuration
  // ---------------------------------------------------------------------

  /** `formatDuration`: "<n>m" under an hour, else "<H>h" or "<H>h <M>m". */
  function FormatDuration(minutes: int): string {
    if minutes < 60 then IntToString(minutes) + "m"
    else
      var hours := minutes / 60;
      var mins := minutes % 60;
      if mins > 0 then IntToString(hours) + "h " + IntToString(mins) + "m"
      else IntToString(hours) + "h"
  }

  /** Reads decimal digits written as `toString` writes them: non-empty, no leading zero. */
  function ReadNat(s: string): Option<nat> {
    if |s| >= 1 && AllDigits(s) && (s[0] == '0' ==> |s| == 1) then Some(DigitsValue(s)) else None
  }

  /**
   * Reads a duration label back into minutes. It accepts only the three
   * shapes `formatDuration` prints: "<M>m" with M under 60, "<H>h" with H
   * at least 1, and "<H>h <M>m" with H at least 1 and M from 1 to 59.
   * It is the reference against which `FormatDuration` is checked.
   */
  function ReadDuration(s: string): Option<nat> {
    var hoursText := FirstField(s, 'h');
    if |hoursText| == |s| then
      if |s| >= 1 && s[|s| - 1] == 'm' then
        match ReadNat(s[..|s| - 1])
        case None => None
        case Some(mins) => if mins < 60 then Some(mins) else None
      else None
    else
      ReadAfterHours(hoursText, s[|hoursText| + 1..])
  }

  /** Reads the hour digits before the 'h' and what follows it: nothing, or " <M>m". */
  function ReadAfterHours(hoursText: string, rest: string): Option<nat> {
    match ReadNat(hoursText)
    case None => None
    case Some(hours) =>
      if hours == 0 then None
      else if rest == [] then Some(60 * hours)
      else if |rest| >= 2 && rest[0] == ' ' && rest[|rest| - 1] == 'm' then
        match ReadNat(rest[1..|rest| - 1])
        case None => None
        case Some(mins) => if 1 <= mins < 60 then Some(60 * hours + mins) else None
      else None
  }

  /** `toString` always produces text that `ReadNat` accepts, with its value. */
  lemma ReadNatOfString(n: nat)
    ensures ReadNat(NatToString(n)) == Some(n)
  {
  }

  /** A digit string without a leading zero has a positive value. */
  lemma {:induction false} PositiveDigits(s: string)
    requires |s| >= 1 && AllDigits(s) && s[0] != '0'
    ensures DigitsValue(s) >= 1
  {
    if |s| > 1 {
      var p := s[..|s| - 1];
      assert p[0] == s[0];
      PositiveDigits(p);
    }
  }

  /** Text that `ReadNat` accepts is exactly the `toString` of its value. */
  lemma {:induction false} StringOfReadNat(s: string)
    requires ReadNat(s).Some?
    ensures NatToString(ReadNat(s).value) == s
  {
    var n := DigitsValue(s);
    var last := s[|s| - 1];
    if |s| == 1 {
      assert s[..0] == [];
      assert n == 10 * DigitsValue(s[..0]) + DigitValue(last);
    } else {
      var p := s[..|s| - 1];
      assert p[0] == s[0] && AllDigits(p);
      PositiveDigits(p);
      StringOfReadNat(p);
      assert n == 10 * DigitsValue(p) + DigitValue(last);
      assert n / 10 == DigitsValue(p) && n % 10 == DigitValue(last);
      assert s == p + [last];
    }
  }

  lemma NoOtherInDigits(s: string, c: char)
    requires AllDigits(s) && !IsDigit(c)
    ensures c !in s
  {
    forall i | 0 <= i < |s| ensures s[i] != c {
      assert IsDigit(s[i]);
    }
  }

  lemma ReadShortDuration(minutes: nat)
    requires minutes < 60
    ensures ReadDuration(FormatDuration(minutes)) == Some(minutes)
  {
    var d := NatToString(minutes);
    var s := d + "m";
    assert FormatDuration(minutes) == s;
    NoOtherInDigits(d, 'h');
    FirstFieldWhole(s, 'h');
    assert s[..|s| - 1] == d;
  }

  /** A label with hour digits before its first 'h' is read by `ReadAfterHours`. */
  lemma SplitAfterHours(hd: string, rest: string)
    requires |hd| >= 1 && AllDigits(hd)
    ensures ReadDuration(hd + ['h'] + rest) == ReadAfterHours(hd, rest)
  {
    var s := hd + ['h'] + rest;
    NoOtherInDigits(hd, 'h');
    FirstFieldOf(hd, 'h', rest);
    assert s[|hd| + 1..] == rest;
  }

  lemma ReadWholeHours(minutes: nat)
    requires minutes >= 60 && minutes % 60 == 0
    ensures ReadDuration(FormatDuration(minutes)) == Some(minutes)
  {
    var hd := NatToString(minutes / 60);
    assert FormatDuration(minutes) == hd + ['h'] + [];
    SplitAfterHours(hd, []);
  }

  /** The minutes part " <M>m" frames the minute digits. */
  lemma MinutesSuffix(md: string)
    ensures var rest := " " + md + "m";
            |rest| >= 2 && rest[0] == ' ' && rest[|rest| - 1] == 'm' && rest[1..|rest| - 1] == md
  {
    var rest := " " + md + "m";
    assert rest[1..|rest| - 1] == md;
  }

  /** "<H>h <M>m" reads as H hours and M minutes. */
  lemma ReadHoursMinutesText(h: nat, m: nat)
    requires h >= 1 && 1 <= m < 60
    ensures ReadDuration(NatToString(h) + ['h'] + (" " + NatToString(m) + "m")) == Some(60 * h + m)
  {
    var hd := NatToString(h);
    var md := NatToString(m);
    SplitAfterHours(hd, " " + md + "m");
    MinutesSuffix(md);
    assert ReadNat(hd) == Some(h) && ReadNat(md) == Some(m);
  }

  lemma ReadHoursAndMinutes(minutes: nat)
    requires minutes >= 60 && minutes % 60 > 0
    ensures ReadDuration(FormatDuration(minutes)) == Some(minutes)
  {
    var h := minutes / 60;
    var m := minutes % 60;
    var hd := NatToString(h);
    var md := NatToString(m);
    assert FormatDuration(minutes) == IntToString(h) + "h " + IntToString(m) + "m";
    assert IntToString(h) == hd && IntToString(m) == md;
    assert hd + "h " + md + "m" == hd + ['h'] + (" " + md + "m");
    ReadHoursMinutesText(h, m);
  }

  /** The duration label names its minutes exactly: reading it back gives the input. */
  lemma FormatDurationRoundTrip(minutes: nat)
    ensures ReadDuration(FormatDuration(minutes)) == Some(minutes)
  {
    if minutes < 60 {
      ReadShortDuration(minutes);
    } else if minutes % 60 == 0 {
      ReadWholeHours(minutes);
    } else {
      ReadHoursAndMinutes(minutes);
    }
  }

  /** A label "<M>m" that reads back is what `FormatDuration` prints for its value. */
  lemma ShortLabelIsFormatted(s: string)
    requires |FirstField(s, 'h')| == |s|
    requires ReadDuration(s).Some?
    ensures FormatDuration(ReadDuration(s).value) == s
  {
    var md := s[..|s| - 1];
    StringOfReadNat(md);
    var m := ReadNat(md).value;
    assert s == md + "m";
    assert FormatDuration(m) == NatToString(m) + "m";
  }

  /** A label "<H>h" or "<H>h <M>m" that reads back is what `FormatDuration` prints for its value. */
  lemma HoursLabelIsFormatted(hd: string, rest: string)
    requires ReadAfterHours(hd, rest).Some?
    ensures FormatDuration(ReadAfterHours(hd, rest).value) == hd + ['h'] + rest
  {
    StringOfReadNat(hd);
    var h := ReadNat(hd).value;
    if rest == [] {
      var n := 60 * h;
      assert n / 60 == h && n % 60 == 0;
      assert FormatDuration(n) == NatToString(h) + "h";
    } else {
      var md := rest[1..|rest| - 1];
      StringOfReadNat(md);
      var m := ReadNat(md).value;
      var n := 60 * h + m;
      assert n / 60 == h && n % 60 == m;
      assert rest == " " + md + "m";
      assert FormatDuration(n) == NatToString(h) + "h " + NatToString(m) + "m";
      assert hd + ['h'] + rest == hd + "h " + md + "m";
    }
  }

  /**
   * The reader accepts nothing but labels `FormatDuration` prints: every
   * label that reads back is the label of the minutes it reads as. With
   * `FormatDurationRoundTrip` this fixes the label of every duration.
   */
  lemma ReadDurationIsFormatted(s: string)
    requires ReadDuration(s).Some?
    ensures FormatDuration(ReadDuration(s).value) == s
  {
    var hoursText := FirstField(s, 'h');
    FirstFieldPrefix(s, 'h');
    if |hoursText| == |s| {
      ShortLabelIsFormatted(s);
    } else {
      var rest := s[|hoursText| + 1..];
      assert s == hoursText + ['h'] + rest;
      HoursLabelIsFormatted(hoursText, rest);
    }
  }

  // ---------------------------------------------------------------------
  // formatPhoneNumber
  // ---------------------------------------------------------------------

  /** `phone.replace(/\D/g, '')`: the decimal digits of `s`, in order. */
  function KeepDigits(s: string): (r: string)
    ensures AllDigits(r) && |r| <= |s|
  {
    if s == [] then []
    else (if IsDigit(s[0]) then [s[0]] else []) + KeepDigits(s[1..])
  }

  /** One character is kept exactly when it is a digit; with `KeepDigitsAppend` this fixes `KeepDigits` of every string. */
  lemma KeepDigitsChar(c: char)
    ensures KeepDigits([c]) == if IsDigit(c) then [c] else []
  {
    assert [c][1..] == [];
  }

  lemma {:induction false} KeepDigitsAppend(a: string, b: string)
    ensures KeepDigits(a + b) == KeepDigits(a) + KeepDigits(b)
  {
    if a != [] {
      assert (a + b)[0] == a[0] && (a + b)[1..] == a[1..] + b;
      KeepDigitsAppend(a[1..], b);
      assert KeepDigits(a + b) == (if IsDigit(a[0]) then [a[0]] else []) + KeepDigits(a[1..] + b);
    } else {
      assert a + b == b;
    }
  }

  lemma {:induction false} KeepDigitsOfDigits(s: string)
    requires AllDigits(s)
    ensures KeepDigits(s) == s
  {
    if s != [] {
      KeepDigitsOfDigits(s[1..]);
    }
  }

  /** `formatPhoneNumber`: "(AAA) BBB-CCCC" when exactly ten digits remain, else the input unchanged. */
  function FormatPhoneNumber(phone: string): string {
    var cleaned := KeepDigits(phone);
    if |cleaned| == 10 then "(" + cleaned[..3] + ") " + cleaned[3..6] + "-" + cleaned[6..]
    else phone
  }

  /** A number that does not strip to exactly ten digits is returned as it was given. */
  lemma FormatPhoneUnchanged(phone: string)
    requires |KeepDigits(phone)| != 10
    ensures FormatPhoneNumber(phone) == phone
  {
  }

  lemma PunctuationHasNoDigits()
    ensures KeepDigits("(") == [] && KeepDigits(") ") == [] && KeepDigits("-") == []
  {
    assert KeepDigits(") ") == [] + KeepDigits(" ");
  }

  /** The digits of "(a) b-d" are a, b and d, in that order. */
  lemma KeepDigitsOfLayout(a: string, b: string, d: string)
    requires AllDigits(a) && AllDigits(b) && AllDigits(d)
    ensures KeepDigits("(" + a + ") " + b + "-" + d) == a + b + d
  {
    PunctuationHasNoDigits();
    KeepDigitsOfDigits(a);
    KeepDigitsOfDigits(b);
    KeepDigitsOfDigits(d);
    var x1 := "(" + a;
    KeepDigitsAppend("(", a);
    assert KeepDigits(x1) == a;
    var x2 := x1 + ") ";
    KeepDigitsAppend(x1, ") ");
    assert KeepDigits(x2) == a;
    var x3 := x2 + b;
    KeepDigitsAppend(x2, b);
    assert KeepDigits(x3) == a + b;
    var x4 := x3 + "-";
    KeepDigitsAppend(x3, "-");
    assert KeepDigits(x4) == a + b;
    KeepDigitsAppend(x4, d);
    assert KeepDigits(x4 + d) == a + b + d;
  }

  /** Formatting keeps the digits of the number and their order. */
  lemma FormatPhoneKeepsDigits(phone: string)
    ensures KeepDigits(FormatPhoneNumber(phone)) == KeepDigits(phone)
  {
    var c := KeepDigits(phone);
    if |c| == 10 {
      KeepDigitsOfLayout(c[..3], c[3..6], c[6..]);
      assert c[..3] + c[3..6] + c[6..] == c;
    }
  }

  /** A formatted number is left as it is by a second formatting. */
  lemma FormatPhoneIdempotent(phone: string)
    ensures FormatPhoneNumber(FormatPhoneNumber(phone)) == FormatPhoneNumber(phone)
  {
    FormatPhoneKeepsDigits(phone);
    var c := KeepDigits(phone);
    if |c| == 10 {
      assert |KeepDigits(FormatPhoneNumber(phone))| == 10;
    }
  }

  /** The formatted shape: fourteen characters, punctuation at fixed places, the ten digits in order. */
  lemma FormatPhoneShape(phone: string)
    requires |KeepDigits(phone)| == 10
    ensures var r := FormatPhoneNumber(phone);
            var c := KeepDigits(phone);
            |r| == 14 && r[0] == '(' && r[4] == ')' && r[5] == ' ' && r[9] == '-'
            && r[1..4] == c[..3] && r[6..9] == c[3..6] && r[10..] == c[6..]
  {
    var c := KeepDigits(phone);
    var r := "(" + c[..3] + ") " + c[3..6] + "-" + c[6..];
    assert FormatPhoneNumber(phone) == r;
    assert r[1..4] == c[..3];
    assert r[6..9] == c[3..6];
    assert r[10..] == c[6..];
  }
}
