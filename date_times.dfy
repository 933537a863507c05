/**
 * Date and time normalisation (`parseDateTime` and `convertTo24Hour` in
 * src/utils/chatParser.ts). Both work on arbitrary strings, as the source does; the lemmas
 * at the end say what they produce on the date and time text a header captures.
 */
module DateTimes {
  import opened Wrappers
  import opened JsStrings
  import opened Messages

  // ---------------------------------------------------------------------------
  // The captured date and time text
  // ---------------------------------------------------------------------------

  /** The date as written in a header, `first/second/year`. */
  datatype DateText = DateText(first: string, second: string, year: string)

  /** The time as written in a header, `hours:minutes[:seconds]<gap><meridiem>M`, where the
      gap is the one character `\s` matched. */
  datatype TimeText = TimeText(hours: string, minutes: string, seconds: Option<string>,
                               gap: char, meridiem: char)

  function DateStr(d: DateText): string {
    d.first + "/" + d.second + "/" + d.year
  }

  function SecondsStr(sec: Option<string>): string {
    match sec
    case None => ""
    case Some(s) => ":" + s
  }

  function TimeStr(t: TimeText): string {
    t.hours + ":" + t.minutes + SecondsStr(t.seconds) + [t.gap] + [t.meridiem] + "M"
  }

  /** `\d{1,2}/\d{1,2}/\d{2,4}` */
  predicate WfDate(d: DateText) {
    && AllDigits(d.first) && 1 <= |d.first| <= 2
    && AllDigits(d.second) && 1 <= |d.second| <= 2
    && AllDigits(d.year) && 2 <= |d.year| <= 4
  }

  /** `\d{1,2}:\d{2}(:\d{2})?\s[AP]M` */
  predicate WfTime(t: TimeText) {
    && AllDigits(t.hours) && 1 <= |t.hours| <= 2
    && AllDigits(t.minutes) && |t.minutes| == 2
    && (t.seconds.Some? ==> AllDigits(t.seconds.value) && |t.seconds.value| == 2)
    && IsWhite(t.gap)
    && (t.meridiem == 'A' || t.meridiem == 'P')
  }

  // ---------------------------------------------------------------------------
  // convertTo24Hour
  // ---------------------------------------------------------------------------

  /** The three fields `convertTo24Hour` joins with ':'. */
  datatype Clock = Clock(hour: string, minute: string, second: string)

  /** The 12-hour rule applied to a parsed hour: PM before 12 adds 12, 12 AM is 0, anything
      else (NaN included) is left alone. */
  function AdjustHour(h: JsNumber, period: Option<string>): JsNumber {
    match h
    case None => None
    case Some(n) =>
      if period == Some("PM") && n < 12 then Some(n + 12)
      else if period == Some("AM") && n == 12 then Some(0)
      else Some(n)
  }

  /** Without a period the hour is left alone. */
  lemma AdjustHourNoPeriod(h: JsNumber)
    ensures AdjustHour(h, None) == h
  {
  }

  /** On "AM" and "PM" the 12-hour rule is `Hour24`. */
  lemma AdjustHourOfMeridiem(h: nat, meridiem: char)
    requires meridiem == 'A' || meridiem == 'P'
    ensures AdjustHour(Some(h), Some([meridiem] + "M")) == Some(Hour24(h, meridiem))
  {
    var period := [meridiem] + "M";
    if meridiem == 'P' {
      assert period == "PM";
      assert period[0] != "AM"[0];
    } else {
      assert period == "AM";
      assert period[0] != "PM"[0];
    }
  }

  /** `convertTo24Hour(timeStr)`: split at ' ' into the time and the period, split the time at
      ':', and rebuild `HH:minutes:seconds` with seconds defaulting to "00"; a missing minutes
      field prints as "undefined". */
  function ConvertTo24Hour(timeStr: string): Clock {
    var parts := Split(timeStr, " ");
    var period := if |parts| > 1 then Some(parts[1]) else None;
    var fields := Split(parts[0], ":");
    var minutes := if |fields| > 1 then fields[1] else "undefined";
    var seconds := if |fields| > 2 then fields[2] else "00";
    var hour := AdjustHour(ParseInt(fields[0]), period);
    Clock(PadStart2(NumberToString(hour)), minutes, seconds)
  }

  // ---------------------------------------------------------------------------
  // parseDateTime
  // ---------------------------------------------------------------------------

  /** A two-character year is taken to be in the 2000s. */
  function ExpandYear(y: string): string {
    if |y| == 2 then "20" + y else y
  }

  /** `parseDateTime(dateTimeStr, isBracketFormat)`: split at ", " into date and time, read
      the date as day/month/year (bracket) or month/day/year (dash), and compose the
      wall-clock fields. Where the source would throw (a missing time part, or fewer than
      three date fields), it falls back to the current time. */
  function ParseDateTime(dateTimeStr: string, isBracket: bool): Timestamp {
    var parts := Split(dateTimeStr, ", ");
    var fields := Split(parts[0], "/");
    if |fields| < 3 || |parts| < 2 then Now
    else
      var day := if isBracket then fields[0] else fields[1];
      var month := if isBracket then fields[1] else fields[0];
      var clock := ConvertTo24Hour(parts[1]);
      At(DateTime(ExpandYear(fields[2]), PadStart2(month), PadStart2(day),
                  clock.hour, clock.minute, clock.second))
  }

  /** The 12-hour to 24-hour rule on a clock hour. */
  function Hour24(h: nat, meridiem: char): nat {
    if meridiem == 'P' && h < 12 then h + 12
    else if meridiem == 'A' && h == 12 then 0
    else h
  }

  /** On the clock hours 1..12 the rule is a bijection onto 0..23. */
  lemma Hour24Bijective(h1: nat, m1: char, h2: nat, m2: char)
    requires 1 <= h1 <= 12 && 1 <= h2 <= 12
    requires m1 in {'A', 'P'} && m2 in {'A', 'P'}
    ensures Hour24(h1, m1) < 24
    ensures Hour24(h1, m1) == Hour24(h2, m2) ==> h1 == h2 && m1 == m2
  {
  }

  /** Every hour 0..23 comes from some clock hour. */
  lemma Hour24Onto(x: nat)
    requires x < 24
    ensures exists h: nat, m: char :: 1 <= h <= 12 && m in {'A', 'P'} && Hour24(h, m) == x
  {
    if x == 0 {
      assert Hour24(12, 'A') == 0;
    } else if x < 12 {
      assert Hour24(x, 'A') == x;
    } else if x == 12 {
      assert Hour24(12, 'P') == 12;
    } else {
      assert Hour24(x - 12, 'P') == x;
    }
  }

  // ---------------------------------------------------------------------------
  // What the normaliser does with captured header text
  // ---------------------------------------------------------------------------

  lemma SplitDate(d: DateText)
    requires WfDate(d)
    ensures Split(DateStr(d), "/") == [d.first, d.second, d.year]
  {
    SplitThree(d.first, d.second, d.year, "/");
  }

  lemma SplitStamp(d: DateText, t: TimeText)
    requires WfDate(d) && WfTime(t)
    ensures Split(DateStr(d) + ", " + TimeStr(t), ", ") == [DateStr(d), TimeStr(t)]
  {
    assert ',' !in TimeStr(t) by {
      assert TimeStr(t) == t.hours + ":" + t.minutes + SecondsStr(t.seconds) + [t.gap] + [t.meridiem] + "M";
    }
    SplitTwo(DateStr(d), TimeStr(t), ", ");
  }

  /** The time part split at ':'. */
  lemma SplitClock(str: string, h: string, m: string, sec: Option<string>, tail: string)
    requires str == h + ":" + m + SecondsStr(sec) + tail
    requires ':' !in h && ':' !in m && ':' !in tail
    requires sec.Some? ==> ':' !in sec.value
    ensures Split(str, ":") == if sec.None? then [h, m + tail] else [h, m, sec.value + tail]
  {
    if sec.None? {
      SplitClockNoSeconds(h, m, tail);
    } else {
      SplitClockSeconds(h, m, sec.value, tail);
    }
  }

  lemma SplitClockNoSeconds(h: string, m: string, tail: string)
    requires ':' !in h && ':' !in m && ':' !in tail
    ensures Split(h + ":" + m + "" + tail, ":") == [h, m + tail]
  {
    assert ':' !in m + tail;
    SplitTwo(h, m + tail, ":");
    assert h + ":" + m + "" + tail == h + ":" + (m + tail);
  }

  lemma SplitClockSeconds(h: string, m: string, s: string, tail: string)
    requires ':' !in h && ':' !in m && ':' !in s && ':' !in tail
    ensures Split(h + ":" + m + (":" + s) + tail, ":") == [h, m, s + tail]
  {
    assert ':' !in s + tail;
    SplitThree(h, m, s + tail, ":");
    ClockAssoc(h, m, s, tail);
  }

  lemma ClockAssoc(h: string, m: string, s: string, tail: string)
    ensures h + ":" + m + (":" + s) + tail == h + ":" + m + ":" + (s + tail)
  {
  }

  /** The date-time text a header hands to the normaliser splits into its date and time,
      and the date into its three fields. */
  lemma SplitHeaderStamp(d: DateText, t: TimeText)
    requires WfDate(d) && WfTime(t)
    ensures var parts := Split(DateStr(d) + ", " + TimeStr(t), ", ");
            parts == [DateStr(d), TimeStr(t)] && Split(parts[0], "/") == [d.first, d.second, d.year]
  {
    SplitStamp(d, t);
    SplitDate(d);
  }

  /** Reading the fields and the clock, once the splits are known. */
  lemma ParseDateTimeOfParts(dateTimeStr: string, d: DateText, time: string, isBracket: bool)
    requires Split(dateTimeStr, ", ") == [DateStr(d), time]
    requires Split(DateStr(d), "/") == [d.first, d.second, d.year]
    ensures ParseDateTime(dateTimeStr, isBracket)
         == var c := ConvertTo24Hour(time);
            At(DateTime(ExpandYear(d.year),
                        PadStart2(if isBracket then d.second else d.first),
                        PadStart2(if isBracket then d.first else d.second),
                        c.hour, c.minute, c.second))
  {
  }

  lemma TimeStrSpaced(t: TimeText)
    requires t.gap == ' '
    ensures TimeStr(t) == (t.hours + ":" + t.minutes + SecondsStr(t.seconds)) + " " + ([t.meridiem] + "M")
  {
  }

  lemma TimeStrTail(t: TimeText)
    ensures TimeStr(t) == t.hours + ":" + t.minutes + SecondsStr(t.seconds) + [t.gap, t.meridiem, 'M']
  {
  }

  lemma NoSpaceInTime(t: TimeText)
    requires WfTime(t)
    ensures ' ' !in t.hours + ":" + t.minutes + SecondsStr(t.seconds)
    ensures ':' !in t.hours && ':' !in t.minutes && (t.seconds.Some? ==> ':' !in t.seconds.value)
  {
  }

  /** `convertTo24Hour` once its ' ' split is known to give a time and a period. */
  lemma ConvertWithPeriod(timeStr: string, time: string, period: string, fields: seq<string>)
    requires Split(timeStr, " ") == [time, period] && Split(time, ":") == fields
    ensures ConvertTo24Hour(timeStr)
         == Clock(PadStart2(NumberToString(AdjustHour(ParseInt(fields[0]), Some(period)))),
                  if |fields| > 1 then fields[1] else "undefined",
                  if |fields| > 2 then fields[2] else "00")
  {
  }

  /** `convertTo24Hour` once its ' ' split is known to find no period. */
  lemma ConvertWithoutPeriod(timeStr: string, fields: seq<string>)
    requires Split(timeStr, " ") == [timeStr] && Split(timeStr, ":") == fields
    ensures ConvertTo24Hour(timeStr)
         == Clock(PadStart2(NumberToString(AdjustHour(ParseInt(fields[0]), None))),
                  if |fields| > 1 then fields[1] else "undefined",
                  if |fields| > 2 then fields[2] else "00")
  {
  }

  /** With a plain space before AM/PM, the hour goes through the 12-hour rule and is padded,
      the minutes are kept and the seconds default to "00". */
  lemma ConvertHeaderTime(t: TimeText)
    requires WfTime(t) && t.gap == ' '
    ensures ConvertTo24Hour(TimeStr(t))
         == Clock(PadStart2(NatToString(Hour24(DigitsValue(t.hours), t.meridiem))),
                  t.minutes, if t.seconds.Some? then t.seconds.value else "00")
  {
    var time := t.hours + ":" + t.minutes + SecondsStr(t.seconds);
    var period := [t.meridiem] + "M";
    TimeStrSpaced(t);
    NoSpaceInTime(t);
    SplitTwo(time, period, " ");
    assert time == time + "";
    SplitClock(time, t.hours, t.minutes, t.seconds, "");
    assert t.minutes + "" == t.minutes;
    assert t.seconds.Some? ==> t.seconds.value + "" == t.seconds.value;
    var fields := if t.seconds.None? then [t.hours, t.minutes] else [t.hours, t.minutes, t.seconds.value];
    assert Split(time, ":") == fields;
    ConvertWithPeriod(TimeStr(t), time, period, fields);
    ParseIntOfDigits(t.hours);
    var h := DigitsValue(t.hours);
    AdjustHourOfMeridiem(h, t.meridiem);
    NumberToStringOfNat(Hour24(h, t.meridiem));
  }

  /** With any other white-space character before AM/PM the ' ' split finds no period: the
      hour is not converted, and the meridiem stays glued to the last time field. */
  lemma ConvertOddGap(t: TimeText)
    requires WfTime(t) && t.gap != ' '
    ensures ConvertTo24Hour(TimeStr(t))
         == Clock(PadStart2(NatToString(DigitsValue(t.hours))),
                  if t.seconds.None? then t.minutes + [t.gap, t.meridiem, 'M'] else t.minutes,
                  if t.seconds.Some? then t.seconds.value + [t.gap, t.meridiem, 'M'] else "00")
  {
    var tail := [t.gap, t.meridiem, 'M'];
    TimeStrTail(t);
    NoSpaceInTime(t);
    assert ' ' !in TimeStr(t);
    SplitOne(TimeStr(t), " ");
    SplitClock(TimeStr(t), t.hours, t.minutes, t.seconds, tail);
    var fields := if t.seconds.None? then [t.hours, t.minutes + tail]
                  else [t.hours, t.minutes, t.seconds.value + tail];
    assert Split(TimeStr(t), ":") == fields;
    ConvertWithoutPeriod(TimeStr(t), fields);
    ParseIntOfDigits(t.hours);
    AdjustHourNoPeriod(ParseInt(t.hours));
    NumberToStringOfNat(DigitsValue(t.hours));
  }

  /** A header's date and time, with a plain space before AM/PM, become the day/month/year
      fields in the dialect's order (a two-digit year gains "20", month and day are padded to
      two characters) and the 24-hour time (hour converted and padded, minutes verbatim,
      seconds "00" when absent). The current-time fallback never happens. */
  lemma NormaliseHeaderStamp(d: DateText, t: TimeText, isBracket: bool)
    requires WfDate(d) && WfTime(t) && t.gap == ' '
    ensures ParseDateTime(DateStr(d) + ", " + TimeStr(t), isBracket)
         == At(DateTime(ExpandYear(d.year),
                        PadStart2(if isBracket then d.second else d.first),
                        PadStart2(if isBracket then d.first else d.second),
                        PadStart2(NatToString(Hour24(DigitsValue(t.hours), t.meridiem))),
                        t.minutes,
                        if t.seconds.Some? then t.seconds.value else "00"))
  {
    SplitHeaderStamp(d, t);
    ParseDateTimeOfParts(DateStr(d) + ", " + TimeStr(t), d, TimeStr(t), isBracket);
    ConvertHeaderTime(t);
  }

  /** The same with another white-space character before AM/PM. */
  lemma NormaliseOddGap(d: DateText, t: TimeText, isBracket: bool)
    requires WfDate(d) && WfTime(t) && t.gap != ' '
    ensures ParseDateTime(DateStr(d) + ", " + TimeStr(t), isBracket)
         == At(DateTime(ExpandYear(d.year),
                        PadStart2(if isBracket then d.second else d.first),
                        PadStart2(if isBracket then d.first else d.second),
                        PadStart2(NatToString(DigitsValue(t.hours))),
                        if t.seconds.None? then t.minutes + [t.gap, t.meridiem, 'M'] else t.minutes,
                        if t.seconds.Some? then t.seconds.value + [t.gap, t.meridiem, 'M'] else "00"))
  {
    SplitHeaderStamp(d, t);
    ParseDateTimeOfParts(DateStr(d) + ", " + TimeStr(t), d, TimeStr(t), isBracket);
    ConvertOddGap(t);
  }
}
