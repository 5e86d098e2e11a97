/**
 * `string_to_dummy_time` and `fallback_string_to_dummy_time` of parser.rb: a time of day read from
 * the stripped text by an ordered list of patterns and anchored to the placeholder date 2000-01-01.
 */
module TimeParser {
  import opened Outcomes
  import opened Text
  import opened Calendar
  import opened Resolvers
  import opened Patterns

  /** `to_i` of an optional group: a group that did not take part in the match (`nil`) reads as 0. */
  function OptToI(g: Option<string>): nat
  {
    match g
    case None => 0
    case Some(t) => ToI(t)
  }

  /** An optional group of at most `width` digits reads below 10^width. */
  lemma OptToIBelow(g: Option<string>, width: nat)
    requires g.Some? ==> AllDigits(g.value) && |g.value| <= width
    ensures OptToI(g) < Pow10(width)
  {
    if g.Some? {
      ToIOfDigits(g.value);
      Pow10Monotone(|g.value|, width);
    }
  }

  /**
   * The `case` of `fallback_string_to_dummy_time`: hour, minute, second and microsecond of the first
   * pattern that matches; the 12-hour patterns give the hour already through `full_hour`. `nil` when
   * no pattern matches, and when the "H:MM am/pm" pattern matches with an hour above 12.
   */
  function ClockFieldsOf(value: string): (r: Option<(int, int, int, int)>)
    ensures r.None? <==>
      (MatchClock12Seconds(value).None? &&
       (MatchClock12Minutes(value).None? || ToI(MatchClock12Minutes(value).value.0) > 12) &&
       MatchClock12Hour(value).None? && MatchClock24(value).None? && MatchIsoDateTime(value).None?)
  {
    match MatchClock12Seconds(value)
    case Some((h, mm, ss, mer)) => Some((FullHour(h, mer), ToI(mm), ToI(ss), 0))
    case None =>
      match MatchClock12Minutes(value)
      case Some((h, mm, mer)) =>
        if ToI(h) <= 12 then Some((FullHour(h, mer), ToI(mm), 0, 0)) else None
      case None =>
        match MatchClock12Hour(value)
        case Some((h, mer)) => Some((FullHour(h, mer), 0, 0, 0))
        case None =>
          match MatchClock24(value)
          case Some((hh, mm, ss, frac)) => Some((ToI(hh), ToI(mm), OptToI(ss), OptToI(frac)))
          case None =>
            match MatchIsoDateTime(value)
            case Some((_, _, _, h, mi, sec)) => Some((ToI(h), ToI(mi), ToI(sec), 0))
            case None => None
  }

  /**
   * The fraction has at most six digits, so the microsecond is below 1000000 whatever pattern
   * matched: the microsecond alone never makes `new_time` fail.
   */
  lemma MicrosecondInRange(value: string)
    ensures ClockFieldsOf(value).Some? ==> 0 <= ClockFieldsOf(value).value.3 < 1000000
  {
    match MatchClock24(value)
    case Some((_, _, _, frac)) =>
      OptToIBelow(frac, 6);
      assert Pow10(6) == 1000000;
    case None =>
  }

  /**
   * `fallback_string_to_dummy_time` on a string: `new_time(2000, 1, 1, ...)` of the fields. Every time
   * it yields lies on 2000-01-01 and is a clock reading.
   */
  function FallbackStringToDummyTime(value: string): (r: Option<Time>)
    ensures r.Some? ==>
      r.value.year == 2000 && r.value.month == 1 && r.value.day == 1 &&
      ValidClock(r.value.hour, r.value.min, r.value.sec, r.value.usec)
  {
    match ClockFieldsOf(Strip(value))
    case None => None
    case Some((hour, minute, second, microsecond)) => NewTime(2000, 1, 1, hour, minute, second, microsecond)
  }

  /** `string_to_dummy_time`: absent exactly for blank text; every time lies on 2000-01-01. */
  function StringToDummyTime(s: string): (r: Parsed<Time>)
    ensures r.Absent? <==> Blank(s)
    ensures r.Success? ==>
      r.value.year == 2000 && r.value.month == 1 && r.value.day == 1 &&
      ValidClock(r.value.hour, r.value.min, r.value.sec, r.value.usec)
  {
    if Blank(s) then Absent else FromOption(FallbackStringToDummyTime(s))
  }

  /** Surrounding white space never changes the time of day read from a text. */
  lemma DummyTimeIgnoresSurroundingSpace(s: string)
    ensures StringToDummyTime(s) == StringToDummyTime(Strip(s))
  {
    StripIdempotent(s);
  }

  /** `7:30:05 pm`: the hour goes through `full_hour`, with no check that it is at most 12. */
  lemma Clock12SecondsResult(value: string, h: string, c1: char, mm: string, c2: char, ss: string, gap: string, mer: string)
    requires Clock12SecondsParts(h, c1, mm, c2, ss, gap, mer)
    requires Strip(value) == Clock12SecondsText(h, c1, mm, c2, ss, gap, mer)
    ensures FallbackStringToDummyTime(value) == NewTime(2000, 1, 1, FullHour(h, mer), ToI(mm), ToI(ss), 0)
  {
    Clock12SecondsComplete(h, c1, mm, c2, ss, gap, mer);
  }

  /** `7.30pm`: the one pattern that refuses an hour above 12, before `full_hour` is applied. */
  lemma Clock12MinutesResult(value: string, h: string, c1: char, mm: string, gap: string, mer: string)
    requires Clock12MinutesParts(h, c1, mm, gap, mer)
    requires Strip(value) == Clock12MinutesText(h, c1, mm, gap, mer)
    ensures ToI(h) > 12 ==> FallbackStringToDummyTime(value) == None
    ensures ToI(h) <= 12 ==> FallbackStringToDummyTime(value) == NewTime(2000, 1, 1, FullHour(h, mer), ToI(mm), 0, 0)
  {
    Clock12MinutesComplete(h, c1, mm, gap, mer);
    TimePatternsExclusive(Strip(value));
  }

  /** `2pm`: the hour alone; minute, second and microsecond are 0, and the hour is not checked against 12. */
  lemma Clock12HourResult(value: string, h: string, gap: string, mer: string)
    requires Clock12HourParts(h, gap, mer)
    requires Strip(value) == Clock12HourText(h, gap, mer)
    ensures FallbackStringToDummyTime(value) == NewTime(2000, 1, 1, FullHour(h, mer), 0, 0, 0)
  {
    Clock12HourComplete(h, gap, mer);
    TimePatternsExclusive(Strip(value));
  }

  /**
   * `22:30:05.5`: hour and minute as written, a missing second reads as 0, and the fraction digits are
   * the microsecond count as an integer (not scaled to six digits), 0 when absent.
   */
  lemma Clock24Result(value: string, hh: string, c1: char, mm: string, seconds: Option<(char, string)>, fraction: Option<string>)
    requires Clock24Parts(hh, c1, mm, seconds, fraction)
    requires Strip(value) == Clock24Text(hh, c1, mm, seconds, fraction)
    ensures FallbackStringToDummyTime(value) ==
      NewTime(2000, 1, 1, ToI(hh), ToI(mm), OptToI(SecondsGroup(seconds)), OptToI(fraction))
    ensures fraction.Some? ==> OptToI(fraction) == DecimalValue(fraction.value)
  {
    Clock24Complete(hh, c1, mm, seconds, fraction);
    TimePatternsExclusive(Strip(value));
    if fraction.Some? {
      ToIOfDigits(fraction.value);
    }
  }

  /** `2006-01-01T10:10:10` read as a time of day: only the clock groups are used. */
  lemma IsoDateTimeClock(value: string, y: string, m: string, d: string, h: string, mi: string, sec: string)
    requires IsoDateTimeParts(y, m, d, h, mi, sec) && Strip(value) == IsoDateTimeText(y, m, d, h, mi, sec)
    ensures FallbackStringToDummyTime(value) == NewTime(2000, 1, 1, ToI(h), ToI(mi), ToI(sec), 0)
  {
    IsoDateTimeComplete(y, m, d, h, mi, sec);
    TimePatternsExclusive(Strip(value));
  }

  /** The `HH:MM:SS` text of a clock reading. */
  function ClockText(hour: nat, min: nat, sec: nat): string
  {
    Clock24Text(Pad(hour, 2), ':', Pad(min, 2), Some((':', Pad(sec, 2))), None)
  }

  /** Every clock reading written as `HH:MM:SS` parses back to itself on 2000-01-01. */
  lemma ClockTextRoundTrip(hour: nat, min: nat, sec: nat)
    requires ValidClock(hour, min, sec, 0)
    ensures StringToDummyTime(ClockText(hour, min, sec)) == Success(Time(2000, 1, 1, hour, min, sec, 0))
  {
    var hh, mm, ss := Pad(hour, 2), Pad(min, 2), Pad(sec, 2);
    assert Pow10(2) == 100;
    ToIOfDigits(hh);
    ToIOfDigits(mm);
    ToIOfDigits(ss);
    var s := ClockText(hour, min, sec);
    assert s[0] == hh[0] && s[|s| - 1] == ss[1];
    StripUnchanged(s);
    Clock24Result(s, hh, ':', mm, Some((':', ss)), None);
  }

  /** The `H:MM am/pm` text of a clock reading on the 12-hour dial, without a gap before the meridiem. */
  function Clock12Text(hour: nat, min: nat): string
    requires hour < 24
  {
    Clock12MinutesText(Pad(Hour12(hour), 2), ':', Pad(min, 2), "", if hour < 12 then "am" else "pm")
  }

  /** Every hour and minute written on the 12-hour dial with "am" or "pm" parses back to itself. */
  lemma Clock12TextRoundTrip(hour: nat, min: nat)
    requires hour < 24 && min < 60
    ensures StringToDummyTime(Clock12Text(hour, min)) == Success(Time(2000, 1, 1, hour, min, 0, 0))
  {
    var h, mm, mer := Pad(Hour12(hour), 2), Pad(min, 2), if hour < 12 then "am" else "pm";
    Clock12TextFields(hour, min, h, mm, mer);
    var s := Clock12Text(hour, min);
    Clock12TextStripped(hour, min);
    Clock12MinutesResult(s, h, ':', mm, "", mer);
    DummyTimeOfClock(s, hour, min, 0, 0);
  }

  /** A 12-hour text has no white space to strip. */
  lemma Clock12TextStripped(hour: nat, min: nat)
    requires hour < 24
    ensures !Blank(Clock12Text(hour, min)) && Strip(Clock12Text(hour, min)) == Clock12Text(hour, min)
  {
    var s := Clock12Text(hour, min);
    assert s[0] == Pad(Hour12(hour), 2)[0] && s[|s| - 1] == 'm';
    StripUnchanged(s);
  }

  /** The groups of a 12-hour text read back as the hour and minute written. */
  lemma Clock12TextFields(hour: nat, min: nat, h: string, mm: string, mer: string)
    requires hour < 24 && min < 60
    requires h == Pad(Hour12(hour), 2) && mm == Pad(min, 2) && mer == if hour < 12 then "am" else "pm"
    ensures Clock12MinutesParts(h, ':', mm, "", mer)
    ensures ToI(h) == Hour12(hour) <= 12 && ToI(mm) == min && FullHour(h, mer) == hour
  {
    assert Pow10(2) == 100;
    ToIOfDigits(h);
    ToIOfDigits(mm);
    FullHourRoundTrip(hour);
  }

  /** Fields the fallback reads and `new_time` accepts are the time `string_to_dummy_time` gives. */
  lemma DummyTimeOfClock(value: string, hour: int, min: int, sec: int, usec: int)
    requires !Blank(value) && ValidClock(hour, min, sec, usec)
    requires FallbackStringToDummyTime(value) == NewTime(2000, 1, 1, hour, min, sec, usec)
    ensures StringToDummyTime(value) == Success(Time(2000, 1, 1, hour, min, sec, usec))
  {
    assert ValidDate(2000, 1, 1);
  }

  /** "7", "30" and "pm" are hour 19 and minute 30. */
  lemma SevenThirtyPm(h: string, mm: string, mer: string)
    requires h == "7" && mm == "30" && mer == "pm"
    ensures ToI(h) == 7 && FullHour(h, mer) == 19 && ToI(mm) == 30
  {
    ToIOfOneDigit(h);
    FullHourOnClock(h, mer);
    ToIOfTwoDigits(mm);
  }

  /** "12" with "am" is hour 0. */
  lemma TwelveAm(h: string, mer: string)
    requires h == "12" && mer == "am"
    ensures FullHour(h, mer) == 0
  {
    ToIOfTwoDigits(h);
    FullHourOnClock(h, mer);
  }

  /** "12" with "pm" is hour 12. */
  lemma TwelvePm(h: string, mer: string)
    requires h == "12" && mer == "pm"
    ensures FullHour(h, mer) == 12
  {
    ToIOfTwoDigits(h);
    FullHourOnClock(h, mer);
  }

  /** `7.30pm` is 19:30:00. */
  lemma EveningExample(v: string)
    requires v == "7.30pm"
    ensures StringToDummyTime(v) == Success(Time(2000, 1, 1, 19, 30, 0, 0))
  {
    var h, mm, mer := v[..1], v[2..4], v[4..];
    assert h == "7" && mm == "30" && mer == "pm";
    assert v == Clock12MinutesText(h, '.', mm, "", mer);
    assert Clock12MinutesParts(h, '.', mm, "", mer);
    StripUnchanged(v);
    SevenThirtyPm(h, mm, mer);
    Clock12MinutesResult(v, h, '.', mm, "", mer);
    DummyTimeOfClock(v, 19, 30, 0, 0);
  }

  /** `12am` is midnight, hour 0. */
  lemma MidnightExample(v: string)
    requires v == "12am"
    ensures StringToDummyTime(v) == Success(Time(2000, 1, 1, 0, 0, 0, 0))
  {
    var h, mer := v[..2], v[2..];
    assert h == "12" && mer == "am";
    assert v == Clock12HourText(h, "", mer);
    assert Clock12HourParts(h, "", mer);
    StripUnchanged(v);
    TwelveAm(h, mer);
    Clock12HourResult(v, h, "", mer);
    DummyTimeOfClock(v, 0, 0, 0, 0);
  }

  /** `12pm` is noon, hour 12. */
  lemma NoonExample(v: string)
    requires v == "12pm"
    ensures StringToDummyTime(v) == Success(Time(2000, 1, 1, 12, 0, 0, 0))
  {
    var h, mer := v[..2], v[2..];
    assert h == "12" && mer == "pm";
    assert v == Clock12HourText(h, "", mer);
    assert Clock12HourParts(h, "", mer);
    StripUnchanged(v);
    TwelvePm(h, mer);
    Clock12HourResult(v, h, "", mer);
    DummyTimeOfClock(v, 12, 0, 0, 0);
  }

  /** `13:30pm` fails: with minutes and a meridiem the hour may not exceed 12. */
  lemma HourAboveTwelveExample(v: string)
    requires v == "13:30pm"
    ensures StringToDummyTime(v) == Failure
  {
    var h, mm, mer := v[..2], v[3..5], v[5..];
    assert h == "13" && mm == "30" && mer == "pm";
    assert v == Clock12MinutesText(h, ':', mm, "", mer);
    assert Clock12MinutesParts(h, ':', mm, "", mer);
    StripUnchanged(v);
    ToIOfTwoDigits(h);
    Clock12MinutesResult(v, h, ':', mm, "", mer);
  }

  /** "13" with "am" stays hour 13. */
  lemma ThirteenAm(h: string, mer: string)
    requires h == "13" && mer == "am"
    ensures FullHour(h, mer) == 13
  {
    ToIOfTwoDigits(h);
    StripUnchanged(mer);
  }

  /** `13am` is 13:00: without minutes the hour is not checked against 12, and "am" keeps it. */
  lemma HourOnlyAboveTwelveExample(v: string)
    requires v == "13am"
    ensures StringToDummyTime(v) == Success(Time(2000, 1, 1, 13, 0, 0, 0))
  {
    var h, mer := v[..2], v[2..];
    assert h == "13" && mer == "am";
    assert v == Clock12HourText(h, "", mer);
    assert Clock12HourParts(h, "", mer);
    StripUnchanged(v);
    ThirteenAm(h, mer);
    Clock12HourResult(v, h, "", mer);
    DummyTimeOfClock(v, 13, 0, 0, 0);
  }

  /** A 24-hour text with seconds and a fraction: the microsecond is the fraction digits' integer value. */
  lemma FractionMicroseconds(hh: string, c1: char, mm: string, c2: char, ss: string, f: string)
    requires Clock24Parts(hh, c1, mm, Some((c2, ss)), Some(f))
    ensures FallbackStringToDummyTime(Clock24Text(hh, c1, mm, Some((c2, ss)), Some(f))) ==
      NewTime(2000, 1, 1, ToI(hh), ToI(mm), ToI(ss), DecimalValue(f))
  {
    var s := Clock24Text(hh, c1, mm, Some((c2, ss)), Some(f));
    assert s[0] == hh[0] && s[|s| - 1] == f[|f| - 1];
    StripUnchanged(s);
    Clock24Result(s, hh, c1, mm, Some((c2, ss)), Some(f));
  }

  /** The clock fields of `22:30:05.5`. */
  lemma FractionExampleFields(hh: string, mm: string, ss: string, f: string)
    requires hh == "22" && mm == "30" && ss == "05" && f == "5"
    ensures Clock24Parts(hh, ':', mm, Some((':', ss)), Some(f))
    ensures ToI(hh) == 22 && ToI(mm) == 30 && ToI(ss) == 5 && DecimalValue(f) == 5
  {
    ToIOfTwoDigits(hh);
    ToIOfTwoDigits(mm);
    ToIOfTwoDigits(ss);
  }

  /** "22:30:05.5" splits into hour, minute, second and fraction digits. */
  lemma FractionText(v: string) returns (hh: string, mm: string, ss: string, f: string)
    requires v == "22:30:05.5"
    ensures hh == "22" && mm == "30" && ss == "05" && f == "5"
    ensures v == Clock24Text(hh, ':', mm, Some((':', ss)), Some(f)) && !Blank(v)
  {
    hh, mm, ss, f := v[..2], v[3..5], v[6..8], v[9..];
    assert hh == "22" && mm == "30" && ss == "05" && f == "5";
    assert !IsSpace(v[0]);
  }

  /** `22:30:05.5` is 22:30:05 with 5 microseconds: the fraction digits are not scaled. */
  lemma FractionExample(v: string)
    requires v == "22:30:05.5"
    ensures StringToDummyTime(v) == Success(Time(2000, 1, 1, 22, 30, 5, 5))
  {
    var hh, mm, ss, f := FractionText(v);
    FractionExampleFields(hh, mm, ss, f);
    FractionMicroseconds(hh, ':', mm, ':', ss, f);
    DummyTimeOfClock(v, 22, 30, 5, 5);
  }

  /**
   * After the same seconds, fraction digits `5` and `500000` give 5 and 500000 microseconds: the same
   * fraction of a second read as two different times.
   */
  lemma FractionNotScaled(hh: string, c1: char, mm: string, c2: char, ss: string)
    requires Clock24Parts(hh, c1, mm, Some((c2, ss)), None)
    ensures var short := Clock24Text(hh, c1, mm, Some((c2, ss)), Some("5"));
      var long := Clock24Text(hh, c1, mm, Some((c2, ss)), Some("500000"));
      FallbackStringToDummyTime(short).Some? ==>
        FallbackStringToDummyTime(long).Some? &&
        FallbackStringToDummyTime(short).value.usec == 5 &&
        FallbackStringToDummyTime(long).value.usec == 500000
  {
    FractionDigitValues("5", "500000");
    FractionMicroseconds(hh, c1, mm, c2, ss, "5");
    FractionMicroseconds(hh, c1, mm, c2, ss, "500000");
  }

  /** The fraction digits "5" and "500000" read as 5 and 500000. */
  lemma FractionDigitValues(short: string, long: string)
    requires short == "5" && long == "500000"
    ensures AllDigits(short) && DecimalValue(short) == 5
    ensures AllDigits(long) && |long| == 6 && DecimalValue(long) == 500000
  {
    assert AllDigits(short) && DecimalValue(short) == 5 by {
      assert short[..0] == [];
    }
    var t1 := short + ['0'];
    DecimalValuePush(short, '0');
    var t2 := t1 + ['0'];
    DecimalValuePush(t1, '0');
    var t3 := t2 + ['0'];
    DecimalValuePush(t2, '0');
    var t4 := t3 + ['0'];
    DecimalValuePush(t3, '0');
    var t5 := t4 + ['0'];
    DecimalValuePush(t4, '0');
    assert t5 == long;
  }
}
