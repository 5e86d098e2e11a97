/**
 * `string_to_time` and `fallback_string_to_time` of parser.rb: a full ISO `T` timestamp is built
 * directly; otherwise a loop looks for the first space whose prefix parses as a date, and the rest of
 * the text is read as a time of day.
 */
module TimestampParser {
  import opened Outcomes
  import opened Text
  import opened Calendar
  import opened Patterns
  import opened DateParser
  import opened TimeParser

  /** `s.index(' ', from)`: the first position at or after `from` that holds a space. */
  function IndexOfSpace(s: string, from: nat): (r: Option<nat>)
    decreases |s| - from
    ensures r.Some? ==> from <= r.value < |s| && s[r.value] == ' '
    ensures r.Some? ==> forall k :: from <= k < r.value ==> s[k] != ' '
    ensures r.None? ==> forall k :: from <= k < |s| ==> s[k] != ' '
  {
    if from >= |s| then None
    else if s[from] == ' ' then Some(from)
    else IndexOfSpace(s, from + 1)
  }

  /**
   * What the split-point loop finds when its search starts at `from`, for a date parser `parseDate`:
   * the first space position at or after `from` whose prefix parses as a date, with that date; `nil`
   * when there is none.
   */
  function DateSplit(value: string, parseDate: string -> Parsed<Date>, from: nat): (r: Option<(nat, Date)>)
    decreases |value| - from
    ensures r.Some? ==>
      var (i, date) := r.value;
      from <= i < |value| && value[i] == ' ' && parseDate(value[..i]) == Success(date)
  {
    match IndexOfSpace(value, from)
    case None => None
    case Some(i) =>
      match parseDate(value[..i])
      case Success(date) => Some((i, date))
      case _ => DateSplit(value, parseDate, i + 1)
  }

  /**
   * The split is the least one: no space between `from` and the position found has a prefix that
   * parses as a date, and when nothing is found no space from `from` on has one.
   */
  lemma {:induction false} DateSplitIsLeast(value: string, parseDate: string -> Parsed<Date>, from: nat)
    ensures DateSplit(value, parseDate, from).Some? ==>
      forall j :: from <= j < DateSplit(value, parseDate, from).value.0 && value[j] == ' ' ==>
        !parseDate(value[..j]).Success?
    ensures DateSplit(value, parseDate, from).None? ==>
      forall j :: from <= j < |value| && value[j] == ' ' ==> !parseDate(value[..j]).Success?
    decreases |value| - from
  {
    match IndexOfSpace(value, from)
    case None =>
    case Some(i) =>
      if !parseDate(value[..i]).Success? {
        DateSplitIsLeast(value, parseDate, i + 1);
      }
  }

  /** A space whose prefix parses as a date, with none before it from `from` on, is what the search finds. */
  lemma {:induction false} DateSplitFindsLeast(value: string, parseDate: string -> Parsed<Date>, from: nat, i: nat)
    requires from <= i < |value| && value[i] == ' ' && parseDate(value[..i]).Success?
    requires forall j :: from <= j < i && value[j] == ' ' ==> !parseDate(value[..j]).Success?
    ensures DateSplit(value, parseDate, from) == Some((i, parseDate(value[..i]).value))
    decreases |value| - from
  {
    match IndexOfSpace(value, from)
    case None =>
    case Some(k) =>
      if k < i {
        DateSplitFindsLeast(value, parseDate, k + 1, i);
      }
  }

  /** `string_to_date` with the date-order setting fixed, as the loop calls it. */
  function DateParserFor(usDateFormat: bool): string -> Parsed<Date>
  {
    s => StringToDate(s, usDateFormat)
  }

  /**
   * `fallback_string_to_time` on the stripped text `value`, for a date parser `parseDate`: the ISO `T`
   * form builds all six fields with microsecond 0; otherwise the date of the first space prefix that
   * parses is merged with the time of day read from the rest (from the space on). Every result is a
   * valid timestamp.
   */
  function TimestampFrom(value: string, parseDate: string -> Parsed<Date>): (r: Option<Time>)
    ensures r.Some? ==> ValidTime(r.value)
  {
    match MatchIsoDateTime(value)
    case Some((y, m, d, h, mi, sec)) => NewTime(ToI(y), ToI(m), ToI(d), ToI(h), ToI(mi), ToI(sec), 0)
    case None =>
      match DateSplit(value, parseDate, 0)
      case None => None
      case Some((i, date)) =>
        match StringToDummyTime(value[i..])
        case Success(time) =>
          NewTime(date.year, date.month, date.day, time.hour, time.min, time.sec, time.usec)
        case _ => None
  }

  /** `fallback_string_to_time` on a string: the stripped text read with `string_to_date`. */
  function TimestampOf(input: string, usDateFormat: bool): (r: Option<Time>)
    ensures r.Some? ==> ValidTime(r.value)
  {
    TimestampFrom(Strip(input), DateParserFor(usDateFormat))
  }

  /** Where the loop's next `index` call starts: 0 at first, then just after the previous space. */
  function SearchFrom(splitIndex: Option<nat>): nat
  {
    match splitIndex
    case None => 0
    case Some(i) => i + 1
  }

  /**
   * The split-point loop of `fallback_string_to_time`: it updates `split_index` and `date` until a
   * prefix parses as a date or no space is left, and so finds the least split. `parseDate` is the
   * `string_to_date` the loop calls, with the date-order setting already fixed.
   */
  method SplitSearch(value: string, parseDate: string -> Parsed<Date>) returns (splitIndex: Option<nat>, date: Option<Date>)
    ensures date.Some? ==> splitIndex.Some? && DateSplit(value, parseDate, 0) == Some((splitIndex.value, date.value))
    ensures date.None? ==> DateSplit(value, parseDate, 0) == None
  {
    splitIndex := None;
    date := None;
    while true
      invariant splitIndex.Some? ==> splitIndex.value < |value|
      invariant date.None?
      invariant DateSplit(value, parseDate, SearchFrom(splitIndex)) == DateSplit(value, parseDate, 0)
      decreases |value| - SearchFrom(splitIndex)
    {
      splitIndex := IndexOfSpace(value, SearchFrom(splitIndex));
      if splitIndex.None? {
        break;
      }
      date := ToOption(parseDate(value[..splitIndex.value]));
      if date.Some? {
        break;
      }
    }
  }

  /**
   * The body of `fallback_string_to_time` on the stripped text `value`, for the date parser
   * `parseDate` its loop calls: the ISO `T` form first, then the split search, then the time of day
   * read from the split on, merged by `new_time`.
   */
  method FallbackTimestamp(value: string, parseDate: string -> Parsed<Date>) returns (r: Option<Time>)
    ensures r == TimestampFrom(value, parseDate)
  {
    match MatchIsoDateTime(value) {
      case Some((y, m, d, h, mi, sec)) =>
        return NewTime(ToI(y), ToI(m), ToI(d), ToI(h), ToI(mi), ToI(sec), 0);
      case None =>
    }
    var splitIndex, date := SplitSearch(value, parseDate);
    if date.None? {
      return None;
    }
    var time := StringToDummyTime(value[splitIndex.value..]);
    if !time.Success? {
      return None;
    }
    var t := time.value;
    r := NewTime(date.value.year, date.value.month, date.value.day, t.hour, t.min, t.sec, t.usec);
  }

  /** `fallback_string_to_time` on a string: the text is stripped and the loop calls `string_to_date`. */
  method FallbackStringToTime(input: string, usDateFormat: bool) returns (r: Option<Time>)
    ensures r == TimestampOf(input, usDateFormat)
  {
    r := FallbackTimestamp(Strip(input), DateParserFor(usDateFormat));
  }

  /**
   * `string_to_time`: blank text is absent; otherwise ActiveRecord's `fast_string_to_time` (a
   * parameter here), then the fallback.
   */
  method StringToTime(s: string, usDateFormat: bool, fastStringToTime: string -> Option<Time>) returns (r: Parsed<Time>)
    ensures r.Absent? <==> Blank(s)
    ensures !Blank(s) && fastStringToTime(s).Some? ==> r == Success(fastStringToTime(s).value)
    ensures !Blank(s) && fastStringToTime(s).None? ==> r == FromOption(TimestampOf(s, usDateFormat))
    ensures r.Success? && fastStringToTime(s).None? ==> ValidTime(r.value)
  {
    if Blank(s) {
      return Absent;
    }
    match fastStringToTime(s) {
      case Some(t) =>
        return Success(t);
      case None =>
        var fallback := FallbackStringToTime(s, usDateFormat);
        return FromOption(fallback);
    }
  }

  /** `2006-01-01T10:10:10`: the ISO `T` form builds the timestamp from its six groups, microsecond 0. */
  lemma IsoTimestampBuildsDirectly(input: string, y: string, m: string, d: string, h: string, mi: string, sec: string, usDateFormat: bool)
    requires IsoDateTimeParts(y, m, d, h, mi, sec) && Strip(input) == IsoDateTimeText(y, m, d, h, mi, sec)
    ensures TimestampOf(input, usDateFormat) == NewTime(ToI(y), ToI(m), ToI(d), ToI(h), ToI(mi), ToI(sec), 0)
  {
    IsoDateTimeComplete(y, m, d, h, mi, sec);
  }

  /**
   * Away from the ISO `T` form, the timestamp is decided by the least space `i` whose prefix parses
   * as a date: the rest of the text from `i` on must parse as a time of day, and then the two are
   * merged by `new_time`; otherwise there is no timestamp, even though the date half succeeded.
   */
  lemma LeastSplitDecides(value: string, parseDate: string -> Parsed<Date>, i: nat)
    requires MatchIsoDateTime(value).None?
    requires i < |value| && value[i] == ' ' && parseDate(value[..i]).Success?
    requires forall j :: 0 <= j < i && value[j] == ' ' ==> !parseDate(value[..j]).Success?
    ensures var date := parseDate(value[..i]).value;
      TimestampFrom(value, parseDate) ==
        match StringToDummyTime(value[i..])
        case Success(t) => NewTime(date.year, date.month, date.day, t.hour, t.min, t.sec, t.usec)
        case _ => None
  {
    DateSplitFindsLeast(value, parseDate, 0, i);
  }

  /**
   * Away from the ISO `T` form, a text in which no space has a date before it gives no timestamp:
   * the whole text is never tried as a date.
   */
  lemma NoDatePrefixNoTimestamp(value: string, parseDate: string -> Parsed<Date>)
    requires MatchIsoDateTime(value).None?
    requires forall j :: 0 <= j < |value| && value[j] == ' ' ==> !parseDate(value[..j]).Success?
    ensures TimestampFrom(value, parseDate) == None
  {
    DateSplitIsLeast(value, parseDate, 0);
  }

  /** A text that reads as a date but holds no space is no timestamp: `2006-01-01` gives `nil`. */
  lemma DateAloneIsNoTimestamp(v: string, usDateFormat: bool)
    requires v == "2006-01-01"
    ensures StringToDate(v, usDateFormat) == Success(Date(2006, 1, 1))
    ensures TimestampOf(v, usDateFormat) == None
  {
    IsoDateExample(v, usDateFormat);
    NewYear2006Shape(v);
    NoDatePrefixNoTimestamp(v, DateParserFor(usDateFormat));
  }

  /** `2006-01-01` has no white space, no space and no clock part. */
  lemma NewYear2006Shape(v: string)
    requires v == "2006-01-01"
    ensures Strip(v) == v && MatchIsoDateTime(v).None?
    ensures forall j :: 0 <= j < |v| ==> v[j] != ' '
  {
    StripUnchanged(v);
  }

  /** "2006-01-01T10:10:10" splits into its six groups. */
  lemma IsoTimestampText(v: string) returns (y: string, m: string, d: string, h: string, mi: string, sec: string)
    requires v == "2006-01-01T10:10:10"
    ensures y == "2006" && m == "01" && d == "01" && h == "10" && mi == "10" && sec == "10"
    ensures Strip(v) == IsoDateTimeText(y, m, d, h, mi, sec)
  {
    y, m, d, h, mi, sec := "2006", "01", "01", "10", "10", "10";
    assert v == (y + "-" + m + "-" + d) + "T" + (h + ":" + mi + ":" + sec);
    StripUnchanged(v);
  }

  /** `2006-01-01T10:10:10` is 10:10:10 on 1 January 2006. */
  lemma IsoTimestampExample(v: string, usDateFormat: bool)
    requires v == "2006-01-01T10:10:10"
    ensures TimestampOf(v, usDateFormat) == Some(Time(2006, 1, 1, 10, 10, 10, 0))
  {
    var y, m, d, h, mi, sec := IsoTimestampText(v);
    IsoTimestampFields(y, m, d, h, mi, sec);
    IsoTimestampBuildsDirectly(v, y, m, d, h, mi, sec, usDateFormat);
  }

  /** The groups of `2006-01-01T10:10:10` are well formed and make 10:10:10 on 1 January 2006. */
  lemma IsoTimestampFields(y: string, m: string, d: string, h: string, mi: string, sec: string)
    requires y == "2006" && m == "01" && d == "01" && h == "10" && mi == "10" && sec == "10"
    ensures IsoDateTimeParts(y, m, d, h, mi, sec)
    ensures NewTime(ToI(y), ToI(m), ToI(d), ToI(h), ToI(mi), ToI(sec), 0) == Some(Time(2006, 1, 1, 10, 10, 10, 0))
  {
    ToIOfFourDigits(y);
    ToIOfTwoDigits(m);
    ToIOfTwoDigits(h);
    assert ValidDate(2006, 1, 1);
  }

  /** A text shorter than six characters matches no date pattern, so it is never a date. */
  lemma ShortTextIsNoDate(s: string, usDateFormat: bool)
    requires |s| < 6
    ensures !StringToDate(s, usDateFormat).Success?
  {
    if !Blank(s) {
      FastPathIsShortcut(s, usDateFormat);
      var t := Strip(s);
      ShortTextMatchesNoDate(t);
      assert DateFieldsOf(t, usDateFormat).None?;
      assert FallbackStringToDate(s, usDateFormat) == None;
    }
  }

  /** `1 jun 2001 7.30pm`: the date `1 jun 2001`, found at the third space, merged with 19:30. */
  lemma DateAndTimeExample(v: string, usDateFormat: bool)
    requires v == "1 jun 2001 7.30pm"
    ensures TimestampOf(v, usDateFormat) == Some(Time(2001, 6, 1, 19, 30, 0, 0))
  {
    DateAndTimeText(v);
    forall j | 0 <= j < 10 && v[j] == ' '
      ensures !DateParserFor(usDateFormat)(v[..j]).Success?
    {
      ShortTextIsNoDate(v[..j], usDateFormat);
    }
    DayMonthYearExample(v[..10], usDateFormat);
    EveningAfterSpace(v[10..]);
    LeastSplitDecides(v, DateParserFor(usDateFormat), 10);
  }

  /** How `1 jun 2001 7.30pm` divides at its spaces. */
  lemma DateAndTimeText(v: string)
    requires v == "1 jun 2001 7.30pm"
    ensures Strip(v) == v && MatchIsoDateTime(v).None?
    ensures |v| == 17 && v[10] == ' ' && forall j :: 0 <= j < 10 && v[j] == ' ' ==> j < 6
    ensures v[..10] == "1 jun 2001" && v[10..] == " 7.30pm"
  {
    StripUnchanged(v);
  }

  /** ` 7.30pm`, the rest after the split, is 19:30. */
  lemma EveningAfterSpace(rest: string)
    requires rest == " 7.30pm"
    ensures StringToDummyTime(rest) == Success(Time(2000, 1, 1, 19, 30, 0, 0))
  {
    assert rest == " " + "7.30pm" + "";
    StripPadded(" ", "7.30pm", "");
    DummyTimeIgnoresSurroundingSpace(rest);
    EveningExample(Strip(rest));
  }
}
