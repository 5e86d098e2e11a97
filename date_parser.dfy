/**
 * `string_to_date`, `fast_string_to_date` and `fallback_string_to_date` of parser.rb: a fast ISO
 * path on the raw text, then an ordered list of patterns on the stripped text, and construction of
 * the date from the year, month and day texts of the pattern that matched.
 */
module DateParser {
  import opened Outcomes
  import opened Text
  import opened Calendar
  import opened Resolvers
  import opened Patterns

  /**
   * The `case` of `fallback_string_to_date`: the year, month and day texts of the first pattern that
   * matches, or `nil` when none does. In the numeric pattern `us_date_format` decides whether the
   * first number is the month (US) or the day.
   */
  function DateFieldsOf(value: string, usDateFormat: bool): (r: Option<(string, string, string)>)
    ensures r.None? <==>
      MatchNumericDate(value).None? && MatchDayMonthYear(value).None? && MatchMonthDayYear(value).None? &&
      MatchIsoDate(value).None? && MatchIsoDateTime(value).None?
    ensures r.Some? ==> IsYearText(r.value.0) && AllDigits(r.value.2)
  {
    match MatchNumericDate(value)
    case Some((a, b, y)) =>
      NumericDateSound(value);
      Some(if usDateFormat then (y, a, b) else (y, b, a))
    case None =>
      match MatchDayMonthYear(value)
      case Some((d, w, y)) =>
        DayMonthYearSound(value);
        Some((y, w, d))
      case None =>
        match MatchMonthDayYear(value)
        case Some((w, d, y)) =>
          MonthDayYearSound(value);
          Some((y, w, d))
        case None =>
          match MatchIsoDate(value)
          case Some((y, m, d)) => Some((y, m, d))
          case None =>
            match MatchIsoDateTime(value)
            case Some((y, m, d, _, _, _)) => Some((y, m, d))
            case None => None
  }

  /**
   * `new_date(unambiguous_year(year), month_index(month), day.to_i)`: a date exactly when the month
   * resolves and the three numbers form a calendar date, which is then taken as is (never clamped).
   */
  function ResolveDate(year: string, month: string, day: string): (r: Option<Date>)
    ensures r.Some? <==>
      MonthIndex(month).Some? && ValidDate(UnambiguousYear(year), MonthIndex(month).value, ToI(day))
    ensures r.Some? ==>
      r.value.year == UnambiguousYear(year) && r.value.month == MonthIndex(month).value && r.value.day == ToI(day)
  {
    match MonthIndex(month)
    case None => None
    case Some(m) => NewDate(UnambiguousYear(year), m, ToI(day))
  }

  /** `fallback_string_to_date` on a string: every date it yields is a calendar date with a year of at most four digits. */
  function FallbackStringToDate(value: string, usDateFormat: bool): (r: Option<Date>)
    ensures r.Some? ==> ValidDate(r.value.year, r.value.month, r.value.day) && 0 <= r.value.year <= 9999
  {
    match DateFieldsOf(Strip(value), usDateFormat)
    case None => None
    case Some((y, m, d)) =>
      UnambiguousYearValue(y);
      ResolveDate(y, m, d)
  }

  /** `fast_string_to_date`: ActiveRecord's `Format::ISO_DATE` on the raw (unstripped) text, each group read with `to_i`. */
  function FastStringToDate(s: string): (r: Option<Date>)
    ensures r.Some? ==> ValidDate(r.value.year, r.value.month, r.value.day) && 0 <= r.value.year <= 9999
  {
    match MatchIsoDate(s)
    case None => None
    case Some((y, m, d)) =>
      ToIOfDigits(y);
      assert Pow10(4) == 10000;
      NewDate(ToI(y), ToI(m), ToI(d))
  }

  /**
   * `string_to_date`: blank text is absent; otherwise the fast path, then the fallback. Absent
   * exactly for blank text, and every date is a calendar date with a year in 0..9999.
   */
  function StringToDate(s: string, usDateFormat: bool): (r: Parsed<Date>)
    ensures r.Absent? <==> Blank(s)
    ensures r.Success? ==> ValidDate(r.value.year, r.value.month, r.value.day) && 0 <= r.value.year <= 9999
  {
    if Blank(s) then Absent
    else
      match FastStringToDate(s)
      case Some(d) => Success(d)
      case None => FromOption(FallbackStringToDate(s, usDateFormat))
  }

  /**
   * The fast path is only a shortcut: on any text that is not blank, `string_to_date` gives what the
   * fallback alone gives, because the fallback's own ISO pattern reads the same three numbers.
   */
  lemma FastPathIsShortcut(s: string, usDateFormat: bool)
    requires !Blank(s)
    ensures StringToDate(s, usDateFormat) == FromOption(FallbackStringToDate(s, usDateFormat))
  {
    match MatchIsoDate(s)
    case None =>
    case Some((y, m, d)) =>
      assert s[0] == y[0] && s[|s| - 1] == d[1];
      StripUnchanged(s);
      DatePatternsExclusive(s);
      assert DateFieldsOf(Strip(s), usDateFormat) == Some((y, m, d));
      if ToI(m) == 0 {
        MonthIndexOfZeroDigits(m);
      }
  }

  /** Surrounding white space never changes the date read from a text, although the fast path sees it. */
  lemma DateIgnoresSurroundingSpace(s: string, usDateFormat: bool)
    ensures StringToDate(s, usDateFormat) == StringToDate(Strip(s), usDateFormat)
  {
    StripIdempotent(s);
    if !Blank(s) {
      FastPathIsShortcut(s, usDateFormat);
      FastPathIsShortcut(Strip(s), usDateFormat);
    }
  }

  /** `22/1/06`: the year is the third number; with `us_date_format` the first is the month, otherwise the day. */
  lemma NumericDateResult(value: string, a: string, c1: char, b: string, c2: char, y: string, usDateFormat: bool)
    requires NumericDateParts(a, c1, b, c2, y) && Strip(value) == NumericDateText(a, c1, b, c2, y)
    ensures FallbackStringToDate(value, usDateFormat) ==
      if usDateFormat then ResolveDate(y, a, b) else ResolveDate(y, b, a)
  {
    NumericDateComplete(a, c1, b, c2, y);
  }

  /** `1 jun 2001`: day, month word, year. */
  lemma DayMonthYearResult(value: string, d: string, w: string, y: string, usDateFormat: bool)
    requires DayMonthYearParts(d, w, y) && Strip(value) == DayMonthYearText(d, w, y)
    ensures FallbackStringToDate(value, usDateFormat) == ResolveDate(y, w, d)
  {
    DayMonthYearComplete(d, w, y);
    DatePatternsExclusive(Strip(value));
  }

  /** `July 1, 2005` or `July 1 2005`: month word, day, optional comma, year. */
  lemma MonthDayYearResult(value: string, w: string, d: string, c: string, y: string, usDateFormat: bool)
    requires MonthDayYearParts(w, d, y) && IsOptionalComma(c) && Strip(value) == MonthDayYearText(w, d, c, y)
    ensures FallbackStringToDate(value, usDateFormat) == ResolveDate(y, w, d)
  {
    MonthDayYearComplete(w, d, c, y);
    DatePatternsExclusive(Strip(value));
  }

  /** `2006-01-01` in the fallback list. */
  lemma IsoDateResult(value: string, y: string, m: string, d: string, usDateFormat: bool)
    requires IsoDateParts(y, m, d) && Strip(value) == IsoDateText(y, m, d)
    ensures FallbackStringToDate(value, usDateFormat) == ResolveDate(y, m, d)
  {
    IsoDateComplete(y, m, d);
    DatePatternsExclusive(Strip(value));
  }

  /** `2006-01-01T10:10:10`: only the date groups are used; the clock digits do not matter. */
  lemma IsoDateTimeKeepsDate(value: string, y: string, m: string, d: string, h: string, mi: string, sec: string, usDateFormat: bool)
    requires IsoDateTimeParts(y, m, d, h, mi, sec) && Strip(value) == IsoDateTimeText(y, m, d, h, mi, sec)
    ensures FallbackStringToDate(value, usDateFormat) == ResolveDate(y, m, d)
  {
    IsoDateTimeComplete(y, m, d, h, mi, sec);
    DatePatternsExclusive(Strip(value));
  }

  /** The canonical `YYYY-MM-DD` text of a date with a year in 0..9999. */
  function IsoFormat(d: Date): string
    requires 0 <= d.year <= 9999 && ValidDate(d.year, d.month, d.day)
  {
    IsoDateText(Pad(d.year, 4), Pad(d.month, 2), Pad(d.day, 2))
  }

  /** Every calendar date written as `YYYY-MM-DD` parses back to itself, whatever the date-order setting. */
  lemma IsoFormatRoundTrip(d: Date, usDateFormat: bool)
    requires 0 <= d.year <= 9999 && ValidDate(d.year, d.month, d.day)
    ensures StringToDate(IsoFormat(d), usDateFormat) == Success(d)
  {
    var y, m, dd := IsoFormatFields(d);
    IsoDateComplete(y, m, dd);
  }

  /** The groups of a written date are well formed, read back as its fields, and the text is not blank. */
  lemma IsoFormatFields(d: Date) returns (y: string, m: string, dd: string)
    requires 0 <= d.year <= 9999 && ValidDate(d.year, d.month, d.day)
    ensures IsoDateParts(y, m, dd) && IsoFormat(d) == IsoDateText(y, m, dd) && !Blank(IsoFormat(d))
    ensures ToI(y) == d.year && ToI(m) == d.month && ToI(dd) == d.day
  {
    y, m, dd := Pad(d.year, 4), Pad(d.month, 2), Pad(d.day, 2);
    assert Pow10(4) == 10000 && Pow10(2) == 100;
    ToIOfPad(d.year, 4);
    ToIOfPad(d.month, 2);
    ToIOfPad(d.day, 2);
    IsoFormatNotBlank(d);
  }

  lemma IsoFormatNotBlank(d: Date)
    requires 0 <= d.year <= 9999 && ValidDate(d.year, d.month, d.day)
    ensures !Blank(IsoFormat(d))
  {
    assert IsoFormat(d)[0] == Pad(d.year, 4)[0];
  }

  /** A parsed date, re-written as `YYYY-MM-DD` and parsed again, is the same date. */
  lemma ParsedDateRoundTrip(s: string, usDateFormat: bool, usDateFormat': bool)
    requires StringToDate(s, usDateFormat).Success?
    ensures var d := StringToDate(s, usDateFormat).value;
      StringToDate(IsoFormat(d), usDateFormat') == Success(d)
  {
    IsoFormatRoundTrip(StringToDate(s, usDateFormat).value, usDateFormat');
  }

  /** `2006-01-01` is the first of January 2006 under either date order. */
  lemma IsoDateExample(v: string, usDateFormat: bool)
    requires v == "2006-01-01"
    ensures StringToDate(v, usDateFormat) == Success(Date(2006, 1, 1))
  {
    var y, m, d := NewYear2006Text(v);
    NewYear2006Fields(y, m, d);
    FastPathIsShortcut(v, usDateFormat);
    IsoDateResult(v, y, m, d, usDateFormat);
  }

  /** "2006-01-01" splits into the year "2006", the month "01" and the day "01". */
  lemma NewYear2006Text(v: string) returns (y: string, m: string, d: string)
    requires v == "2006-01-01"
    ensures y == "2006" && m == "01" && d == "01"
    ensures IsoDateParts(y, m, d) && v == IsoDateText(y, m, d)
    ensures Strip(v) == v && !Blank(v)
  {
    y, m, d := v[..4], v[5..7], v[8..];
    assert y == "2006" && m == "01" && d == "01";
    StripUnchanged(v);
  }

  /** Year "2006", month "01" and day "01" give 1 January 2006. */
  lemma NewYear2006Fields(y: string, m: string, d: string)
    requires y == "2006" && m == "01" && d == "01"
    ensures ResolveDate(y, m, d) == Some(Date(2006, 1, 1))
  {
    UnambiguousYearOfFour(y);
    ToIOfTwoDigits(m);
  }

  /** "22/1/06" splits into the numbers "22", "1" and "06" around two slashes. */
  lemma DayFirstText(v: string) returns (a: string, b: string, y: string)
    requires v == "22/1/06"
    ensures a == "22" && b == "1" && y == "06"
    ensures NumericDateParts(a, '/', b, '/', y) && v == NumericDateText(a, '/', b, '/', y)
    ensures Strip(v) == v && !Blank(v)
  {
    a, b, y := v[..2], v[3..4], v[5..];
    assert a == "22" && b == "1" && y == "06";
    StripUnchanged(v);
  }

  /** Year "06", month or day "1" and day or month "22" give 22 January 2006 one way and nothing the other. */
  lemma DayFirstFields(a: string, b: string, y: string)
    requires a == "22" && b == "1" && y == "06"
    ensures ResolveDate(y, b, a) == Some(Date(2006, 1, 22))
    ensures ResolveDate(y, a, b) == None
  {
    UnambiguousYearOfTwo(y);
    ToIOfOneDigit(b);
    ToIOfTwoDigits(a);
  }

  /** `22/1/06` is 22 January 2006 in day-first order, and no date in US order (there is no month 22). */
  lemma DayFirstExample(v: string)
    requires v == "22/1/06"
    ensures StringToDate(v, false) == Success(Date(2006, 1, 22))
    ensures StringToDate(v, true) == Failure
  {
    var a, b, y := DayFirstText(v);
    DayFirstFields(a, b, y);
    FastPathIsShortcut(v, false);
    FastPathIsShortcut(v, true);
    NumericDateResult(v, a, '/', b, '/', y, false);
    NumericDateResult(v, a, '/', b, '/', y, true);
  }

  /** "1/22/06" splits into the numbers "1", "22" and "06" around two slashes. */
  lemma UsOrderText(v: string) returns (a: string, b: string, y: string)
    requires v == "1/22/06"
    ensures a == "1" && b == "22" && y == "06"
    ensures NumericDateParts(a, '/', b, '/', y) && v == NumericDateText(a, '/', b, '/', y)
    ensures Strip(v) == v && !Blank(v)
  {
    a, b, y := v[..1], v[2..4], v[5..];
    assert a == "1" && b == "22" && y == "06";
    StripUnchanged(v);
  }

  /** `1/22/06` is 22 January 2006 in US order. */
  lemma UsOrderExample(v: string)
    requires v == "1/22/06"
    ensures StringToDate(v, true) == Success(Date(2006, 1, 22))
  {
    var a, b, y := UsOrderText(v);
    DayFirstFields(b, a, y);
    FastPathIsShortcut(v, true);
    NumericDateResult(v, a, '/', b, '/', y, true);
  }

  /** "jun" is June: its capitalized form is in the month tables. */
  lemma JunIsJune(w: string)
    requires w == "jun"
    ensures MonthIndex(w) == Some(6)
  {
    assert Capitalize(w) == "Jun";
    MonthNameResolves(w, 6);
  }

  /** "July" is July: its capitalized form is in the month tables. */
  lemma JulyIsJuly(w: string)
    requires w == "July"
    ensures MonthIndex(w) == Some(7)
  {
    assert Capitalize(w) == "July";
    MonthNameResolves(w, 7);
  }

  /** "feb" is February: its capitalized form is in the month tables. */
  lemma FebIsFebruary(w: string)
    requires w == "feb"
    ensures MonthIndex(w) == Some(2)
  {
    assert Capitalize(w) == "Feb";
    MonthNameResolves(w, 2);
  }

  /** The four-digit year "2001" is kept as is. */
  lemma Year2001(y: string)
    requires y == "2001"
    ensures UnambiguousYear(y) == 2001
  {
    UnambiguousYearOfFour(y);
  }

  /** The four-digit year "2005" is kept as is. */
  lemma Year2005(y: string)
    requires y == "2005"
    ensures UnambiguousYear(y) == 2005
  {
    UnambiguousYearOfFour(y);
  }

  /** "1 jun 2001" splits into the day "1", the month word "jun" and the year "2001". */
  lemma JuneFirstText(v: string) returns (d: string, w: string, y: string)
    requires v == "1 jun 2001"
    ensures d == "1" && w == "jun" && y == "2001"
    ensures DayMonthYearParts(d, w, y) && v == DayMonthYearText(d, w, y)
    ensures Strip(v) == v && !Blank(v)
  {
    d, w, y := v[..1], v[2..5], v[6..];
    assert d == "1" && w == "jun" && y == "2001";
    StripUnchanged(v);
  }

  /** Day "1", month "jun" and year "2001" are 1 June 2001. */
  lemma JuneFirstFields(d: string, w: string, y: string)
    requires d == "1" && w == "jun" && y == "2001"
    ensures ResolveDate(y, w, d) == Some(Date(2001, 6, 1))
  {
    JunIsJune(w);
    Year2001(y);
    ToIOfOneDigit(d);
  }

  /** `1 jun 2001` is 1 June 2001: the month word is matched whatever its case. */
  lemma DayMonthYearExample(v: string, usDateFormat: bool)
    requires v == "1 jun 2001"
    ensures StringToDate(v, usDateFormat) == Success(Date(2001, 6, 1))
  {
    var d, w, y := JuneFirstText(v);
    JuneFirstFields(d, w, y);
    FastPathIsShortcut(v, usDateFormat);
    DayMonthYearResult(v, d, w, y, usDateFormat);
  }

  /** "July 1, 2005" splits into the month word "July", the day "1", a comma and the year "2005". */
  lemma JulyFirstText(v: string) returns (w: string, d: string, y: string)
    requires v == "July 1, 2005"
    ensures w == "July" && d == "1" && y == "2005"
    ensures MonthDayYearParts(w, d, y) && v == MonthDayYearText(w, d, ",", y)
    ensures Strip(v) == v && !Blank(v)
  {
    w, d, y := v[..4], v[5..6], v[8..];
    assert w == "July" && d == "1" && y == "2005";
    StripUnchanged(v);
  }

  /** Month "July", day "1" and year "2005" are 1 July 2005. */
  lemma JulyFirstFields(w: string, d: string, y: string)
    requires w == "July" && d == "1" && y == "2005"
    ensures ResolveDate(y, w, d) == Some(Date(2005, 7, 1))
  {
    JulyIsJuly(w);
    Year2005(y);
    ToIOfOneDigit(d);
  }

  /** `July 1, 2005` is 1 July 2005: a full month name, then the day and a comma. */
  lemma MonthDayYearExample(v: string, usDateFormat: bool)
    requires v == "July 1, 2005"
    ensures StringToDate(v, usDateFormat) == Success(Date(2005, 7, 1))
  {
    var w, d, y := JulyFirstText(v);
    JulyFirstFields(w, d, y);
    FastPathIsShortcut(v, usDateFormat);
    MonthDayYearResult(v, w, d, ",", y, usDateFormat);
  }

  /** "31 feb 2001" splits into the day "31", the month word "feb" and the year "2001". */
  lemma FebruaryThirtyFirstText(v: string) returns (d: string, w: string, y: string)
    requires v == "31 feb 2001"
    ensures d == "31" && w == "feb" && y == "2001"
    ensures DayMonthYearParts(d, w, y) && v == DayMonthYearText(d, w, y)
    ensures Strip(v) == v && !Blank(v)
  {
    d, w, y := v[..2], v[3..6], v[7..];
    assert d == "31" && w == "feb" && y == "2001";
    StripUnchanged(v);
  }

  /** Day "31", month "feb" and year "2001" are no calendar date: February 2001 has 28 days. */
  lemma FebruaryThirtyFirstFields(d: string, w: string, y: string)
    requires d == "31" && w == "feb" && y == "2001"
    ensures ResolveDate(y, w, d) == None
  {
    FebIsFebruary(w);
    Year2001(y);
    ToIOfTwoDigits(d);
  }

  /** `31 feb 2001` matches a pattern but is no calendar date, so it fails rather than being clamped. */
  lemma ImpossibleDateExample(v: string, usDateFormat: bool)
    requires v == "31 feb 2001"
    ensures StringToDate(v, usDateFormat) == Failure
  {
    var d, w, y := FebruaryThirtyFirstText(v);
    FebruaryThirtyFirstFields(d, w, y);
    FastPathIsShortcut(v, usDateFormat);
    DayMonthYearResult(v, d, w, y, usDateFormat);
  }
}
