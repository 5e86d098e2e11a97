# validates_date_time: the lenient date and time parser

This project is a Dafny model of the parser in `lib/validates_date_time/parser.rb`. That file reopens
ActiveRecord's `Column` class and replaces its three string conversions:

- `string_to_date` reads a calendar date from free-form text.
  - It tries the strict ISO form first, the fast path.
  - If that fails, it falls back to five regular expressions:
    - numeric dates (`22/1/06`, `22.1.2006`);
    - day-month-year (`22 Feb 06`);
    - month-day-year (`July 1, 2005`);
    - ISO dates;
    - ISO `T` timestamps.
- `string_to_dummy_time` reads a time of day on the dummy date 2000-01-01. It tries four patterns, then the ISO `T` timestamp:
  - 12-hour with seconds;
  - 12-hour with minutes;
  - 12-hour hour only;
  - 24-hour with optional seconds and fraction.
- `string_to_time` reads a timestamp. A full ISO `T` timestamp is built directly. Any other text is split at the first space whose prefix parses as a date, and the rest is read as a time of day.

The model also covers the component resolvers:

- `unambiguous_year` reads two-digit years below 20 as 20xx and the others as 19xx.
- `month_index` takes a month number, or an English month name or abbreviation in any case.
- `full_hour` turns a 12-hour clock with am/pm into 0..23.

The modules, one file each, follow the structure of the source:

| module | file | contents |
|---|---|---|
| `Outcomes` | `outcomes.dfy` | `Parsed<T>` (Absent / Failure / Success) and `Option<T>` |
| `Text` | `text.dfy` | character classes, `strip`, `to_i`, `capitalize`, zero padding |
| `Calendar` | `calendar.dfy` | `Date`, `Time`, the Gregorian calendar, `new_date` and `new_time` |
| `Resolvers` | `resolvers.dfy` | `unambiguous_year`, `month_index`, `full_hour` |
| `Patterns` | `patterns.dfy` | each regular expression as a matcher over characters, proved sound and complete, with the pattern tables proved mutually exclusive |
| `DateParser` | `date_parser.dfy` | `string_to_date`, `fast_string_to_date`, `fallback_string_to_date` |
| `TimeParser` | `time_parser.dfy` | `string_to_dummy_time`, `fallback_string_to_dummy_time` |
| `TimestampParser` | `timestamp_parser.dfy` | `string_to_time`, `fallback_string_to_time`: the split-point loop is a method |

Ruby answers `nil` both for blank input and for text it cannot read. The model keeps these two cases apart:

- blank input gives `Absent`;
- unreadable text gives `Failure`;
- a readable value gives `Success`.

The inner `fallback_*` functions return an `Option`, as in Ruby.

Each regular expression is proved sound and complete:

- Sound: whatever the matcher accepts has the layout of the pattern, and the captured groups are those pieces.
- Complete: every text laid out that way is accepted, with those groups.

The date patterns are proved pairwise exclusive, and so are the time patterns. So the order of the `case` branches never matters, and each branch's result can be stated on its own.

## Model

| member | source | states |
|---|---|---|
| `Calendar.NewDate` | lib/validates_date_time/parser.rb:59 | `new_date` yields a date exactly when year, month and day form a date of the Gregorian calendar, and that date carries those fields |
| `Calendar.NewTime` | lib/validates_date_time/parser.rb:120 | `new_time` yields a time exactly when the date is valid and the clock is in 0..23, 0..59, 0..59, 0..999999, and the time carries those fields |
| `Text.Strip` | lib/validates_date_time/parser.rb:38 | `strip` never lengthens the text; the result is empty exactly for blank text, and otherwise neither starts nor ends with white space |
| `Text.StripIdempotent` | lib/validates_date_time/parser.rb:38 | stripping twice is stripping once |
| `Text.StripPadded` | lib/validates_date_time/parser.rb:38 | white space added around text is removed again by `strip` |
| `Text.ToIOfDigits` | lib/validates_date_time/parser.rb:59 | `to_i` of a digit string is its decimal value |
| `Resolvers.UnambiguousYear` | lib/validates_date_time/parser.rb:143-146 | no contract of its own; its behaviour is stated by `UnambiguousYearValue`, `UnambiguousYearOfTwo` and `UnambiguousYearOfFour` |
| `Resolvers.UnambiguousYearValue` | lib/validates_date_time/parser.rb:143-146 | a two-digit year `v` becomes 2000+v below 20 and 1900+v otherwise, so always 1920..2019; other lengths are read by `to_i` unchanged |
| `Resolvers.UnambiguousYearOfTwo` | lib/validates_date_time/parser.rb:143-146 | for two digits the result is 2000 + their value below 20 and 1900 + their value from 20 on |
| `Resolvers.UnambiguousYearOfFour` | lib/validates_date_time/parser.rb:143-146 | four digits are kept as their value, in 0..9999 |
| `Resolvers.UnambiguousYearTwentyFirstCentury` | lib/validates_date_time/parser.rb:142 | `10` gives 2010 and `00` gives 2000 |
| `Resolvers.UnambiguousYearTwentiethCentury` | lib/validates_date_time/parser.rb:142 | `60` gives 1960 |
| `Resolvers.UnambiguousYearFourDigitExample` | lib/validates_date_time/parser.rb:142 | `1963` gives 1963 |
| `Resolvers.IndexIn` | lib/validates_date_time/parser.rb:134 | `Array#index`: the position of the first entry equal to the key, `nil` exactly when no entry is equal |
| `Resolvers.MonthIndex` | lib/validates_date_time/parser.rb:132-135 | a nonzero `to_i` wins; otherwise the capitalized text is looked up in the abbreviations and then the full names, found exactly when it is in one of them, and the index names that entry |
| `Resolvers.MonthNameResolves` | lib/validates_date_time/parser.rb:132-135 | any spelling whose capitalized form is the k-th abbreviation or month name resolves to k |
| `Resolvers.MonthTablesDistinct` | lib/validates_date_time/parser.rb:134 | each month table lists twelve distinct names, and the two tables share only `May`, so the first-match index is the month's number |
| `Resolvers.MonthIndexOfZeroDigits` | lib/validates_date_time/parser.rb:133-134 | a digit string whose value is 0 resolves to no month |
| `Resolvers.FullHour` | lib/validates_date_time/parser.rb:123-130 | no contract of its own; its behaviour is stated by `FullHourOnClock`, `MeridiemIsAm` and `FullHourRoundTrip` |
| `Resolvers.FullHourOnClock` | lib/validates_date_time/parser.rb:123-130 | for an hour 1..12 the result is in 0..23, below 12 exactly for am, and equals the hour mod 12, plus 12 for pm |
| `Resolvers.MeridiemIsAm` | lib/validates_date_time/parser.rb:125 | `strip.downcase == 'am'` holds for a meridiem exactly when its first letter is `a` in either case |
| `Resolvers.FullHourRoundTrip` | lib/validates_date_time/parser.rb:123-130 | writing any hour 0..23 on the 12-hour dial with am/pm and reading it back gives the hour |
| `Patterns.MatchNumericDate` | lib/validates_date_time/parser.rb:40 | no contract of its own; soundness is stated by `NumericDateSound` and completeness by `NumericDateComplete` |
| `Patterns.NumericDateSound` | lib/validates_date_time/parser.rb:40 | accepted text is 1-2 digits, a separator, 1-2 digits, a separator, and a year of 2 or 4 digits, with the groups as those pieces |
| `Patterns.NumericDateComplete` | lib/validates_date_time/parser.rb:40 | every text of that layout is accepted with those groups |
| `Patterns.MatchDayMonthYear` | lib/validates_date_time/parser.rb:43 | no contract of its own; soundness is stated by `DayMonthYearSound` and completeness by `DayMonthYearComplete` |
| `Patterns.DayMonthYearSound` | lib/validates_date_time/parser.rb:43 | accepted text is a 1-2 digit day, a space, a 3-9 character word, a space, and a year of 2 or 4 digits |
| `Patterns.DayMonthYearComplete` | lib/validates_date_time/parser.rb:43 | every text of that layout is accepted with those groups |
| `Patterns.MatchMonthDayYear` | lib/validates_date_time/parser.rb:46 | no contract of its own; soundness is stated by `MonthDayYearSound` and completeness by `MonthDayYearComplete` |
| `Patterns.MonthDayYearSound` | lib/validates_date_time/parser.rb:46 | accepted text is a 3-9 character word, a space, a 1-2 digit day, an optional comma, a space, and a year of 2 or 4 digits |
| `Patterns.MonthDayYearComplete` | lib/validates_date_time/parser.rb:46 | every text of that layout, with or without the comma, is accepted with those groups |
| `Patterns.MatchIsoDate` | lib/validates_date_time/parser.rb:49 | accepted text is exactly four, two and two digits joined by dashes, with the groups as those pieces |
| `Patterns.IsoDateComplete` | lib/validates_date_time/parser.rb:49 | every such text is accepted |
| `Patterns.MatchIsoDateTime` | lib/validates_date_time/parser.rb:52 | accepted text is an ISO date, `T`, and two-digit hour, minute and second joined by colons |
| `Patterns.IsoDateTimeComplete` | lib/validates_date_time/parser.rb:52 | every such text is accepted |
| `Patterns.DatePatternsExclusive` | lib/validates_date_time/parser.rb:38-57 | at most one of the five date patterns accepts any text |
| `Patterns.ShortTextMatchesNoDate` | lib/validates_date_time/parser.rb:38-57 | no date pattern accepts text shorter than six characters |
| `Patterns.MeridiemFrom` | lib/validates_date_time/parser.rb:68 | the `\s?(am\|pm)\Z` tail: an optional white-space character and then am or pm in any case, ending the text |
| `Patterns.MatchClock12Seconds` | lib/validates_date_time/parser.rb:68 | accepted text is a 1-2 digit hour, a separator, two-digit minute, a separator, two-digit second, and a meridiem |
| `Patterns.Clock12SecondsComplete` | lib/validates_date_time/parser.rb:68 | every text of that layout is accepted with those groups |
| `Patterns.MatchClock12Minutes` | lib/validates_date_time/parser.rb:71 | accepted text is a 1-2 digit hour, a separator, two-digit minute, and a meridiem |
| `Patterns.Clock12MinutesComplete` | lib/validates_date_time/parser.rb:71 | every text of that layout is accepted with those groups |
| `Patterns.MatchClock12Hour` | lib/validates_date_time/parser.rb:75 | accepted text is a 1-2 digit hour and a meridiem |
| `Patterns.Clock12HourComplete` | lib/validates_date_time/parser.rb:75 | every text of that layout is accepted with those groups |
| `Patterns.MatchClock24` | lib/validates_date_time/parser.rb:78 | accepted text is two-digit hour and minute, then optionally a two-digit second and then optionally a 1-6 digit fraction after a dot |
| `Patterns.Clock24Complete` | lib/validates_date_time/parser.rb:78 | every text of that layout is accepted with those groups |
| `Patterns.TimePatternsExclusive` | lib/validates_date_time/parser.rb:66-86 | at most one of the five time patterns accepts any text |
| `DateParser.DateFieldsOf` | lib/validates_date_time/parser.rb:38-57 | the year, month and day texts of the (stripped) text, `nil` exactly when none of the five date patterns accepts it; the year text has 2 or 4 digits and the day text is digits |
| `DateParser.ResolveDate` | lib/validates_date_time/parser.rb:59 | a date comes out exactly when the month resolves and the resolved numbers form a valid date, and it carries those numbers |
| `DateParser.FallbackStringToDate` | lib/validates_date_time/parser.rb:34-60 | every date read is a valid Gregorian date with a year in 0..9999 |
| `DateParser.FastStringToDate` | lib/validates_date_time/parser.rb:28-32 | every date read is a valid Gregorian date with a year in 0..9999 |
| `DateParser.StringToDate` | lib/validates_date_time/parser.rb:8-12 | Absent exactly for blank text; a date read is valid with a year in 0..9999 |
| `DateParser.FastPathIsShortcut` | lib/validates_date_time/parser.rb:11 | whatever the fast path reads, the fallback path reads the same, so the fast path changes no result |
| `DateParser.DateIgnoresSurroundingSpace` | lib/validates_date_time/parser.rb:38 | white space around the text does not change the date read |
| `DateParser.NumericDateResult` | lib/validates_date_time/parser.rb:40-41 | a numeric date reads day/month/year, or month/day/year under the US setting, with the year made unambiguous |
| `DateParser.DayMonthYearResult` | lib/validates_date_time/parser.rb:43-44 | `22 Feb 06` reads the word as the month and the number as the day |
| `DateParser.MonthDayYearResult` | lib/validates_date_time/parser.rb:46-47 | `July 1, 2005` reads the word as the month and the number as the day, with or without the comma |
| `DateParser.IsoDateResult` | lib/validates_date_time/parser.rb:49-50 | an ISO date reads its three numbers as year, month and day |
| `DateParser.IsoDateTimeKeepsDate` | lib/validates_date_time/parser.rb:52-53 | an ISO `T` timestamp read as a date keeps its date part and drops the clock |
| `DateParser.IsoFormatRoundTrip` | lib/validates_date_time/parser.rb:8-12 | every valid date with a year in 0..9999, written `YYYY-MM-DD`, reads back as itself under either setting |
| `DateParser.ParsedDateRoundTrip` | lib/validates_date_time/parser.rb:8-12 | a date read from any text, written in ISO form with a four-digit year, reads back as the same date |
| `DateParser.IsoDateExample` | lib/validates_date_time/parser.rb:48 | `2006-01-01` is 1 January 2006 |
| `DateParser.DayFirstExample` | lib/validates_date_time/parser.rb:39-41 | `22/1/06` is 22 January 2006 by default, and a failure under the US setting, where 22 is read as the month |
| `DateParser.UsOrderExample` | lib/validates_date_time/parser.rb:41 | `1/22/06` is 22 January 2006 under the US setting |
| `DateParser.DayMonthYearExample` | lib/validates_date_time/parser.rb:42-44 | `1 jun 2001` is 1 June 2001 |
| `DateParser.MonthDayYearExample` | lib/validates_date_time/parser.rb:45-47 | `July 1, 2005` is 1 July 2005 |
| `DateParser.ImpossibleDateExample` | lib/validates_date_time/parser.rb:59 | `31 feb 2001` matches a pattern but is a failure, because the date does not exist |
| `TimeParser.ClockFieldsOf` | lib/validates_date_time/parser.rb:66-86 | the hour, minute, second and microsecond of the (stripped) text: `nil` exactly when no time pattern accepts it, or when a 12-hour text with minutes has an hour above 12 |
| `TimeParser.MicrosecondInRange` | lib/validates_date_time/parser.rb:78-79 | a fraction of at most six digits gives a microsecond below 1000000 |
| `TimeParser.FallbackStringToDummyTime` | lib/validates_date_time/parser.rb:62-89 | every time read is a valid clock on 2000-01-01 |
| `TimeParser.StringToDummyTime` | lib/validates_date_time/parser.rb:20-24 | Absent exactly for blank text; a time read is a valid clock on 2000-01-01 |
| `TimeParser.DummyTimeIgnoresSurroundingSpace` | lib/validates_date_time/parser.rb:66 | white space around the text does not change the time read |
| `TimeParser.Clock12SecondsResult` | lib/validates_date_time/parser.rb:68-69 | a 12-hour text with seconds reads the full hour, minute and second |
| `TimeParser.Clock12MinutesResult` | lib/validates_date_time/parser.rb:71-73 | a 12-hour text with minutes fails for an hour above 12, and otherwise reads the full hour and minute with second 0 |
| `TimeParser.Clock12HourResult` | lib/validates_date_time/parser.rb:75-76 | an hour-only 12-hour text reads the full hour at minute and second 0 |
| `TimeParser.Clock24Result` | lib/validates_date_time/parser.rb:78-79 | a 24-hour text reads hour and minute as written, a missing second as 0, and the fraction digits as the microsecond count |
| `TimeParser.IsoDateTimeClock` | lib/validates_date_time/parser.rb:81-82 | an ISO `T` timestamp read as a time of day keeps only its clock |
| `TimeParser.ClockTextRoundTrip` | lib/validates_date_time/parser.rb:62-89 | any valid clock written `HH:MM:SS` reads back as itself |
| `TimeParser.Clock12TextRoundTrip` | lib/validates_date_time/parser.rb:62-89 | any hour and minute written `hh:mm` (two digits each) on the 12-hour dial with am/pm reads back as itself |
| `TimeParser.EveningExample` | lib/validates_date_time/parser.rb:70 | `7.30pm` is 19:30 |
| `TimeParser.MidnightExample` | lib/validates_date_time/parser.rb:123-130 | `12am` is 00:00 |
| `TimeParser.NoonExample` | lib/validates_date_time/parser.rb:123-130 | `12pm` is 12:00 |
| `TimeParser.HourAboveTwelveExample` | lib/validates_date_time/parser.rb:72 | `13:30pm` is a failure |
| `TimeParser.HourOnlyAboveTwelveExample` | lib/validates_date_time/parser.rb:74-76 | `13am` is 13:00, because the hour-only pattern has no check against 12 |
| `TimeParser.FractionMicroseconds` | lib/validates_date_time/parser.rb:78-79 | the microsecond of a 24-hour text with a fraction is the fraction digits' integer value |
| `TimeParser.FractionExample` | lib/validates_date_time/parser.rb:77-79 | `22:30:05.5` is 22:30:05 with microsecond 5 |
| `TimeParser.FractionNotScaled` | lib/validates_date_time/parser.rb:78-79 | a fraction `.5` gives microsecond 5 and `.500000` gives 500000, because the digits are not scaled to six places |
| `TimestampParser.IndexOfSpace` | lib/validates_date_time/parser.rb:105 | `index(' ', from)`: the first space at or after `from`, `nil` exactly when there is none |
| `TimestampParser.DateSplit` | lib/validates_date_time/parser.rb:103-110 | the split found is a space whose prefix parses as a date, with that date |
| `TimestampParser.DateSplitIsLeast` | lib/validates_date_time/parser.rb:103-110 | no earlier space has a prefix that parses as a date; with no split, no space has one |
| `TimestampParser.DateSplitFindsLeast` | lib/validates_date_time/parser.rb:103-110 | if some space has a prefix that parses as a date, a split is found at the first such space |
| `TimestampParser.TimestampFrom` | lib/validates_date_time/parser.rb:95-120 | every timestamp read is a valid date and clock |
| `TimestampParser.SplitSearch` | lib/validates_date_time/parser.rb:103-110 | the loop stops with the least split, or with none, exactly as `DateSplit` specifies |
| `TimestampParser.TimestampOf` | lib/validates_date_time/parser.rb:95-120 | `fallback_string_to_time` on text: every timestamp read from the stripped text, under either date order, is a valid date and clock |
| `TimestampParser.FallbackTimestamp` | lib/validates_date_time/parser.rb:97-120 | the method computes the timestamp `TimestampFrom` specifies for the stripped text |
| `TimestampParser.FallbackStringToTime` | lib/validates_date_time/parser.rb:91-121 | the method strips the text and reads it as `TimestampOf` specifies, under the configured date order |
| `TimestampParser.StringToTime` | lib/validates_date_time/parser.rb:14-18 | Absent exactly for blank text; the fast path's answer is kept; otherwise the fallback result, which is valid |
| `TimestampParser.IsoTimestampBuildsDirectly` | lib/validates_date_time/parser.rb:97-99 | an ISO `T` timestamp is built from its six numbers with microsecond 0 |
| `TimestampParser.LeastSplitDecides` | lib/validates_date_time/parser.rb:103-120 | for text that is not an ISO `T` timestamp the result is the date at the first date-parsing space, combined with the clock read from the rest |
| `TimestampParser.NoDatePrefixNoTimestamp` | lib/validates_date_time/parser.rb:103-112 | when no space has a prefix that parses as a date, nothing is read |
| `TimestampParser.DateAloneIsNoTimestamp` | lib/validates_date_time/parser.rb:103-112 | `2006-01-01` reads as a date but gives no timestamp: it has no space to split at |
| `TimestampParser.ShortTextIsNoDate` | lib/validates_date_time/parser.rb:8-12 | text shorter than six characters never reads as a date |
| `TimestampParser.IsoTimestampExample` | lib/validates_date_time/parser.rb:97-99 | `2006-01-01T10:10:10` is 10:10:10 on 1 January 2006 |
| `TimestampParser.DateAndTimeExample` | lib/validates_date_time/parser.rb:101-120 | `1 jun 2001 7.30pm` is 19:30 on 1 June 2001 |

## Left out

- The reopening of ActiveRecord's `Column` class, `protected`, and the typed pass-through branches (lines 35-36, 63-64 and 92-93) are not modelled. The model only reads text. `Date`, `Time` and `DateTime` values given as input, and the default time zone, are left out.
- `fast_string_to_time` belongs to ActiveRecord and is not part of this model. It is a function parameter of `StringToTime`.
- `Format::ISO_DATE` (ActiveRecord) is not part of this model. The fast date path uses the ISO date pattern of line 49.
- `new_date` and `new_time` (ActiveRecord) are not part of this model. They are modelled as validity in the proleptic Gregorian calendar. The model leaves out:
  - Ruby's Julian-to-Gregorian switch in 1582;
  - ActiveRecord's `nil` for year 0;
  - `Time`'s normalisation of out-of-range fields.
- The ISO branch of `fallback_string_to_time` passes `nil` as the microsecond. The model reads that as 0.
- `ValidatesDateTime.us_date_format` is global configuration. It is a `bool` parameter.
- White space is the six ASCII characters of Ruby's `\s`, which `strip` also removes; the NUL byte that `strip` removes from the end is not modelled.
- `Text.Blank`: ActiveSupport's `blank?` also counts Unicode white space (`[[:space:]]`, e.g. U+00A0) as blank; the model does not, so such text gives `Failure` rather than `Absent`.
- Unicode case mapping in `capitalize` and `downcase` is not modelled: only ASCII letters change case.
- `Text.ToI`: models Ruby's `String#to_i` only on the texts the patterns capture (digits and word characters). The model does not cover a sign, leading white space or other characters.
- `DateParser.StringToDate`, `TimeParser.StringToDummyTime`, `TimestampParser.StringToTime`: Ruby returns `nil` both for blank text and for unreadable text. The model returns `Absent` and `Failure` instead, so it is one step finer than the source.
- `TimestampParser.DateSplit`, `TimestampParser.TimestampFrom`, `TimestampParser.SplitSearch`, `TimestampParser.FallbackTimestamp`: these take the date parser as a parameter. `string_to_date` under either date order is then passed in.
- If no space's prefix parses as a date, including when the text has no space at all, the whole text is never tried as a date, because the `or` at line 107 short-circuits. The model does the same.
- Localised month names are not modelled. `Date::ABBR_MONTHNAMES` and `Date::MONTHNAMES` are the English tables, with `nil` in position 0.
