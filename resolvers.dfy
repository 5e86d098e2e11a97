/**
 * The three component resolvers of parser.rb: `unambiguous_year`, `month_index` and `full_hour`.
 * Each turns a captured piece of text into a number.
 */
module Resolvers {
  import opened Outcomes
  import opened Text
  import opened Patterns

  /**
   * `unambiguous_year`: a two-character year gets the prefix "20" when it reads below 20 and "19"
   * otherwise; the text is then read with `to_i`.
   */
  function UnambiguousYear(year: string): int
  {
    if |year| == 2 then ToI((if ToI(year) < 20 then "20" else "19") + year) else ToI(year)
  }

  /**
   * A two-digit year v becomes 2000 + v below 20 and 1900 + v from 20 on, so it lies in 1920..2019;
   * a year of any other length is its own value, and a four-digit year lies in 0..9999.
   */
  lemma UnambiguousYearValue(year: string)
    requires AllDigits(year)
    ensures |year| == 2 ==> UnambiguousYear(year) == (if DecimalValue(year) < 20 then 2000 else 1900) + DecimalValue(year)
    ensures |year| == 2 ==> 1920 <= UnambiguousYear(year) <= 2019
    ensures |year| != 2 ==> UnambiguousYear(year) == DecimalValue(year)
    ensures |year| == 4 ==> 0 <= UnambiguousYear(year) <= 9999
  {
    ToIOfDigits(year);
    if |year| == 2 {
      var prefix := if DecimalValue(year) < 20 then "20" else "19";
      CenturyPrefixes();
      DecimalValueAppend(prefix, year);
      ToIOfDigits(prefix + year);
      assert Pow10(2) == 100;
    } else if |year| == 4 {
      assert Pow10(4) == 10000;
    }
  }

  lemma CenturyPrefixes()
    ensures AllDigits("20") && DecimalValue("20") == 20
    ensures AllDigits("19") && DecimalValue("19") == 19
  {
    assert "20"[..1] == "2" && "2"[..0] == "";
    assert "19"[..1] == "1" && "1"[..0] == "";
  }

  /** Two digits v read as a year: 2000 + v below 20, 1900 + v from 20 on. */
  lemma UnambiguousYearOfTwo(y: string)
    requires |y| == 2 && IsDigit(y[0]) && IsDigit(y[1])
    ensures var v := 10 * DigitValue(y[0]) + DigitValue(y[1]);
      UnambiguousYear(y) == (if v < 20 then 2000 else 1900) + v
  {
    ToIOfTwoDigits(y);
    UnambiguousYearValue(y);
  }

  /** Four digits read as a year are kept as they are. */
  lemma UnambiguousYearOfFour(y: string)
    requires |y| == 4 && IsDigit(y[0]) && IsDigit(y[1]) && IsDigit(y[2]) && IsDigit(y[3])
    ensures UnambiguousYear(y) ==
      1000 * DigitValue(y[0]) + 100 * DigitValue(y[1]) + 10 * DigitValue(y[2]) + DigitValue(y[3])
  {
    ToIOfFourDigits(y);
    UnambiguousYearValue(y);
  }

  /** A two-digit year below 20 goes to the 2000s: "10" is 2010 and "00" is 2000. */
  lemma UnambiguousYearTwentyFirstCentury(y: string)
    requires y == "10" || y == "00"
    ensures UnambiguousYear(y) == if y == "10" then 2010 else 2000
  {
    UnambiguousYearOfTwo(y);
  }

  /** A two-digit year from 20 on goes to the 1900s: "60" is 1960. */
  lemma UnambiguousYearTwentiethCentury(y: string)
    requires y == "60"
    ensures UnambiguousYear(y) == 1960
  {
    UnambiguousYearOfTwo(y);
  }

  /** A four-digit year is kept: "1963" is 1963. */
  lemma UnambiguousYearFourDigitExample(y: string)
    requires y == "1963"
    ensures UnambiguousYear(y) == 1963
  {
    UnambiguousYearOfFour(y);
  }

  /** `Date::ABBR_MONTHNAMES` without its leading `nil`. */
  const AbbrMonthNames: seq<string> :=
    ["Jan", "Feb", "Mar", "Apr", "May", "Jun", "Jul", "Aug", "Sep", "Oct", "Nov", "Dec"]

  /** `Date::MONTHNAMES` without its leading `nil`. */
  const MonthNames: seq<string> :=
    ["January", "February", "March", "April", "May", "June",
     "July", "August", "September", "October", "November", "December"]

  /** `Array#index` on a 1-based month table: the position of the first entry equal to `x`. */
  function IndexIn(table: seq<string>, x: string): (r: Option<int>)
    ensures r.Some? ==> 1 <= r.value <= |table| && table[r.value - 1] == x
    ensures r.Some? ==> forall k :: 0 <= k < r.value - 1 ==> table[k] != x
    ensures r.None? <==> x !in table
  {
    if table == [] then None
    else if table[0] == x then Some(1)
    else match IndexIn(table[1..], x)
      case None => None
      case Some(k) => Some(k + 1)
  }

  /**
   * `month_index`: a month text with a nonzero `to_i` is that number; otherwise its capitalized form
   * is looked up among the abbreviations, then among the full names; an unknown name is `nil`.
   */
  function MonthIndex(month: string): (r: Option<int>)
    ensures ToI(month) != 0 ==> r == Some(ToI(month))
    ensures ToI(month) == 0 ==>
      (r.Some? <==> Capitalize(month) in AbbrMonthNames || Capitalize(month) in MonthNames)
    ensures ToI(month) == 0 && r.Some? ==>
      1 <= r.value <= 12 &&
      (AbbrMonthNames[r.value - 1] == Capitalize(month) || MonthNames[r.value - 1] == Capitalize(month))
  {
    if ToI(month) != 0 then Some(ToI(month))
    else
      var name := Capitalize(month);
      match IndexIn(AbbrMonthNames, name)
      case Some(k) => Some(k)
      case None => IndexIn(MonthNames, name)
  }

  /** Any spelling whose capitalized form is the k-th abbreviation or full name resolves to month k. */
  lemma MonthNameResolves(month: string, k: int)
    requires 1 <= k <= 12
    requires Capitalize(month) == AbbrMonthNames[k - 1] || Capitalize(month) == MonthNames[k - 1]
    ensures MonthIndex(month) == Some(k)
  {
    var name := Capitalize(month);
    assert month != [] && !IsDigit(month[0]) by {
      MonthNamesAreWords();
      assert name != [] && name[0] == Upcase(month[0]);
    }
    ToIOfNonDigit(month);
    MonthTablesDistinct();
    if name == AbbrMonthNames[k - 1] {
      IndexOfDistinct(AbbrMonthNames, k);
    } else {
      IndexOfDistinct(MonthNames, k);
      assert name !in AbbrMonthNames;
    }
  }

  /** In a table without repeats, the k-th entry is found at position k. */
  lemma IndexOfDistinct(table: seq<string>, k: int)
    requires 1 <= k <= |table|
    requires forall j, i :: 0 <= j < i < |table| ==> table[j] != table[i]
    ensures IndexIn(table, table[k - 1]) == Some(k)
  {
    assert table[k - 1] in table;
  }

  /** Every table entry starts with an upper-case letter. */
  lemma MonthNamesAreWords()
    ensures forall j :: 0 <= j < 12 ==> |AbbrMonthNames[j]| > 0 && 'A' <= AbbrMonthNames[j][0] <= 'Z'
    ensures forall j :: 0 <= j < 12 ==> |MonthNames[j]| > 0 && 'A' <= MonthNames[j][0] <= 'Z'
  {
  }

  /** The tables list twelve different names; only "May" is in both. */
  lemma MonthTablesDistinct()
    ensures forall j, i :: 0 <= j < i < 12 ==> AbbrMonthNames[j] != AbbrMonthNames[i]
    ensures forall j, i :: 0 <= j < i < 12 ==> MonthNames[j] != MonthNames[i]
    ensures forall j, i :: 0 <= j < 12 && 0 <= i < 12 && i != 4 ==> AbbrMonthNames[j] != MonthNames[i]
  {
  }

  /** Name lookup never mistakes a digit string for a month: "00" resolves to nothing. */
  lemma MonthIndexOfZeroDigits(month: string)
    requires AllDigits(month) && ToI(month) == 0
    ensures MonthIndex(month) == None
  {
    MonthNamesAreWords();
    if month != [] {
      assert Capitalize(month)[0] == month[0];
    }
  }

  /**
   * `full_hour`: reads the hour with `to_i`; "am" (in any case, white space stripped) maps 12 to 0
   * and keeps other hours; anything else maps 12 to 12 and adds 12 to other hours.
   */
  function FullHour(hour: string, meridian: string): int
  {
    var h := ToI(hour);
    if DowncaseAll(Strip(meridian)) == "am" then (if h == 12 then 0 else h)
    else (if h == 12 then h else h + 12)
  }

  predicate IsAm(meridian: string)
    requires IsMeridiem(meridian)
  {
    meridian[0] == 'a' || meridian[0] == 'A'
  }

  /**
   * On a 12-hour clock reading (hour 1..12) the result is a 24-hour hour: below 12 exactly for "am",
   * and equal to the raw hour modulo 12.
   */
  lemma FullHourOnClock(hour: string, meridian: string)
    requires IsMeridiem(meridian) && 1 <= ToI(hour) <= 12
    ensures 0 <= FullHour(hour, meridian) <= 23
    ensures FullHour(hour, meridian) < 12 <==> IsAm(meridian)
    ensures FullHour(hour, meridian) % 12 == ToI(hour) % 12
    ensures FullHour(hour, meridian) == ToI(hour) % 12 + if IsAm(meridian) then 0 else 12
  {
    MeridiemIsAm(meridian);
    var h := ToI(hour);
    if h == 12 {
      assert h % 12 == 0;
    } else {
      assert h % 12 == h;
    }
  }

  /** `full_hour`'s test for "am" on a stripped, downcased meridiem is the first letter being a or A. */
  lemma MeridiemIsAm(meridian: string)
    requires IsMeridiem(meridian)
    ensures DowncaseAll(Strip(meridian)) == "am" <==> IsAm(meridian)
  {
    StripUnchanged(meridian);
    assert DowncaseAll(meridian) == [Downcase(meridian[0]), Downcase(meridian[1])];
  }

  /** The 12-hour dial reading of a 24-hour hour. */
  function Hour12(h: int): int
  {
    if h % 12 == 0 then 12 else h % 12
  }

  /** The dial reading is 1..12, and adding 12 to it modulo 12 in the afternoon gives back the hour. */
  lemma Hour12OnDial(h: int)
    requires 0 <= h <= 23
    ensures 1 <= Hour12(h) <= 12
    ensures Hour12(h) % 12 + (if h < 12 then 0 else 12) == h
  {
    if h < 12 {
      assert h % 12 == h;
    } else {
      assert h % 12 == h - 12;
    }
  }

  /** `full_hour` inverts writing an hour of the day on the 12-hour dial with "am" or "pm". */
  lemma FullHourRoundTrip(h: int)
    requires 0 <= h <= 23
    ensures FullHour(Pad(Hour12(h), 2), if h < 12 then "am" else "pm") == h
  {
    var m := if h < 12 then "am" else "pm";
    var text := Pad(Hour12(h), 2);
    Hour12OnDial(h);
    assert Pow10(2) == 100;
    ToIOfDigits(text);
    assert IsMeridiem(m) && (IsAm(m) <==> h < 12);
    FullHourOnClock(text, m);
  }
}
