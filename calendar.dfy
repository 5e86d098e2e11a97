/**
 * The date and time values the parser builds. The Ruby code builds them with ActiveRecord's
 * `new_date` and `new_time`, which are not part of this model; here construction succeeds exactly
 * when the fields form a real proleptic Gregorian date and a clock reading.
 */
module Calendar {
  import opened Outcomes

  /** Ruby's `Date`. */
  datatype Date = Date(year: int, month: int, day: int)

  /** Ruby's `Time`, read through `year`, `month`, `day`, `hour`, `min`, `sec` and `usec`. */
  datatype Time = Time(year: int, month: int, day: int, hour: int, min: int, sec: int, usec: int)

  predicate IsLeapYear(y: int)
  {
    y % 4 == 0 && (y % 100 != 0 || y % 400 == 0)
  }

  function DaysInMonth(y: int, m: int): (n: int)
    requires 1 <= m <= 12
    ensures 28 <= n <= 31
  {
    if m == 2 then (if IsLeapYear(y) then 29 else 28)
    else if m == 4 || m == 6 || m == 9 || m == 11 then 30
    else 31
  }

  predicate ValidDate(y: int, m: int, d: int)
  {
    1 <= m <= 12 && 1 <= d <= DaysInMonth(y, m)
  }

  predicate ValidClock(hour: int, min: int, sec: int, usec: int)
  {
    0 <= hour < 24 && 0 <= min < 60 && 0 <= sec < 60 && 0 <= usec < 1000000
  }

  predicate ValidTime(t: Time)
  {
    ValidDate(t.year, t.month, t.day) && ValidClock(t.hour, t.min, t.sec, t.usec)
  }

  /** `new_date`: `nil` for a combination that is not a calendar date (day 31 in April, month 13). */
  function NewDate(year: int, month: int, day: int): (r: Option<Date>)
    ensures r.Some? <==> ValidDate(year, month, day)
    ensures r.Some? ==> r.value == Date(year, month, day)
  {
    if ValidDate(year, month, day) then Some(Date(year, month, day)) else None
  }

  /** `new_time`: `nil` unless the fields are a calendar date and a clock reading. */
  function NewTime(year: int, month: int, day: int, hour: int, min: int, sec: int, usec: int): (r: Option<Time>)
    ensures r.Some? <==> ValidDate(year, month, day) && ValidClock(hour, min, sec, usec)
    ensures r.Some? ==> r.value == Time(year, month, day, hour, min, sec, usec)
  {
    var t := Time(year, month, day, hour, min, sec, usec);
    if ValidTime(t) then Some(t) else None
  }
}
