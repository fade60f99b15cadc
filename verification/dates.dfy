/** Calendar dates as the bot builds them with `datetime(year, month, day)`:
    midnight datetimes, so only the (year, month, day) triple matters, and
    they compare lexicographically. */
module Dates {
  import opened Wrappers

  datatype Date = Date(year: int, month: int, day: int)

  /** `datetime.MINYEAR` and `datetime.MAXYEAR`. */
  const MinYear := 1
  const MaxYear := 9999

  /** Proleptic Gregorian leap years, as `calendar.isleap`. */
  predicate IsLeapYear(y: int) {
    y % 4 == 0 && (y % 100 != 0 || y % 400 == 0)
  }

  function DaysInMonth(y: int, m: int): (n: int)
    requires 1 <= m <= 12
    ensures 28 <= n <= 31
    ensures m == 2 ==> (n == 29 <==> IsLeapYear(y))
  {
    if m == 2 then (if IsLeapYear(y) then 29 else 28)
    else if m == 4 || m == 6 || m == 9 || m == 11 then 30
    else 31
  }

  /** The triples the `datetime` constructor accepts. */
  predicate IsValid(d: Date) {
    && MinYear <= d.year <= MaxYear
    && 1 <= d.month <= 12
    && 1 <= d.day <= DaysInMonth(d.year, d.month)
  }

  /** The range of a C `int`, into which `datetime` converts each of its
      arguments before it checks any of them. */
  const IntMin := -0x8000_0000
  const IntMax := 0x7FFF_FFFF

  predicate FitsCInt(n: int) {
    IntMin <= n <= IntMax
  }

  /** Why `datetime(year, month, day)` raised: `OverflowError` for an
      argument beyond a C `int`, otherwise `ValueError` for a field out of
      range. */
  datatype DateError =
    | Overflow(value: int)
    | YearOutOfRange(year: int)
    | MonthOutOfRange(month: int)
    | DayOutOfRange(day: int)

  /** `datetime(year, month, day)`: the three arguments are converted to C
      `int` in order, then the year is checked, then the month, then the day. */
  function MakeDate(year: int, month: int, day: int): (r: Result<Date, DateError>)
    ensures r.Success? <==> IsValid(Date(year, month, day))
    ensures r.Success? ==> r.value == Date(year, month, day)
    ensures !FitsCInt(year) ==> r == Failure(Overflow(year))
    ensures FitsCInt(year) && !FitsCInt(month) ==> r == Failure(Overflow(month))
    ensures FitsCInt(year) && FitsCInt(month) && !FitsCInt(day) ==> r == Failure(Overflow(day))
    ensures r.Failure? && FitsCInt(year) && FitsCInt(month) && FitsCInt(day) ==>
              && (!(MinYear <= year <= MaxYear) ==> r.error == YearOutOfRange(year))
              && (MinYear <= year <= MaxYear && !(1 <= month <= 12) ==> r.error == MonthOutOfRange(month))
              && (MinYear <= year <= MaxYear && 1 <= month <= 12 ==> r.error == DayOutOfRange(day))
  {
    if !FitsCInt(year) then Failure(Overflow(year))
    else if !FitsCInt(month) then Failure(Overflow(month))
    else if !FitsCInt(day) then Failure(Overflow(day))
    else if !(MinYear <= year <= MaxYear) then Failure(YearOutOfRange(year))
    else if !(1 <= month <= 12) then Failure(MonthOutOfRange(month))
    else if !(1 <= day <= DaysInMonth(year, month)) then Failure(DayOutOfRange(day))
    else Success(Date(year, month, day))
  }

  /** The order in which `datetime` reports its errors: an overflowing day
      is reported before a year out of range or a month out of range. */
  lemma MakeDateErrorOrder()
    ensures MakeDate(0, 1, 0x100_0000_0000) == Failure(Overflow(0x100_0000_0000))
    ensures MakeDate(2000, 13, 0x8000_0000) == Failure(Overflow(0x8000_0000))
    ensures MakeDate(IntMax, 1, 1) == Failure(YearOutOfRange(IntMax))
    ensures MakeDate(IntMin - 1, 1, 1) == Failure(Overflow(IntMin - 1))
    ensures MakeDate(2027, 2, 29) == Failure(DayOutOfRange(29))
    ensures MakeDate(2028, 2, 29) == Success(Date(2028, 2, 29))
  {
  }

  /** `a < b` on the datetimes: strictly earlier. */
  predicate Before(a: Date, b: Date) {
    || a.year < b.year
    || (a.year == b.year && a.month < b.month)
    || (a.year == b.year && a.month == b.month && a.day < b.day)
  }

  /** `a <= b`: not later. */
  predicate NotAfter(a: Date, b: Date) {
    Before(a, b) || a == b
  }

  /** `Before` is a strict total order, so `NotAfter` is a total order and a
      minimum, when it exists, is unique. */
  lemma BeforeIsStrictTotalOrder(a: Date, b: Date, c: Date)
    ensures !Before(a, a)
    ensures Before(a, b) ==> !Before(b, a)
    ensures Before(a, b) && Before(b, c) ==> Before(a, c)
    ensures a == b || Before(a, b) || Before(b, a)
  {
  }

  lemma NotAfterAntisymmetric(a: Date, b: Date)
    requires NotAfter(a, b) && NotAfter(b, a)
    ensures a == b
  {
  }
}
