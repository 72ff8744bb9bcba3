/** Calendar dates as Python's `datetime` accepts them: proleptic
    Gregorian, years 1 to 9999, and the two-digit-year window of `%y`. */
module Calendar {
  import opened Base

  datatype Date = Date(year: int, month: int, day: int)

  predicate IsLeapYear(y: int)
  {
    y % 4 == 0 && (y % 100 != 0 || y % 400 == 0)
  }

  function DaysInMonth(y: int, m: int): (n: int)
    requires 1 <= m <= 12
    ensures 28 <= n <= 31
    ensures n == 29 <==> m == 2 && IsLeapYear(y)
  {
    if m == 2 then (if IsLeapYear(y) then 29 else 28)
    else if m == 4 || m == 6 || m == 9 || m == 11 then 30
    else 31
  }

  /** `datetime.MINYEAR <= year <= datetime.MAXYEAR` and a day that exists in its month. */
  predicate ValidDate(d: Date)
  {
    1 <= d.year <= 9999 && 1 <= d.month <= 12 && 1 <= d.day <= DaysInMonth(d.year, d.month)
  }

  /** Building a date from parsed fields: the date itself, or None where
      `datetime` raises ValueError because the date does not exist. */
  function MakeDate(year: int, month: int, day: int): (r: Option<Date>)
    ensures r.Some? <==> ValidDate(Date(year, month, day))
    ensures r.Some? ==> r.value == Date(year, month, day)
  {
    if ValidDate(Date(year, month, day)) then Some(Date(year, month, day)) else None
  }

  /** The century `%y` gives a two-digit year: 69-99 are 1969-1999 and
      00-68 are 2000-2068 (the POSIX `strptime` convention). */
  function PivotYear(yy: nat): (y: int)
    requires yy < 100
    ensures 1969 <= y <= 2068 && y % 100 == yy
  {
    if yy <= 68 then 2000 + yy else 1900 + yy
  }

  /** Every year of the window is the `%y` reading of its last two digits. */
  lemma PivotYearOfWindow(y: int)
    requires 1969 <= y <= 2068
    ensures PivotYear(y % 100) == y
  {
    if y < 2000 {
      assert y % 100 == y - 1900;
    } else {
      assert y % 100 == y - 2000;
    }
  }
}
