/** Local calendar dates on the proleptic Gregorian calendar, as a JavaScript
    Date reports them through getFullYear, getMonth + 1 and getDate, and the
    day overflow that the constructor new Date(y, monthIndex, d) performs. */
module Calendar {

  /** month is 1..12 (getMonth() + 1); day is getDate(). */
  datatype Date = Date(year: int, month: int, day: int)

  predicate IsLeapYear(y: int) {
    (y % 4 == 0 && y % 100 != 0) || y % 400 == 0
  }

  function DaysInMonth(y: int, m: int): (n: int)
    requires 1 <= m <= 12
    ensures 28 <= n <= 31
    ensures n == 29 <==> m == 2 && IsLeapYear(y)
    ensures n == 28 <==> m == 2 && !IsLeapYear(y)
    ensures n == 30 <==> m in {4, 6, 9, 11}
  {
    if m == 2 then (if IsLeapYear(y) then 29 else 28)
    else if m == 4 || m == 6 || m == 9 || m == 11 then 30
    else 31
  }

  /** The fields of a Date object always name a day of the calendar. */
  predicate IsCalendarDate(dt: Date) {
    1 <= dt.month <= 12 && 1 <= dt.day <= DaysInMonth(dt.year, dt.month)
  }

  /** What the fields of any valid Date object look like. */
  type LocalDate = dt: Date | IsCalendarDate(dt) witness Date(1970, 1, 1)

  /** (a.year, a.month) comes strictly after (y, m). */
  predicate MonthAfter(a: Date, y: int, m: int) {
    a.year > y || (a.year == y && a.month > m)
  }

  /** The fields of new Date(y, mi, d) for a month index 0..11 and a positive
      day: a day past the end of the month rolls over into the following
      months, one month at a time, as ECMAScript's MakeDay does. (The
      constructor also reads a year 0..99 as 1900..1999; the only caller
      passes years above 1900, so that case is not part of this function.) */
  function ConstructLocal(y: int, mi: int, d: int): (dt: LocalDate)
    requires 0 <= mi <= 11 && d >= 1
    ensures dt.year > y || (dt.year == y && dt.month >= mi + 1)
    ensures d > DaysInMonth(y, mi + 1) ==> MonthAfter(dt, y, mi + 1)
    decreases d
  {
    var m := mi + 1;
    if d <= DaysInMonth(y, m) then Date(y, m, d)
    else if mi == 11 then ConstructLocal(y + 1, 0, d - 31)
    else ConstructLocal(y, mi + 1, d - DaysInMonth(y, m))
  }

  /** Reconstructing (y, m, d) through the constructor gives back the same
      fields exactly when d is a day of month m of year y: the round-trip
      check is the same test as d <= DaysInMonth(y, m). */
  lemma RoundTripIffInMonth(y: int, m: int, d: int)
    requires 1 <= m <= 12 && d >= 1
    ensures ConstructLocal(y, m - 1, d) == Date(y, m, d) <==> d <= DaysInMonth(y, m)
  {
  }

  /** A day past the end of the month never survives the round trip. Such a
      day exists only before December, which has 31 days; it lands in the
      following month of the same year. */
  lemma {:induction false} OverflowIsDetected(y: int, m: int, d: int)
    requires 1 <= m <= 12 && DaysInMonth(y, m) < d <= 31
    ensures m < 12
    ensures var dt := ConstructLocal(y, m - 1, d);
      dt != Date(y, m, d) && dt.day == d - DaysInMonth(y, m)
      && dt.year == y && dt.month == m + 1
  {
  }
}
