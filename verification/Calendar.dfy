/**
 * The proleptic Gregorian calendar: a bijection between day numbers (day 0 is
 * January 1, 1970) and the valid dates of every year, negative ones included.
 */
module Calendar {

  datatype Date = Date(year: int, month: int, day: int)

  predicate Leap(y: int)
  {
    y % 4 == 0 && (y % 100 != 0 || y % 400 == 0)
  }

  function DaysIn(y: int, m: int): (n: int)
    requires 1 <= m <= 12
    ensures 28 <= n <= 31
  {
    if m == 2 then (if Leap(y) then 29 else 28)
    else if m == 4 || m == 6 || m == 9 || m == 11 then 30
    else 31
  }

  predicate Valid(d: Date)
  {
    1 <= d.month <= 12 && 1 <= d.day <= DaysIn(d.year, d.month)
  }

  /** Day number of January 1 of year `y`. */
  function YearStart(y: int): int
  {
    365 * (y - 1) + (y - 1) / 4 - (y - 1) / 100 + (y - 1) / 400 - 719162
  }

  /** Days of year `y` before the first of month `m`; `m == 13` gives the length of the year. */
  function MonthStart(y: int, m: int): (n: int)
    requires 1 <= m <= 13
    ensures 28 * (m - 1) <= n <= 31 * (m - 1)
  {
    if m == 1 then 0 else MonthStart(y, m - 1) + DaysIn(y, m - 1)
  }

  function DayNumber(d: Date): int
    requires Valid(d)
  {
    YearStart(d.year) + MonthStart(d.year, d.month) + d.day - 1
  }

  lemma YearLength(y: int)
    ensures YearStart(y + 1) == YearStart(y) + MonthStart(y, 13)
    ensures MonthStart(y, 13) == if Leap(y) then 366 else 365
  {
    assert MonthStart(y, 2) == 31;
    var feb := DaysIn(y, 2);
    assert MonthStart(y, 4) == 62 + feb;
    assert MonthStart(y, 6) == 123 + feb;
    assert MonthStart(y, 8) == 184 + feb;
    assert MonthStart(y, 10) == 245 + feb;
    assert MonthStart(y, 12) == 306 + feb;
    QuotientStep(y, 4);
    QuotientStep(y, 100);
    QuotientStep(y, 400);
  }

  lemma QuotientStep(y: int, k: int)
    requires k == 4 || k == 100 || k == 400
    ensures y / k == (y - 1) / k + if y % k == 0 then 1 else 0
  {
  }

  lemma {:induction false} YearStartMonotone(y: int, z: int)
    requires y < z
    ensures YearStart(y) + 365 <= YearStart(z)
    decreases z - y
  {
    YearLength(y);
    if y + 1 < z {
      YearStartMonotone(y + 1, z);
    }
  }

  lemma YearOrder(y: int, z: int)
    requires y <= z
    ensures YearStart(y) <= YearStart(z)
  {
    if y < z {
      YearStartMonotone(y, z);
    }
  }

  lemma {:induction false} MonthStartMonotone(y: int, m: int, n: int)
    requires 1 <= m < n <= 13
    ensures MonthStart(y, m) + DaysIn(y, m) <= MonthStart(y, n)
    decreases n - m
  {
    if m + 1 < n {
      MonthStartMonotone(y, m, n - 1);
    }
  }

  /** The year holding day `n`, searched from `y`. */
  function YearOf(n: int, y: int): (r: int)
    ensures YearStart(r) <= n < YearStart(r + 1)
    decreases n < YearStart(y), if n < YearStart(y) then YearStart(y) - n else n - YearStart(y)
  {
    YearStartMonotone(y - 1, y);
    YearStartMonotone(y, y + 1);
    if n < YearStart(y) then YearOf(n, y - 1)
    else if YearStart(y + 1) <= n then YearOf(n, y + 1)
    else y
  }

  /** The month holding day `k` of year `y`, searched downwards from `m`. */
  function MonthOf(y: int, k: int, m: int): (r: int)
    requires 1 <= m <= 12 && 0 <= k < MonthStart(y, m + 1)
    ensures 1 <= r <= 12 && MonthStart(y, r) <= k < MonthStart(y, r + 1)
    decreases m
  {
    if MonthStart(y, m) <= k then m else MonthOf(y, k, m - 1)
  }

  function DateOf(n: int): (d: Date)
    ensures Valid(d)
    ensures DayNumber(d) == n
  {
    var y := YearOf(n, n * 400 / 146097 + 1970);
    YearLength(y);
    var k := n - YearStart(y);
    var m := MonthOf(y, k, 12);
    Date(y, m, k - MonthStart(y, m) + 1)
  }

  /** Later dates have larger day numbers. */
  lemma DayNumberMonotone(c: Date, d: Date)
    requires Valid(c) && Valid(d)
    requires c.year < d.year || (c.year == d.year && (c.month < d.month || (c.month == d.month && c.day < d.day)))
    ensures DayNumber(c) < DayNumber(d)
  {
    if c.year < d.year {
      YearLength(c.year);
      MonthStartMonotone(c.year, c.month, 13);
      if c.year + 1 < d.year {
        YearStartMonotone(c.year + 1, d.year);
      }
    } else if c.month < d.month {
      MonthStartMonotone(c.year, c.month, d.month);
    }
  }

  /** Together with `DateOf`'s contract: a bijection over all days and all valid dates. */
  lemma DateOfDayNumber(d: Date)
    requires Valid(d)
    ensures DateOf(DayNumber(d)) == d
  {
    var c := DateOf(DayNumber(d));
    if c != d {
      if c.year < d.year || (c.year == d.year && (c.month < d.month || (c.month == d.month && c.day < d.day))) {
        DayNumberMonotone(c, d);
      } else {
        DayNumberMonotone(d, c);
      }
    }
  }

  /** The extra day of a year: every fourth year but the full hundreds, save the full four hundreds. */
  function ExtraDay(y: int): int
  {
    if (y % 4 == 0 && y % 100 != 0) || y % 400 == 0 then 1 else 0
  }

  /** The last day of a month. */
  function LastDay(y: int, m: int): int
    requires 1 <= m <= 12
  {
    [31, 28 + ExtraDay(y), 31, 30, 31, 30, 31, 31, 30, 31, 30, 31][m - 1]
  }

  lemma DaysInIs(y: int, m: int)
    requires 1 <= m <= 12
    ensures DaysIn(y, m) == LastDay(y, m)
  {
  }

  /** The day after a date, by the lengths of the months. */
  function Tomorrow(d: Date): (e: Date)
    requires Valid(d)
    ensures Valid(e)
  {
    if d.day < LastDay(d.year, d.month) then Date(d.year, d.month, d.day + 1)
    else if d.month < 12 then Date(d.year, d.month + 1, 1)
    else Date(d.year + 1, 1, 1)
  }

  /** Day numbers count the days: the next date has the next number. */
  lemma TomorrowNumber(d: Date)
    requires Valid(d)
    ensures DayNumber(Tomorrow(d)) == DayNumber(d) + 1
  {
    hide LastDay;
    hide DaysIn;
    hide YearStart;
    DaysInIs(d.year, d.month);
    YearLength(d.year);
  }

  /** And the count starts at the epoch. */
  lemma Epoch()
    ensures DayNumber(Date(1970, 1, 1)) == 0
  {
    assert MonthStart(1970, 1) == 0;
  }

  /** Days from January 1 to the first of each month of a common year. */
  const BEFORE_MONTH: seq<int> := [0, 31, 59, 90, 120, 151, 181, 212, 243, 273, 304, 334]

  /** The first of each month comes so many days after January 1, from March on with the extra day. */
  lemma FirstsOfMonths(y: int, m: int)
    requires 1 <= m <= 12
    ensures DayNumber(Date(y, m, 1))
         == DayNumber(Date(y, 1, 1)) + BEFORE_MONTH[m - 1] + if 3 <= m then ExtraDay(y) else 0
  {
    hide YearStart;
    hide MonthStart;
    hide ExtraDay;
    hide DaysIn;
    MonthStarts(y);
    FirstOfMonth(y, m);
    FirstOfMonth(y, 1);
  }

  /** And the next January 1 comes 365 days after it, with the extra day. */
  lemma NextJanuary(y: int)
    ensures DayNumber(Date(y + 1, 1, 1)) == DayNumber(Date(y, 1, 1)) + 365 + ExtraDay(y)
  {
    hide YearStart;
    YearLength(y);
    FirstOfMonth(y, 1);
    FirstOfMonth(y + 1, 1);
    January(y);
    January(y + 1);
  }

  lemma {:induction false} FirstOfMonth(y: int, m: int)
    requires 1 <= m <= 12
    ensures DayNumber(Date(y, m, 1)) == YearStart(y) + MonthStart(y, m)
  {
  }

  lemma {:induction false} January(y: int)
    ensures MonthStart(y, 1) == 0
  {
  }

  lemma {:induction false} MonthStarts(y: int)
    ensures var feb := 28 + ExtraDay(y);
            && MonthStart(y, 1) == 0 && MonthStart(y, 2) == 31 && MonthStart(y, 3) == 31 + feb
            && MonthStart(y, 4) == 62 + feb && MonthStart(y, 5) == 92 + feb && MonthStart(y, 6) == 123 + feb
            && MonthStart(y, 7) == 153 + feb && MonthStart(y, 8) == 184 + feb && MonthStart(y, 9) == 215 + feb
            && MonthStart(y, 10) == 245 + feb && MonthStart(y, 11) == 276 + feb && MonthStart(y, 12) == 306 + feb
  {
    assert DaysIn(y, 2) == 28 + ExtraDay(y);
    assert MonthStart(y, 2) == 31;
    assert MonthStart(y, 3) == 31 + DaysIn(y, 2);
    assert MonthStart(y, 5) == MonthStart(y, 3) + 61;
    assert MonthStart(y, 7) == MonthStart(y, 5) + 61;
    assert MonthStart(y, 9) == MonthStart(y, 7) + 62;
    assert MonthStart(y, 11) == MonthStart(y, 9) + 61;
  }

  /** The valid dates are those up to the last day of each month. */
  lemma ValidIff(d: Date)
    ensures Valid(d) <==> 1 <= d.month <= 12 && 1 <= d.day <= LastDay(d.year, d.month)
  {
    if 1 <= d.month <= 12 {
      DaysInIs(d.year, d.month);
    }
  }
}
