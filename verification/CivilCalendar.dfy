/** Days of the Gregorian calendar, numbered from 0001-01-01, a Monday. */
module CivilCalendar {

  datatype Date = Date(year: int, month: int, day: int)

  predicate Leap(y: int) {
    y % 4 == 0 && (y % 100 != 0 || y % 400 == 0)
  }

  function DaysIn(y: int, m: int): int {
    if m == 2 then (if Leap(y) then 29 else 28)
    else if m == 4 || m == 6 || m == 9 || m == 11 then 30 else 31
  }

  predicate IsDate(d: Date) {
    1 <= d.month <= 12 && 1 <= d.day <= DaysIn(d.year, d.month)
  }

  function NextMonth(y: int, m: int): (int, int) {
    if m < 12 then (y, m + 1) else (y + 1, 1)
  }

  function PrevMonth(y: int, m: int): (int, int) {
    if m > 1 then (y, m - 1) else (y - 1, 12)
  }

  function NextDate(d: Date): Date {
    if d.day < DaysIn(d.year, d.month) then d.(day := d.day + 1)
    else Date(NextMonth(d.year, d.month).0, NextMonth(d.year, d.month).1, 1)
  }

  function PrevDate(d: Date): Date {
    if d.day > 1 then d.(day := d.day - 1)
    else
      var (y, m) := PrevMonth(d.year, d.month);
      Date(y, m, DaysIn(y, m))
  }

  function DaysBeforeYear(y: int): int {
    365 * (y - 1) + (y - 1) / 4 - (y - 1) / 100 + (y - 1) / 400
  }

  function DaysBeforeMonth(y: int, m: int): int
    requires 1 <= m
    decreases m
  {
    if m == 1 then 0 else DaysBeforeMonth(y, m - 1) + DaysIn(y, m - 1)
  }

  /** The number of a date. */
  function Ord(d: Date): int
    requires IsDate(d)
  {
    DaysBeforeYear(d.year) + DaysBeforeMonth(d.year, d.month) + d.day - 1
  }

  /** The date with a given number, counted out from 0001-01-01. */
  function Civil(n: int): (d: Date)
    ensures IsDate(d)
    decreases if n < 0 then -n else n
  {
    if n == 0 then Date(1, 1, 1)
    else if n > 0 then NextDate(Civil(n - 1))
    else PrevDate(Civil(n + 1))
  }

  lemma Steps(y: int)
    ensures y / 4 - (y - 1) / 4 == if y % 4 == 0 then 1 else 0
    ensures y / 100 - (y - 1) / 100 == if y % 100 == 0 then 1 else 0
    ensures y / 400 - (y - 1) / 400 == if y % 400 == 0 then 1 else 0
    ensures y % 400 == 0 ==> y % 100 == 0
    ensures y % 100 == 0 ==> y % 4 == 0
  {
  }

  lemma YearLength(y: int)
    ensures DaysBeforeYear(y + 1) == DaysBeforeYear(y) + (if Leap(y) then 366 else 365)
    ensures DaysBeforeMonth(y, 12) + 31 == if Leap(y) then 366 else 365
  {
    Steps(y);
    MonthsOfYear(y);
  }

  lemma MonthsOfYear(y: int)
    ensures DaysBeforeMonth(y, 12) == 306 + DaysIn(y, 2)
  {
    assert DaysBeforeMonth(y, 3) == 31 + DaysIn(y, 2);
    assert DaysBeforeMonth(y, 5) == 92 + DaysIn(y, 2);
    assert DaysBeforeMonth(y, 7) == 153 + DaysIn(y, 2);
    assert DaysBeforeMonth(y, 9) == 215 + DaysIn(y, 2);
    assert DaysBeforeMonth(y, 11) == 276 + DaysIn(y, 2);
  }

  lemma MonthLength(y: int, m: int)
    requires 1 <= m <= 12
    ensures var (y', m') := NextMonth(y, m); Ord(Date(y', m', 1)) == Ord(Date(y, m, 1)) + DaysIn(y, m)
  {
    YearLength(y);
  }

  lemma OrdOfNext(d: Date)
    requires IsDate(d)
    ensures IsDate(NextDate(d)) && Ord(NextDate(d)) == Ord(d) + 1
  {
    MonthLength(d.year, d.month);
  }

  lemma OrdOfPrev(d: Date)
    requires IsDate(d)
    ensures IsDate(PrevDate(d)) && Ord(PrevDate(d)) == Ord(d) - 1
  {
    var (y, m) := PrevMonth(d.year, d.month);
    MonthLength(y, m);
  }

  lemma {:induction false} OrdOfCivil(n: int)
    ensures Ord(Civil(n)) == n
    decreases if n < 0 then -n else n
  {
    if n > 0 {
      OrdOfCivil(n - 1);
      OrdOfNext(Civil(n - 1));
    } else if n < 0 {
      OrdOfCivil(n + 1);
      OrdOfPrev(Civil(n + 1));
    }
  }

  lemma {:induction false} DaysBeforeMonthGrows(y: int, m: int, k: int)
    requires 1 <= m < k <= 13
    ensures DaysBeforeMonth(y, m) + DaysIn(y, m) <= DaysBeforeMonth(y, k)
    decreases k
  {
    if m + 1 < k {
      DaysBeforeMonthGrows(y, m, k - 1);
    }
  }

  lemma OrdWithinYear(d: Date)
    requires IsDate(d)
    ensures DaysBeforeYear(d.year) <= Ord(d) < DaysBeforeYear(d.year + 1)
  {
    YearLength(d.year);
    DaysBeforeMonthGrows(d.year, d.month, 13);
    if d.month > 1 {
      DaysBeforeMonthGrows(d.year, 1, d.month);
    }
  }

  lemma YearsGrow(lo: int, hi: int)
    requires lo < hi
    ensures DaysBeforeYear(lo + 1) <= DaysBeforeYear(hi)
  {
  }

  /** No two dates share a number. */
  lemma OrdIsInjective(a: Date, b: Date)
    requires IsDate(a) && IsDate(b) && Ord(a) == Ord(b)
    ensures a == b
  {
    OrdWithinYear(a);
    OrdWithinYear(b);
    if a.year != b.year {
      YearsGrow(if a.year < b.year then a.year else b.year, if a.year < b.year then b.year else a.year);
      assert false;
    }
    if a.month < b.month {
      DaysBeforeMonthGrows(a.year, a.month, b.month);
      assert false;
    } else if b.month < a.month {
      DaysBeforeMonthGrows(a.year, b.month, a.month);
      assert false;
    }
  }

  lemma CivilOfOrd(d: Date)
    requires IsDate(d)
    ensures Civil(Ord(d)) == d
  {
    OrdOfCivil(Ord(d));
    OrdIsInjective(Civil(Ord(d)), d);
  }

  /** Go's Weekday: Sunday is 0. */
  function Weekday(n: int): int {
    (n + 1) % 7
  }

  /** Days since Monday, as the grid builders compute it. */
  function SinceMonday(n: int): int {
    (Weekday(n) + 6) % 7
  }

  lemma SinceMondayIsRemainder(n: int)
    ensures SinceMonday(n) == n % 7 && (n - SinceMonday(n)) % 7 == 0 && Weekday(n - SinceMonday(n)) == 1
  {
  }

  /**
   * The dates around a month, by their distance i from its first day: the month itself, and up to
   * four weeks on either side, which are in the neighbouring months.
   */
  lemma AroundMonth(y: int, m: int, i: int)
    requires 1 <= m <= 12 && -28 <= i < DaysIn(y, m) + 28
    ensures var d := Civil(Ord(Date(y, m, 1)) + i);
            if i < 0 then (d.year, d.month) == PrevMonth(y, m)
            else if i < DaysIn(y, m) then d == Date(y, m, i + 1)
            else (d.year, d.month) == NextMonth(y, m)
  {
    hide DaysBeforeYear, DaysBeforeMonth, Leap;
    if i < 0 {
      var (py, pm) := PrevMonth(y, m);
      MonthLength(py, pm);
      SameMonth(py, pm, DaysIn(py, pm) + i + 1);
    } else if i < DaysIn(y, m) {
      SameMonth(y, m, i + 1);
    } else {
      var (ny, nm) := NextMonth(y, m);
      MonthLength(y, m);
      SameMonth(ny, nm, i - DaysIn(y, m) + 1);
    }
  }

  lemma SameMonth(y: int, m: int, day: int)
    requires IsDate(Date(y, m, day))
    ensures Civil(Ord(Date(y, m, 1)) + day - 1) == Date(y, m, day)
  {
    hide DaysBeforeYear, DaysBeforeMonth, DaysIn, Civil;
    CivilOfOrd(Date(y, m, day));
  }

  /** Some known days: leap days in and out of centuries, and a Monday. */
  lemma KnownDays()
    ensures IsDate(Date(2000, 2, 29)) && !IsDate(Date(1900, 2, 29)) && IsDate(Date(2024, 2, 29)) && !IsDate(Date(2026, 2, 29))
    ensures Weekday(Ord(Date(2024, 1, 1))) == 1
  {
  }
}
