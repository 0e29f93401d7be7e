/**
 Days and civil dates in the proleptic Gregorian calendar, as the time values
 of a JavaScript Date define them (ECMA-262, "Time Values and Time Range"): a
 date at UTC midnight is the number of days since 1970-01-01.
 */
module Calendar {

  type Day = int

  datatype Civil = Civil(year: int, month: nat, date: int)

  predicate Leap(y: int) {
    y % 4 == 0 && (y % 100 != 0 || y % 400 == 0)
  }

  /** The day number of January 1 of year `y`. */
  function YearStart(y: int): Day {
    365 * (y - 1970) + (y - 1969) / 4 - (y - 1901) / 100 + (y - 1601) / 400
  }

  function YearLength(y: int): int {
    if Leap(y) then 366 else 365
  }

  lemma YearStartStep(y: int)
    ensures YearStart(y + 1) == YearStart(y) + YearLength(y)
  {
    assert (y - 1968) / 4 - (y - 1969) / 4 == if y % 4 == 0 then 1 else 0;
    assert (y - 1900) / 100 - (y - 1901) / 100 == if y % 100 == 0 then 1 else 0;
    assert (y - 1600) / 400 - (y - 1601) / 400 == if y % 400 == 0 then 1 else 0;
    HundredsOfFours(y);
  }

  lemma HundredsOfFours(y: int)
    ensures y % 100 == 0 ==> y % 4 == 0
    ensures y % 400 == 0 ==> y % 100 == 0
  {
    if y % 100 == 0 {
      assert y == 4 * (25 * (y / 100));
    }
    if y % 400 == 0 {
      assert y == 100 * (4 * (y / 400));
    }
  }

  lemma {:induction false} YearStartMonotone(y: int, z: int)
    requires y <= z
    ensures YearStart(z) - YearStart(y) >= 365 * (z - y)
    decreases z - y
  {
    if y < z {
      YearStartStep(z - 1);
      YearStartMonotone(y, z - 1);
    }
  }

  /** `getUTCFullYear`: an estimate from the mean year length, off by at most one. */
  function Year(d: Day): (y: int)
    ensures YearStart(y) <= d < YearStart(y + 1)
  {
    var guess := 1970 + d * 400 / 146097;
    assert YearStart(guess - 1) <= d < YearStart(guess + 2);
    if d < YearStart(guess) then guess - 1
    else if d >= YearStart(guess + 1) then guess + 1
    else guess
  }

  /** The year of a day is the only one that contains it. */
  lemma YearUnique(d: Day, y: int)
    requires YearStart(y) <= d < YearStart(y + 1)
    ensures Year(d) == y
  {
    if Year(d) < y {
      YearStartMonotone(Year(d) + 1, y);
    } else if Year(d) > y {
      YearStartMonotone(y + 1, Year(d));
    }
  }

  /** Days before month `m` (January is 0) in a year; month 12 is the year's length. */
  function MonthStart(m: nat, leap: bool): int
    requires m <= 12
  {
    var l := if leap then 1 else 0;
    [0, 31, 59 + l, 90 + l, 120 + l, 151 + l, 181 + l, 212 + l, 243 + l, 273 + l, 304 + l, 334 + l, 365 + l][m]
  }

  function MonthOf(offset: int, leap: bool): (m: nat)
    requires 0 <= offset < (if leap then 366 else 365)
    ensures m < 12 && MonthStart(m, leap) <= offset < MonthStart(m + 1, leap)
  {
    var l := if leap then 1 else 0;
    if offset < 31 then 0
    else if offset < 59 + l then 1
    else if offset < 90 + l then 2
    else if offset < 120 + l then 3
    else if offset < 151 + l then 4
    else if offset < 181 + l then 5
    else if offset < 212 + l then 6
    else if offset < 243 + l then 7
    else if offset < 273 + l then 8
    else if offset < 304 + l then 9
    else if offset < 334 + l then 10
    else 11
  }

  predicate ValidCivil(c: Civil) {
    && c.month < 12
    && 1 <= c.date <= MonthStart(c.month + 1, Leap(c.year)) - MonthStart(c.month, Leap(c.year))
  }

  /** The `getUTCFullYear`, `getUTCMonth` and `getUTCDate` of a day. */
  function CivilOf(d: Day): (c: Civil)
    ensures ValidCivil(c) && c.year == Year(d)
  {
    var y := Year(d);
    YearStartStep(y);
    var m := MonthOf(d - YearStart(y), Leap(y));
    Civil(y, m, d - YearStart(y) - MonthStart(m, Leap(y)) + 1)
  }

  /** `MakeDay`: any `date` is accepted and carried into the neighbouring months. */
  function MakeDay(y: int, m: nat, date: int): Day
    requires m < 12
  {
    YearStart(y) + MonthStart(m, Leap(y)) + date - 1
  }

  /** Reading a day's civil date and making a day of it gives the day back. */
  lemma DayOfCivil(d: Day)
    ensures var c := CivilOf(d); MakeDay(c.year, c.month, c.date) == d
  {
  }

  /** And every civil date that exists is read back from the day it makes. */
  lemma CivilOfDay(c: Civil)
    requires ValidCivil(c)
    ensures CivilOf(MakeDay(c.year, c.month, c.date)) == c
  {
    hide YearStart, Year, MonthStart, MonthOf;
    var d := MakeDay(c.year, c.month, c.date);
    MonthOrder(c.month, c.month + 1, Leap(c.year));
    YearStartStep(c.year);
    YearUnique(d, c.year);
    var m := MonthOf(d - YearStart(c.year), Leap(c.year));
    if m < c.month {
      MonthOrder(m + 1, c.month, Leap(c.year));
    } else if m > c.month {
      MonthOrder(c.month + 1, m, Leap(c.year));
    }
  }

  lemma MonthOrder(m: nat, n: nat, leap: bool)
    requires m <= n <= 12
    ensures 0 <= MonthStart(m, leap) <= MonthStart(n, leap) <= (if leap then 366 else 365)
  {
  }

  // ----- counted from the epoch -----------------------------------------------------------

  /** Thirty days have April, June, September and November. */
  function MonthLength(m: nat, leap: bool): nat {
    if m == 1 then (if leap then 29 else 28) else if m in {3, 5, 8, 10} then 30 else 31
  }

  /** The date after a date. */
  function Tomorrow(c: Civil): Civil {
    if c.date < MonthLength(c.month, Leap(c.year)) then Civil(c.year, c.month, c.date + 1)
    else if c.month < 11 then Civil(c.year, c.month + 1, 1)
    else Civil(c.year + 1, 0, 1)
  }

  lemma MonthStartStep(m: nat, leap: bool)
    requires m < 12
    ensures MonthStart(m + 1, leap) == MonthStart(m, leap) + MonthLength(m, leap)
    ensures MonthStart(0, leap) == 0 && MonthStart(12, leap) == (if leap then 366 else 365)
  {
  }

  /** The first day is 1970-01-01. */
  lemma EpochIsDayZero()
    ensures MakeDay(1970, 0, 1) == 0 && ValidCivil(Civil(1970, 0, 1))
  {
  }

  lemma ValidByLength(c: Civil)
    ensures ValidCivil(c) <==> c.month < 12 && 1 <= c.date <= MonthLength(c.month, Leap(c.year))
  {
    hide Leap, MonthStart, MonthLength;
    if c.month < 12 {
      MonthStartStep(c.month, Leap(c.year));
    }
  }

  lemma TomorrowIsValid(c: Civil)
    requires ValidCivil(c)
    ensures ValidCivil(Tomorrow(c))
  {
    ValidByLength(c);
    ValidByLength(Tomorrow(c));
    hide ValidCivil, Leap;
  }

  lemma YearEnds(y: int)
    ensures MakeDay(y + 1, 0, 1) == MakeDay(y, 11, 31) + 1
  {
    hide YearStart, Leap, MonthStart;
    YearStartStep(y);
    MonthStartStep(11, Leap(y));
    MonthStartStep(0, Leap(y));
    MonthStartStep(0, Leap(y + 1));
  }

  lemma MonthEnds(y: int, m: nat)
    requires m < 11
    ensures MakeDay(y, m + 1, 1) == MakeDay(y, m, MonthLength(m, Leap(y))) + 1
  {
    hide YearStart, Leap, MonthStart, MonthLength;
    MonthStartStep(m, Leap(y));
  }

  lemma DateEnds(y: int, m: nat, date: int)
    requires m < 12
    ensures MakeDay(y, m, date + 1) == MakeDay(y, m, date) + 1
  {
    hide YearStart, Leap, MonthStart;
  }

  /** The date after a date makes the day after its day. */
  lemma DaysAreCounted(c: Civil)
    requires ValidCivil(c)
    ensures var t := Tomorrow(c);
            ValidCivil(t) && MakeDay(t.year, t.month, t.date) == MakeDay(c.year, c.month, c.date) + 1
  {
    TomorrowIsValid(c);
    ValidByLength(c);
    hide MakeDay, Leap, ValidCivil;
    DateEnds(c.year, c.month, c.date);
    if c.month < 11 {
      MonthEnds(c.year, c.month);
    } else {
      YearEnds(c.year);
    }
  }

  /** No other numbering of the dates begins at the epoch and goes up by one from day to day. */
  lemma {:induction false} OnlyOneCount(count: Civil -> int, d: Day)
    requires count(Civil(1970, 0, 1)) == 0
    requires forall c: Civil :: ValidCivil(c) ==> count(Tomorrow(c)) == count(c) + 1
    ensures count(CivilOf(d)) == d
    decreases if d < 0 then -d else d
  {
    hide YearStart, MonthStart, Leap, ValidCivil, Tomorrow, MakeDay, CivilOf, Year;
    if d == 0 {
      EpochIsDayZero();
      CivilOfDay(Civil(1970, 0, 1));
    } else if d > 0 {
      OnlyOneCount(count, d - 1);
      DayAfter(d - 1);
    } else {
      OnlyOneCount(count, d + 1);
      DayAfter(d);
    }
  }

  lemma DayAfter(d: Day)
    ensures ValidCivil(CivilOf(d)) && Tomorrow(CivilOf(d)) == CivilOf(d + 1)
  {
    hide YearStart, MonthStart, Leap, ValidCivil, Tomorrow, MakeDay, CivilOf, Year;
    DayOfCivil(d);
    DaysAreCounted(CivilOf(d));
    CivilOfDay(Tomorrow(CivilOf(d)));
  }

  /** `Date.UTC(y, m, date)`: the years 0 to 99 stand for 1900 to 1999. */
  function Utc(y: int, m: nat, date: int): Day
    requires m < 12
  {
    MakeDay(if 0 <= y <= 99 then 1900 + y else y, m, date)
  }
}
