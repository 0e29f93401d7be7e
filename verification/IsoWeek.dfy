/**
 ISO 8601 week keys (frontend/src/utils/isoWeek.ts). Every date the module
 handles is at UTC midnight, so a date is a day number; a thrown error is None.
 */
module IsoWeek {
  import opened Strings
  import opened Calendar

  // ----- the code -------------------------------------------------------------

  /** Weekday as Monday = 0 .. Sunday = 6; day 0 (1970-01-01) is a Thursday. */
  function IsoDow(d: Day): nat {
    var utcDay := (d + 4) % 7;
    (utcDay + 6) % 7
  }

  function MondayOf(date: Day): Day {
    var c := CivilOf(date);
    var d := Utc(c.year, c.month, c.date);
    var e := CivilOf(d);
    MakeDay(e.year, e.month, e.date - IsoDow(d))
  }

  function ShowInt(n: int): string {
    if n < 0 then "-" + Decimal(-n) else Decimal(n)
  }

  function PadStart2(s: string): string {
    if |s| == 0 then "00" else if |s| == 1 then "0" + s else s
  }

  function Key(year: int, week: int): string {
    ShowInt(year) + "-W" + PadStart2(ShowInt(week))
  }

  function WeekKeyOf(date: Day): string {
    var monday := MondayOf(date);
    var isoYear := Year(monday + 3);
    var week1Monday := MondayOf(Utc(isoYear, 0, 4));
    // Math.round(x / 7) is the floor of x / 7 + 1 / 2.
    Key(isoYear, 1 + (2 * (monday - week1Monday) + 7) / 14)
  }

  datatype YearWeek = YearWeek(year: nat, week: nat)

  /** The expression ^(\d{4})-W(\d{2})$ and the two numbers it captures. */
  function ParseWeek(k: string): Option<YearWeek> {
    if |k| == 8 && AllDigits(k[..4]) && k[4] == '-' && k[5] == 'W' && AllDigits(k[6..])
    then Some(YearWeek(Number(k[..4]), Number(k[6..])))
    else None
  }

  function WeekMonday(k: string): Option<Day> {
    match ParseWeek(k)
    case None => None
    case Some(p) => Some(MondayOf(Utc(p.year, 0, 4)) + (p.week - 1) * 7)
  }

  function AddWeeks(k: string, n: int): Option<string> {
    match WeekMonday(k)
    case None => None
    case Some(monday) => Some(WeekKeyOf(monday + n * 7))
  }

  function WeekDates(k: string): Option<seq<Day>> {
    match WeekMonday(k)
    case None => None
    case Some(monday) => Some(seq(7, i => monday + i))
  }

  // ----- the standard -----------------------------------------------------------

  function Monday(d: Day): Day { d - (d + 3) % 7 }

  /** A week belongs to the year that holds its Thursday. */
  function IsoYear(d: Day): int { Year(Monday(d) + 3) }

  /** The Monday of the week that holds January 4. */
  function Week1(y: int): Day { Monday(YearStart(y) + 3) }

  function IsoWeekNumber(d: Day): int { 1 + (Monday(d) - Week1(IsoYear(d))) / 7 }

  function WeeksIn(y: int): int { (Week1(y + 1) - Week1(y)) / 7 }

  lemma MondayFacts(d: Day)
    ensures Monday(d) % 7 == 4 && Monday(d) <= d < Monday(d) + 7
  {
  }

  /** A Monday before the one of `s + 3` is at least a week before it, so its Thursday is before `s`. */
  lemma ThursdayRule(m: Day, s: Day)
    requires m % 7 == 4
    ensures s <= m + 3 <==> Monday(s + 3) <= m
  {
    hide YearStart, Year;
    MondayFacts(s + 3);
  }

  /** Week 1 starts on the Monday before the year's first Thursday. */
  lemma FirstThursday(y: int)
    ensures Week1(y) % 7 == 4
    ensures YearStart(y) <= Week1(y) + 3 < YearStart(y) + 7
  {
    hide YearStart, Year;
    MondayFacts(YearStart(y) + 3);
  }

  /** Days whose Monday lies between two week-ones are those of the first one's year. */
  lemma IsoYearSpan(d: Day, y: int)
    ensures IsoYear(d) == y <==> Week1(y) <= Monday(d) < Week1(y + 1)
  {
    hide YearStart, Year;
    MondayFacts(d);
    ThursdayRule(Monday(d), YearStart(y));
    ThursdayRule(Monday(d), YearStart(y + 1));
    if YearStart(y) <= Monday(d) + 3 < YearStart(y + 1) {
      YearUnique(Monday(d) + 3, y);
    }
  }

  /** Whole weeks between two week-ones, from the day the first year starts and its length. */
  lemma WholeWeeks(start: Day, length: int, m: Day)
    requires (length == 365 || length == 366) && m % 7 == 4
    requires Monday(start + 3) <= m < Monday(start + length + 3)
    ensures 0 <= (m - Monday(start + 3)) / 7 < (Monday(start + length + 3) - Monday(start + 3)) / 7
    ensures m == Monday(start + 3) + 7 * ((m - Monday(start + 3)) / 7)
  {
    MondayFacts(start + 3);
    MondayFacts(start + length + 3);
  }

  lemma WeeksOfLength(start: Day, length: int)
    requires length == 365 || length == 366
    ensures var w := Monday(start + length + 3) - Monday(start + 3);
            && (w == 364 || w == 371)
            && (w == 371 <==> IsoDow(start) == 3 || (length == 366 && IsoDow(start) == 2))
  {
    hide YearStart, Year, IsoDow;
    DowShift(start);
    var q := (start + 3) % 7;
    assert (start + 6) % 7 == if q < 4 then q + 3 else q - 4;
    assert (start + length + 6) % 7 == (start + 6 + (length - 364)) % 7;
  }

  /** Every week number is between 1 and the number of weeks of its year. */
  lemma WeekNumberBounds(d: Day)
    ensures 1 <= IsoWeekNumber(d) <= WeeksIn(IsoYear(d))
    ensures Monday(d) == Week1(IsoYear(d)) + 7 * (IsoWeekNumber(d) - 1)
  {
    hide YearStart, Year;
    var y := IsoYear(d);
    IsoYearSpan(d, y);
    YearStartStep(y);
    MondayFacts(d);
    WholeWeeks(YearStart(y), YearLength(y), Monday(d));
  }

  /** A year has 53 weeks iff it starts on a Thursday, or is a leap year starting on a Wednesday. */
  lemma LongYears(y: int)
    ensures WeeksIn(y) == 52 || WeeksIn(y) == 53
    ensures WeeksIn(y) == 53 <==> IsoDow(YearStart(y)) == 3 || (Leap(y) && IsoDow(YearStart(y)) == 2)
    ensures Week1(y + 1) == Week1(y) + 7 * WeeksIn(y)
  {
    hide YearStart, Year;
    YearStartStep(y);
    WeeksOfLength(YearStart(y), YearLength(y));
  }

  /**
   CPython's `_isoweek1monday`, on which `date.fromisocalendar` rests: go back to
   the Monday of January 1's week and, past Thursday, on to the next one.
   */
  function PythonWeek1Monday(y: int): Day {
    var firstDay := YearStart(y);
    var firstWeekday := (firstDay + 3) % 7;
    if firstWeekday > 3 then firstDay - firstWeekday + 7 else firstDay - firstWeekday
  }

  lemma AgreesWithPython(y: int)
    ensures Week1(y) == PythonWeek1Monday(y)
  {
    hide YearStart;
    var s := YearStart(y);
    assert (s + 6) % 7 == if (s + 3) % 7 > 3 then (s + 3) % 7 - 4 else (s + 3) % 7 + 3;
  }

  // ----- code against standard ----------------------------------------------------

  predicate TwoDigitYear(y: int) { 0 <= y <= 99 }

  /** `setUTCDate` on a fresh date moves it by whole days, whatever month it is in. */
  lemma MondayOfUtc(d: Day)
    ensures var c := CivilOf(d); MondayOf(d) == Monday(Utc(c.year, c.month, c.date))
  {
    hide YearStart, Year;
    var c := CivilOf(d);
    var e := Utc(c.year, c.month, c.date);
    DayOfCivil(e);
    DowShift(e);
  }

  lemma DowShift(d: Day)
    ensures d - IsoDow(d) == Monday(d)
  {
  }

  lemma MondayOfDay(d: Day)
    requires !TwoDigitYear(Year(d))
    ensures MondayOf(d) == Monday(d)
  {
    hide YearStart, Year;
    MondayOfUtc(d);
    DayOfCivil(d);
  }

  /** A day of the years 0 to 99 is taken for one of the 1900s. */
  lemma MondayOfTwoDigitDay(d: Day)
    requires TwoDigitYear(Year(d))
    ensures MondayOf(d) % 7 == 4
    ensures YearStart(1899) <= MondayOf(d) < YearStart(2000)
  {
    hide YearStart, Year, Monday, MondayOf, MonthStart, IsoDow;
    var c := CivilOf(d);
    var y := 1900 + c.year;
    MondayOfUtc(d);
    MondayFacts(Utc(c.year, c.month, c.date));
    MonthFits(c.month, c.date, Leap(c.year), Leap(y));
    YearStartStep(y);
    YearStartMonotone(1900, y);
    YearStartMonotone(y + 1, 2000);
    YearStartStep(1899);
  }

  lemma MonthFits(m: nat, date: int, leap: bool, leap': bool)
    requires m < 12 && 1 <= date <= MonthStart(m + 1, leap) - MonthStart(m, leap)
    ensures 0 <= MonthStart(m, leap') + date - 1 < 366
    ensures !leap' ==> MonthStart(m, leap') + date - 1 < 365
  {
  }

  lemma YearsApart(d: Day, y: int, z: int)
    requires YearStart(y) <= d < YearStart(z)
    ensures y <= Year(d) < z
  {
    hide YearStart, Year;
    if Year(d) < y { YearStartMonotone(Year(d) + 1, y); }
    if Year(d) >= z { YearStartMonotone(z, Year(d)); }
  }

  /** A day's calendar year is within one of its ISO year. */
  lemma YearNearIsoYear(d: Day)
    ensures IsoYear(d) - 1 <= Year(d) <= IsoYear(d) + 1
  {
    hide YearStart, Year;
    var y := IsoYear(d);
    MondayFacts(d);
    YearStartStep(y - 1);
    YearStartStep(y + 1);
    YearsApart(d, y - 1, y + 2);
  }

  lemma January4(y: int)
    ensures !TwoDigitYear(y) ==> MondayOf(Utc(y, 0, 4)) == Week1(y)
    ensures TwoDigitYear(y) ==> MondayOf(Utc(y, 0, 4)) == Week1(1900 + y)
  {
    hide YearStart, Year;
    var full := if TwoDigitYear(y) then 1900 + y else y;
    YearStartStep(full);
    YearUnique(YearStart(full) + 3, full);
    MondayOfDay(YearStart(full) + 3);
  }

  /** Outside the years 0 to 99, the code computes the standard's year and number. */
  lemma KeyOfDay(d: Day)
    requires !TwoDigitYear(Year(d)) && !TwoDigitYear(IsoYear(d))
    ensures WeekKeyOf(d) == Key(IsoYear(d), IsoWeekNumber(d))
  {
    hide YearStart, Year, MondayOf, Key;
    MondayOfDay(d);
    January4(IsoYear(d));
    WeekNumberBounds(d);
    RoundExact(IsoWeekNumber(d) - 1);
  }

  lemma RoundExact(weeks: int)
    ensures (2 * (7 * weeks) + 7) / 14 == weeks
  {
  }

  lemma ParseKey(y: int, w: int)
    requires 1000 <= y <= 9999 && 0 <= w <= 99
    ensures ParseWeek(Key(y, w)) == Some(YearWeek(y, w))
  {
    DecimalLength(y);
    DecimalLength(w);
    NumberOfDecimal(y);
    NumberOfDecimal(w);
    var k := Key(y, w);
    var p := PadStart2(Decimal(w));
    assert k[..4] == Decimal(y) && k[6..] == p;
    if w < 10 {
      assert p == "0" + Decimal(w) && p[..1] == "0";
      assert Number("0") == 0 by { assert "0"[..0] == ""; }
      assert Number(p) == 10 * Number(p[..1]) + w;
    }
  }

  /** A key that parses has a year of four digits and names itself. */
  lemma KeyThatParses(y: int, w: int)
    requires ParseWeek(Key(y, w)).Some?
    ensures 1000 <= y <= 9999 && ParseWeek(Key(y, w)) == Some(YearWeek(y, w))
  {
    var k := Key(y, w);
    assert k[0] == ShowInt(y)[0] && IsDigit(k[..4][0]);
    var digits := Decimal(y);
    assert k[..|digits|] == digits && k[|digits|] == '-';
    assert forall i :: 0 <= i < 4 ==> k[i] == k[..4][i] && k[i] != '-';
    assert forall i :: 0 <= i < |digits| ==> k[i] == digits[i] && k[i] != '-';
    DecimalLength(y);
    assert |digits| == 4;
    var p := PadStart2(ShowInt(w));
    assert k[6..] == p && |p| == 2;
    assert w >= 0 by { assert IsDigit(p[0]); }
    DecimalLength(w);
    ParseKey(y, w);
  }

  /** A four-digit key is spelled the way the code spells it. */
  lemma KeyOfParsed(k: string)
    requires ParseWeek(k).Some? && ParseWeek(k).value.year >= 1000
    ensures var p := ParseWeek(k).value; p.year <= 9999 && p.week <= 99 && Key(p.year, p.week) == k
  {
    var p := ParseWeek(k).value;
    NumberBelow(k[..4]);
    NumberBelow(k[6..]);
    ParseKey(p.year, p.week);
    var c := Key(p.year, p.week);
    NumberInjective(c[..4], k[..4]);
    NumberInjective(c[6..], k[6..]);
    assert c == c[..4] + "-W" + c[6..];
    assert k == k[..4] + "-W" + k[6..];
  }

  /** The days between two years stay far from the years 0 to 99. */
  lemma FarFromTwoDigits(d: Day)
    requires IsoYear(d) >= 101
    ensures !TwoDigitYear(Year(d)) && !TwoDigitYear(IsoYear(d))
  {
    YearNearIsoYear(d);
  }

  // ----- the promises ---------------------------------------------------------------

  /** The Monday a key's own Monday is written as: week keys invert week Mondays. */
  lemma MondayOfKey(d: Day)
    requires 1000 <= IsoYear(d) <= 9999
    ensures WeekKeyOf(d) == Key(IsoYear(d), IsoWeekNumber(d))
    ensures WeekMonday(WeekKeyOf(d)) == Some(Monday(d))
  {
    hide YearStart, Year, MondayOf, Key;
    FarFromTwoDigits(d);
    KeyOfDay(d);
    WeekNumberBounds(d);
    LongYears(IsoYear(d));
    ParseKey(IsoYear(d), IsoWeekNumber(d));
    January4(IsoYear(d));
  }

  /**
   A well-formed key survives the trip through its Monday iff its year has four
   digits and its week is one of that year's 52 or 53.
   */
  lemma CanonicalKeys(k: string)
    requires ParseWeek(k).Some?
    ensures var p := ParseWeek(k).value;
            WeekKeyOf(WeekMonday(k).value) == k <==> p.year >= 1000 && 1 <= p.week <= WeeksIn(p.year)
  {
    hide YearStart, Year, MondayOf, Key;
    var p := ParseWeek(k).value;
    var m := WeekMonday(k).value;
    if p.year >= 1000 {
      KeyOfParsed(k);
      January4(p.year);
      FirstThursday(p.year);
      assert Monday(m) == m by { WholeWeeksKeepMonday(Week1(p.year), p.week - 1); }
      if 1 <= p.week <= WeeksIn(p.year) {
        LongYears(p.year);
        IsoYearSpan(m, p.year);
        MondayOfKey(m);
        WeekNumberBounds(m);
      } else {
        IsoYearSpan(m, p.year);
        LongYears(p.year);
        YearsApartBound(p.year, m);
        FarFromTwoDigits(m);
        KeyOfDay(m);
        WeekNumberBounds(m);
        if WeekKeyOf(m) == k {
          KeyThatParses(IsoYear(m), IsoWeekNumber(m));
        }
      }
    } else if WeekKeyOf(m) == k {
      var monday := MondayOf(m);
      var isoYear := Year(monday + 3);
      KeyThatParses(isoYear, 1 + (2 * (monday - MondayOf(Utc(isoYear, 0, 4))) + 7) / 14);
    }
  }

  lemma WholeWeeksKeepMonday(m: Day, n: int)
    requires m % 7 == 4
    ensures (m + n * 7) % 7 == 4 && Monday(m + n * 7) == m + n * 7
  {
  }

  lemma YearsApartBound(y: int, m: Day)
    requires y >= 1000 && m >= Week1(y) - 7 && Monday(m) == m
    ensures IsoYear(m) >= 101
  {
    hide YearStart, Year;
    FirstThursday(y);
    YearStartMonotone(999, y);
    YearStartStep(998);
    if IsoYear(m) < 998 { YearStartMonotone(IsoYear(m) + 1, 998); YearStartStep(999); }
  }

  /** Shifting again from a key of the years 1000 to 9999. */
  lemma ShiftComposes(k: string, a: int, b: int)
    requires ParseWeek(k).Some? && 1000 <= IsoYear(WeekMonday(k).value + a * 7) <= 9999
    ensures AddWeeks(AddWeeks(k, a).value, b) == AddWeeks(k, a + b)
  {
    hide YearStart, Year, MondayOf, Key, Monday, IsoYear, IsoWeekNumber, WeekKeyOf, Week1;
    var m := WeekMonday(k).value;
    WeekMondayIsMonday(k);
    WholeWeeksKeepMonday(m, a);
    MondayOfKey(m + a * 7);
    assert m + a * 7 + b * 7 == m + (a + b) * 7;
  }

  lemma ParsedKeyHasFourDigits(d: Day)
    requires ParseWeek(WeekKeyOf(d)).Some? && !TwoDigitYear(Year(d))
    ensures 1000 <= IsoYear(d) <= 9999
  {
    hide YearStart, Year, MondayOf, Key, Monday, Utc, Week1, ParseWeek;
    MondayOfDay(d);
    var m := MondayOf(d);
    KeyThatParses(Year(m + 3), 1 + (2 * (m - MondayOf(Utc(Year(m + 3), 0, 4))) + 7) / 14);
  }

  /** A day of the years 0 to 99 gets the key of a Monday of the 1900s. */
  lemma KeyOfAnotherCentury(d: Day)
    requires TwoDigitYear(Year(d))
    ensures var m := MondayOf(d);
            m % 7 == 4 && YearStart(1899) <= m < YearStart(2000) && WeekMonday(WeekKeyOf(d)) == Some(m)
  {
    hide YearStart, Year, MondayOf, Key, Monday, IsoYear, IsoWeekNumber, Week1, Utc, WeekMonday, ParseWeek;
    var m := MondayOf(d);
    MondayOfTwoDigitDay(d);
    WholeWeeksKeepMonday(m, 0);
    NineteenHundreds(m);
    FarFromTwoDigits(m);
    MondayOfDay(m);
    assert WeekKeyOf(d) == WeekKeyOf(m);
    MondayOfKey(m);
  }

  /** Weeks from the years 0 to 99 to some years of four digits. */
  const WEEKS_LATER := 78270

  lemma WeeksLater()
    ensures YearStart(1400) <= YearStart(0) + WEEKS_LATER * 7 && YearStart(100) + WEEKS_LATER * 7 + 3 < YearStart(1700)
    ensures YearStart(3300) <= YearStart(1899) + WEEKS_LATER * 7 &&
            YearStart(2000) + WEEKS_LATER * 7 + 3 < YearStart(3600)
    ensures YearStart(100) <= YearStart(1899)
  {
  }

  /** Moved by the same number of weeks into years of four digits, two such Mondays get different keys. */
  lemma CenturiesStayApart(d: Day, m: Day)
    requires d % 7 == 4 && m % 7 == 4 && TwoDigitYear(Year(d)) && YearStart(1899) <= m < YearStart(2000)
    ensures WeekKeyOf(d + WEEKS_LATER * 7) != WeekKeyOf(m + WEEKS_LATER * 7)
  {
    hide YearStart, Year, MondayOf, Key, IsoWeekNumber, Week1, WeekKeyOf;
    WeeksLater();
    YearStartMonotone(0, Year(d));
    YearStartMonotone(Year(d) + 1, 100);
    var d', m' := d + WEEKS_LATER * 7, m + WEEKS_LATER * 7;
    WholeWeeksKeepMonday(d, WEEKS_LATER);
    WholeWeeksKeepMonday(m, WEEKS_LATER);
    YearsApart(d' + 3, 1400, 1700);
    YearsApart(m' + 3, 3300, 3600);
    MondayOfKey(d');
    MondayOfKey(m');
  }

  /**
   Shifting a key by `a` weeks and then by any number of weeks is shifting it by the
   sum iff the week in between has an ISO year of 1000 to 9999.
   */
  lemma AddWeeksComposes(k: string, a: int)
    requires ParseWeek(k).Some?
    ensures var middle := AddWeeks(k, a).value;
            (forall b :: AddWeeks(middle, b) == AddWeeks(k, a + b))
            <==> 1000 <= IsoYear(WeekMonday(k).value + a * 7) <= 9999
  {
    hide YearStart, Year, MondayOf, Key, Monday, IsoYear, IsoWeekNumber, WeekKeyOf, Week1;
    var m := WeekMonday(k).value;
    var d := m + a * 7;
    var middle := AddWeeks(k, a).value;
    if 1000 <= IsoYear(d) <= 9999 {
      forall b ensures AddWeeks(middle, b) == AddWeeks(k, a + b) {
        ShiftComposes(k, a, b);
      }
    } else if ParseWeek(middle).None? {
      assert AddWeeks(middle, 0) != AddWeeks(k, a + 0);
    } else {
      WeekMondayIsMonday(k);
      WholeWeeksKeepMonday(m, a);
      assert TwoDigitYear(Year(d)) by {
        if !TwoDigitYear(Year(d)) { ParsedKeyHasFourDigits(d); }
      }
      KeyOfAnotherCentury(d);
      CenturiesStayApart(d, MondayOf(d));
      assert d + WEEKS_LATER * 7 == m + (a + WEEKS_LATER) * 7;
      assert AddWeeks(middle, WEEKS_LATER) != AddWeeks(k, a + WEEKS_LATER);
    }
  }

  lemma WeekMondayIsMonday(k: string)
    requires ParseWeek(k).Some?
    ensures WeekMonday(k).value % 7 == 4
  {
    hide YearStart, Year, MondayOf, Key, Monday, Utc, Week1, ParseWeek;
    var y := ParseWeek(k).value.year;
    January4(y);
    FirstThursday(y);
    FirstThursday(1900 + y);
    var week1 := MondayOf(Utc(y, 0, 4));
    WholeWeeksKeepMonday(week1, ParseWeek(k).value.week - 1);
  }

  lemma ShowIntFacts(n: int)
    ensures var s := ShowInt(n);
            && s != "" && 'W' !in s && (s[0] == '-' <==> n < 0) && (|s| == 2 ==> s[0] != '0')
            && (if n < 0 then s[1..] == Decimal(-n) else s == Decimal(n))
  {
  }

  lemma ShowIntInjective(m: int, n: int)
    requires ShowInt(m) == ShowInt(n)
    ensures m == n
  {
    ShowIntFacts(m);
    ShowIntFacts(n);
    NumberOfDecimal(if m < 0 then -m else m);
    NumberOfDecimal(if n < 0 then -n else n);
    hide ShowInt, Decimal, Number;
  }

  lemma PaddedInjective(m: int, n: int)
    requires PadStart2(ShowInt(m)) == PadStart2(ShowInt(n))
    ensures m == n
  {
    ShowIntFacts(m);
    ShowIntFacts(n);
    hide ShowInt, Decimal;
    var a, b := ShowInt(m), ShowInt(n);
    assert |a| == 1 ==> PadStart2(a)[0] == '0' && PadStart2(a)[1..] == a;
    assert |b| == 1 ==> PadStart2(b)[0] == '0' && PadStart2(b)[1..] == b;
    assert a == b;
    ShowIntInjective(m, n);
  }

  /** A key names one year and one number. */
  lemma KeyInjective(y: int, w: int, y': int, w': int)
    requires Key(y, w) == Key(y', w')
    ensures y == y' && w == w'
  {
    ShowIntFacts(y);
    ShowIntFacts(y');
    hide ShowInt, PadStart2;
    var a, b, k := ShowInt(y), ShowInt(y'), Key(y, w);
    assert k[|a| + 1] == 'W' && k[|b| + 1] == 'W';
    assert k[|a|] == '-' && k[|b|] == '-';
    assert forall i :: 0 <= i < |a| ==> k[i] == a[i];
    assert forall i :: 0 <= i < |b| ==> k[i] == b[i];
    assert |a| == |b|;
    assert k[..|a|] == a && k[..|a|] == b;
    ShowIntInjective(y, y');
    assert k[|a| + 2..] == PadStart2(ShowInt(w)) && k[|a| + 2..] == PadStart2(ShowInt(w'));
    PaddedInjective(w, w');
  }

  /** The day that `Date.UTC` makes of a day's civil date. */
  function TakenFor(d: Day): Day {
    var c := CivilOf(d);
    Utc(c.year, c.month, c.date)
  }

  lemma TakenAsItIs(d: Day)
    ensures MondayOf(d) == Monday(TakenFor(d))
    ensures !TwoDigitYear(Year(d)) ==> TakenFor(d) == d
  {
    hide YearStart, Year, MondayOf, Monday;
    MondayOfUtc(d);
    DayOfCivil(d);
  }

  lemma Week1IsMonday(y: int)
    ensures MondayOf(Utc(y, 0, 4)) % 7 == 4
  {
    hide YearStart, Year, MondayOf, Monday, TakenFor;
    TakenAsItIs(Utc(y, 0, 4));
    MondayFacts(TakenFor(Utc(y, 0, 4)));
  }

  /** Mondays a whole number of weeks after the same week 1 have different numbers. */
  lemma NumbersTellApart(m: Day, n: Day, week1: Day)
    requires m % 7 == 4 && n % 7 == 4 && week1 % 7 == 4
    requires (2 * (m - week1) + 7) / 14 == (2 * (n - week1) + 7) / 14
    ensures m == n
  {
  }

  /**
   Any two days share a key iff the days they are taken for share a Monday; a day is
   taken for itself unless its year is one of 0 to 99.
   */
  lemma SameKeySameWeek(d: Day, e: Day)
    ensures WeekKeyOf(d) == WeekKeyOf(e) <==> Monday(TakenFor(d)) == Monday(TakenFor(e))
    ensures !TwoDigitYear(Year(d)) ==> TakenFor(d) == d
  {
    hide YearStart, Year, MondayOf, Key, Monday, TakenFor, Utc;
    TakenAsItIs(d);
    TakenAsItIs(e);
    var m, n := MondayOf(d), MondayOf(e);
    MondayFacts(TakenFor(d));
    MondayFacts(TakenFor(e));
    var y := Year(m + 3);
    var week1 := MondayOf(Utc(y, 0, 4));
    Week1IsMonday(y);
    if WeekKeyOf(d) == WeekKeyOf(e) {
      var y' := Year(n + 3);
      var week1' := MondayOf(Utc(y', 0, 4));
      KeyInjective(y, 1 + (2 * (m - week1) + 7) / 14, y', 1 + (2 * (n - week1') + 7) / 14);
      NumbersTellApart(m, n, week1);
    }
  }

  /** The dates of a key are seven days in a row from the Monday of the week it names. */
  lemma DatesOfAWeek(k: string)
    requires ParseWeek(k).Some?
    ensures WeekDates(k).Some? && |WeekDates(k).value| == 7
    ensures var dates := WeekDates(k).value;
            && dates[0] == WeekMonday(k).value && dates[0] % 7 == 4
            && forall i :: 0 < i < 7 ==> dates[i] == dates[i - 1] + 1
  {
    WeekMondayIsMonday(k);
    hide WeekMonday, ParseWeek;
  }

  /**
   A day is one of the seven dates of its own key iff its ISO year is one of
   1000 to 9999: elsewhere the key does not parse, or names a week of the 1900s.
   */
  lemma DayInItsWeek(d: Day)
    ensures (WeekDates(WeekKeyOf(d)).Some? && d in WeekDates(WeekKeyOf(d)).value) <==> 1000 <= IsoYear(d) <= 9999
  {
    hide YearStart, Year, MondayOf, Key, IsoWeekNumber, Week1;
    MondayFacts(d);
    if 1000 <= IsoYear(d) <= 9999 {
      MondayOfKey(d);
      var dates := WeekDates(WeekKeyOf(d)).value;
      assert dates[d - Monday(d)] == d;
    } else if WeekDates(WeekKeyOf(d)).Some? {
      assert TwoDigitYear(Year(d)) by {
        if !TwoDigitYear(Year(d)) { ParsedKeyHasFourDigits(d); }
      }
      KeyOfAnotherCentury(d);
      BeforeTheCentury(d);
    }
  }

  lemma BeforeTheCentury(d: Day)
    requires TwoDigitYear(Year(d))
    ensures d < YearStart(1899)
  {
    hide YearStart, Year;
    YearStartMonotone(100, 1899);
    YearStartMonotone(Year(d) + 1, 100);
  }

  lemma NineteenHundreds(m: Day)
    requires m % 7 == 4 && YearStart(1899) <= m < YearStart(2000)
    ensures 1899 <= IsoYear(m) <= 2000
  {
    hide YearStart, Year;
    WholeWeeksKeepMonday(m, 0);
    YearStartStep(2000);
    YearsApart(m + 3, 1899, 2001);
  }

  // ----- keys of civil dates -----------------------------------------------------------

  lemma ThursdayNumber(week1: Day, start: Day, thursday: Day, weeks: int)
    requires start <= week1 + 3 < start + 7 && thursday == week1 + 3 + 7 * weeks
    ensures (thursday - start) / 7 == weeks
  {
  }

  lemma MondayByThursday(d: Day, thursday: Day)
    requires thursday % 7 == 0 && thursday - 3 <= d <= thursday + 3
    ensures Monday(d) == thursday - 3
  {
  }

  lemma KeyByThursday(d: Day, thursday: Day)
    requires thursday % 7 == 0 && thursday - 3 <= d <= thursday + 3
    requires !TwoDigitYear(Year(d)) && !TwoDigitYear(Year(thursday))
    ensures WeekKeyOf(d) == Key(Year(thursday), 1 + (thursday - YearStart(Year(thursday))) / 7)
  {
    hide YearStart, Year, Monday, Key, WeekKeyOf, Week1;
    var y := Year(thursday);
    MondayByThursday(d, thursday);
    KeyOfDay(d);
    FirstThursday(y);
    WeekNumberBounds(d);
    ThursdayNumber(Week1(y), YearStart(y), thursday, IsoWeekNumber(d) - 1);
  }

  /**
   The key of a civil date, counted without weeks: 1970-01-01 is a Thursday, the Thursday
   within three days of the date decides the year, and its number is the week's.
   */
  lemma KeyOfCivil(c: Civil, thursday: Day)
    requires ValidCivil(c) && thursday % 7 == 0
    requires thursday - 3 <= MakeDay(c.year, c.month, c.date) <= thursday + 3
    requires !TwoDigitYear(c.year) && !TwoDigitYear(CivilOf(thursday).year)
    ensures var y := CivilOf(thursday).year;
            WeekKeyOf(MakeDay(c.year, c.month, c.date)) == Key(y, 1 + (thursday - MakeDay(y, 0, 1)) / 7)
  {
    hide Year, Monday, Key, WeekKeyOf, ValidCivil;
    CivilOfDay(c);
    FirstOfYear(CivilOf(thursday).year);
    hide CivilOf, MakeDay;
    KeyByThursday(MakeDay(c.year, c.month, c.date), thursday);
  }

  lemma FirstOfYear(y: int)
    ensures MakeDay(y, 0, 1) == YearStart(y)
  {
    hide YearStart;
  }

  lemma DecimalStep(n: nat, d: nat)
    requires n > 0 && d < 10
    ensures Decimal(10 * n + d) == Decimal(n) + [Digit(d)]
    ensures n < 10 ==> Decimal(n) == [Digit(n)]
  {
    assert (10 * n + d) / 10 == n && (10 * n + d) % 10 == d;
  }

  lemma PrintedYears()
    ensures ShowInt(2015) == "2015" && ShowInt(2019) == "2019" && ShowInt(2020) == "2020" && ShowInt(2021) == "2021"
  {
    hide Decimal;
    DecimalStep(2, 0);
    DecimalStep(20, 1);
    DecimalStep(20, 2);
    DecimalStep(201, 5);
    DecimalStep(201, 9);
    DecimalStep(202, 0);
    DecimalStep(202, 1);
  }

  lemma PrintedWeeks()
    ensures PadStart2(ShowInt(1)) == "01" && PadStart2(ShowInt(52)) == "52" && PadStart2(ShowInt(53)) == "53"
  {
    hide Decimal;
    DecimalStep(5, 2);
    DecimalStep(5, 3);
    DecimalStep(1, 0);
  }

  lemma PrintedKeys()
    ensures Key(2015, 1) == "2015-W01" && Key(2020, 53) == "2020-W53" && Key(2021, 1) == "2021-W01"
    ensures Key(2019, 52) == "2019-W52" && Key(2020, 1) == "2020-W01"
  {
    PrintedYears();
    PrintedWeeks();
    hide ShowInt, PadStart2;
    assert "2015" + "-W" + "01" == "2015-W01" && "2020" + "-W" + "53" == "2020-W53";
    assert "2021" + "-W" + "01" == "2021-W01" && "2019" + "-W" + "52" == "2019-W52";
    assert "2020" + "-W" + "01" == "2020-W01";
  }

  lemma SomeYears()
    ensures YearStart(2015) == 16436 && YearStart(2016) == 16801 && YearStart(2019) == 17897
    ensures YearStart(2020) == 18262 && YearStart(2021) == 18628 && YearStart(2022) == 18993
  {
  }

  lemma SomeDays()
    ensures MakeDay(2015, 0, 1) == 16436 && MakeDay(2021, 0, 3) == 18630 && MakeDay(2021, 0, 4) == 18631
    ensures Year(16436) == 2015 && Year(18630) == 2021 && Year(18627) == 2020 && Year(18631) == 2021
    ensures Year(18634) == 2021 && Year(18260) == 2019 && Year(18263) == 2020
  {
    SomeYears();
    hide YearStart, Year;
    YearUnique(16436, 2015);
    YearUnique(18630, 2021);
    YearUnique(18627, 2020);
    YearUnique(18631, 2021);
    YearUnique(18634, 2021);
    YearUnique(18260, 2019);
    YearUnique(18263, 2020);
  }

  lemma SomeKeys()
    ensures WeekKeyOf(16436) == Key(2015, 1) && WeekKeyOf(18630) == Key(2020, 53)
    ensures WeekKeyOf(18631) == Key(2021, 1) && WeekKeyOf(18260) == Key(2020, 1)
  {
    SomeDays();
    SomeYears();
    hide *;
    NoTwoDigits();
    KeyByThursday(16436, 16436);
    KeyByThursday(18630, 18627);
    KeyByThursday(18631, 18634);
    KeyByThursday(18260, 18263);
  }

  lemma NoTwoDigits()
    ensures !TwoDigitYear(2015) && !TwoDigitYear(2019) && !TwoDigitYear(2020) && !TwoDigitYear(2021)
  {
  }

  lemma WeekMondayOfKey(y: int, w: nat, monday: Day)
    requires 1000 <= y <= 9999 && w <= 99 && monday == Week1(y) + (w - 1) * 7
    ensures WeekMonday(Key(y, w)) == Some(monday)
  {
    hide YearStart, Key, MondayOf, Week1;
    ParseKey(y, w);
    January4(y);
  }

  lemma SomeWeeks()
    ensures Week1(2020) == 18260 && Week1(2019) == 17896
  {
    SomeYears();
    hide YearStart;
  }

  /** The weeks the documentation gives: around the end of 2020, which had 53 weeks, and of 2019, which had 52. */
  lemma DocumentedWeeks()
    ensures WeekKeyOf(MakeDay(2015, 0, 1)) == "2015-W01"
    ensures WeekKeyOf(MakeDay(2021, 0, 3)) == "2020-W53" && WeekKeyOf(MakeDay(2021, 0, 4)) == "2021-W01"
    ensures AddWeeks("2020-W53", 1) == Some("2021-W01") && AddWeeks("2019-W52", 1) == Some("2020-W01")
  {
    SomeDays();
    SomeWeeks();
    hide YearStart, Year, MakeDay, WeekKeyOf, Key, WeekMonday, Week1;
    PrintedKeys();
    SomeKeys();
    WeekMondayOfKey(2020, 53, 18624);
    WeekMondayOfKey(2019, 52, 18253);
  }
}
