/**
  Proleptic Gregorian calendar arithmetic in the form ECMAScript's Date uses it,
  without time of day and without time zones. A date is identified by its day
  number: the count of days since 1970-01-01 (day 0, a Thursday). Months are
  0-based, as `getMonth()` returns them; days of the month are 1-based.
*/
module CivilDate {

  /** A calendar date: year, 0-based month, 1-based day of the month. */
  datatype Date = Date(year: int, month: int, day: int)

  predicate IsLeapYear(y: int) {
    y % 4 == 0 && (y % 100 != 0 || y % 400 == 0)
  }

  function DaysInYear(y: int): int {
    if IsLeapYear(y) then 366 else 365
  }

  function DaysInMonth(y: int, m: int): (n: int)
    requires 0 <= m < 12
    ensures 28 <= n <= 31
  {
    if m == 1 then (if IsLeapYear(y) then 29 else 28)
    else if m == 3 || m == 5 || m == 8 || m == 10 then 30
    else 31
  }

  /** The length of month `m` of year `y` for any month number: months outside 0..11 roll over into the years. */
  function MonthDays(y: int, m: int): (n: int)
    ensures 28 <= n <= 31
  {
    DaysInMonth(y + m / 12, m % 12)
  }

  predicate ValidDate(c: Date) {
    0 <= c.month < 12 && 1 <= c.day <= DaysInMonth(c.year, c.month)
  }

  /** The number of days of year `y` that lie before month `m`; `m == 12` gives the whole year. */
  function DaysBeforeMonth(y: int, m: int): (n: int)
    requires 0 <= m <= 12
    ensures m == 12 ==> n == DaysInYear(y)
  {
    var leap := if IsLeapYear(y) then 1 else 0;
    if m == 0 then 0
    else if m == 1 then 31
    else if m == 2 then 59 + leap
    else if m == 3 then 90 + leap
    else if m == 4 then 120 + leap
    else if m == 5 then 151 + leap
    else if m == 6 then 181 + leap
    else if m == 7 then 212 + leap
    else if m == 8 then 243 + leap
    else if m == 9 then 273 + leap
    else if m == 10 then 304 + leap
    else if m == 11 then 334 + leap
    else 365 + leap
  }

  /** The month table is cumulative: month `m` ends where month `m + 1` begins. */
  lemma DaysBeforeMonthStep(y: int, m: int)
    requires 0 <= m < 12
    ensures DaysBeforeMonth(y, m + 1) == DaysBeforeMonth(y, m) + DaysInMonth(y, m)
  {
  }

  /** Months are at least 28 days long, so the table grows strictly. */
  lemma {:induction false} DaysBeforeMonthGrows(y: int, a: int, b: int)
    requires 0 <= a <= b <= 12
    ensures DaysBeforeMonth(y, a) + 28 * (b - a) <= DaysBeforeMonth(y, b)
    decreases b - a
  {
    if a < b {
      DaysBeforeMonthGrows(y, a, b - 1);
      DaysBeforeMonthStep(y, b - 1);
    }
  }

  /** Day number of January 1st of year `y` (ECMAScript DayFromYear), counted year by year from 1970. */
  function DayFromYear(y: int): int
    decreases if y < 1970 then 1970 - y else y - 1970
  {
    if y == 1970 then 0
    else if y > 1970 then DayFromYear(y - 1) + DaysInYear(y - 1)
    else DayFromYear(y + 1) - DaysInYear(y)
  }

  lemma FloorStep4(y: int)
    ensures (y - 1968) / 4 == (y - 1969) / 4 + (if y % 4 == 0 then 1 else 0)
  {
  }

  lemma FloorStep100(y: int)
    ensures (y - 1900) / 100 == (y - 1901) / 100 + (if y % 100 == 0 then 1 else 0)
  {
  }

  lemma FloorStep400(y: int)
    ensures (y - 1600) / 400 == (y - 1601) / 400 + (if y % 400 == 0 then 1 else 0)
  {
  }

  lemma Multiple400Is100(y: int)
    requires y % 400 == 0
    ensures y % 100 == 0
  {
  }

  lemma Multiple100Is4(y: int)
    requires y % 100 == 0
    ensures y % 4 == 0
  {
  }

  /** ECMAScript's closed form of DayFromYear (`/` floors for a positive divisor). */
  function DayFromYearFormula(y: int): int {
    365 * (y - 1970) + (y - 1969) / 4 - (y - 1901) / 100 + (y - 1601) / 400
  }

  lemma FormulaStepBy(y: int, i4: int, i100: int, i400: int)
    requires (y - 1968) / 4 == (y - 1969) / 4 + i4
    requires (y - 1900) / 100 == (y - 1901) / 100 + i100
    requires (y - 1600) / 400 == (y - 1601) / 400 + i400
    ensures DayFromYearFormula(y + 1) == DayFromYearFormula(y) + 365 + i4 - i100 + i400
  {
  }

  /** The closed form also advances by DaysInYear from one year to the next. */
  lemma FormulaStep(y: int)
    ensures DayFromYearFormula(y + 1) == DayFromYearFormula(y) + DaysInYear(y)
  {
    FloorStep4(y);
    FloorStep100(y);
    FloorStep400(y);
    FormulaStepBy(y, if y % 4 == 0 then 1 else 0, if y % 100 == 0 then 1 else 0, if y % 400 == 0 then 1 else 0);
    if y % 400 == 0 {
      Multiple400Is100(y);
    }
    if y % 100 == 0 {
      Multiple100Is4(y);
    }
  }

  /** The year-by-year count agrees with ECMAScript's closed form for every year. */
  lemma {:induction false} DayFromYearIsFormula(y: int)
    ensures DayFromYear(y) == DayFromYearFormula(y)
    decreases if y < 1970 then 1970 - y else y - 1970
  {
    if y > 1970 {
      DayFromYearIsFormula(y - 1);
      FormulaStep(y - 1);
    } else if y < 1970 {
      DayFromYearIsFormula(y + 1);
      FormulaStep(y);
    }
  }

  /** Consecutive years start DaysInYear apart. */
  lemma DayFromYearStep(y: int)
    ensures DayFromYear(y + 1) == DayFromYear(y) + DaysInYear(y)
  {

  }

  /** Between any two years lie at least 365 and at most 366 days per year. */
  lemma {:induction false} DayFromYearBounds(a: int, b: int)
    requires a <= b
    ensures DayFromYear(a) + 365 * (b - a) <= DayFromYear(b) <= DayFromYear(a) + 366 * (b - a)
    decreases b - a
  {
    if a < b {
      DayFromYearBounds(a, b - 1);
      DayFromYearStep(b - 1);
    }
  }

  /** Searches upward from year `y` for the year that contains day `t`. */
  function YearSearch(y: int, t: int): (r: int)
    requires DayFromYear(y) <= t
    ensures DayFromYear(r) <= t < DayFromYear(r + 1)
    decreases t - DayFromYear(y)
  {
    DayFromYearStep(y);
    if t < DayFromYear(y + 1) then y else YearSearch(y + 1, t)
  }

  /** Searches downward from year `y` for the year that contains day `t`. */
  function YearSearchDown(y: int, t: int): (r: int)
    requires t < DayFromYear(y + 1)
    ensures DayFromYear(r) <= t < DayFromYear(r + 1)
    decreases DayFromYear(y) - t
  {
    DayFromYearStep(y - 1);
    if DayFromYear(y) <= t then y else YearSearchDown(y - 1, t)
  }

  /** The year containing day `t` (ECMAScript YearFromTime). */
  function YearFromDay(t: int): (r: int)
    ensures DayFromYear(r) <= t < DayFromYear(r + 1)
  {
    if t >= 0 then YearSearch(1970, t) else YearSearchDown(1969, t)
  }

  /** The month of year `y` in which the `d`-th day (0-based) of that year lies, searching from month `m`. */
  function MonthSearch(y: int, d: int, m: int): (r: int)
    requires 0 <= m < 12 && DaysBeforeMonth(y, m) <= d < DaysBeforeMonth(y, 12)
    ensures m <= r < 12
    ensures DaysBeforeMonth(y, r) <= d < DaysBeforeMonth(y, r + 1)
    decreases 12 - m
  {
    if d < DaysBeforeMonth(y, m + 1) then m else MonthSearch(y, d, m + 1)
  }

  /** The month in which the `d`-th day (0-based) of year `y` lies. */
  function MonthOfYear(y: int, d: int): (m: int)
    requires DayFromYear(y) + d < DayFromYear(y + 1) && 0 <= d
    ensures 0 <= m < 12 && DaysBeforeMonth(y, m) <= d < DaysBeforeMonth(y, m + 1)
  {
    DayFromYearStep(y);
    MonthSearch(y, d, 0)
  }

  /** Day number of a calendar date. */
  function DayNumber(c: Date): int
    requires 0 <= c.month < 12
  {
    DayFromYear(c.year) + DaysBeforeMonth(c.year, c.month) + c.day - 1
  }

  /** A valid date lies inside its year, and inside its month within the year. */
  lemma DayNumberBounds(c: Date)
    requires ValidDate(c)
    ensures DayFromYear(c.year) <= DayNumber(c) < DayFromYear(c.year + 1)
    ensures DayNumber(c) < DayFromYear(c.year) + DaysBeforeMonth(c.year, c.month + 1)
  {
    DayFromYearStep(c.year);
    DaysBeforeMonthStep(c.year, c.month);
    DaysBeforeMonthGrows(c.year, c.month + 1, 12);
  }

  /** Valid dates with the same day number are the same date. */
  lemma DayNumberInjective(a: Date, b: Date)
    requires ValidDate(a) && ValidDate(b) && DayNumber(a) == DayNumber(b)
    ensures a == b
  {
    DayNumberBounds(a);
    DayNumberBounds(b);
    if a.year < b.year {
      DayFromYearBounds(a.year + 1, b.year);
      assert false;
    }
    if b.year < a.year {
      DayFromYearBounds(b.year + 1, a.year);
      assert false;
    }
    if a.month < b.month {
      DaysBeforeMonthGrows(a.year, a.month + 1, b.month);
      assert false;
    }
    if b.month < a.month {
      DaysBeforeMonthGrows(a.year, b.month + 1, a.month);
      assert false;
    }
  }

  /** A valid date for every day: its year by year search, then its month (ECMAScript YearFromTime, MonthFromTime, DateFromTime). */
  function CivilSearch(t: int): (c: Date)
    ensures ValidDate(c) && DayNumber(c) == t
  {
    var y := YearFromDay(t);
    var m := MonthOfYear(y, t - DayFromYear(y));
    DaysBeforeMonthStep(y, m);
    Date(y, m, t - DayFromYear(y) - DaysBeforeMonth(y, m) + 1)
  }

  /** (y, m, d) is a valid date with day number `t`. */
  predicate IsDateOf(y: int, m: int, d: int, t: int) {
    0 <= m < 12 && ValidDate(Date(y, m, d)) && DayNumber(Date(y, m, d)) == t
  }

  /** Years are at least one day long, so the year of day `t` is within `|t|` years of 1970. */
  lemma YearNear1970(c: Date)
    requires ValidDate(c)
    ensures var t := DayNumber(c);
      1969 - (if t < 0 then -t else t) <= c.year <= 1970 + (if t < 0 then -t else t)
  {
    DayNumberBounds(c);
    if c.year >= 1970 {
      DayFromYearBounds(1970, c.year);
    } else {
      DayFromYearBounds(c.year + 1, 1970);
    }
  }

  /**
    The calendar date of day `t`: the one valid date whose day number is `t`.
    CivilSearch shows that it exists, DayNumberInjective that it is unique, and
    YearNear1970 bounds its year.
  */
  function Civil(t: int): (c: Date)
    ensures ValidDate(c) && DayNumber(c) == t
  {
    var bound := if t < 0 then -t else t;
    YearNear1970(CivilSearch(t));
    assert IsDateOf(CivilSearch(t).year, CivilSearch(t).month, CivilSearch(t).day, t);
    assert forall y, m, d, y', m', d' :: IsDateOf(y, m, d, t) && IsDateOf(y', m', d', t) ==> y == y' && m == m' && d == d' by {
      forall y, m, d, y', m', d' | IsDateOf(y, m, d, t) && IsDateOf(y', m', d', t)
        ensures y == y' && m == m' && d == d'
      {
        DayNumberInjective(Date(y, m, d), Date(y', m', d'));
      }
    }
    var y, m, d :| 1969 - bound <= y <= 1970 + bound && 0 <= m < 12 && 1 <= d <= 31 && IsDateOf(y, m, d, t);
    Date(y, m, d)
  }

  /** Every valid date survives the trip through its day number. */
  lemma CivilOfDayNumber(c: Date)
    requires ValidDate(c)
    ensures Civil(DayNumber(c)) == c
  {
    DayNumberInjective(Civil(DayNumber(c)), c);
  }

  /** Different days have different calendar dates. */
  lemma CivilInjective(s: int, t: int)
    requires Civil(s) == Civil(t)
    ensures s == t
  {
  }

  /**
    ECMAScript MakeDay on whole numbers: the day number of day `d` of month `m`
    of year `y`, where a month outside 0..11 moves the year and a day outside the
    month rolls into the neighbouring months (day 0 is the last day of the month before).
  */
  function MakeDay(y: int, m: int, d: int): int {
    var ym := y + m / 12;
    var mn := m % 12;
    DayFromYear(ym) + DaysBeforeMonth(ym, mn) + d - 1
  }

  /** The year that `new Date(y, m, d)` uses: years 0 to 99 mean 1900 to 1999. */
  function FullYear(y: int): int {
    if 0 <= y <= 99 then 1900 + y else y
  }

  /** The day number of `new Date(y, m, d)` in the three-argument form. */
  function NewDate(y: int, m: int, d: int): int {
    MakeDay(FullYear(y), m, d)
  }

  /** `getDay()`: 0 is Sunday; day 0 (1970-01-01) was a Thursday. */
  function WeekDay(t: int): (w: int)
    ensures 0 <= w < 7
  {
    (t + 4) % 7
  }

  /** MakeDay agrees with DayNumber on the normalised year and month. */
  lemma MakeDayIsDayNumber(y: int, m: int, d: int)
    ensures MakeDay(y, m, d) == DayNumber(Date(y + m / 12, m % 12, d))
  {
  }

  /** For a month inside the year, MakeDay is the day number of that date. */
  lemma MakeDayInYear(y: int, m: int, d: int)
    requires 0 <= m < 12
    ensures MakeDay(y, m, d) == DayNumber(Date(y, m, d))
  {
    assert m / 12 == 0 && m % 12 == m;
  }

  /** Day `d` of a month lies `d - 1` days after its first day. */
  lemma MakeDayOffset(y: int, m: int, d: int)
    ensures MakeDay(y, m, d) == MakeDay(y, m, 1) + d - 1
  {
  }

  /** A day inside the normalised month lands on exactly that date. */
  lemma MakeDayValid(y: int, m: int, d: int)
    requires 1 <= d <= MonthDays(y, m)
    ensures Civil(MakeDay(y, m, d)) == Date(y + m / 12, m % 12, d)
  {
    var c := Date(y + m / 12, m % 12, d);
    CivilOfDayNumber(c);
    MakeDayIsDayNumber(y, m, d);
    assert MakeDay(y, m, d) == DayNumber(c);
  }

  /** Inside the year, a day of the month lands on exactly that date. */
  lemma MakeDayValidInYear(y: int, m: int, d: int)
    requires 0 <= m < 12 && 1 <= d <= DaysInMonth(y, m)
    ensures Civil(MakeDay(y, m, d)) == Date(y, m, d)
  {
    assert m / 12 == 0 && m % 12 == m;
    MakeDayValid(y, m, d);
  }

  /** Month 12 is January of the next year. */
  lemma MakeDayValidNextYear(y: int, d: int)
    requires 1 <= d <= 31
    ensures Civil(MakeDay(y, 12, d)) == Date(y + 1, 0, d)
  {
    assert 12 / 12 == 1 && 12 % 12 == 0;
    MakeDayValid(y, 12, d);
  }

  /** The first day of month `m + 1` follows the last day of month `m`, across year ends too. */
  lemma MakeDayNextMonth(y: int, m: int)
    ensures MakeDay(y, m + 1, 1) == MakeDay(y, m, 1) + MonthDays(y, m)
  {
    var ym := y + m / 12;
    if m % 12 == 11 {
      assert (m + 1) / 12 == m / 12 + 1 && (m + 1) % 12 == 0;
      DayFromYearStep(ym);
    } else {
      assert (m + 1) / 12 == m / 12 && (m + 1) % 12 == m % 12 + 1;
    }
  }

  /** Days past the end of a month carry into the next one. */
  lemma MakeDayCarry(y: int, m: int, d: int)
    ensures MakeDay(y, m, d) == MakeDay(y, m + 1, d - MonthDays(y, m))
  {
    MakeDayOffset(y, m, d);
    MakeDayNextMonth(y, m);
    MakeDayOffset(y, m + 1, d - MonthDays(y, m));
  }

  /** A day past the end of month `m`, by at most three, is that many days into the month after. */
  lemma MakeDayCarryValid(y: int, m: int, d: int)
    requires MonthDays(y, m) < d <= 31
    ensures Civil(MakeDay(y, m, d)) == Date(y + (m + 1) / 12, (m + 1) % 12, d - MonthDays(y, m))
  {
    var e := d - MonthDays(y, m);
    MakeDayCarry(y, m, d);
    assert 1 <= e <= MonthDays(y, m + 1);
    MakeDayValid(y, m + 1, e);
  }

  /** Day `d` of the month after month `m` (0..11), which is January of the next year after December. */
  lemma MakeDayValidNextMonth(y: int, m: int, d: int)
    requires 0 <= m < 12 && 1 <= d <= 28
    ensures Civil(MakeDay(y, m + 1, d)) == Date(if m == 11 then y + 1 else y, (m + 1) % 12, d)
  {
    MakeDayValid(y, m + 1, d);
    assert (m + 1) / 12 == if m == 11 then 1 else 0;
  }

  /** Day 0 of month `m + 1` is the last day of month `m`. */
  lemma LastDayOfMonth(y: int, m: int)
    ensures Civil(MakeDay(y, m + 1, 0)) == Date(y + m / 12, m % 12, MonthDays(y, m))
  {
    var n := MonthDays(y, m);
    MakeDayNextMonth(y, m);
    MakeDayOffset(y, m + 1, 0);
    MakeDayOffset(y, m, n);
    assert MakeDay(y, m + 1, 0) == MakeDay(y, m, n);
    MakeDayValid(y, m, n);
  }

  /** 2024 begins 19723 days after 1970. */
  lemma Year2024(y: int)
    requires y == 2024
    ensures DayFromYear(y) == 19723
  {
    DayFromYearIsFormula(y);
  }

  /** The day numbers of the 1st of February, March and April 2024. */
  lemma FirstDays2024(y: int)
    requires y == 2024
    ensures DayNumber(Date(y, 1, 1)) == 19754
    ensures DayNumber(Date(y, 2, 1)) == 19783 && DayNumber(Date(y, 3, 1)) == 19814
  {
    Year2024(y);
  }
}
