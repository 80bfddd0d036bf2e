/**
 * The proleptic Gregorian calendar the Python `datetime` module works in:
 * dates, their ordinal day numbers (0001-01-01 is day 1), the day after a
 * date, and the 400/100/4/1-year cycle decomposition that turns an ordinal
 * back into a date.
 *
 * The reference definitions (DaysBeforeYear, DaysBeforeMonth, Ordinal,
 * NextDay) count days one year or one month at a time. FromOrdinal is the
 * fast conversion; the lemmas at the end prove that it inverts Ordinal and
 * that it moves to NextDay when the ordinal grows by one.
 */
module Civil {
  import opened Arith

  datatype Date = Date(year: int, month: int, day: int)

  /** Largest year a Python `date` can hold */
  const MaxYear := 9999

  predicate IsLeapYear(y: int) {
    y % 4 == 0 && (y % 100 != 0 || y % 400 == 0)
  }

  function DaysInYear(y: int): int {
    if IsLeapYear(y) then 366 else 365
  }

  function DaysInMonth(y: int, m: int): int
    requires 1 <= m <= 12
  {
    if m == 2 then (if IsLeapYear(y) then 29 else 28)
    else if m == 4 || m == 6 || m == 9 || m == 11 then 30
    else 31
  }

  predicate IsValid(d: Date) {
    1 <= d.year && 1 <= d.month <= 12 && 1 <= d.day <= DaysInMonth(d.year, d.month)
  }

  /** Number of days in the years 1 .. y-1 */
  function DaysBeforeYear(y: int): nat
    requires 1 <= y
  {
    if y == 1 then 0 else DaysBeforeYear(y - 1) + DaysInYear(y - 1)
  }

  /** Number of days in the months 1 .. m-1 of year y */
  function DaysBeforeMonth(y: int, m: int): nat
    requires 1 <= m <= 12
  {
    if m == 1 then 0 else DaysBeforeMonth(y, m - 1) + DaysInMonth(y, m - 1)
  }

  /** Day number of a date, counting 0001-01-01 as day 1 */
  function Ordinal(d: Date): int
    requires IsValid(d)
  {
    DaysBeforeYear(d.year) + DaysBeforeMonth(d.year, d.month) + d.day
  }

  /** Ordinal of 9999-12-31, the last day a Python `date` can hold */
  const MaxOrdinal := 3652059

  /** The calendar day after d */
  function NextDay(d: Date): (r: Date)
    requires IsValid(d)
    ensures IsValid(r) && Ordinal(r) == Ordinal(d) + 1
  {
    if d.day < DaysInMonth(d.year, d.month) then Date(d.year, d.month, d.day + 1)
    else if d.month < 12 then Date(d.year, d.month + 1, 1)
    else
      YearLength(d.year);
      Date(d.year + 1, 1, 1)
  }

  // ---------------------------------------------------------------------
  // The fast conversion from ordinal to date
  // ---------------------------------------------------------------------

  /** Days before month m in a common year (index 0 unused) */
  function CommonDaysBeforeMonth(m: int): int
    requires 1 <= m <= 12
  {
    [0, 0, 31, 59, 90, 120, 151, 181, 212, 243, 273, 304, 334][m]
  }

  /** Days in month m of a common year (index 0 unused) */
  function CommonDaysInMonth(m: int): int
    requires 1 <= m <= 12
  {
    [0, 31, 28, 31, 30, 31, 30, 31, 31, 30, 31, 30, 31][m]
  }

  /** A day count split into whole 400-, 100-, 4- and 1-year cycles */
  datatype Cycles = Cycles(n400: int, n100: int, n4: int, n1: int, rest: int)

  /**
   * Mixed-radix split of n0 days since 0001-01-01: a 400-year cycle has
   * 146097 days, a 100-year cycle 36524, a 4-year cycle 1461 and a year 365.
   * A quotient of 4 in the 100- or 1-year place only happens on the last
   * day of a leap year, and then nothing is left over.
   */
  function Decompose(n0: nat): (c: Cycles)
    ensures n0 == 146097 * c.n400 + 36524 * c.n100 + 1461 * c.n4 + 365 * c.n1 + c.rest
    ensures 0 <= c.n400 && 0 <= c.n100 <= 4 && 0 <= c.n4 <= 24 && 0 <= c.n1 <= 4 && 0 <= c.rest < 365
    ensures c.n100 == 4 ==> c.n4 == 0 && c.n1 == 0 && c.rest == 0
    ensures c.n1 == 4 ==> c.rest == 0 && c.n4 <= 23
  {
    var n400 := n0 / 146097;
    var r400 := n0 % 146097;
    var n100 := r400 / 36524;
    var r100 := r400 % 36524;
    var n4 := r100 / 1461;
    var r4 := r100 % 1461;
    Cycles(n400, n100, n4, r4 / 365, r4 % 365)
  }

  /**
   * Month and day of the zero-based day r of a year: guess the month from
   * (r + 50) / 32, then step back one month if the guess is too late.
   */
  function MonthAndDay(r: int, leap: bool): (int, int)
    requires 0 <= r < 365
  {
    var month := (r + 50) / 32;
    var preceding := CommonDaysBeforeMonth(month) + (if month > 2 && leap then 1 else 0);
    if preceding > r then
      var prev := month - 1;
      var preceding' := preceding - (CommonDaysInMonth(prev) + (if prev == 2 && leap then 1 else 0));
      (prev, r - preceding' + 1)
    else
      (month, r - preceding + 1)
  }

  /** The date whose ordinal is n */
  function FromOrdinal(n: int): Date
    requires 1 <= n
  {
    var c := Decompose(n - 1);
    var year := c.n400 * 400 + 1 + c.n100 * 100 + c.n4 * 4 + c.n1;
    if c.n1 == 4 || c.n100 == 4 then
      Date(year - 1, 12, 31)
    else
      var leap := c.n1 == 3 && (c.n4 != 24 || c.n100 == 3);
      var (month, day) := MonthAndDay(c.rest, leap);
      Date(year, month, day)
  }

  // ---------------------------------------------------------------------
  // Arithmetic helpers
  // ---------------------------------------------------------------------

  /** x / k grows by one exactly when k divides x */
  lemma DivStep(x: int, k: int)
    requires 0 < k
    ensures x / k - (x - 1) / k == (if x % k == 0 then 1 else 0)
  {
    var q, r := x / k, x % k;
    if r == 0 {
      DivModUnique(x - 1, k, q - 1, k - 1);
    } else {
      DivModUnique(x - 1, k, q, r - 1);
    }
  }

  lemma DividesChain(x: int)
    ensures x % 400 == 0 ==> x % 100 == 0
    ensures x % 100 == 0 ==> x % 4 == 0
  {
    if x % 400 == 0 {
      DivModUnique(x, 100, 4 * (x / 400), 0);
    }
    if x % 100 == 0 {
      DivModUnique(x, 4, 25 * (x / 100), 0);
    }
  }

  // ---------------------------------------------------------------------
  // Facts about the reference definitions
  // ---------------------------------------------------------------------

  /** The closed form Python's `_days_before_year` uses */
  lemma {:induction false} DaysBeforeYearClosedForm(y: int)
    requires 1 <= y
    ensures DaysBeforeYear(y) == 365 * (y - 1) + (y - 1) / 4 - (y - 1) / 100 + (y - 1) / 400
  {
    if y > 1 {
      DaysBeforeYearClosedForm(y - 1);
      var p := y - 1;
      DivStep(p, 4);
      DivStep(p, 100);
      DivStep(p, 400);
      DividesChain(p);
    }
  }

  lemma {:induction false} DaysBeforeYearMonotone(y1: int, y2: int)
    requires 1 <= y1 <= y2
    ensures DaysBeforeYear(y1) + 365 * (y2 - y1) <= DaysBeforeYear(y2)
  {
    if y1 < y2 {
      DaysBeforeYearMonotone(y1, y2 - 1);
    }
  }

  /** The month table is the running sum of the month lengths */
  lemma DaysBeforeMonthTable(y: int, m: int)
    requires 1 <= m <= 12
    ensures DaysBeforeMonth(y, m) == CommonDaysBeforeMonth(m) + (if m > 2 && IsLeapYear(y) then 1 else 0)
    ensures CommonDaysInMonth(m) + (if m == 2 && IsLeapYear(y) then 1 else 0) == DaysInMonth(y, m)
  {
    if m > 1 {
      DaysBeforeMonthTable(y, m - 1);
    }
  }

  lemma DaysBeforeMonthBounds(y: int, m1: int, m2: int)
    requires 1 <= m1 < m2 <= 12
    ensures DaysBeforeMonth(y, m1) + DaysInMonth(y, m1) <= DaysBeforeMonth(y, m2)
  {
    DaysBeforeMonthTable(y, m1);
    DaysBeforeMonthTable(y, m2);
  }

  lemma YearLength(y: int)
    ensures DaysBeforeMonth(y, 12) + 31 == DaysInYear(y)
  {
    DaysBeforeMonthTable(y, 12);
  }

  /** A valid date of year y lies within the days of year y */
  lemma OrdinalWithinYear(d: Date)
    requires IsValid(d)
    ensures DaysBeforeYear(d.year) < Ordinal(d) <= DaysBeforeYear(d.year + 1)
  {
    YearLength(d.year);
    if d.month < 12 {
      DaysBeforeMonthBounds(d.year, d.month, 12);
    }
  }

  /** A date is in a year before y exactly when its ordinal is at most the days before y */
  lemma YearBelowByOrdinal(d: Date, y: int)
    requires IsValid(d) && 1 <= y
    ensures d.year < y <==> Ordinal(d) <= DaysBeforeYear(y)
  {
    OrdinalWithinYear(d);
    if d.year < y {
      DaysBeforeYearMonotone(d.year + 1, y);
    } else {
      DaysBeforeYearMonotone(y, d.year);
    }
  }

  /** Two valid dates with the same ordinal are the same date */
  lemma OrdinalInjective(d1: Date, d2: Date)
    requires IsValid(d1) && IsValid(d2)
    requires Ordinal(d1) == Ordinal(d2)
    ensures d1 == d2
  {
    YearBelowByOrdinal(d1, d2.year);
    YearBelowByOrdinal(d2, d1.year);
    OrdinalWithinYear(d1);
    OrdinalWithinYear(d2);
    assert d1.year == d2.year;
    var y := d1.year;
    if d1.month < d2.month {
      DaysBeforeMonthBounds(y, d1.month, d2.month);
    } else if d2.month < d1.month {
      DaysBeforeMonthBounds(y, d2.month, d1.month);
    }
  }

  // ---------------------------------------------------------------------
  // FromOrdinal inverts Ordinal
  // ---------------------------------------------------------------------

  /** The month guess lands on the right month with the right day */
  lemma MonthAndDayCorrect(y: int, r: int)
    requires 0 <= r < 365
    ensures var (m, d) := MonthAndDay(r, IsLeapYear(y));
      1 <= m <= 12 && 1 <= d <= DaysInMonth(y, m) && DaysBeforeMonth(y, m) + d - 1 == r
  {
    var (m, d) := MonthAndDay(r, IsLeapYear(y));
    var guess := (r + 50) / 32;
    assert 1 <= guess <= 12;
    DaysBeforeMonthTable(y, guess);
    DaysBeforeMonthTable(y, m);
    if guess < 12 {
      DaysBeforeMonthTable(y, guess + 1);
    }
  }

  /** Which years the leap flag of FromOrdinal marks as leap years */
  lemma LeapFlagCorrect(c: Cycles)
    requires 0 <= c.n400 && 0 <= c.n100 <= 3 && 0 <= c.n4 <= 24 && 0 <= c.n1 <= 3
    ensures var year := c.n400 * 400 + 1 + c.n100 * 100 + c.n4 * 4 + c.n1;
      IsLeapYear(year) <==> (c.n1 == 3 && (c.n4 != 24 || c.n100 == 3))
  {
    var year := c.n400 * 400 + 1 + c.n100 * 100 + c.n4 * 4 + c.n1;
    if c.n1 < 3 {
      DivModUnique(year, 4, 100 * c.n400 + 25 * c.n100 + c.n4, c.n1 + 1);
    } else if c.n4 < 24 {
      DivModUnique(year, 4, 100 * c.n400 + 25 * c.n100 + c.n4 + 1, 0);
      DivModUnique(year, 100, 4 * c.n400 + c.n100, 4 * c.n4 + 4);
    } else if c.n100 < 3 {
      DivModUnique(year, 100, 4 * c.n400 + c.n100 + 1, 0);
      DividesChain(year);
      DivModUnique(year, 400, c.n400, 100 * c.n100 + 100);
    } else {
      DivModUnique(year, 400, c.n400 + 1, 0);
      DividesChain(year);
    }
  }

  /** Days before the year FromOrdinal computes, in terms of the cycles */
  lemma CycleYearStart(c: Cycles)
    requires 0 <= c.n400 && 0 <= c.n100 <= 3 && 0 <= c.n4 <= 24 && 0 <= c.n1 <= 3
    ensures var year := c.n400 * 400 + 1 + c.n100 * 100 + c.n4 * 4 + c.n1;
      DaysBeforeYear(year) == 146097 * c.n400 + 36524 * c.n100 + 1461 * c.n4 + 365 * c.n1
  {
    var p := c.n400 * 400 + c.n100 * 100 + c.n4 * 4 + c.n1;
    DaysBeforeYearClosedForm(p + 1);
    DivModUnique(p, 4, 100 * c.n400 + 25 * c.n100 + c.n4, c.n1);
    DivModUnique(p, 100, 4 * c.n400 + c.n100, 4 * c.n4 + c.n1);
    DivModUnique(p, 400, c.n400, 100 * c.n100 + 4 * c.n4 + c.n1);
  }

  /** 31 December of the year before y, when y - 1 is a leap year */
  lemma LastDayOfLeapYear(y: int, n: int)
    requires 2 <= y && IsLeapYear(y - 1) && n == DaysBeforeYear(y)
    ensures IsValid(Date(y - 1, 12, 31)) && Ordinal(Date(y - 1, 12, 31)) == n
  {
    YearLength(y - 1);
  }

  /** The last day of a 400-year or a 4-year cycle is 31 December of a leap year */
  lemma FromOrdinalCycleEnd(n: int)
    requires 1 <= n
    requires Decompose(n - 1).n100 == 4 || Decompose(n - 1).n1 == 4
    ensures IsValid(FromOrdinal(n)) && Ordinal(FromOrdinal(n)) == n
  {
    var c := Decompose(n - 1);
    var year := c.n400 * 400 + 1 + c.n100 * 100 + c.n4 * 4 + c.n1;
    var last := if c.n100 == 4 then Cycles(c.n400, 3, 24, 3, 0) else Cycles(c.n400, c.n100, c.n4, 3, 0);
    assert year - 1 == last.n400 * 400 + 1 + last.n100 * 100 + last.n4 * 4 + last.n1;
    CycleYearStart(last);
    LeapFlagCorrect(last);
    assert DaysBeforeYear(year) == DaysBeforeYear(year - 1) + 366;
    LastDayOfLeapYear(year, n);
    assert FromOrdinal(n) == Date(year - 1, 12, 31);
  }

  /** Any other ordinal falls inside the year the cycles count up to */
  lemma FromOrdinalInsideYear(n: int)
    requires 1 <= n
    requires Decompose(n - 1).n100 < 4 && Decompose(n - 1).n1 < 4
    ensures IsValid(FromOrdinal(n)) && Ordinal(FromOrdinal(n)) == n
  {
    var c := Decompose(n - 1);
    var year := c.n400 * 400 + 1 + c.n100 * 100 + c.n4 * 4 + c.n1;
    CycleYearStart(c);
    LeapFlagCorrect(c);
    MonthAndDayCorrect(year, c.rest);
    var (month, day) := MonthAndDay(c.rest, IsLeapYear(year));
    assert FromOrdinal(n) == Date(year, month, day);
  }

  /** FromOrdinal yields a valid date whose ordinal is n */
  lemma FromOrdinalCorrect(n: int)
    requires 1 <= n
    ensures IsValid(FromOrdinal(n)) && Ordinal(FromOrdinal(n)) == n
  {
    var c := Decompose(n - 1);
    if c.n100 == 4 || c.n1 == 4 {
      FromOrdinalCycleEnd(n);
    } else {
      FromOrdinalInsideYear(n);
    }
  }

  /** FromOrdinal undoes Ordinal */
  lemma FromOrdinalOfOrdinal(d: Date)
    requires IsValid(d)
    ensures 1 <= Ordinal(d) && FromOrdinal(Ordinal(d)) == d
  {
    FromOrdinalCorrect(Ordinal(d));
    OrdinalInjective(FromOrdinal(Ordinal(d)), d);
  }

  /** The ordinal after that of d is the ordinal of the next calendar day */
  lemma {:induction false} SuccessorOrdinal(d: Date, n: int)
    requires IsValid(d) && Ordinal(d) == n
    ensures FromOrdinal(n + 1) == NextDay(d)
  {
    FromOrdinalOfOrdinal(NextDay(d));
  }

  /** Adding one to an ordinal moves the date to the next calendar day */
  lemma {:induction false} FromOrdinalSuccessor(n: int)
    requires 1 <= n
    ensures IsValid(FromOrdinal(n)) && FromOrdinal(n + 1) == NextDay(FromOrdinal(n))
  {
    FromOrdinalCorrect(n);
    SuccessorOrdinal(FromOrdinal(n), n);
  }
}
