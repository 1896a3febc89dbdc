/**
 The proleptic Gregorian calendar: dates, their day numbers counted from the first of January
 of the year 0, and the integers `YYYYMMDD` and `YYYYMM` that dates are compared as. The results
 are that day numbers and dates determine each other, and that comparing the integers is
 comparing the dates.
 */
module CivilCalendar {
  import opened Arithmetic

  datatype Date = Date(year: nat, month: nat, day: nat)

  predicate IsLeap(year: nat) {
    year % 4 == 0 && (year % 100 != 0 || year % 400 == 0)
  }

  function DaysInYear(year: nat): nat {
    if IsLeap(year) then 366 else 365
  }

  function DaysInMonth(year: nat, month: nat): (d: nat)
    requires 1 <= month <= 12
    ensures 28 <= d <= 31
  {
    if month == 2 then (if IsLeap(year) then 29 else 28)
    else if month == 4 || month == 6 || month == 9 || month == 11 then 30
    else 31
  }

  predicate Valid(d: Date) {
    1 <= d.month <= 12 && 1 <= d.day <= DaysInMonth(d.year, d.month)
  }

  function DaysBeforeYear(year: nat): nat {
    if year == 0 then 0 else DaysBeforeYear(year - 1) + DaysInYear(year - 1)
  }

  function DaysBeforeMonth(year: nat, month: nat): nat
    requires 1 <= month <= 13
  {
    if month == 1 then 0 else DaysBeforeMonth(year, month - 1) + DaysInMonth(year, month - 1)
  }

  function DayNumber(d: Date): nat
    requires Valid(d)
  {
    DaysBeforeYear(d.year) + DaysBeforeMonth(d.year, d.month) + d.day - 1
  }

  /** The date `n` days after the first of `month`. */
  function InMonths(year: nat, month: nat, n: nat): Date
    requires 1 <= month <= 12
    decreases 12 - month
  {
    if month == 12 || n < DaysInMonth(year, month) then Date(year, month, n + 1)
    else InMonths(year, month + 1, n - DaysInMonth(year, month))
  }

  /** The date `n` days after the first of January of `year`. */
  function InYears(year: nat, n: nat): Date
    decreases n
  {
    if n < DaysInYear(year) then InMonths(year, 1, n) else InYears(year + 1, n - DaysInYear(year))
  }

  function CivilOf(n: nat): Date {
    InYears(0, n)
  }

  lemma MonthsFillYear(year: nat)
    ensures DaysBeforeMonth(year, 13) == DaysInYear(year)
  {
    assert DaysBeforeMonth(year, 2) == 31;
    assert DaysBeforeMonth(year, 3) == 31 + DaysInMonth(year, 2);
    assert DaysBeforeMonth(year, 5) == DaysBeforeMonth(year, 3) + 61;
    assert DaysBeforeMonth(year, 7) == DaysBeforeMonth(year, 5) + 61;
    assert DaysBeforeMonth(year, 9) == DaysBeforeMonth(year, 7) + 62;
    assert DaysBeforeMonth(year, 11) == DaysBeforeMonth(year, 9) + 61;
    assert DaysBeforeMonth(year, 13) == DaysBeforeMonth(year, 11) + 61;
  }

  lemma {:induction false} InMonthsNumber(year: nat, month: nat, n: nat)
    requires 1 <= month <= 12
    requires DaysBeforeMonth(year, month) + n < DaysInYear(year)
    ensures var d := InMonths(year, month, n);
            Valid(d) && d.year == year && DaysBeforeMonth(year, d.month) + d.day - 1 == DaysBeforeMonth(year, month) + n
    decreases 12 - month
  {
    MonthsFillYear(year);
    if month < 12 && n >= DaysInMonth(year, month) {
      InMonthsNumber(year, month + 1, n - DaysInMonth(year, month));
    }
  }

  lemma {:induction false} InYearsNumber(year: nat, n: nat)
    ensures Valid(InYears(year, n)) && DayNumber(InYears(year, n)) == DaysBeforeYear(year) + n
    decreases n
  {
    if n < DaysInYear(year) {
      InMonthsNumber(year, 1, n);
    } else {
      InYearsNumber(year + 1, n - DaysInYear(year));
    }
  }

  /** Every day number is that of the date it is turned into. */
  lemma NumberOfCivil(n: nat)
    ensures Valid(CivilOf(n)) && DayNumber(CivilOf(n)) == n
  {
    InYearsNumber(0, n);
  }

  /** The usual closed form: every fourth year is longer by a day, except centuries, except every
      fourth century. */
  lemma {:induction false} DaysBeforeYearClosed(year: nat)
    ensures DaysBeforeYear(year) == 365 * year + (year + 3) / 4 - (year + 99) / 100 + (year + 399) / 400
  {
    if year > 0 {
      DaysBeforeYearClosed(year - 1);
      CountStep(year - 1, 4);
      CountStep(year - 1, 100);
      CountStep(year - 1, 400);
      if (year - 1) % 400 == 0 {
        Divides(year - 1, 100, 4);
      }
      if (year - 1) % 100 == 0 {
        Divides(year - 1, 4, 25);
      }
    }
  }

  lemma Divides(n: nat, k: nat, m: nat)
    requires k > 0 && m > 0 && n % (k * m) == 0
    ensures n % k == 0
  {
    assert n == n / (k * m) * (k * m);
    assert n / (k * m) * (k * m) == (n / (k * m) * m) * k;
    DivModUnique(n / (k * m) * m, 0, k);
  }

  /** Multiples of `k` below a bound, counted by rounding up. */
  lemma CountStep(n: nat, k: nat)
    requires k > 0
    ensures (n + 1 + (k - 1)) / k == (n + (k - 1)) / k + if n % k == 0 then 1 else 0
  {
    var q, r := n / k, n % k;
    assert n == q * k + r;
    if r == 0 {
      DivModUnique(q, k - 1, k);
    } else {
      assert n + (k - 1) == (q + 1) * k + (r - 1);
      DivModUnique(q + 1, r - 1, k);
    }
    assert n + k == (q + 1) * k + r;
    DivModUnique(q + 1, r, k);
  }

  /** The start of 1970 is day 719528. */
  lemma EpochDay()
    ensures DaysBeforeYear(EPOCH_YEAR) == 719_528
  {
    DaysBeforeYearClosed(EPOCH_YEAR);
  }

  /** Days before a month, by the usual closed form that counts from March. */
  lemma DaysBeforeMonthClosed(year: nat, month: nat)
    requires 1 <= month <= 12
    ensures month == 1 ==> DaysBeforeMonth(year, month) == 0
    ensures month == 2 ==> DaysBeforeMonth(year, month) == 31
    ensures month >= 3 ==>
              DaysBeforeMonth(year, month) == (153 * (month - 3) + 2) / 5 + if IsLeap(year) then 60 else 59
  {
    FirstMonths(year);
    if month >= 8 {
      MonthsToAugust(year);
      LastMonths(year);
    } else if month >= 3 {
      MonthsToAugust(year);
    }
  }

  lemma FirstMonths(year: nat)
    ensures DaysBeforeMonth(year, 1) == 0 && DaysBeforeMonth(year, 2) == 31
    ensures DaysBeforeMonth(year, 3) == if IsLeap(year) then 60 else 59
  {
  }

  lemma MonthsToAugust(year: nat)
    ensures var march := DaysBeforeMonth(year, 3);
            && DaysBeforeMonth(year, 4) == march + 31 && DaysBeforeMonth(year, 5) == march + 61
            && DaysBeforeMonth(year, 6) == march + 92 && DaysBeforeMonth(year, 7) == march + 122
            && DaysBeforeMonth(year, 8) == march + 153
  {
    assert DaysBeforeMonth(year, 4) == DaysBeforeMonth(year, 3) + 31;
    assert DaysBeforeMonth(year, 5) == DaysBeforeMonth(year, 4) + 30;
    assert DaysBeforeMonth(year, 6) == DaysBeforeMonth(year, 5) + 31;
    assert DaysBeforeMonth(year, 7) == DaysBeforeMonth(year, 6) + 30;
    assert DaysBeforeMonth(year, 8) == DaysBeforeMonth(year, 7) + 31;
  }

  lemma LastMonths(year: nat)
    ensures var august := DaysBeforeMonth(year, 8);
            && DaysBeforeMonth(year, 9) == august + 31 && DaysBeforeMonth(year, 10) == august + 61
            && DaysBeforeMonth(year, 11) == august + 92 && DaysBeforeMonth(year, 12) == august + 122
  {
    assert DaysBeforeMonth(year, 9) == DaysBeforeMonth(year, 8) + 31;
    assert DaysBeforeMonth(year, 10) == DaysBeforeMonth(year, 9) + 30;
    assert DaysBeforeMonth(year, 11) == DaysBeforeMonth(year, 10) + 31;
    assert DaysBeforeMonth(year, 12) == DaysBeforeMonth(year, 11) + 30;
  }

  /** The day number of a date without any recursion: years and months counted from March, so that a leap day
      ends the year. */
  lemma DayNumberClosed(d: Date)
    requires Valid(d)
    ensures var y := if d.month <= 2 then d.year - 1 else d.year;
            var m := if d.month <= 2 then d.month + 9 else d.month - 3;
            DayNumber(d) == 365 * y + y / 4 - y / 100 + y / 400 + (153 * m + 2) / 5 + d.day - 1 + 60
  {
    DaysBeforeYearClosed(d.year);
    DaysBeforeMonthClosed(d.year, d.month);
    LeapCount(d.year);
  }

  /** The leap years before and up to a year, in the two ways of rounding. */
  lemma LeapCount(year: nat)
    ensures var before := (year + 3) / 4 - (year + 99) / 100 + (year + 399) / 400;
            && before == (year - 1) / 4 - (year - 1) / 100 + (year - 1) / 400 + 1
            && before + (if IsLeap(year) then 1 else 0) == year / 4 - year / 100 + year / 400 + 1
  {
    if year % 400 == 0 {
      Divides(year, 100, 4);
    }
    if year % 100 == 0 {
      Divides(year, 4, 25);
    }
    UpAndDown4(year);
    UpAndDown100(year);
    UpAndDown400(year);
  }

  lemma UpAndDown4(n: nat)
    ensures (n + 3) / 4 == (n - 1) / 4 + 1 && (n + 3) / 4 + (if n % 4 == 0 then 1 else 0) == n / 4 + 1
  {
  }

  lemma UpAndDown100(n: nat)
    ensures (n + 99) / 100 == (n - 1) / 100 + 1 && (n + 99) / 100 + (if n % 100 == 0 then 1 else 0) == n / 100 + 1
  {
  }

  lemma UpAndDown400(n: nat)
    ensures (n + 399) / 400 == (n - 1) / 400 + 1 && (n + 399) / 400 + (if n % 400 == 0 then 1 else 0) == n / 400 + 1
  {
  }

  // ---------------------------------------------------------------------------
  // Order
  // ---------------------------------------------------------------------------

  predicate Before(a: Date, b: Date) {
    a.year < b.year || (a.year == b.year && (a.month < b.month || (a.month == b.month && a.day < b.day)))
  }

  lemma {:induction false} YearsGrow(a: nat, b: nat)
    requires a < b
    ensures DaysBeforeYear(a) + DaysInYear(a) <= DaysBeforeYear(b)
    decreases b
  {
    if a < b - 1 {
      YearsGrow(a, b - 1);
    }
  }

  lemma {:induction false} MonthsGrow(year: nat, a: nat, b: nat)
    requires 1 <= a < b <= 13
    ensures DaysBeforeMonth(year, a) + DaysInMonth(year, a) <= DaysBeforeMonth(year, b)
    decreases b
  {
    if a < b - 1 {
      MonthsGrow(year, a, b - 1);
    }
  }

  lemma NumberWithinYear(d: Date)
    requires Valid(d)
    ensures DaysBeforeYear(d.year) <= DayNumber(d) < DaysBeforeYear(d.year) + DaysInYear(d.year)
  {
    MonthsFillYear(d.year);
    MonthsGrow(d.year, d.month, 13);
  }

  lemma BeforeIsSmaller(a: Date, b: Date)
    requires Valid(a) && Valid(b) && Before(a, b)
    ensures DayNumber(a) < DayNumber(b)
  {
    if a.year < b.year {
      NumberWithinYear(a);
      NumberWithinYear(b);
      YearsGrow(a.year, b.year);
    } else if a.month < b.month {
      MonthsGrow(a.year, a.month, b.month);
    }
  }

  /** Dates come in the order of their day numbers. */
  lemma NumberOrder(a: Date, b: Date)
    requires Valid(a) && Valid(b)
    ensures Before(a, b) <==> DayNumber(a) < DayNumber(b)
    ensures a == b <==> DayNumber(a) == DayNumber(b)
  {
    if Before(a, b) {
      BeforeIsSmaller(a, b);
    } else if Before(b, a) {
      BeforeIsSmaller(b, a);
    }
  }

  lemma CivilOfNumber(d: Date)
    requires Valid(d)
    ensures CivilOf(DayNumber(d)) == d
  {
    NumberOfCivil(DayNumber(d));
    NumberOrder(d, CivilOf(DayNumber(d)));
  }

  // ---------------------------------------------------------------------------
  // Dates as integers
  // ---------------------------------------------------------------------------

  function Yyyymmdd(d: Date): nat {
    d.year * 10000 + d.month * 100 + d.day
  }

  function Yyyymm(year: nat, month: nat): nat {
    year * 100 + month
  }

  /** Months counted from January of the year 0. */
  function MonthIndex(year: nat, month: nat): int {
    year * 12 + month - 1
  }

  /** Comparing `YYYYMMDD` integers is comparing day numbers. */
  lemma DayIntegersOrder(a: Date, b: Date)
    requires Valid(a) && Valid(b)
    ensures Yyyymmdd(a) < Yyyymmdd(b) <==> DayNumber(a) < DayNumber(b)
    ensures Yyyymmdd(a) == Yyyymmdd(b) <==> DayNumber(a) == DayNumber(b)
  {
    NumberOrder(a, b);
  }

  /** Comparing `YYYYMM` integers is comparing month indices. */
  lemma MonthIntegersOrder(year: nat, month: nat, otherYear: nat, otherMonth: nat)
    requires 1 <= month <= 12 && 1 <= otherMonth <= 12
    ensures Yyyymm(year, month) < Yyyymm(otherYear, otherMonth)
            <==> MonthIndex(year, month) < MonthIndex(otherYear, otherMonth)
    ensures Yyyymm(year, month) == Yyyymm(otherYear, otherMonth)
            <==> MonthIndex(year, month) == MonthIndex(otherYear, otherMonth)
  {
  }

  lemma {:induction false} YearsAreLong(year: nat)
    ensures DaysBeforeYear(year) >= 365 * year
  {
    if year > 0 {
      YearsAreLong(year - 1);
    }
  }

  // ---------------------------------------------------------------------------
  // Moments
  // ---------------------------------------------------------------------------

  const MS_PER_DAY: nat := 86_400_000
  const EPOCH_YEAR: nat := 1970

  /** The day number of a moment, in milliseconds since the start of 1970; moments before the
      year 0 are taken as its first day. */
  function DayOfMoment(ms: int): nat {
    var n := DaysBeforeYear(EPOCH_YEAR) + ms / MS_PER_DAY;
    if n < 0 then 0 else n
  }

  /** The UTC date of a moment. */
  function DateOfMoment(ms: int): Date {
    CivilOf(DayOfMoment(ms))
  }

  /** The day of a moment: whole days of 86,400,000 milliseconds since the first of January 1970. */
  lemma MomentDay(k: nat, r: nat)
    requires r < 86_400_000
    ensures Valid(Date(1970, 1, 1)) && DayNumber(Date(1970, 1, 1)) == 719_528
    ensures DayOfMoment(86_400_000 * k + r) == 719_528 + k
  {
    EpochDay();
    assert (86_400_000 * k + r) / 86_400_000 == k;
  }

  /** Moment `now` falls on this day of the calendar: as many whole days after the first of January 1970. */
  predicate FallsOn(now: nat, today: Date) {
    && Valid(today)
    && DayNumber(today) == 719_528 + now / 86_400_000
  }

  lemma DateOfToday(now: nat, today: Date)
    requires FallsOn(now, today)
    ensures DateOfMoment(now) == today && DayOfMoment(now) == DayNumber(today)
  {
    MomentDay(now / 86_400_000, now % 86_400_000);
    assert now == 86_400_000 * (now / 86_400_000) + now % 86_400_000;
    CivilOfNumber(today);
  }

  /** Every moment from 1970 on falls on one day. */
  lemma TodayExists(now: nat)
    ensures FallsOn(now, DateOfMoment(now))
    ensures forall today | FallsOn(now, today) :: today == DateOfMoment(now)
  {
    MomentDay(now / 86_400_000, now % 86_400_000);
    assert now == 86_400_000 * (now / 86_400_000) + now % 86_400_000;
    NumberOfCivil(DayOfMoment(now));
    forall today | FallsOn(now, today)
      ensures today == DateOfMoment(now)
    {
      DateOfToday(now, today);
    }
  }

  lemma ShiftDays(ms: nat, days: int)
    requires -1000 <= days <= 1000
    ensures DayOfMoment(ms - days * MS_PER_DAY) == DayOfMoment(ms) - days
  {
    YearsAreLong(EPOCH_YEAR);
    assert (ms - days * MS_PER_DAY) / MS_PER_DAY == ms / MS_PER_DAY - days;
  }
}
