/** Calendar arithmetic on day numbers. Day 0 is 1970-01-01, a Thursday, the epoch of
    the timestamps the dashboard reads; dates carry no time of day. */
module Calendar {

  datatype Date = Date(year: int, month: int, day: int)

  const EPOCH_YEAR: int := 1970

  predicate IsLeapYear(y: int)
  {
    (y % 4 == 0 && y % 100 != 0) || y % 400 == 0
  }

  function YearLength(y: int): int
  {
    if IsLeapYear(y) then 366 else 365
  }

  function MonthLength(y: int, m: int): int
  {
    if m == 2 then (if IsLeapYear(y) then 29 else 28)
    else if m == 4 || m == 6 || m == 9 || m == 11 then 30
    else 31
  }

  /** Days of year `y` that come before the first of month `m`. */
  function DaysBeforeMonth(y: int, m: int): (n: int)
    requires 1 <= m <= 12
    ensures 0 <= n <= 31 * (m - 1)
  {
    if m == 1 then 0 else DaysBeforeMonth(y, m - 1) + MonthLength(y, m - 1)
  }

  lemma DecemberEndsYear(y: int)
    ensures DaysBeforeMonth(y, 12) + MonthLength(y, 12) == YearLength(y)
  {
    var leap := if IsLeapYear(y) then 1 else 0;
    assert DaysBeforeMonth(y, 3) == 59 + leap;
    assert DaysBeforeMonth(y, 4) == 90 + leap;
    assert DaysBeforeMonth(y, 5) == 120 + leap;
    assert DaysBeforeMonth(y, 6) == 151 + leap;
    assert DaysBeforeMonth(y, 7) == 181 + leap;
    assert DaysBeforeMonth(y, 8) == 212 + leap;
    assert DaysBeforeMonth(y, 9) == 243 + leap;
    assert DaysBeforeMonth(y, 10) == 273 + leap;
    assert DaysBeforeMonth(y, 11) == 304 + leap;
    assert DaysBeforeMonth(y, 12) == 334 + leap;
  }

  lemma {:induction false} DaysBeforeMonthIncreasing(y: int, a: int, b: int)
    requires 1 <= a < b <= 12
    ensures DaysBeforeMonth(y, a) < DaysBeforeMonth(y, b)
  {
    if a < b - 1 {
      DaysBeforeMonthIncreasing(y, a, b - 1);
    }
  }

  /** The year holding the day `d` days after January 1 of year `y`, and the day's
      0-based position within that year. */
  function Locate(d: int, y: int): (r: (int, int))
    ensures 0 <= r.1 < YearLength(r.0)
    decreases d < 0, if d < 0 then -d else d
  {
    if d < 0 then Locate(d + YearLength(y - 1), y - 1)
    else if d < YearLength(y) then (y, d)
    else Locate(d - YearLength(y), y + 1)
  }

  /** The month, searched downward from `m`, whose first day is the last one on or before
      the 0-based day of year `doy`. */
  function MonthOf(y: int, doy: int, m: int): (month: int)
    requires 1 <= m <= 12 && 0 <= doy
    ensures 1 <= month <= m && DaysBeforeMonth(y, month) <= doy
    ensures month < m ==> doy < DaysBeforeMonth(y, month + 1)
  {
    if DaysBeforeMonth(y, m) <= doy then m else MonthOf(y, doy, m - 1)
  }

  /** The civil (proleptic Gregorian) date of day number `d`. */
  function ToDate(d: int): (c: Date)
    ensures 1 <= c.month <= 12 && 1 <= c.day <= MonthLength(c.year, c.month)
  {
    var (y, doy) := Locate(d, EPOCH_YEAR);
    var m := MonthOf(y, doy, 12);
    DecemberEndsYear(y);
    Date(y, m, doy - DaysBeforeMonth(y, m) + 1)
  }

  /** Day number of January 1 of year `y`. */
  function YearStart(y: int): int
    decreases if y < EPOCH_YEAR then EPOCH_YEAR - y else y - EPOCH_YEAR
  {
    if y == EPOCH_YEAR then 0
    else if y > EPOCH_YEAR then YearStart(y - 1) + YearLength(y - 1)
    else YearStart(y + 1) - YearLength(y)
  }

  /** Day number of a civil date. */
  function DayNumber(c: Date): int
    requires 1 <= c.month <= 12
  {
    YearStart(c.year) + DaysBeforeMonth(c.year, c.month) + c.day - 1
  }

  lemma YearStartStep(y: int)
    ensures YearStart(y + 1) == YearStart(y) + YearLength(y)
  {
  }

  lemma {:induction false} LocateSound(d: int, y: int)
    ensures YearStart(y) + d == YearStart(Locate(d, y).0) + Locate(d, y).1
    decreases d < 0, if d < 0 then -d else d
  {
    if d < 0 {
      LocateSound(d + YearLength(y - 1), y - 1);
      YearStartStep(y - 1);
    } else if d >= YearLength(y) {
      LocateSound(d - YearLength(y), y + 1);
      YearStartStep(y);
    }
  }

  /** Converting to a civil date and back gives the same day number. */
  lemma DayNumberOfToDate(d: int)
    ensures DayNumber(ToDate(d)) == d
  {
    LocateSound(d, EPOCH_YEAR);
  }

  /** Stepping back `k` days inside a year stays in that year. */
  lemma {:induction false} LocateBack(d: int, y: int, k: int)
    requires 0 <= k <= Locate(d, y).1
    ensures Locate(d - k, y) == (Locate(d, y).0, Locate(d, y).1 - k)
    decreases d < 0, if d < 0 then -d else d
  {
    if d < 0 {
      LocateBack(d + YearLength(y - 1), y - 1, k);
    } else if d >= YearLength(y) {
      LocateBack(d - YearLength(y), y + 1, k);
      LocateSound(d - YearLength(y), y + 1);
      LocateSound(d, y);
      YearStartStep(y);
      if d - k < YearLength(y) {
        // The located year lies after y, so its start is at least YearStart(y + 1).
        LocateAfter(d - YearLength(y), y + 1);
      }
    }
  }

  /** Locating a non-negative offset from year `y` never lands before `y`. */
  lemma {:induction false} LocateAfter(d: int, y: int)
    requires 0 <= d
    ensures Locate(d, y).0 >= y && Locate(d, y).1 <= d
    decreases d
  {
    if d >= YearLength(y) {
      LocateAfter(d - YearLength(y), y + 1);
    }
  }

  /** The month found for the first day of month `m` is `m`. */
  lemma MonthOfFirstDay(y: int, m: int)
    requires 1 <= m <= 12
    ensures MonthOf(y, DaysBeforeMonth(y, m), 12) == m
  {
    var found := MonthOf(y, DaysBeforeMonth(y, m), 12);
    if found < m {
      DaysBeforeMonthIncreasing(y, found + 1, m);
    } else if found > m {
      DaysBeforeMonthIncreasing(y, m, found);
    }
  }

  // ---------------------------------------------------------------------------
  // Period starts of the day, week and month buckets
  // ---------------------------------------------------------------------------

  /** 0 for Monday through 6 for Sunday: day 0 (1970-01-01) was a Thursday. */
  function Weekday(d: int): (w: int)
    ensures 0 <= w < 7
  {
    (d + 3) % 7
  }

  /** Leap years from year 1 up to 1969. */
  const LEAPS_BEFORE_EPOCH: int := 477

  /** Leap years from year 1 up to year `n`, counted by the Gregorian rule (negative for
      years before 1). */
  function Leaps(n: int): int
  {
    n / 4 - n / 100 + n / 400
  }

  /** Day of the week of a civil date by Sakamoto's formula, shifted so that Monday is 0:
      an independent reference for the weekday of a day number. */
  function DayOfWeek(c: Date): (w: int)
    requires 1 <= c.month <= 12
    ensures 0 <= w < 7
  {
    var y := if c.month < 3 then c.year - 1 else c.year;
    (y + Leaps(y) + MONTH_OFFSETS[c.month - 1] + c.day + 6) % 7
  }

  /** The month offsets of Sakamoto's formula. */
  const MONTH_OFFSETS: seq<int> := [0, 3, 2, 5, 0, 3, 5, 1, 4, 6, 2, 4]

  /** The days before each month in a common year. */
  const DAYS_BEFORE: seq<int> := [0, 31, 59, 90, 120, 151, 181, 212, 243, 273, 304, 334]

  /** 1 January 1970 was a Thursday, 1 January 2000 a Saturday and 1 January 2024 a
      Monday; day 0 is 1 January 1970. */
  lemma CalendarAnchors()
    ensures ToDate(0) == Date(1970, 1, 1)
    ensures DayOfWeek(Date(1970, 1, 1)) == 3
    ensures DayOfWeek(Date(2000, 1, 1)) == 5
    ensures DayOfWeek(Date(2024, 1, 1)) == 0
  {
    assert Leaps(1969) == 477 && Leaps(1999) == 484 && Leaps(2023) == 490;
  }

  /** One more year adds one leap day exactly when that year is a leap year. */
  lemma LeapStep(y: int)
    ensures Leaps(y) == Leaps(y - 1) + (if IsLeapYear(y) then 1 else 0)
  {
    assert (y - 1) / 4 == if y % 4 == 0 then y / 4 - 1 else y / 4;
    assert (y - 1) / 100 == if y % 100 == 0 then y / 100 - 1 else y / 100;
    assert (y - 1) / 400 == if y % 400 == 0 then y / 400 - 1 else y / 400;
  }

  /** The closed form of the day number of January 1. */
  lemma {:induction false} YearStartClosed(y: int)
    ensures YearStart(y) == 365 * (y - EPOCH_YEAR) + Leaps(y - 1) - LEAPS_BEFORE_EPOCH
    decreases if y < EPOCH_YEAR then EPOCH_YEAR - y else y - EPOCH_YEAR
  {
    if y > EPOCH_YEAR {
      YearStartClosed(y - 1);
      LeapStep(y - 1);
    } else if y < EPOCH_YEAR {
      YearStartClosed(y + 1);
      LeapStep(y);
    } else {
      assert Leaps(EPOCH_YEAR - 1) == LEAPS_BEFORE_EPOCH;
    }
  }

  lemma WeeksVanish(k: int, c: int)
    ensures (7 * k + c) % 7 == c % 7
  {
  }

  /** The weekday of a day number is the day of the week of its civil date. */
  lemma WeekdayOfDate(c: Date)
    requires 1 <= c.month <= 12
    ensures Weekday(DayNumber(c)) == DayOfWeek(c)
  {
    var y, m := c.year, c.month;
    YearStartClosed(y);
    LeapStep(y);
    DaysBeforeMonthTable(y, m);
    MonthOffsetsAgree(m);
    assert DayNumber(c) == YearStart(y) + DaysBeforeMonth(y, m) + c.day - 1;
    WeekdayArithmetic(DayNumber(c), y, c.day, DAYS_BEFORE[m - 1], MONTH_OFFSETS[m - 1],
      if IsLeapYear(y) then 1 else 0, Leaps(y - 1), Leaps(y), m >= 3);
  }

  /** The days before a month and its offset agree modulo 7, up to the day that the
      formula moves from February to the end of the year. */
  lemma MonthOffsetsAgree(m: int)
    requires 1 <= m <= 12
    ensures (DAYS_BEFORE[m - 1] - MONTH_OFFSETS[m - 1] - (if m >= 3 then 1 else 0)) % 7 == 0
  {
  }

  /** The arithmetic of Sakamoto's formula: with `n` the day number written out from the
      year's closed form, `n + 3` and the formula's sum differ by a multiple of 7. */
  lemma WeekdayArithmetic(n: int, y: int, day: int, before: int, offset: int, leap: int,
                          leapsBefore: int, leapsUpTo: int, late: bool)
    requires n == 365 * (y - EPOCH_YEAR) + leapsBefore - LEAPS_BEFORE_EPOCH + before + (if late then leap else 0) + day - 1
    requires leapsUpTo == leapsBefore + leap
    requires (before - offset - (if late then 1 else 0)) % 7 == 0
    ensures (n + 3) % 7 ==
      ((if late then y else y - 1) + (if late then leapsUpTo else leapsBefore) + offset + day + 6) % 7
  {
    var k := (before - offset - (if late then 1 else 0)) / 7;
    var sum := (if late then y else y - 1) + (if late then leapsUpTo else leapsBefore) + offset + day + 6;
    assert n + 3 == 7 * (52 * y - 102790 + k) + sum;
    WeeksVanish(52 * y - 102790 + k, sum);
  }

  /** The days before each month, as a table. */
  lemma DaysBeforeMonthTable(y: int, m: int)
    requires 1 <= m <= 12
    ensures DaysBeforeMonth(y, m) == DAYS_BEFORE[m - 1] + (if m >= 3 && IsLeapYear(y) then 1 else 0)
  {
    var leap := if IsLeapYear(y) then 1 else 0;
    assert DaysBeforeMonth(y, 3) == 59 + leap;
    assert DaysBeforeMonth(y, 4) == 90 + leap;
    assert DaysBeforeMonth(y, 5) == 120 + leap;
    assert DaysBeforeMonth(y, 6) == 151 + leap;
    assert DaysBeforeMonth(y, 7) == 181 + leap;
    assert DaysBeforeMonth(y, 8) == 212 + leap;
    assert DaysBeforeMonth(y, 9) == 243 + leap;
    assert DaysBeforeMonth(y, 10) == 273 + leap;
    assert DaysBeforeMonth(y, 11) == 304 + leap;
    assert DaysBeforeMonth(y, 12) == 334 + leap;
  }

  /** The Monday that starts the Monday-to-Sunday week holding `d`. */
  function WeekStart(d: int): (s: int)
    ensures Weekday(s) == 0
    ensures DayOfWeek(ToDate(s)) == 0
    ensures s <= d < s + 7
  {
    var s := d - Weekday(d);
    BackToMonday(d);
    MondayDate(s);
    s
  }

  /** Going back as many days as the weekday lands on a Monday. */
  lemma BackToMonday(d: int)
    ensures Weekday(d - Weekday(d)) == 0
  {
    var w := Weekday(d);
    assert d + 3 == 7 * ((d + 3) / 7) + w;
  }

  /** A day number with weekday 0 is a Monday in the civil calendar. */
  lemma MondayDate(s: int)
    requires Weekday(s) == 0
    ensures DayOfWeek(ToDate(s)) == 0
  {
    DayNumberOfToDate(s);
    WeekdayOfDate(ToDate(s));
  }

  /** Two days share a week bucket exactly when the second lies in the first one's
      Monday-to-Sunday span. */
  lemma SameWeek(d: int, e: int)
    ensures WeekStart(e) == WeekStart(d) <==> WeekStart(d) <= e < WeekStart(d) + 7
  {
    var s := WeekStart(d);
    if s <= e < s + 7 {
      MondayOffset(s, e);
    }
  }

  /** A day within seven days after a Monday is that many days into the week. */
  lemma MondayOffset(s: int, e: int)
    requires Weekday(s) == 0 && s <= e < s + 7
    ensures Weekday(e) == e - s
  {
    assert e + 3 == (s + 3) + (e - s);
  }

  /** The first day of the calendar month holding `d`. */
  function MonthStart(d: int): (s: int)
    ensures s <= d && d - s < MonthLength(ToDate(d).year, ToDate(d).month)
    ensures s == DayNumber(Date(ToDate(d).year, ToDate(d).month, 1))
    ensures ToDate(s) == Date(ToDate(d).year, ToDate(d).month, 1)
  {
    var c := ToDate(d);
    var s := d - (c.day - 1);
    DayNumberOfToDate(d);
    var (y, doy) := Locate(d, EPOCH_YEAR);
    LocateBack(d, EPOCH_YEAR, c.day - 1);
    MonthOfFirstDay(y, c.month);
    s
  }

  /** Two days share a month bucket exactly when they fall in the same year and month. */
  lemma SameMonth(d: int, e: int)
    ensures MonthStart(e) == MonthStart(d) <==>
      ToDate(e).year == ToDate(d).year && ToDate(e).month == ToDate(d).month
  {
  }
}
