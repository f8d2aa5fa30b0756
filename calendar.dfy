/**
 * Calendar arithmetic behind `new Date("YYYY-MM-DD").getUTCDay()`: a date
 * string of that shape is read as midnight UTC of a proleptic Gregorian day,
 * and the weekday is counted from the epoch 1970-01-01, a Thursday.
 */
module Calendar {
  import opened Strings

  /** `/^\d{4}-\d{2}-\d{2}$/` */
  predicate DateShape(s: string)
  {
    && |s| == 10
    && IsDigit(s[0]) && IsDigit(s[1]) && IsDigit(s[2]) && IsDigit(s[3])
    && s[4] == '-'
    && IsDigit(s[5]) && IsDigit(s[6])
    && s[7] == '-'
    && IsDigit(s[8]) && IsDigit(s[9])
  }

  function Year(s: string): nat
    requires DateShape(s)
  {
    1000 * DigitValue(s[0]) + 100 * DigitValue(s[1]) + 10 * DigitValue(s[2]) + DigitValue(s[3])
  }

  function Month(s: string): nat
    requires DateShape(s)
  {
    10 * DigitValue(s[5]) + DigitValue(s[6])
  }

  function Day(s: string): nat
    requires DateShape(s)
  {
    10 * DigitValue(s[8]) + DigitValue(s[9])
  }

  predicate IsLeapYear(y: int)
  {
    y % 4 == 0 && (y % 100 != 0 || y % 400 == 0)
  }

  function DaysInMonth(y: int, m: int): nat
    requires 1 <= m <= 12
  {
    if m == 2 then (if IsLeapYear(y) then 29 else 28)
    else if m == 4 || m == 6 || m == 9 || m == 11 then 30
    else 31
  }

  /**
   * Days from 0000-03-01 to March 1 of year `y`. Counting years from March
   * puts the leap day last, so a year's length depends on `y + 1` only.
   */
  function MarchYearStart(y: int): int
  {
    var era := y / 400;
    var yearOfEra := y % 400;
    era * 146097 + yearOfEra * 365 + yearOfEra / 4 - yearOfEra / 100
  }

  /** Days from March 1 to day `d` of month `m` within a March-based year. */
  function DayOfMarchYear(m: int, d: int): int
  {
    (153 * (if m > 2 then m - 3 else m + 9) + 2) / 5 + d - 1
  }

  /**
   * Days since 1970-01-01 of day `d` of month `m` of year `y`. The day is not
   * bounded by the month's length: a day past the end counts on into the
   * following month, as JavaScript's date parser does.
   */
  function DaysFromCivil(y: int, m: int, d: int): int
  {
    MarchYearStart(if m <= 2 then y - 1 else y) + DayOfMarchYear(m, d) - 719468
  }

  /** `getUTCDay()`: Sunday is 0, so day 0 (a Thursday) has weekday 4. */
  function WeekdayOfDay(n: int): (w: nat)
    ensures w < 7
  {
    (n + 4) % 7
  }

  function UtcWeekday(s: string): (w: nat)
    requires DateShape(s)
    ensures w < 7
  {
    WeekdayOfDay(DaysFromCivil(Year(s), Month(s), Day(s)))
  }

  /** Within an era, the next year's start adds 365 days and the leap day of a year divisible by 4 but not by 100. */
  lemma YearOfEraStep(k: int)
    requires 0 <= k < 399
    ensures (k + 1) * 365 + (k + 1) / 4 - (k + 1) / 100 ==
      k * 365 + k / 4 - k / 100 + (if (k + 1) % 4 == 0 && (k + 1) % 100 != 0 then 366 else 365)
  {
    assert (k + 1) / 4 == k / 4 + (if (k + 1) % 4 == 0 then 1 else 0);
    assert (k + 1) / 100 == k / 100 + (if (k + 1) % 100 == 0 then 1 else 0);
  }

  /** A nonzero multiple of a positive number is at least that number away from zero. */
  lemma MultipleAwayFromZero(d: int, t: int)
    requires 0 < d
    ensures t > 0 ==> d * t >= d
    ensures t < 0 ==> d * t <= -d
  {
  }

  /** Euclidean division is determined by its quotient and remainder. */
  lemma DivModOf(a: int, d: int, q: int, r: int)
    requires 0 < d && 0 <= r < d && a == d * q + r
    ensures a / d == q && a % d == r
  {
    var t := q - a / d;
    assert d * t == a % d - r;
    MultipleAwayFromZero(d, t);
  }

  /** The year from one March 1 to the next has 366 days when its February has a 29th. */
  lemma {:induction false} MarchYearLength(y: int)
    ensures MarchYearStart(y + 1) == MarchYearStart(y) + (if IsLeapYear(y + 1) then 366 else 365)
  {
    var era, yoe := y / 400, y % 400;
    if yoe == 399 {
      DivModOf(y + 1, 400, era + 1, 0);
      DivModOf(y + 1, 4, 100 * (era + 1), 0);
    } else {
      DivModOf(y + 1, 400, era, yoe + 1);
      DivModOf(y + 1, 4, 100 * era + (yoe + 1) / 4, (yoe + 1) % 4);
      DivModOf(y + 1, 100, 4 * era + (yoe + 1) / 100, (yoe + 1) % 100);
      YearOfEraStep(yoe);
    }
  }

  /**
   * The first of each month is its predecessor's first plus the length of the
   * predecessor: DaysFromCivil counts the Gregorian calendar.
   */
  lemma MonthLength(y: int, m: int)
    requires 1 <= m <= 12
    ensures var next := if m == 12 then DaysFromCivil(y + 1, 1, 1) else DaysFromCivil(y, m + 1, 1);
      next == DaysFromCivil(y, m, 1) + DaysInMonth(y, m)
  {
    if m == 2 {
      MarchYearLength(y - 1);
    }
  }

  /** Consecutive days have consecutive weekdays. */
  lemma NextDayNextWeekday(y: int, m: int, d: int)
    ensures DaysFromCivil(y, m, d + 1) == DaysFromCivil(y, m, d) + 1
    ensures WeekdayOfDay(DaysFromCivil(y, m, d + 1)) == (WeekdayOfDay(DaysFromCivil(y, m, d)) + 1) % 7
  {
  }

  /** A day number past the end of the month is the same day as the matching one of the next month. */
  lemma {:induction false} DayOverflowRollsOver(y: int, m: int, k: int)
    requires 1 <= m <= 12
    ensures var next := if m == 12 then DaysFromCivil(y + 1, 1, k) else DaysFromCivil(y, m + 1, k);
      DaysFromCivil(y, m, DaysInMonth(y, m) + k) == next
  {
    MonthLength(y, m);
  }

  lemma EpochIsThursday()
    ensures DaysFromCivil(1970, 1, 1) == 0 && WeekdayOfDay(0) == 4
  {
  }
}
