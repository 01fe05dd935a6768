/**
 * UTC calendar days. A day is identified by its epoch-day number: the number
 * of days since 1970-01-01, which is what `datetime.utcfromtimestamp(t).date()`
 * determines for a timestamp `t`. Civil dates use the proleptic Gregorian
 * calendar, as Python's `date` does.
 */
module Calendar {
  import opened Text

  const SecondsPerDay: nat := 86400

  /** The UTC day a Unix timestamp (in whole seconds) falls on. */
  function DayOf(t: int): int
  {
    t / SecondsPerDay
  }

  /**
   * A timestamp falls on exactly one day: `DayOf(t)` is the day whose 86400
   * seconds contain `t`, also for timestamps before 1970.
   */
  lemma DayOfBounds(t: int, day: int)
    ensures DayOf(t) * SecondsPerDay <= t < (DayOf(t) + 1) * SecondsPerDay
    ensures day * SecondsPerDay <= t < (day + 1) * SecondsPerDay ==> DayOf(t) == day
  {
  }

  predicate IsLeap(year: int) {
    year % 4 == 0 && (year % 100 != 0 || year % 400 == 0)
  }

  /** A year and month as `datetime.date` accepts them. */
  predicate ValidMonth(year: int, month: int) {
    1 <= year <= 9999 && 1 <= month <= 12
  }

  /** The second result of `calendar.monthrange(year, month)`. */
  function DaysInMonth(year: int, month: int): (n: nat)
    requires 1 <= month <= 12
    ensures 28 <= n <= 31
    ensures month == 2 ==> (n == 29 <==> IsLeap(year))
  {
    if month == 2 then (if IsLeap(year) then 29 else 28)
    else if month == 4 || month == 6 || month == 9 || month == 11 then 30
    else 31
  }

  predicate ValidDate(year: int, month: int, day: int) {
    ValidMonth(year, month) && 1 <= day <= DaysInMonth(year, month)
  }

  /** Days in the years before `year`, counted from year 1. */
  function DaysBeforeYear(year: int): int
    requires year >= 1
  {
    var y := year - 1;
    y * 365 + y / 4 - y / 100 + y / 400
  }

  /** Days in the months of `year` before `month`. */
  function DaysBeforeMonth(year: int, month: int): nat
    requires 1 <= month <= 12
  {
    var before := [0, 31, 59, 90, 120, 151, 181, 212, 243, 273, 304, 334][month - 1];
    if month > 2 && IsLeap(year) then before + 1 else before
  }

  /** The epoch-day number of a civil date (Python's `toordinal()` less that of 1970-01-01). */
  function EpochDay(year: int, month: int, day: int): int
    requires ValidMonth(year, month)
  {
    DaysBeforeYear(year) + DaysBeforeMonth(year, month) + day - 719163
  }

  /** Day 0 is 1970-01-01: the first 86400 seconds of the epoch fall on that date. */
  lemma EpochOrigin(t: int)
    requires 0 <= t < SecondsPerDay
    ensures DayOf(t) == EpochDay(1970, 1, 1) == 0
  {
    assert DaysBeforeYear(1970) == 719162;
    DayOfBounds(t, 0);
  }

  lemma LeapStep(year: int)
    requires year >= 1
    ensures year / 4 - (year - 1) / 4 == if year % 4 == 0 then 1 else 0
    ensures year / 100 - (year - 1) / 100 == if year % 100 == 0 then 1 else 0
    ensures year / 400 - (year - 1) / 400 == if year % 400 == 0 then 1 else 0
  {
  }

  /** A year has 366 days exactly when it is a leap year. */
  lemma YearLength(year: int)
    requires year >= 1
    ensures DaysBeforeYear(year + 1) - DaysBeforeYear(year) == if IsLeap(year) then 366 else 365
  {
    var y := year - 1;
    LeapStep(year);
    DivisorChain(year);
    var d4, d100, d400 := year / 4 - y / 4, year / 100 - y / 100, year / 400 - y / 400;
    assert DaysBeforeYear(year + 1) - DaysBeforeYear(year) == 365 + d4 - d100 + d400;
  }

  /** A multiple of 400 is a multiple of 100, which is a multiple of 4. */
  lemma DivisorChain(year: int)
    ensures year % 400 == 0 ==> year % 100 == 0
    ensures year % 100 == 0 ==> year % 4 == 0
  {
    var q, r := year / 400, year / 100;
    assert year == 400 * q + year % 400;
    assert year == 100 * r + year % 100;
    assert year == 4 * (year / 4) + year % 4;
    if year % 100 == 0 {
      assert year == 4 * (25 * r);
    }
  }

  /**
   * The month after `month` starts `DaysInMonth(year, month)` days after it
   * does: the days 1..DaysInMonth of a month are exactly the days from its
   * first up to the first of the next month.
   */
  lemma NextMonthStart(year: int, month: int)
    requires ValidMonth(year, month) && year < 9999
    ensures month < 12 ==> EpochDay(year, month + 1, 1) == EpochDay(year, month, 1) + DaysInMonth(year, month)
    ensures month == 12 ==> EpochDay(year + 1, 1, 1) == EpochDay(year, month, 1) + DaysInMonth(year, month)
  {
    if month == 12 {
      YearLength(year);
    }
  }

  /** Consecutive days of a month have consecutive epoch-day numbers. */
  lemma NextDay(year: int, month: int, day: int)
    requires ValidMonth(year, month)
    ensures EpochDay(year, month, day + 1) == EpochDay(year, month, day) + 1
  {
  }

  /** `str(date(year, month, day))`: `YYYY-MM-DD`. */
  function DateString(year: nat, month: nat, day: nat): string
  {
    ZeroPad(year, 4) + "-" + ZeroPad(month, 2) + "-" + ZeroPad(day, 2)
  }

  /** A `datetime.date`: a civil date with its epoch-day number and its text. */
  datatype Date = Date(year: nat, month: nat, day: nat)
  {
    predicate Valid() {
      ValidDate(year, month, day)
    }

    function Epoch(): int
      requires Valid()
    {
      EpochDay(year, month, day)
    }

    function ToString(): string
    {
      DateString(year, month, day)
    }
  }

  /** A date's text is ten characters long and its three fields read back as the date. */
  lemma DateStringReadsBack(year: nat, month: nat, day: nat)
    requires ValidDate(year, month, day)
    ensures var s := DateString(year, month, day);
      && |s| == 10 && s[4] == '-' && s[7] == '-'
      && AllDigits(s[..4]) && AllDigits(s[5..7]) && AllDigits(s[8..])
      && ParseDecimal(s[..4]) == year && ParseDecimal(s[5..7]) == month && ParseDecimal(s[8..]) == day
  {
    var ys, ms, ds := ZeroPad(year, 4), ZeroPad(month, 2), ZeroPad(day, 2);
    assert Power10(2) == 100 && Power10(4) == 10000;
    PadWidth(year, 4);
    PadWidth(month, 2);
    PadWidth(day, 2);
    DashedFields(ys, ms, ds);
    ParseZeroPad(year, 4);
    ParseZeroPad(month, 2);
    ParseZeroPad(day, 2);
  }

  /** A date's text holds only digits and dashes. */
  lemma DateStringChars(year: nat, month: nat, day: nat)
    ensures var s := DateString(year, month, day);
      forall i :: 0 <= i < |s| ==> IsDigit(s[i]) || s[i] == '-'
  {
    var ys, ms, ds := ZeroPad(year, 4), ZeroPad(month, 2), ZeroPad(day, 2);
    assert DateString(year, month, day) == ys + "-" + ms + "-" + ds;
  }

  /** Three fields of four, two and two characters joined by dashes sit at fixed positions. */
  lemma DashedFields(a: string, b: string, c: string)
    requires |a| == 4 && |b| == 2 && |c| == 2
    ensures var s := a + "-" + b + "-" + c;
      && |s| == 10 && s[4] == '-' && s[7] == '-' && s[..4] == a && s[5..7] == b && s[8..] == c
  {
  }

  /** A number below `10^width` is padded to exactly `width` characters. */
  lemma PadWidth(n: nat, width: nat)
    requires width >= 1 && n < Power10(width)
    ensures |ZeroPad(n, width)| == width
  {
    NatToStringLength(n, width);
  }

  lemma {:induction false} NatToStringLength(n: nat, width: nat)
    requires width >= 1 && n < Power10(width)
    ensures |NatToString(n)| <= width
    decreases width
  {
    if n >= 10 {
      NatToStringLength(n / 10, width - 1);
    }
  }

  function Power10(k: nat): (p: nat)
    ensures p >= 1
  {
    if k == 0 then 1 else 10 * Power10(k - 1)
  }
}
