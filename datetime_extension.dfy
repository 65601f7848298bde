/** `DateTimeExtension`: calendar helpers over .NET's `DateTime`, a date in
    the proleptic Gregorian calendar between the years 1 and 9999 with a time
    of day counted in ticks of 100 nanoseconds. */
module DateTimeExtension {
  import opened Common

  const TicksPerSecond: int := 10_000_000
  const TicksPerDay: int := 86_400 * TicksPerSecond

  predicate IsLeapYear(year: int)
  {
    year % 4 == 0 && (year % 100 != 0 || year % 400 == 0)
  }

  /** `DateTime.DaysInMonth`. */
  function DaysInMonth(year: int, month: int): (r: int)
    requires 1 <= month <= 12
    ensures 28 <= r <= 31
    ensures month == 2 ==> r == if IsLeapYear(year) then 29 else 28
  {
    if month == 2 then (if IsLeapYear(year) then 29 else 28)
    else if month == 4 || month == 6 || month == 9 || month == 11 then 30
    else 31
  }

  datatype DateTime = DateTime(year: int, month: int, day: int, timeOfDay: int)

  predicate Valid(d: DateTime)
  {
    1 <= d.year <= 9999 && 1 <= d.month <= 12 && 1 <= d.day <= DaysInMonth(d.year, d.month)
    && 0 <= d.timeOfDay < TicksPerDay
  }

  type Date = d: DateTime | Valid(d) witness DateTime(1, 1, 1, 0)

  /** The days of the year before the first of `month`; for 13, the length
      of the year. */
  function DaysBeforeMonth(year: int, month: int): int
    requires 1 <= month <= 13
  {
    [0, 31, 59, 90, 120, 151, 181, 212, 243, 273, 304, 334, 365][month - 1]
    + (if month > 2 && IsLeapYear(year) then 1 else 0)
  }

  /** The days before 1 January of `year`, from 1 January of year 1. */
  function DaysBeforeYear(year: int): int
    requires year >= 1
  {
    var y := year - 1;
    365 * y + y / 4 - y / 100 + y / 400
  }

  /** The day count since 1 January of year 1, which is what `Ticks` counts
      in whole days. */
  function DayNumber(d: Date): int
  {
    DaysBeforeYear(d.year) + DaysBeforeMonth(d.year, d.month) + d.day - 1
  }

  function Ticks(d: Date): int
  {
    DayNumber(d) * TicksPerDay + d.timeOfDay
  }

  /** A month is as long as the gap between its first day and the next
      month's. */
  lemma MonthLength(year: int, month: int)
    requires 1 <= month <= 12
    ensures DaysBeforeMonth(year, month + 1) == DaysBeforeMonth(year, month) + DaysInMonth(year, month)
  {
  }

  /** Division by a positive number is determined by quotient and
      remainder. */
  lemma DivMod(a: int, n: int, q: int, r: int)
    requires n > 0 && a == q * n + r && 0 <= r < n
    ensures a / n == q && a % n == r
  {
    var q0 := a / n;
    var r0 := a % n;
    assert a == q0 * n + r0 && 0 <= r0 < n;
    if q > q0 {
      MulGap(q, q0, n);
    } else if q < q0 {
      MulGap(q0, q, n);
    }
  }

  /** Two multiples of `n` that differ differ by at least `n`. */
  lemma MulGap(x: int, y: int, n: int)
    requires n > 0 && x > y
    ensures x * n - y * n >= n
  {
    assert x * n - y * n == (x - y) * n;
    MulAtLeast(x - y, n);
  }

  lemma MulAtLeast(d: int, n: int)
    requires d >= 1 && n > 0
    ensures d * n >= n
  {
  }

  /** Counting up by one crosses a multiple of `n` exactly when the new
      value is one. */
  lemma DivStep(a: nat, n: int)
    requires n >= 1
    ensures (a + 1) / n - a / n == if (a + 1) % n == 0 then 1 else 0
  {
    var q := a / n;
    var r := a % n;
    assert a == q * n + r && 0 <= r < n;
    if r + 1 < n {
      DivMod(a + 1, n, q, r + 1);
    } else {
      assert a + 1 == (q + 1) * n + 0;
      DivMod(a + 1, n, q + 1, 0);
    }
  }

  /** A year is 366 days long when it is a leap year and 365 otherwise. */
  lemma YearLength(year: int)
    requires year >= 1
    ensures DaysBeforeYear(year + 1) - DaysBeforeYear(year) == DaysBeforeMonth(year, 13)
  {
    var y := year - 1;
    DivStep(y, 4);
    DivStep(y, 100);
    DivStep(y, 400);
    if year % 400 == 0 {
      DivisibleDown(year, 100, 4);
      DivisibleDown(year, 4, 100);
    } else if year % 100 == 0 {
      DivisibleDown(year, 4, 25);
    }
  }

  /** A multiple of `n * k` is a multiple of `n`. */
  lemma DivisibleDown(a: int, n: int, k: int)
    requires n > 0 && k > 0 && a % (n * k) == 0
    ensures a % n == 0
  {
    var q := a / (n * k);
    assert a == q * (n * k);
    assert q * (n * k) == (q * k) * n;
    DivMod(a, n, q * k, 0);
  }

  /** `ToDaysBetweenDifferentDates`: the whole days of `dateCompare - date`,
      truncated toward zero. */
  function ToDaysBetweenDifferentDates(date: Date, dateCompare: Date): int
  {
    TruncDiv(Ticks(dateCompare) - Ticks(date), TicksPerDay)
  }

  /** `ToYearsBetweenDifferentDates`: that day count divided by 365,
      truncated toward zero. */
  function ToYearsBetweenDifferentDates(date: Date, dateCompare: Date): int
  {
    TruncDiv(ToDaysBetweenDifferentDates(date, dateCompare), 365)
  }

  lemma TruncDivNegate(a: int, b: int)
    requires b > 0
    ensures TruncDiv(-a, b) == -TruncDiv(a, b)
  {
    assert Abs(-a) == Abs(a);
    if a == 0 {
      DivMod(0, b, 0, 0);
    }
  }

  /** `k` whole days plus less than a day in the direction of `k`'s sign
      are `k` days. */
  lemma TruncDivWhole(k: int, t: int, n: int)
    requires n >= 1 && (k >= 0 ==> 0 <= t < n) && (k < 0 ==> -n < t <= 0)
    ensures TruncDiv(k * n + t, n) == k
  {
    if k >= 0 {
      assert k * n >= 0;
      assert Abs(k * n + t) == k * n + t;
      DivMod(k * n + t, n, k, t);
    } else {
      assert (-k) * n == -(k * n) && (-k) * n > 0;
      assert Abs(k * n + t) == (-k) * n + (-t);
      DivMod((-k) * n + (-t), n, -k, -t);
    }
  }

  /** Swapping the dates negates both differences. */
  lemma DifferencesAntisymmetric(a: Date, b: Date)
    ensures ToDaysBetweenDifferentDates(b, a) == -ToDaysBetweenDifferentDates(a, b)
    ensures ToYearsBetweenDifferentDates(b, a) == -ToYearsBetweenDifferentDates(a, b)
  {
    assert Ticks(a) - Ticks(b) == -(Ticks(b) - Ticks(a));
    TruncDivNegate(Ticks(b) - Ticks(a), TicksPerDay);
    TruncDivNegate(ToDaysBetweenDifferentDates(a, b), 365);
  }

  /** At the same time of day, the difference is the difference of day
      numbers. */
  lemma DaysAtSameTime(a: Date, b: Date)
    requires a.timeOfDay == b.timeOfDay
    ensures ToDaysBetweenDifferentDates(a, b) == DayNumber(b) - DayNumber(a)
  {
    var k := DayNumber(b) - DayNumber(a);
    assert Ticks(b) - Ticks(a) == k * TicksPerDay + 0 by {
      assert DayNumber(b) * TicksPerDay - DayNumber(a) * TicksPerDay == k * TicksPerDay;
    }
    TruncDivWhole(k, 0, TicksPerDay);
  }

  /** For a forward difference, the years are the whole 365-day blocks. */
  lemma YearsBlocks(a: Date, b: Date)
    requires ToDaysBetweenDifferentDates(a, b) >= 0
    ensures var y := ToYearsBetweenDifferentDates(a, b);
      y >= 0 && y * 365 <= ToDaysBetweenDifferentDates(a, b) < (y + 1) * 365
  {
  }

  /** `DateTime.Date`: midnight of the same day. */
  function DateOf(d: Date): Date
  {
    d.(timeOfDay := 0)
  }

  /** `ToLastDayOfMonth`. */
  function ToLastDayOfMonth(date: Date): Date
  {
    DateTime(date.year, date.month, DaysInMonth(date.year, date.month), 0)
  }

  /** `IsLastDayOfMonth`: `date.Date == date.ToLastDayOfMonth().Date`. */
  predicate IsLastDayOfMonth(date: Date)
  {
    DateOf(date) == DateOf(ToLastDayOfMonth(date))
  }

  /** `ToFirstDayOfMonth`. */
  function ToFirstDayOfMonth(date: Date): Date
  {
    DateTime(date.year, date.month, 1, 0)
  }

  /** `IsFirstDayOfMonth`: `date.Date == date.ToFirstDayOfMonth().Date`. */
  predicate IsFirstDayOfMonth(date: Date)
  {
    DateOf(date) == DateOf(ToFirstDayOfMonth(date))
  }

  /** The last day keeps the year and month, is at midnight, and is the
      day right before the first of the next month; the test holds exactly
      on that day, whatever the time. */
  lemma LastDayOfMonthSpec(date: Date)
    ensures var l := ToLastDayOfMonth(date);
      l.year == date.year && l.month == date.month && l.timeOfDay == 0
      && (IsLastDayOfMonth(date) <==> date.day == DaysInMonth(date.year, date.month))
    ensures date.month < 12 ==>
      DayNumber(ToLastDayOfMonth(date)) + 1 == DayNumber(DateTime(date.year, date.month + 1, 1, 0))
    ensures date.month == 12 && date.year < 9999 ==>
      DayNumber(ToLastDayOfMonth(date)) + 1 == DayNumber(DateTime(date.year + 1, 1, 1, 0))
  {
    MonthLength(date.year, date.month);
    if date.month == 12 {
      YearLength(date.year);
    }
  }

  /** The first day keeps the year and month, is day 1 at midnight, and the
      test holds exactly on day 1, whatever the time. */
  lemma FirstDayOfMonthSpec(date: Date)
    ensures var f := ToFirstDayOfMonth(date);
      f.year == date.year && f.month == date.month && f.day == 1 && f.timeOfDay == 0
      && (IsFirstDayOfMonth(date) <==> date.day == 1)
      && DayNumber(date) - DayNumber(f) == date.day - 1
  {
  }

  /** 23:59:59 in ticks. */
  const LastSecond: int := (23 * 3600 + 59 * 60 + 59) * TicksPerSecond

  /** `ToDateWithLastMinute`: the same calendar day at 23:59:59 and no
      fraction of a second. */
  function ToDateWithLastMinute(date: Date): (r: Date)
    ensures DateOf(r) == DateOf(date) && r.timeOfDay == LastSecond
    ensures r.timeOfDay % TicksPerSecond == 0 && TicksPerDay - r.timeOfDay == TicksPerSecond
  {
    date.(timeOfDay := LastSecond)
  }

  /** `DateTime.AddYears(n)`: the same month and day `n` years on, 29
      February becoming 28 February in a common year; the time of day
      stays.  A year outside 1..9999 throws. */
  function AddYears(d: Date, n: int): Result<Date>
  {
    var y := d.year + n;
    if y < 1 || y > 9999 then Threw(ArgumentOutOfRangeException("years"))
    else Ok(DateTime(y, d.month, if d.day > DaysInMonth(y, d.month) then DaysInMonth(y, d.month) else d.day, d.timeOfDay))
  }

  /** `DateTime >`: later in time. */
  predicate After(a: Date, b: Date)
  {
    a.year > b.year
    || (a.year == b.year && a.month > b.month)
    || (a.year == b.year && a.month == b.month && a.day > b.day)
    || (a.year == b.year && a.month == b.month && a.day == b.day && a.timeOfDay > b.timeOfDay)
  }

  /** `ToAge(dateBirth, dateCompare)` with a compare date: the difference
      of the years, minus one when the birth date is after the compare date
      moved back that many years. */
  function ToAge(dateBirth: Date, dateCompare: Date): int
  {
    var birth := DateOf(dateBirth);
    var compare := DateOf(dateCompare);
    var idade := compare.year - birth.year;
    match AddYears(compare, -idade)
    case Ok(back) => if After(birth, back) then idade - 1 else idade
    case Threw(_) => idade
  }

  /** The age is the difference of the years, less one when the birthday
      (month and day) is still to come in the compare year.  Moving the
      compare date back clamps 29 February only when the birth year is a
      common year, and then no birth day can come after the 28th. */
  lemma AgeByBirthday(b: Date, c: Date)
    ensures ToAge(b, c) == c.year - b.year
      - (if b.month > c.month || (b.month == c.month && b.day > c.day) then 1 else 0)
  {
    var back := AddYears(DateOf(c), -(c.year - b.year));
    assert back.Ok? && back.value.year == b.year && back.value.month == c.month;
    if c.day > DaysInMonth(b.year, c.month) {
      assert c.month == 2 && c.day == 29 && back.value.day == 28;
    }
  }

  /** Nobody is older than zero on their birth date, and the age is never
      negative from the birth date on. */
  lemma AgeBounds(b: Date, c: Date)
    ensures ToAge(b, b) == 0
    ensures !After(DateOf(b), DateOf(c)) ==> ToAge(b, c) >= 0
    ensures ToAge(b, c) == c.year - b.year || ToAge(b, c) == c.year - b.year - 1
  {
    AgeByBirthday(b, b);
    AgeByBirthday(b, c);
  }
}
