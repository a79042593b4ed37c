/** Proleptic Gregorian civil dates and day arithmetic.  `AddDays` is the
    calendar roll-over that `Date.prototype.setDate(getDate() + i)` performs:
    past the end of a month it continues in the next month, past December in
    the next year. */
module CivilDate {

  /** A calendar date; `month` is 1-based (January is 1). */
  datatype Date = Date(year: int, month: int, day: int)

  predicate IsLeapYear(year: int) {
    year % 4 == 0 && (year % 100 != 0 || year % 400 == 0)
  }

  function DaysInMonth(year: int, month: int): (n: int)
    requires 1 <= month <= 12
    ensures 28 <= n <= 31
    ensures n == 29 <==> month == 2 && IsLeapYear(year)
  {
    if month == 2 then (if IsLeapYear(year) then 29 else 28)
    else if month == 4 || month == 6 || month == 9 || month == 11 then 30
    else 31
  }

  /** The twelve month lengths add up to the length of the year. */
  lemma MonthLengthsMakeYear(year: int)
    ensures DaysInMonth(year, 1) + DaysInMonth(year, 2) + DaysInMonth(year, 3)
          + DaysInMonth(year, 4) + DaysInMonth(year, 5) + DaysInMonth(year, 6)
          + DaysInMonth(year, 7) + DaysInMonth(year, 8) + DaysInMonth(year, 9)
          + DaysInMonth(year, 10) + DaysInMonth(year, 11) + DaysInMonth(year, 12)
          == if IsLeapYear(year) then 366 else 365
  {
  }

  predicate Valid(d: Date) {
    1 <= d.month <= 12 && 1 <= d.day <= DaysInMonth(d.year, d.month)
  }

  /** Strict chronological order: by year, then month, then day. */
  predicate Before(a: Date, b: Date) {
    a.year < b.year
    || (a.year == b.year && a.month < b.month)
    || (a.year == b.year && a.month == b.month && a.day < b.day)
  }

  lemma BeforeTransitive(a: Date, b: Date, c: Date)
    requires Before(a, b) && Before(b, c)
    ensures Before(a, c)
  {
  }

  /** The day before a valid date. */
  function PrevDay(d: Date): (r: Date)
    requires Valid(d)
    ensures Valid(r) && Before(r, d)
  {
    if d.day > 1 then d.(day := d.day - 1)
    else if d.month > 1 then Date(d.year, d.month - 1, DaysInMonth(d.year, d.month - 1))
    else Date(d.year - 1, 12, 31)
  }

  /** The day after a valid date; `PrevDay` undoes it. */
  function NextDay(d: Date): (r: Date)
    requires Valid(d)
    ensures Valid(r) && Before(d, r)
  {
    if d.day < DaysInMonth(d.year, d.month) then d.(day := d.day + 1)
    else if d.month < 12 then Date(d.year, d.month + 1, 1)
    else Date(d.year + 1, 1, 1)
  }

  lemma PrevDayOfNextDay(d: Date)
    requires Valid(d)
    ensures PrevDay(NextDay(d)) == d
  {
  }

  lemma NextDayOfPrevDay(d: Date)
    requires Valid(d)
    ensures NextDay(PrevDay(d)) == d
  {
  }

  /** No valid date lies strictly between a date and its successor. */
  lemma NextDayIsImmediateSuccessor(d: Date, x: Date)
    requires Valid(d) && Valid(x) && Before(d, x)
    ensures x == NextDay(d) || Before(NextDay(d), x)
  {
  }

  /** `d` moved `n` days forward. */
  function AddDays(d: Date, n: nat): (r: Date)
    requires Valid(d)
    ensures Valid(r)
    ensures n > 0 ==> Before(d, r)
    decreases n
  {
    if n == 0 then d
    else
      var r := AddDays(NextDay(d), n - 1);
      assert n - 1 > 0 ==> Before(NextDay(d), r);
      r
  }

  /** Later offsets give strictly later dates, so distinct offsets give distinct dates. */
  lemma {:induction false} AddDaysStrictlyIncreasing(d: Date, i: nat, j: nat)
    requires Valid(d) && i < j
    ensures Before(AddDays(d, i), AddDays(d, j))
    decreases i
  {
    if i > 0 {
      AddDaysStrictlyIncreasing(NextDay(d), i - 1, j - 1);
    }
  }

  /** Moving `i` then `j` days is moving `i + j` days. */
  lemma {:induction false} AddDaysAdditive(d: Date, i: nat, j: nat)
    requires Valid(d)
    ensures AddDays(AddDays(d, i), j) == AddDays(d, i + j)
    decreases i
  {
    if i > 0 {
      AddDaysAdditive(NextDay(d), i - 1, j);
    }
  }

  /** Inside one month, adding days only advances the day of the month. */
  lemma {:induction false} AddDaysWithinMonth(d: Date, n: nat)
    requires Valid(d) && d.day + n <= DaysInMonth(d.year, d.month)
    ensures AddDays(d, n) == Date(d.year, d.month, d.day + n)
    decreases n
  {
    if n > 0 {
      AddDaysWithinMonth(NextDay(d), n - 1);
    }
  }

  lemma YearEndRollOver()
    ensures AddDays(Date(2026, 12, 29), 6) == Date(2027, 1, 4)
  {
    AddDaysAdditive(Date(2026, 12, 29), 3, 3);
    assert AddDays(Date(2026, 12, 29), 3) == Date(2027, 1, 1);
    AddDaysWithinMonth(Date(2027, 1, 1), 3);
  }

  lemma LeapFebruaryRollOver()
    ensures AddDays(Date(2028, 2, 27), 3) == Date(2028, 3, 1)
    ensures AddDays(Date(2027, 2, 27), 3) == Date(2027, 3, 2)
  {
    AddDaysAdditive(Date(2028, 2, 27), 2, 1);
    AddDaysWithinMonth(Date(2028, 2, 27), 2);
    AddDaysAdditive(Date(2027, 2, 27), 2, 1);
    assert AddDays(Date(2027, 2, 27), 2) == Date(2027, 3, 1);
    AddDaysWithinMonth(Date(2027, 3, 1), 1);
  }
}
