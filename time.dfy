/** The part of chrono that the date-range parser relies on: calendar dates,
    date-times carrying a fixed UTC offset (`DateTime<FixedOffset>`) and the
    proleptic Gregorian validity check that `NaiveDate::from_ymd` performs.
    Also `timestamp()`, the number of seconds since 1970-01-01T00:00:00Z,
    which the unit tests of the parser compare instants with. */
module Time {

  datatype Option<T> = None | Some(value: T)

  /** A calendar day of the proleptic Gregorian calendar (not necessarily a
      valid one: month 13 can be written down). */
  datatype Date = Date(year: int, month: int, day: int)

  /** A date and a wall-clock time of day at a fixed offset, in seconds east
      of UTC. The sub-second part is not modelled. */
  datatype DateTime = DateTime(date: Date, hour: int, minute: int, second: int, offset: int)

  /** The range of years chrono's NaiveDate represents (`MIN_YEAR`, `MAX_YEAR`). */
  const MinYear: int := -262144
  const MaxYear: int := 262143

  predicate IsLeapYear(y: int) {
    y % 4 == 0 && (y % 100 != 0 || y % 400 == 0)
  }

  function DaysInMonth(y: int, m: int): (n: int)
    requires 1 <= m <= 12
    ensures 28 <= n <= 31
    ensures m == 2 ==> (n == 29 <==> IsLeapYear(y))
  {
    if m == 2 then (if IsLeapYear(y) then 29 else 28)
    else if m == 4 || m == 6 || m == 9 || m == 11 then 30
    else 31
  }

  /** The dates `NaiveDate::from_ymd` accepts; on any other it panics. */
  predicate ValidDate(d: Date) {
    && MinYear <= d.year <= MaxYear
    && 1 <= d.month <= 12
    && 1 <= d.day <= DaysInMonth(d.year, d.month)
  }

  /** The day after `d`. */
  function NextDate(d: Date): (e: Date)
    requires ValidDate(d)
    ensures d.year <= e.year <= d.year + 1
  {
    if d.day < DaysInMonth(d.year, d.month) then Date(d.year, d.month, d.day + 1)
    else if d.month < 12 then Date(d.year, d.month + 1, 1)
    else Date(d.year + 1, 1, 1)
  }

  /** Days from 1970-01-01 to `d`, counted in whole days (negative before).
      Days are counted in 400-year eras of 146097 days, each era starting on
      the first of March so that the leap day falls at the end of a year. */
  function DaysFromCivil(d: Date): int
    requires 1 <= d.month <= 12
  {
    var y := if d.month <= 2 then d.year - 1 else d.year;
    var mp := if d.month > 2 then d.month - 3 else d.month + 9;
    var doy := (153 * mp + 2) / 5 + d.day - 1;
    DaysToMarch(y) + doy - 719468
  }

  /** `DateTime::timestamp`: seconds since the Unix epoch. */
  function Timestamp(t: DateTime): int
    requires 1 <= t.date.month <= 12
  {
    DaysFromCivil(t.date) * 86400 + t.hour * 3600 + t.minute * 60 + t.second - t.offset
  }

  /** The first of January 1970 is day zero of the count. */
  lemma EpochIsDayZero()
    ensures DaysFromCivil(Date(1970, 1, 1)) == 0
  {
  }

  /** Days from 0000-03-01 to the first of March of year `y`. */
  function DaysToMarch(y: int): int {
    var era := y / 400;
    var yoe := y - era * 400;
    era * 146097 + yoe * 365 + yoe / 4 - yoe / 100
  }

  /** From the first of March of one year to that of the next there are 365
      days, 366 when the February in between has a leap day. */
  lemma DaysToMarchStep(y: int)
    ensures DaysToMarch(y) - DaysToMarch(y - 1) == if IsLeapYear(y) then 366 else 365
  {
    if y % 400 == 0 {
      EraStep(y / 400);
    } else {
      YearInEraStep(y / 400, y % 400);
    }
  }

  /** The first year of an era is a leap year. */
  lemma EraStep(e: int)
    ensures DaysToMarch(400 * e) - DaysToMarch(400 * e - 1) == 366
    ensures IsLeapYear(400 * e)
  {
    EraParts(400 * e, e, 0);
    EraParts(400 * e - 1, e - 1, 399);
  }

  /** A later year of an era is a leap year exactly when the rule says so. */
  lemma YearInEraStep(e: int, k: int)
    requires 0 < k < 400
    ensures DaysToMarch(400 * e + k) - DaysToMarch(400 * e + k - 1) ==
      if IsLeapYear(400 * e + k) then 366 else 365
  {
    YearInEraDays(e, k);
    EraParts(400 * e + k, e, k);
    QuotientStep(k, 4);
    QuotientStep(k, 100);
  }

  lemma YearInEraDays(e: int, k: int)
    requires 0 < k < 400
    ensures DaysToMarch(400 * e + k) - DaysToMarch(400 * e + k - 1) ==
      365 + (k / 4 - (k - 1) / 4) - (k / 100 - (k - 1) / 100)
  {
    EraParts(400 * e + k, e, k);
    EraParts(400 * e + k - 1, e, k - 1);
  }

  /** `y` lies `k` years into era `e`. */
  lemma EraParts(y: int, e: int, k: int)
    requires 0 <= k < 400 && y == 400 * e + k
    ensures y / 400 == e && y - (y / 400) * 400 == k
    ensures DaysToMarch(y) == e * 146097 + k * 365 + k / 4 - k / 100
    ensures y % 4 == k % 4 && y % 100 == k % 100 && y % 400 == k
  {
    EuclidFour(y, 100 * e + k / 4, k % 4);
    EuclidHundred(y, 4 * e + k / 100, k % 100);
    EuclidFourHundred(y, e, k);
  }

  /** Quotient and remainder by 4 are the unique ones. */
  lemma EuclidFour(y: int, q: int, r: int)
    requires 0 <= r < 4 && y == 4 * q + r
    ensures y / 4 == q && y % 4 == r
  {
  }

  /** Quotient and remainder by 100 are the unique ones. */
  lemma EuclidHundred(y: int, q: int, r: int)
    requires 0 <= r < 100 && y == 100 * q + r
    ensures y / 100 == q && y % 100 == r
  {
  }

  /** Quotient and remainder by 400 are the unique ones. */
  lemma EuclidFourHundred(y: int, q: int, r: int)
    requires 0 <= r < 400 && y == 400 * q + r
    ensures y / 400 == q && y % 400 == r
  {
  }

  /** Going up by one passes a multiple of `n` exactly when it lands on one
      (for the two divisors the leap-year rule uses below 400). */
  lemma QuotientStep(k: int, n: int)
    requires 1 <= k && (n == 4 || n == 100)
    ensures k / n - (k - 1) / n == if k % n == 0 then 1 else 0
  {
    if n == 4 {
      assert k / 4 - (k - 1) / 4 == if k % 4 == 0 then 1 else 0;
    } else {
      assert k / 100 - (k - 1) / 100 == if k % 100 == 0 then 1 else 0;
    }
  }

  /** The day count agrees with the calendar: the next day is one more day
      away from the epoch. So DaysFromCivil counts days, and Timestamp
      counts seconds, along the calendar that ValidDate describes. */
  lemma NextDateIsOneDayLater(d: Date)
    requires ValidDate(d)
    ensures DaysFromCivil(NextDate(d)) == DaysFromCivil(d) + 1
  {
    if d.day < DaysInMonth(d.year, d.month) {
    } else if d.month == 2 {
      LeapDayStep(d.year, d.day);
    } else if d.month < 12 {
      MonthEndStep(d.year, d.month);
    }
  }

  /** From the last of February to the first of March. */
  lemma LeapDayStep(y: int, last: int)
    requires last == DaysInMonth(y, 2)
    ensures DaysFromCivil(Date(y, 3, 1)) == DaysFromCivil(Date(y, 2, last)) + 1
  {
    DaysToMarchStep(y);
  }

  /** From the last day of any month but February and December to the first
      of the next. */
  lemma MonthEndStep(y: int, m: int)
    requires 1 <= m < 12 && m != 2
    ensures DaysFromCivil(Date(y, m + 1, 1)) == DaysFromCivil(Date(y, m, DaysInMonth(y, m))) + 1
  {
  }
}
