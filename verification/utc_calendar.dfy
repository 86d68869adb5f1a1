/**
 * The UTC calendar fields of a JavaScript time value (milliseconds since 1970-01-01T00:00Z), as
 * section 21.4.1 of ECMA-262 defines them: the proleptic Gregorian year, the month counted from
 * 0, the day of the month, and the hour and minute of the day. Seconds and milliseconds are not
 * needed by the timestamps and are left out of the fields.
 */
module UtcCalendar {
  const MsPerMinute := 60000
  const MsPerHour := 3600000
  const MsPerDay := 86400000

  /** UTC calendar fields; `month` counts from 0 as `getUTCMonth` does. */
  datatype DateFields = DateFields(year: int, month: int, day: int, hours: int, minutes: int)

  predicate IsLeap(y: int)
  {
    y % 4 == 0 && (y % 100 != 0 || y % 400 == 0)
  }

  function YearDays(y: int): (n: nat)
    ensures n == 365 || n == 366
  {
    if IsLeap(y) then 366 else 365
  }

  /** The days from the first day of year `from` to the first day of year `to`; negative when `to` is earlier. */
  function DaysBetween(from: int, to: int): int
    decreases if from <= to then to - from else from - to
  {
    if from == to then 0
    else if from < to then YearDays(from) + DaysBetween(from + 1, to)
    else DaysBetween(from - 1, to) - YearDays(from - 1)
  }

  /** The measure that shrinks as `YearAndDay` walks towards the year holding `days`. */
  function Walk(days: int): nat
  {
    if days < 0 then 366 - days else days
  }

  /**
   * The year holding the day `days` days after the first day of `year`, and the day's index in
   * that year: the only pair with `DaysBetween(year, y) + doy == days` and `doy` inside year `y`.
   */
  function YearAndDay(days: int, year: int): (r: (int, nat))
    ensures DaysBetween(year, r.0) + r.1 == days
    ensures r.1 < YearDays(r.0)
    ensures days >= 0 ==> r.0 >= year
    ensures days < 0 ==> r.0 < year
    decreases Walk(days)
  {
    if days < 0 then
      YearAndDay(days + YearDays(year - 1), year - 1)
    else if days < YearDays(year) then
      (year, days)
    else
      YearAndDay(days - YearDays(year), year + 1)
  }

  /** The first day of month `m` (counted from 0) within year `y`; `m == 12` gives the year's length. */
  function MonthStart(y: int, m: nat): (d: nat)
    requires m <= 12
    ensures m == 0 ==> d == 0
    ensures m == 12 ==> d == YearDays(y)
  {
    var common := [0, 31, 59, 90, 120, 151, 181, 212, 243, 273, 304, 334, 365][m];
    if IsLeap(y) && m >= 2 then common + 1 else common
  }

  /** The days in month `m` of year `y`. */
  function MonthDays(y: int, m: nat): (n: nat)
    requires m < 12
    ensures 28 <= n <= 31
  {
    MonthStart(y, m + 1) - MonthStart(y, m)
  }

  /** The month holding day `doy` of year `y`: the last month starting on or before it. */
  function MonthOf(y: int, doy: nat): (m: nat)
    requires doy < YearDays(y)
    ensures m < 12
    ensures MonthStart(y, m) <= doy < MonthStart(y, m + 1)
  {
    MonthFrom(y, doy, 11)
  }

  function MonthFrom(y: int, doy: nat, m: nat): (r: nat)
    requires m < 12 && doy < MonthStart(y, m + 1)
    ensures r <= m
    ensures MonthStart(y, r) <= doy < MonthStart(y, r + 1)
  {
    if MonthStart(y, m) <= doy then m else MonthFrom(y, doy, m - 1)
  }

  /** Fields that name a real minute: a month of the year, a day of that month, an hour and a minute. */
  predicate Valid(d: DateFields)
  {
    && 0 <= d.month < 12
    && 1 <= d.day <= MonthDays(d.year, d.month)
    && 0 <= d.hours < 24
    && 0 <= d.minutes < 60
  }

  /** `getUTCFullYear`, `getUTCMonth`, `getUTCDate`, `getUTCHours` and `getUTCMinutes` of `t`. */
  function FieldsOf(t: int): (d: DateFields)
    ensures Valid(d)
  {
    var (year, doy) := YearAndDay(t / MsPerDay, 1970);
    var month := MonthOf(year, doy);
    var inDay := t % MsPerDay;
    DateFields(year, month, doy - MonthStart(year, month) + 1, inDay / MsPerHour, inDay % MsPerHour / MsPerMinute)
  }

  /** The hour and minute of `t` are read off the time of day alone. */
  lemma ClockFields(t: int)
    ensures FieldsOf(t).hours == t % MsPerDay / MsPerHour
    ensures FieldsOf(t).minutes == t % MsPerHour / MsPerMinute
  {
    assert t % MsPerDay % MsPerHour == t % MsPerHour;
  }

  /** The time value of the first millisecond of the minute the fields name. */
  function TimeOf(d: DateFields): int
    requires Valid(d)
  {
    var days := DaysBetween(1970, d.year) + MonthStart(d.year, d.month) + d.day - 1;
    days * MsPerDay + d.hours * MsPerHour + d.minutes * MsPerMinute
  }

  /** The fields of `t` name the minute `t` falls in: converting back loses only the seconds. */
  lemma TimeOfFields(t: int)
    ensures TimeOf(FieldsOf(t)) == t - t % MsPerMinute
  {
    var (year, doy) := YearAndDay(t / MsPerDay, 1970);
    var inDay := t % MsPerDay;
    assert t == (t / MsPerDay) * MsPerDay + inDay;
    assert inDay == inDay / MsPerHour * MsPerHour + inDay % MsPerHour / MsPerMinute * MsPerMinute + t % MsPerMinute;
  }

  /** Times in the same minute have the same fields. */
  lemma MinuteFields(t: int)
    ensures FieldsOf(t - t % MsPerMinute) == FieldsOf(t)
  {
    var u := t - t % MsPerMinute;
    DivUnique(u, MsPerMinute, t / MsPerMinute, 0);
    MinuteClock(t);
    MinuteClock(u);
  }

  /**
   * The day, hour and minute of `t` read off its minute count `t / MsPerMinute`: 1440 minutes a
   * day, 60 an hour.
   */
  lemma MinuteClock(t: int)
    ensures t / MsPerDay == t / MsPerMinute / 1440
    ensures t % MsPerDay == t / MsPerMinute % 1440 * MsPerMinute + t % MsPerMinute
    ensures FieldsOf(t).hours == t / MsPerMinute % 1440 / 60
    ensures FieldsOf(t).minutes == t / MsPerMinute % 60
  {
    var q, r := t / MsPerMinute, t % MsPerMinute;
    var day, md := q / 1440, q % 1440;
    var hh, mm := md / 60, md % 60;
    DivUnique(t, MsPerDay, day, md * MsPerMinute + r);
    DivUnique(md * MsPerMinute + r, MsPerHour, hh, mm * MsPerMinute + r);
    DivUnique(mm * MsPerMinute + r, MsPerMinute, mm, r);
    DivUnique(q, 60, day * 24 + hh, mm);
    ClockFields(t);
    assert t % MsPerHour == (t % MsPerDay) % MsPerHour by {
      DivUnique(t, MsPerHour, day * 24 + hh, mm * MsPerMinute + r);
    }
  }

  /** Division by a positive `d` is determined by any quotient and remainder that fit. */
  lemma DivUnique(n: int, d: int, q: int, r: int)
    requires d > 0 && n == q * d + r && 0 <= r < d
    ensures n / d == q && n % d == r
  {
    StepProduct(n / d, q, d);
    StepProduct(q, n / d, d);
  }

  lemma StepProduct(a: int, b: int, d: int)
    requires d > 0
    ensures a < b ==> a * d + d <= b * d
  {
    if a < b {
      var k := b - a - 1;
      assert b * d == a * d + d + k * d;
      assert k * d >= 0;
    }
  }

  /** Counting years from `a` to `c` is counting from `a` to `b` and then from `b` to `c`. */
  lemma {:induction false} DaysBetweenAdds(a: int, b: int, c: int)
    ensures DaysBetween(a, c) == DaysBetween(a, b) + DaysBetween(b, c)
    decreases if a <= b then b - a else a - b
  {
    if a < b {
      DaysBetweenAdds(a + 1, b, c);
      DaysBetweenStep(a, c);
    } else if b < a {
      DaysBetweenAdds(a - 1, b, c);
      DaysBetweenStep(a - 1, c);
    }
  }

  /** One year forward from the start: the days of year `a`, then the rest. */
  lemma {:induction false} DaysBetweenStep(a: int, c: int)
    ensures DaysBetween(a, c) == YearDays(a) + DaysBetween(a + 1, c)
    decreases if a <= c then c - a else a - c
  {
    if c < a {
      if c < a - 1 {
        DaysBetweenStep(a - 1, c);
      }
    }
  }

  /** A later year starts at least a whole year after an earlier one. */
  lemma {:induction false} DaysBetweenGrows(y1: int, y2: int)
    requires y1 < y2
    ensures DaysBetween(y1, y2) >= YearDays(y1)
    decreases y2 - y1
  {
    if y1 + 1 < y2 {
      DaysBetweenGrows(y1 + 1, y2);
    }
  }

  /** Only one year and day-in-year pair lies a given number of days after the start of `year`. */
  lemma YearAndDayUnique(days: int, year: int, y: int, doy: nat)
    requires DaysBetween(year, y) + doy == days && doy < YearDays(y)
    ensures YearAndDay(days, year) == (y, doy)
  {
    var (y1, doy1) := YearAndDay(days, year);
    DaysBetweenAdds(year, y1, y);
    DaysBetweenAdds(year, y, y1);
    if y1 < y {
      DaysBetweenGrows(y1, y);
    } else if y < y1 {
      DaysBetweenGrows(y, y1);
    }
  }

  /** Only one month holds a given day of the year. */
  lemma MonthOfUnique(y: int, doy: nat, m: nat)
    requires m < 12 && MonthStart(y, m) <= doy < MonthStart(y, m + 1)
    ensures MonthOf(y, doy) == m
  {
    MonthStartOrdered(y);
  }

  /** Months start in calendar order. */
  lemma MonthStartOrdered(y: int)
    ensures forall a: nat, b: nat :: a <= b <= 12 ==> MonthStart(y, a) <= MonthStart(y, b)
  {
  }

  /** The fields of the time the fields name are those fields. */
  lemma FieldsOfTime(d: DateFields)
    requires Valid(d)
    ensures FieldsOf(TimeOf(d)) == d
  {
    var doy := MonthStart(d.year, d.month) + d.day - 1;
    var days := DaysBetween(1970, d.year) + doy;
    var inDay := d.hours * MsPerHour + d.minutes * MsPerMinute;
    var t := TimeOf(d);
    assert t == days * MsPerDay + inDay && 0 <= inDay < MsPerDay;
    assert t / MsPerDay == days && t % MsPerDay == inDay;
    YearAndDayUnique(days, 1970, d.year, doy);
    MonthOfUnique(d.year, doy, d.month);
  }

  /** A span of years holds between 365 and 366 days per year. */
  lemma {:induction false} DaysBetweenBounds(a: int, b: int)
    requires a <= b
    ensures 365 * (b - a) <= DaysBetween(a, b) <= 366 * (b - a)
    decreases b - a
  {
    if a < b {
      DaysBetweenBounds(a + 1, b);
    }
  }

  /** Counting backwards gives the same number of days, negated. */
  lemma DaysBetweenBackwards(a: int, b: int)
    ensures DaysBetween(b, a) == -DaysBetween(a, b)
  {
    DaysBetweenAdds(a, b, a);
  }
}
