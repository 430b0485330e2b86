/**
 * Calendar dates in chrono's `%Y-%m-%d` form (the full-date of section 5.6 of
 * RFC 3339, four-digit zero-padded years) and the signed day difference that
 * `get_duration` computes, over the proleptic Gregorian calendar.
 *
 * Days are counted from 0000-01-01 (`DayNumber`), by summing year and month
 * lengths; a closed form and the inverse (`CivilFromDays`) are proved against
 * that count.
 */
module Timestamp {
  import opened Results
  import opened Numbers

  datatype Date = Date(year: nat, month: nat, day: nat)

  predicate IsLeapYear(y: nat) {
    y % 4 == 0 && (y % 100 != 0 || y % 400 == 0)
  }

  function YearLength(y: nat): nat {
    if IsLeapYear(y) then 366 else 365
  }

  function DaysInMonth(y: nat, m: nat): (n: nat)
    requires 1 <= m <= 12
    ensures 28 <= n <= 31
  {
    if m == 2 then (if IsLeapYear(y) then 29 else 28)
    else if m == 4 || m == 6 || m == 9 || m == 11 then 30
    else 31
  }

  /** A real calendar day: month 1..12 and a day that exists in that month of that year. */
  predicate ValidDate(d: Date) {
    1 <= d.month <= 12 && 1 <= d.day <= DaysInMonth(d.year, d.month)
  }

  /** A date that `%Y-%m-%d` writes with a four-digit year. */
  predicate Representable(d: Date) {
    ValidDate(d) && d.year < 10000
  }

  /** Days from 0000-01-01 to January 1st of year `y`. */
  function DaysBeforeYear(y: nat): nat {
    if y == 0 then 0 else DaysBeforeYear(y - 1) + YearLength(y - 1)
  }

  /** Days from January 1st of year `y` to the first day of month `m` (`m == 13`: the whole year). */
  function DaysBeforeMonth(y: nat, m: nat): nat
    requires 1 <= m <= 13
  {
    if m == 1 then 0 else DaysBeforeMonth(y, m - 1) + DaysInMonth(y, m - 1)
  }

  /** Days from 0000-01-01 to `d`. */
  function DayNumber(d: Date): nat
    requires ValidDate(d)
  {
    DaysBeforeYear(d.year) + DaysBeforeMonth(d.year, d.month) + d.day - 1
  }

  /** Strict calendar order. */
  predicate Before(a: Date, b: Date) {
    a.year < b.year
    || (a.year == b.year && a.month < b.month)
    || (a.year == b.year && a.month == b.month && a.day < b.day)
  }

  /** The calendar day after `d`. */
  function NextDay(d: Date): (n: Date)
    requires ValidDate(d)
    ensures ValidDate(n) && Before(d, n)
  {
    if d.day < DaysInMonth(d.year, d.month) then Date(d.year, d.month, d.day + 1)
    else if d.month < 12 then Date(d.year, d.month + 1, 1)
    else Date(d.year + 1, 1, 1)
  }

  // ---------------------------------------------------------------------------
  // Day counting

  /** The twelve months add up to the length of the year. */
  lemma MonthsFillYear(y: nat)
    ensures DaysBeforeMonth(y, 13) == YearLength(y)
  {
    assert DaysBeforeMonth(y, 2) == 31;
    assert DaysBeforeMonth(y, 3) == 31 + DaysInMonth(y, 2);
    assert DaysBeforeMonth(y, 4) == 62 + DaysInMonth(y, 2);
    assert DaysBeforeMonth(y, 5) == 92 + DaysInMonth(y, 2);
    assert DaysBeforeMonth(y, 6) == 123 + DaysInMonth(y, 2);
    assert DaysBeforeMonth(y, 7) == 153 + DaysInMonth(y, 2);
    assert DaysBeforeMonth(y, 8) == 184 + DaysInMonth(y, 2);
    assert DaysBeforeMonth(y, 9) == 215 + DaysInMonth(y, 2);
    assert DaysBeforeMonth(y, 10) == 245 + DaysInMonth(y, 2);
    assert DaysBeforeMonth(y, 11) == 276 + DaysInMonth(y, 2);
    assert DaysBeforeMonth(y, 12) == 306 + DaysInMonth(y, 2);
  }

  /** Adding `k` to `x` crosses a multiple of `k` exactly when `x` is one (for the leap-year divisors). */
  lemma DivStep(x: nat, k: nat)
    requires k == 4 || k == 100 || k == 400
    ensures (x + k) / k - (x + k - 1) / k == (if x % k == 0 then 1 else 0)
  {
    if k == 4 {
      var q, r := x / 4, x % 4;
      assert x == 4 * q + r;
      assert (x + 4) / 4 == q + 1;
      assert (x + 3) / 4 == (if r == 0 then q else q + 1);
    } else if k == 100 {
      var q, r := x / 100, x % 100;
      assert x == 100 * q + r;
      assert (x + 100) / 100 == q + 1;
      assert (x + 99) / 100 == (if r == 0 then q else q + 1);
    } else {
      var q, r := x / 400, x % 400;
      assert x == 400 * q + r;
      assert (x + 400) / 400 == q + 1;
      assert (x + 399) / 400 == (if r == 0 then q else q + 1);
    }
  }

  lemma Multiple400IsMultiple100(x: nat)
    requires x % 400 == 0
    ensures x % 100 == 0
  {
    assert x == 100 * (4 * (x / 400));
  }

  lemma Multiple100IsMultiple4(x: nat)
    requires x % 100 == 0
    ensures x % 4 == 0
  {
    assert x == 4 * (25 * (x / 100));
  }

  lemma LeapYearByRemainders(x: nat)
    ensures YearLength(x) == 365 + (if x % 4 == 0 then 1 else 0) - (if x % 100 == 0 then 1 else 0)
                                 + (if x % 400 == 0 then 1 else 0)
  {
    if x % 400 == 0 {
      Multiple400IsMultiple100(x);
    }
    if x % 100 == 0 {
      Multiple100IsMultiple4(x);
    }
  }

  /** The usual closed form: 365 days a year plus one per Gregorian leap year before `y`. */
  lemma {:induction false} DaysBeforeYearClosedForm(y: nat)
    ensures DaysBeforeYear(y) == 365 * y + (y + 3) / 4 - (y + 99) / 100 + (y + 399) / 400
  {
    if y > 0 {
      var x := y - 1;
      DaysBeforeYearClosedForm(x);
      DivStep(x, 4);
      DivStep(x, 100);
      DivStep(x, 400);
      LeapYearByRemainders(x);
    }
  }

  lemma {:induction false} DaysBeforeYearMonotone(a: nat, b: nat)
    requires a <= b
    ensures DaysBeforeYear(a) <= DaysBeforeYear(b)
  {
    if a < b {
      DaysBeforeYearMonotone(a, b - 1);
    }
  }

  lemma {:induction false} DaysBeforeMonthMonotone(y: nat, a: nat, b: nat)
    requires 1 <= a <= b <= 13
    ensures DaysBeforeMonth(y, a) <= DaysBeforeMonth(y, b)
  {
    if a < b {
      DaysBeforeMonthMonotone(y, a, b - 1);
    }
  }

  /** A date's day number lies inside its own year. */
  lemma DayNumberWithinYear(d: Date)
    requires ValidDate(d)
    ensures DaysBeforeYear(d.year) <= DayNumber(d) < DaysBeforeYear(d.year + 1)
  {
    DaysBeforeMonthMonotone(d.year, d.month + 1, 13);
    MonthsFillYear(d.year);
  }

  /** Every date written with four digits is fewer than 3652425 days after 0000-01-01. */
  lemma DayNumberBound(d: Date)
    requires Representable(d)
    ensures DayNumber(d) < 3652425
  {
    DayNumberWithinYear(d);
    DaysBeforeYearMonotone(d.year + 1, 10000);
    DaysBeforeYearClosedForm(10000);
  }

  /** Day numbers follow calendar order, in both directions. */
  lemma DayNumberOrder(a: Date, b: Date)
    requires ValidDate(a) && ValidDate(b)
    ensures Before(a, b) <==> DayNumber(a) < DayNumber(b)
  {
    if a.year != b.year {
      var (p, q) := if a.year < b.year then (a, b) else (b, a);
      DayNumberWithinYear(p);
      DayNumberWithinYear(q);
      DaysBeforeYearMonotone(p.year + 1, q.year);
    } else if a.month != b.month {
      var (p, q) := if a.month < b.month then (a, b) else (b, a);
      DaysBeforeMonthMonotone(p.year, p.month + 1, q.month);
    }
  }

  /** Two valid dates with the same day number are the same date. */
  lemma DayNumberInjective(a: Date, b: Date)
    requires ValidDate(a) && ValidDate(b) && DayNumber(a) == DayNumber(b)
    ensures a == b
  {
    DayNumberOrder(a, b);
    DayNumberOrder(b, a);
  }

  /** Consecutive calendar days, across month ends, year ends and February 29th, are one day apart. */
  lemma NextDayNumber(d: Date)
    requires ValidDate(d)
    ensures DayNumber(NextDay(d)) == DayNumber(d) + 1
  {
    if d.day == DaysInMonth(d.year, d.month) && d.month == 12 {
      MonthsFillYear(d.year);
    }
  }

  // ---------------------------------------------------------------------------
  // The inverse: from a day number back to the calendar date

  /** The date `r` days after the first day of month `m` of year `y`. */
  function MonthFrom(y: nat, m: nat, r: nat): (d: Date)
    requires 1 <= m <= 12
    requires r < DaysBeforeMonth(y, 13) - DaysBeforeMonth(y, m)
    ensures ValidDate(d) && d.year == y
    ensures DayNumber(d) == DaysBeforeYear(y) + DaysBeforeMonth(y, m) + r
    decreases 12 - m
  {
    if r < DaysInMonth(y, m) then Date(y, m, r + 1)
    else MonthFrom(y, m + 1, r - DaysInMonth(y, m))
  }

  /** The date `n` days after January 1st of year `y`. */
  function YearFrom(y: nat, n: nat): (d: Date)
    ensures ValidDate(d)
    ensures DayNumber(d) == DaysBeforeYear(y) + n
    decreases n
  {
    MonthsFillYear(y);
    if n < YearLength(y) then MonthFrom(y, 1, n)
    else YearFrom(y + 1, n - YearLength(y))
  }

  /** The date whose day number is `n`. */
  function CivilFromDays(n: nat): (d: Date)
    ensures ValidDate(d) && DayNumber(d) == n
  {
    YearFrom(0, n)
  }

  /** Going to a day number and back is the identity on valid dates. */
  lemma CivilFromDaysOfDayNumber(d: Date)
    requires ValidDate(d)
    ensures CivilFromDays(DayNumber(d)) == d
  {
    DayNumberInjective(CivilFromDays(DayNumber(d)), d);
  }

  // ---------------------------------------------------------------------------
  // Text form

  /** chrono's `format("%Y-%m-%d")` of a date with a four-digit year. */
  function FormatDate(d: Date): (s: string)
    requires Representable(d)
    ensures |s| == 10 && s[4] == '-' && s[7] == '-'
  {
    Padded(d.year, 4) + "-" + Padded(d.month, 2) + "-" + Padded(d.day, 2)
  }

  /**
   * `NaiveDate::parse_from_str(s, "%Y-%m-%d")` for the zero-padded form: four
   * digits, '-', two digits, '-', two digits, naming a real calendar day.
   * `None` stands for the parse error that `get_duration` unwraps.
   */
  function ParseDate(s: string): (r: Option<Date>)
    ensures r.Some? ==> Representable(r.value) && FormatDate(r.value) == s
  {
    if |s| != 10 || s[4] != '-' || s[7] != '-' then None
    else if !AllDigits(s[..4]) || !AllDigits(s[5..7]) || !AllDigits(s[8..]) then None
    else
      var d := Date(DigitsValue(s[..4]), DigitsValue(s[5..7]), DigitsValue(s[8..]));
      if !ValidDate(d) then None
      else
        DigitsValueBound(s[..4]);
        PaddedOfValue(s[..4]);
        PaddedOfValue(s[5..7]);
        PaddedOfValue(s[8..]);
        assert s == s[..4] + "-" + s[5..7] + "-" + s[8..];
        Some(d)
  }

  /** The parser reads back every date the formatter writes. */
  lemma ParseFormat(d: Date)
    requires Representable(d)
    ensures ParseDate(FormatDate(d)) == Some(d)
  {
    var s := FormatDate(d);
    assert s[..4] == Padded(d.year, 4);
    assert s[5..7] == Padded(d.month, 2);
    assert s[8..] == Padded(d.day, 2);
    PaddedValue(d.year, 4);
    PaddedValue(d.month, 2);
    PaddedValue(d.day, 2);
  }

  /** A string parses to `d` exactly when it is the four-digit form of the real date `d`. */
  lemma ParseDateExact(s: string, d: Date)
    ensures ParseDate(s) == Some(d) <==> Representable(d) && s == FormatDate(d)
  {
    if Representable(d) && s == FormatDate(d) {
      ParseFormat(d);
    }
  }

  /** `get_time` with the clock reading passed in: today's date as `YYYY-MM-DD`. */
  function GetTime(today: Date): (s: string)
    requires Representable(today)
    ensures ParseDate(s) == Some(today)
  {
    ParseFormat(today);
    FormatDate(today)
  }

  // ---------------------------------------------------------------------------
  // get_duration

  /** Rust's `x as i32` of an `i64`: the low 32 bits read as a two's-complement number. */
  function AsI32(x: int): (r: int)
    ensures -0x8000_0000 <= r < 0x8000_0000
    ensures -0x8000_0000 <= x < 0x8000_0000 ==> r == x
  {
    (x + 0x8000_0000) % 0x1_0000_0000 - 0x8000_0000
  }

  /**
   * `get_duration(start, end)`: days from `start` to `end`, negative when
   * `end` is earlier; `None` where either `unwrap` fails. For four-digit years
   * the `as i32` cast never wraps, so the result is the exact difference.
   */
  function GetDuration(start: string, end: string): (r: Option<int>)
    ensures r.Some? <==> ParseDate(start).Some? && ParseDate(end).Some?
    ensures r.Some? ==> r.value == DayNumber(ParseDate(end).value) - DayNumber(ParseDate(start).value)
  {
    match (ParseDate(start), ParseDate(end))
    case (Some(s), Some(e)) =>
      DayNumberBound(s);
      DayNumberBound(e);
      Some(AsI32(DayNumber(e) - DayNumber(s)))
    case _ => None
  }

  lemma DurationSelf(s: string)
    requires ParseDate(s).Some?
    ensures GetDuration(s, s) == Some(0)
  {
  }

  lemma DurationAntisymmetric(a: string, b: string)
    requires GetDuration(a, b).Some?
    ensures GetDuration(b, a) == Some(-GetDuration(a, b).value)
  {
  }

  lemma DurationAdditive(a: string, b: string, c: string)
    requires GetDuration(a, b).Some? && GetDuration(b, c).Some?
    ensures GetDuration(a, c) == Some(GetDuration(a, b).value + GetDuration(b, c).value)
  {
  }

  /** The difference is zero exactly for the same date, and positive exactly when `end` is later. */
  lemma DurationSign(a: string, b: string)
    requires GetDuration(a, b).Some?
    ensures GetDuration(a, b).value == 0 <==> ParseDate(a).value == ParseDate(b).value
    ensures GetDuration(a, b).value > 0 <==> Before(ParseDate(a).value, ParseDate(b).value)
  {
    var da, db := ParseDate(a).value, ParseDate(b).value;
    DayNumberOrder(da, db);
    if GetDuration(a, b).value == 0 {
      DayNumberInjective(da, db);
    }
  }

  /** A day and the next one, both written as `YYYY-MM-DD`, are one day apart. */
  lemma DurationOfNextDay(d: Date)
    requires Representable(d) && Representable(NextDay(d))
    ensures GetDuration(FormatDate(d), FormatDate(NextDay(d))) == Some(1)
  {
    ParseFormat(d);
    ParseFormat(NextDay(d));
    NextDayNumber(d);
  }

  /** February 29th of a common year is not a date: `get_duration` fails on it. */
  lemma RejectsFebruary29OfCommonYear(s: string)
    ensures GetDuration("2023-02-29", s).None?
  {
    February29Fields();
  }

  /** The three fields of `2023-02-29` read as 2023, 2 and 29. */
  lemma February29Fields()
    ensures var t := "2023-02-29";
      && AllDigits(t[..4]) && AllDigits(t[5..7]) && AllDigits(t[8..])
      && DigitsValue(t[..4]) == 2023 && DigitsValue(t[5..7]) == 2 && DigitsValue(t[8..]) == 29
  {
    var t := "2023-02-29";
    assert t[..4] == "2023" && t[5..7] == "02" && t[8..] == "29";
    assert "2023"[..3] == "202" && "202"[..2] == "20" && "20"[..1] == "2" && "2"[..0] == [];
    assert "02"[..1] == "0" && "0"[..0] == [] && "29"[..1] == "2";
  }

  /** Month 13 is not a date: `get_duration` fails on it. */
  lemma RejectsMonth13(s: string)
    ensures GetDuration("2024-13-01", s).None?
  {
    var t := "2024-13-01";
    assert t[5..7] == "13" && "13"[..1] == "1" && "1"[..0] == [];
    assert DigitsValue("13") == 13;
  }

  /** Unlike chrono, whose `%m` also reads a single digit, the model rejects a one-digit month. */
  lemma RejectsUnpaddedMonth(s: string)
    ensures GetDuration("2024-2-03", s).None?
  {
  }
}
