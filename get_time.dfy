/**
 * The calendar helpers of get_time.py. The clock reading `datetime.now()`
 * is an input (`Instant`); what remains is `strftime` rendering, `int`
 * parsing and the day-of-year sum over a fixed month-length table.
 */
module GetTime {
  import opened Wrappers
  import opened Decimal

  /** One reading of the local clock, field by field as `datetime` holds it. */
  datatype Instant = Instant(year: nat, month: nat, day: nat, hour: nat, minute: nat, second: nat)

  /** Python's `datetime.MINYEAR` and `datetime.MAXYEAR`. */
  const MinYear: nat := 1
  const MaxYear: nat := 9999

  /** The Gregorian leap-year rule that `datetime` follows. */
  predicate IsLeapYear(y: nat) {
    y % 4 == 0 && (y % 100 != 0 || y % 400 == 0)
  }

  /** Days in month `m` of year `y` in the Gregorian calendar (independent of the table below). */
  function MonthLength(y: nat, m: nat): nat
    requires 1 <= m <= 12
  {
    if m == 2 then (if IsLeapYear(y) then 29 else 28)
    else if m == 4 || m == 6 || m == 9 || m == 11 then 30
    else 31
  }

  /** The readings `datetime.now()` can produce. */
  predicate ValidInstant(t: Instant) {
    MinYear <= t.year <= MaxYear && 1 <= t.month <= 12 &&
    1 <= t.day <= MonthLength(t.year, t.month) &&
    t.hour < 24 && t.minute < 60 && t.second < 60
  }

  /** The month-length table `days_in_months` of get_date_and_time; February always has 28 days. */
  const DaysInMonths: seq<nat> := [31, 28, 31, 30, 31, 30, 31, 31, 30, 31, 30, 31]

  /** Python's `sum` over a list of naturals. */
  function Sum(s: seq<nat>): nat
    decreases |s|
  {
    if s == [] then 0 else Sum(s[..|s| - 1]) + s[|s| - 1]
  }

  /** `day + sum(days_in_months[:month-1])`. */
  function DayOfYear(month: nat, day: nat): nat
    requires 1 <= month <= 12
  {
    day + Sum(DaysInMonths[..month - 1])
  }

  /** A (month, day) pair the table admits. */
  predicate InTable(month: nat, day: nat) {
    1 <= month <= 12 && 1 <= day <= DaysInMonths[month - 1]
  }

  /** `strftime("%Y")`: the year in decimal, with no padding (the C library's rendering below year 1000). */
  function YearText(y: nat): string {
    NatToString(y)
  }

  /** get_year: `int(now.strftime("%Y"))` is the clock's year. */
  function GetYear(now: Instant): (year: int)
    requires ValidInstant(now)
    ensures year == now.year
  {
    ParseNatToString(now.year);
    ParseNat(YearText(now.year))
  }

  /** get_date: `f"{day}-{month}-{year}"` from `%d`, `%m` and `%Y`. */
  function GetDate(now: Instant): (date: string)
    requires ValidInstant(now)
    ensures ParseDate(date) == Some((now.day, now.month, now.year))
    ensures now.year >= 1000 ==> |date| == 10 && date[2] == '-' && date[5] == '-' && AllDigits(date[..2] + date[3..5] + date[6..])
  {
    var dd := Pad2(now.day);
    var mm := Pad2(now.month);
    var yyyy := YearText(now.year);
    var date := dd + "-" + mm + "-" + yyyy;
    assert date[..2] == dd && date[3..5] == mm && date[6..] == yyyy;
    ParseNatToString(now.year);
    FourDigitYear(now.year);
    assert date[..2] + date[3..5] + date[6..] == dd + mm + yyyy;
    date
  }

  /** Years from 1000 on render as exactly four digits. */
  lemma FourDigitYear(y: nat)
    requires y <= MaxYear
    ensures y >= 1000 ==> |YearText(y)| == 4
  {
    if y >= 1000 {
      NatToStringLength(y, 3);
    }
  }

  /**
   * Reads "dd-mm-y..." back as (day, month, year): two digits, a dash, two
   * digits, a dash, then at least one digit. This is the format get_date
   * stamps progress entries with.
   */
  function ParseDate(s: string): Option<(nat, nat, nat)> {
    if |s| >= 7 && s[2] == '-' && s[5] == '-' &&
       AllDigits(s[..2]) && AllDigits(s[3..5]) && AllDigits(s[6..])
    then Some((ParseNat(s[..2]), ParseNat(s[3..5]), ParseNat(s[6..])))
    else None
  }

  /**
   * get_date_and_time: every field is parsed back from its `strftime`
   * rendering; the tuple is (year, month, day, num_days, hour, minute, second).
   */
  function GetDateAndTime(now: Instant): (r: (int, int, int, int, int, int, int))
    requires ValidInstant(now)
    ensures r == (now.year, now.month, now.day, DayOfYear(now.month, now.day), now.hour, now.minute, now.second)
  {
    ParseNatToString(now.year);
    var year := ParseNat(YearText(now.year));
    var month := ParseNat(Pad2(now.month));
    var day := ParseNat(Pad2(now.day));
    var hour := ParseNat(Pad2(now.hour));
    var minute := ParseNat(Pad2(now.minute));
    var second := ParseNat(Pad2(now.second));
    var numDays := day + Sum(DaysInMonths[..month - 1]);
    (year, month, day, numDays, hour, minute, second)
  }

  lemma {:induction false} SumStep(s: seq<nat>, i: nat)
    requires i < |s|
    ensures Sum(s[..i + 1]) == Sum(s[..i]) + s[i]
  {
    assert s[..i + 1][..i] == s[..i];
  }

  /** Prefix sums of the table only grow, and by at least the entry that is passed. */
  lemma {:induction false} SumPrefixGrows(s: seq<nat>, i: nat, j: nat)
    requires i < j <= |s|
    ensures Sum(s[..i]) + s[i] <= Sum(s[..j])
    decreases j - i
  {
    SumStep(s, i);
    if i + 1 < j {
      SumPrefixGrows(s, i + 1, j);
    }
  }

  /** The table covers a 365-day year, so 31 December is day 365. */
  lemma TableTotal()
    ensures Sum(DaysInMonths) == 365
    ensures DayOfYear(12, 31) == 365
  {
    var t := DaysInMonths;
    assert t[..12] == t;
    SumStep(t, 0); SumStep(t, 1); SumStep(t, 2); SumStep(t, 3);
    SumStep(t, 4); SumStep(t, 5); SumStep(t, 6); SumStep(t, 7);
    SumStep(t, 8); SumStep(t, 9); SumStep(t, 10); SumStep(t, 11);
  }

  /** In January the day of the year is the day of the month. */
  lemma DayOfYearJanuary(day: nat)
    ensures DayOfYear(1, day) == day
  {
  }

  /** The table agrees with the calendar everywhere except February of a leap year. */
  lemma TableMatchesCalendar(y: nat, m: nat)
    requires 1 <= m <= 12
    ensures MonthLength(y, m) == DaysInMonths[m - 1] <==> !(m == 2 && IsLeapYear(y))
  {
  }

  /** A later (month, day) that the table admits gets a strictly larger day number. */
  lemma DayOfYearIncreasing(m1: nat, d1: nat, m2: nat, d2: nat)
    requires InTable(m1, d1) && InTable(m2, d2)
    requires m1 < m2 || (m1 == m2 && d1 < d2)
    ensures DayOfYear(m1, d1) < DayOfYear(m2, d2)
  {
    if m1 < m2 {
      SumPrefixGrows(DaysInMonths, m1 - 1, m2 - 1);
    }
  }

  /** On the dates the table admits, the day number determines the date. */
  lemma DayOfYearInjective(m1: nat, d1: nat, m2: nat, d2: nat)
    requires InTable(m1, d1) && InTable(m2, d2)
    ensures DayOfYear(m1, d1) == DayOfYear(m2, d2) <==> m1 == m2 && d1 == d2
  {
    if m1 < m2 || (m1 == m2 && d1 < d2) {
      DayOfYearIncreasing(m1, d1, m2, d2);
    } else if m2 < m1 || (m1 == m2 && d2 < d1) {
      DayOfYearIncreasing(m2, d2, m1, d1);
    }
  }

  /** For every reading of the clock, even 29 February, num_days lies in 1..365. */
  lemma DayOfYearBounds(now: Instant)
    requires ValidInstant(now)
    ensures 1 <= GetDateAndTime(now).3 <= 365
  {
    TableTotal();
    var m := now.month;
    if m == 2 && now.day == 29 {
      SumStep(DaysInMonths, 0);
      assert DaysInMonths[..1] == [31];
    } else {
      SumPrefixGrows(DaysInMonths, m - 1, 12);
      assert DaysInMonths[..12] == DaysInMonths;
    }
  }

  /**
   * Leap days are ignored: in a leap year 29 February and 1 March are both
   * day 60, so num_days does not tell the two dates apart.
   */
  lemma LeapDayCollides(y: nat)
    requires MinYear <= y <= MaxYear && IsLeapYear(y)
    ensures ValidInstant(Instant(y, 2, 29, 0, 0, 0)) && ValidInstant(Instant(y, 3, 1, 0, 0, 0))
    ensures GetDateAndTime(Instant(y, 2, 29, 0, 0, 0)).3 == 60
    ensures GetDateAndTime(Instant(y, 3, 1, 0, 0, 0)).3 == 60
  {
    SumStep(DaysInMonths, 0);
    SumStep(DaysInMonths, 1);
    assert DaysInMonths[..1] == [31];
  }

  /** get_date and get_date_and_time agree on the year, month and day of one instant. */
  lemma DateAgreesWithDateAndTime(now: Instant)
    requires ValidInstant(now)
    ensures var r := GetDateAndTime(now);
            ParseDate(GetDate(now)) == Some((r.2, r.1, r.0)) && GetYear(now) == r.0
  {
  }
}
