/**
  The oracle's year loop against the closed form of the Gregorian calendar, and
  the 365.25-day year of the other contracts against both.
 */
module Calendar {
  import opened Platform

  const SECONDS_PER_DAY := 86_400

  /** The leap rule of Appendix C of RFC 3339. */
  predicate IsLeap(year: int) {
    (year % 4 == 0 && year % 100 != 0) || year % 400 == 0
  }

  function DaysInYear(year: int): int {
    if IsLeap(year) then 366 else 365
  }

  /** Leap years among the years 1..n, in closed form. */
  function LeapYears(n: int): int {
    n / 4 - n / 100 + n / 400
  }

  /** Days from 1970-01-01 to the first of January of a year, in closed form. */
  function DaysBefore(year: int): int {
    365 * (year - 1970) + LeapYears(year - 1) - LeapYears(1969)
  }

  lemma YearLength(year: int)
    ensures DaysBefore(year + 1) - DaysBefore(year) == DaysInYear(year)
  {
    QuotientStep(year, 4);
    QuotientStep(year, 100);
    QuotientStep(year, 400);
    assert year % 400 == 0 ==> year % 100 == 0;
    assert year % 100 == 0 ==> year % 4 == 0;
  }

  /** The quotient by `d` grows exactly at the multiples of `d`. */
  lemma QuotientStep(n: int, d: int)
    requires d > 0
    ensures n / d - (n - 1) / d == if n % d == 0 then 1 else 0
  {
    var q, r := n / d, n % d;
    assert n == d * q + r;
    if r == 0 {
      QuotientIs(n - 1, d, q - 1, d - 1);
    } else {
      QuotientIs(n - 1, d, q, r - 1);
    }
  }

  lemma {:induction false} DaysIncrease(y: int, z: int)
    requires y <= z
    ensures DaysBefore(z) >= DaysBefore(y) + 365 * (z - y)
    decreases z - y
  {
    if y < z {
      DaysIncrease(y, z - 1);
      YearLength(z - 1);
    }
  }

  /** The day lies in the year. */
  predicate InYear(days: int, year: int) {
    DaysBefore(year) <= days < DaysBefore(year + 1)
  }

  lemma YearUnique(days: int, y: int, z: int)
    requires InYear(days, y) && InYear(days, z)
    ensures y == z
  {
    if y < z {
      DaysIncrease(y + 1, z);
    } else if z < y {
      DaysIncrease(z + 1, y);
    }
  }

  lemma {:induction false} YearExists(days: nat) returns (year: int)
    ensures year >= 1970 && InYear(days, year)
  {
    if days == 0 {
      YearLength(1970);
      year := 1970;
    } else {
      year := YearExists(days - 1);
      YearLength(year);
      YearLength(year + 1);
      if days >= DaysBefore(year + 1) {
        year := year + 1;
      }
    }
  }

  lemma SomeYear(days: nat)
    ensures exists year :: year >= 1970 && InYear(days, year)
  {
    var year := YearExists(days);
  }

  /** The Gregorian year of a day counted from 1970-01-01. */
  ghost function GregorianYear(days: nat): (year: int)
    ensures year >= 1970 && InYear(days, year)
  {
    SomeYear(days);
    var year :| year >= 1970 && InYear(days, year);
    year
  }

  /** What the year loop returns: the Gregorian year, or a trap once it leaves 32-bit integers. */
  ghost function CurrentYear(now: u64): (r: Result<u32>)
    ensures r.Ok? <==> now / SECONDS_PER_DAY < DaysBefore(I32_MAX + 1)
  {
    var year := GregorianYear(now / SECONDS_PER_DAY);
    if year <= I32_MAX then
      DaysIncrease(year + 1, I32_MAX + 1);
      Ok(year)
    else
      DaysIncrease(I32_MAX + 1, year);
      Trap
  }

  /** The year loop: whole years are taken off the day count until less than a year is left. */
  method GetCurrentYear(now: u64) returns (r: Result<u32>)
    ensures r == CurrentYear(now)
    ensures r.Ok? ==> InYear(now / SECONDS_PER_DAY, r.value)
    ensures r.Ok? <==> now / SECONDS_PER_DAY < DaysBefore(I32_MAX + 1)
  {
    var total := now / SECONDS_PER_DAY;
    var days := total;
    var year := 1970;
    while true
      invariant 1970 <= year <= I32_MAX
      invariant 0 <= days == total - DaysBefore(year)
      decreases days
    {
      var isLeap := (year % 4 == 0 && year % 100 != 0) || year % 400 == 0;
      var daysInYear := if isLeap then 366 else 365;
      YearLength(year);
      if days < daysInYear {
        break;
      }
      days := days - daysInYear;
      if year == I32_MAX {
        YearUniqueOrLater(total, I32_MAX);
        return Trap;
      }
      year := year + 1;
    }
    YearUnique(total, year, GregorianYear(total));
    return Ok(year);
  }

  lemma YearUniqueOrLater(days: nat, year: int)
    requires days >= DaysBefore(year + 1)
    ensures GregorianYear(days) > year
  {
    if GregorianYear(days) <= year {
      DaysIncrease(GregorianYear(days) + 1, year + 1);
    }
  }

  // ---- Against 365.25-day years ----

  lemma LeapYearBounds(n: int)
    ensures 97 * n - 699 <= 400 * LeapYears(n) <= 97 * n + 396
  {
    var a, b, c := n / 4, n / 100, n / 400;
    assert 4 * a <= n <= 4 * a + 3;
    assert 100 * b <= n <= 100 * b + 99;
    assert 400 * c <= n <= 400 * c + 399;
  }

  /** Closed-form day counts stay within two days of 365.2425 days a year. */
  lemma DayCountBounds(year: int)
    ensures 146_097 * (year - 1970) - 506 <= 400 * DaysBefore(year) <= 146_097 * (year - 1970) + 589
  {
    LeapYearBounds(year - 1);
    assert LeapYears(1969) == 477;
    hide LeapYears;
  }

  /** The last century before the bound: the count stays within a year of 365.25 days a year. */
  lemma LateDayCount(year: int)
    requires 50_500 < year < 50_604
    ensures 4 * DaysBefore(year) >= 1461 * (year - 1970) - 1461
  {
    var n := year - 1;
    var a, b, c := n / 4, n / 100, n / 400;
    assert c == 126;
    assert LeapYears(1969) == 477;
    assert 4 * a <= n <= 4 * a + 3;
    if n < 50_600 {
      assert b == 505;
    } else {
      assert b == 506 && a == 12_650;
    }
  }

  /** The two quotients of a timestamp. */
  lemma TimestampQuotients(now: nat)
    ensures var days, years := now / SECONDS_PER_DAY, now / SECONDS_PER_YEAR;
            && 1461 * years <= 4 * days + 3
            && 4 * days < 1461 * (years + 1)
            && years >= 0
  {
    var days, years := now / SECONDS_PER_DAY, now / SECONDS_PER_YEAR;
    assert SECONDS_PER_DAY * days <= now < SECONDS_PER_DAY * (days + 1);
    assert SECONDS_PER_YEAR * years <= now < SECONDS_PER_YEAR * (years + 1);
  }

  /** The 365.25-day years since 1970 against the Gregorian year. */
  lemma YearsAhead(now: nat)
    ensures 1970 + now / SECONDS_PER_YEAR <= GregorianYear(now / SECONDS_PER_DAY) + 1
  {
    var g := GregorianYear(now / SECONDS_PER_DAY);
    TimestampQuotients(now);
    DayCountBounds(g + 1);
    assert now / SECONDS_PER_DAY < DaysBefore(g + 1);
    hide DaysBefore, InYear, GregorianYear;
  }

  lemma YearsBehind(now: nat)
    requires GregorianYear(now / SECONDS_PER_DAY) < 50_604
    ensures GregorianYear(now / SECONDS_PER_DAY) <= 1970 + now / SECONDS_PER_YEAR + 1
  {
    var g := GregorianYear(now / SECONDS_PER_DAY);
    TimestampQuotients(now);
    assert DaysBefore(g) <= now / SECONDS_PER_DAY;
    hide DaysBefore, InYear, GregorianYear;
    if g <= 50_500 {
      DayCountBounds(g);
    } else {
      LateDayCount(g);
    }
  }

  /** The contracts' approximate year is never more than one ahead of the Gregorian year. */
  lemma ApproximateAtMostOneAhead(now: u64)
    ensures ApproximateYear(now).Ok? ==> ApproximateYear(now).value <= GregorianYear(now / SECONDS_PER_DAY) + 1
  {
    YearsAhead(now);
    var years := now / SECONDS_PER_YEAR;
    hide GregorianYear;
    assert years % (U32_MAX + 1) <= years;
  }

  /** Before the year 50604 it never traps and trails by at most one ... */
  lemma ApproximateAtMostOneBehind(now: u64)
    requires GregorianYear(now / SECONDS_PER_DAY) < 50_604
    ensures ApproximateYear(now).Ok?
    ensures GregorianYear(now / SECONDS_PER_DAY) <= ApproximateYear(now).value + 1
  {
    YearsAhead(now);
    YearsBehind(now);
    var years := now / SECONDS_PER_YEAR;
    hide GregorianYear;
    assert years % (U32_MAX + 1) == years;
  }

  /** ... and the year 50604 begins two years ahead of it. */
  lemma ApproximateTwoBehind()
    ensures var now := 1_534_740_739_200;
            GregorianYear(now / SECONDS_PER_DAY) == 50_604 && ApproximateYear(now) == Ok(50_602)
  {
    var days := 1_534_740_739_200 / SECONDS_PER_DAY;
    YearUnique(days, 50_604, GregorianYear(days));
  }
}
