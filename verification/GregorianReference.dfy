/** The proleptic Gregorian calendar as a day count: the meaning both converters are measured against. */
module GregorianReference {
  import opened Quotients

  datatype Date = Date(y: int, m: int, d: int)

  predicate LeapYear(y: int) {
    (y % 4 == 0 && y % 100 != 0) || y % 400 == 0
  }

  function MonthLength(y: int, m: int): int {
    if m == 2 then (if LeapYear(y) then 29 else 28)
    else if m == 4 || m == 6 || m == 9 || m == 11 then 30 else 31
  }

  predicate Valid(t: Date) {
    1 <= t.m <= 12 && 1 <= t.d <= MonthLength(t.y, t.m)
  }

  function NextDay(t: Date): (n: Date)
    requires Valid(t)
    ensures Valid(n)
  {
    if t.d < MonthLength(t.y, t.m) then t.(d := t.d + 1)
    else if t.m < 12 then Date(t.y, t.m + 1, 1)
    else Date(t.y + 1, 1, 1)
  }

  /** Days before 1 January of year y, counted from 1 January of year 1. */
  function DaysBeforeYear(y: int): int {
    365 * (y - 1) + (y - 1) / 4 - (y - 1) / 100 + (y - 1) / 400
  }

  function DaysBeforeMonth(y: int, m: int): int
    requires 1 <= m <= 13
    decreases m
  {
    if m == 1 then 0 else DaysBeforeMonth(y, m - 1) + MonthLength(y, m - 1)
  }

  /** Day count with 1 January of year 1 as day 1. */
  function DayNumber(t: Date): int
    requires 1 <= t.m <= 12
  {
    DaysBeforeYear(t.y) + DaysBeforeMonth(t.y, t.m) + t.d
  }

  lemma MonthTable(y: int)
    ensures
      var k := if LeapYear(y) then 1 else 0;
      && DaysBeforeMonth(y, 1) == 0 && DaysBeforeMonth(y, 2) == 31
      && DaysBeforeMonth(y, 3) == 59 + k && DaysBeforeMonth(y, 4) == 90 + k
      && DaysBeforeMonth(y, 5) == 120 + k && DaysBeforeMonth(y, 6) == 151 + k
      && DaysBeforeMonth(y, 7) == 181 + k && DaysBeforeMonth(y, 8) == 212 + k
      && DaysBeforeMonth(y, 9) == 243 + k && DaysBeforeMonth(y, 10) == 273 + k
      && DaysBeforeMonth(y, 11) == 304 + k && DaysBeforeMonth(y, 12) == 334 + k
      && DaysBeforeMonth(y, 13) == 365 + k
  {
    assert DaysBeforeMonth(y, 4) == 90 + (if LeapYear(y) then 1 else 0);
    assert DaysBeforeMonth(y, 7) == 181 + (if LeapYear(y) then 1 else 0);
    assert DaysBeforeMonth(y, 10) == 273 + (if LeapYear(y) then 1 else 0);
  }

  /** The quotient by k steps exactly at the multiples of k. */
  lemma Multiples(y: int, k: int)
    requires k == 4 || k == 100 || k == 400
    ensures y / k - (y - 1) / k == if y % k == 0 then 1 else 0
  {
    var q, r := y / k, y % k;
    if r == 0 {
      assert y - 1 == k * (q - 1) + (k - 1);
    } else {
      assert y - 1 == k * q + (r - 1);
    }
  }

  /** The closed count of days before a year agrees with the leap rule, for every year. */
  lemma YearLength(y: int)
    ensures DaysBeforeYear(y + 1) == DaysBeforeYear(y) + (if LeapYear(y) then 366 else 365)
  {
    Multiples(y, 4);
    Multiples(y, 100);
    Multiples(y, 400);
    if y % 400 == 0 { Quot(y, 100, 4 * (y / 400), 0); }
    if y % 100 == 0 { Quot(y, 4, 25 * (y / 100), 0); }
  }

  /** The count sends the next calendar day to the next integer. */
  lemma NextDayCounts(t: Date)
    requires Valid(t)
    ensures DayNumber(NextDay(t)) == DayNumber(t) + 1
  {
    YearLength(t.y);
    MonthTable(t.y);
    MonthTable(t.y + 1);
  }

  /** A day lies between the bounds of its year. */
  lemma InYear(t: Date)
    requires Valid(t)
    ensures DaysBeforeYear(t.y) < DayNumber(t) <= DaysBeforeYear(t.y + 1)
  {
    MonthTable(t.y);
    YearLength(t.y);
  }

  lemma {:induction false} YearsMonotone(a: int, b: int)
    requires a <= b
    ensures DaysBeforeYear(a) + 365 * (b - a) <= DaysBeforeYear(b)
    decreases b - a
  {
    if a < b {
      YearsMonotone(a, b - 1);
      YearLength(b - 1);
    }
  }

  lemma {:induction false} MonthsMonotone(y: int, a: int, b: int)
    requires 1 <= a <= b <= 13
    ensures DaysBeforeMonth(y, a) <= DaysBeforeMonth(y, b)
    decreases b - a
  {
    if a < b { MonthsMonotone(y, a, b - 1); }
  }

  lemma EarlierMonth(y: int, a: int, da: int, b: int, db: int)
    requires 1 <= a < b <= 12 && da <= MonthLength(y, a) && 1 <= db
    ensures DaysBeforeMonth(y, a) + da < DaysBeforeMonth(y, b) + db
  {
    MonthsMonotone(y, a + 1, b);
  }

  lemma EarlierYear(s: Date, t: Date)
    requires Valid(s) && Valid(t) && s.y < t.y
    ensures DayNumber(s) < DayNumber(t)
  {
    InYear(s);
    InYear(t);
    YearsMonotone(s.y + 1, t.y);
  }

  /** Two valid dates with the same day number are the same date. */
  lemma Injective(s: Date, t: Date)
    requires Valid(s) && Valid(t) && DayNumber(s) == DayNumber(t)
    ensures s == t
  {
    hide DaysBeforeYear, DaysBeforeMonth, LeapYear, MonthLength;
    if s.y < t.y {
      EarlierYear(s, t);
    } else if t.y < s.y {
      EarlierYear(t, s);
    } else if s.m < t.m {
      EarlierMonth(s.y, s.m, s.d, t.m, t.d);
    } else if t.m < s.m {
      EarlierMonth(s.y, t.m, t.d, s.m, s.d);
    }
  }

  /** Every day on or after a known date is the day number of some valid date. */
  lemma {:induction false} Surjective(from: Date, n: int) returns (t: Date)
    requires Valid(from) && DayNumber(from) <= n
    ensures Valid(t) && DayNumber(t) == n
    ensures from.y <= t.y
    decreases n - DayNumber(from)
  {
    if DayNumber(from) == n {
      t := from;
    } else {
      NextDayCounts(from);
      t := Surjective(NextDay(from), n);
    }
  }
}
