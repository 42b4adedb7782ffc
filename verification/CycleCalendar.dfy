/** `frontend/src/components/JalaliDateTime.tsx`: the closed 33-year-cycle converter. */
module CycleCalendar {
  import opened Quotients
  import Greg = GregorianReference

  datatype JDate = JDate(jy: int, jm: int, jd: int)

  /** `_div` of the source: the quotient rounded down. */
  function Div(a: int, b: int): int
    requires b > 0
  {
    a / b
  }

  /** `%` of the source language: the remainder has the sign of the dividend. */
  function JsMod(a: int, b: int): int
    requires b > 0
  {
    if a >= 0 then a % b else -((-a) % b)
  }

  const MONTH_STARTS: seq<int> := [0, 31, 59, 90, 120, 151, 181, 212, 243, 273, 304, 334]

  // ---------- gregorianToJalali ----------

  function JalaliOf(jy0: int, days0: int): JDate {
    var jy := jy0 + 33 * Div(days0, 12053);
    var days := JsMod(days0, 12053);
    var jy := jy + 4 * Div(days, 1461);
    var days := JsMod(days, 1461);
    var (jy, days) := if days > 365 then (jy + Div(days - 1, 365), JsMod(days - 1, 365)) else (jy, days);
    if days < 186 then JDate(jy, 1 + Div(days, 31), 1 + JsMod(days, 31))
    else JDate(jy, 7 + Div(days - 186, 30), 1 + JsMod(days - 186, 30))
  }

  function GregorianDays(gy: int, gm: int, gd: int): int
    requires 1 <= gm <= 12
  {
    var gy2 := if gm > 2 then gy + 1 else gy;
    365 * gy + Div(gy2 + 3, 4) - Div(gy2 + 99, 100) + Div(gy2 + 399, 400) - 80 + gd + MONTH_STARTS[gm - 1]
  }

  function GregorianToJalali(gy: int, gm: int, gd: int): JDate
    requires 1 <= gm <= 12
  {
    if gy <= 1600 then JalaliOf(0, GregorianDays(gy - 621, gm, gd))
    else JalaliOf(979, GregorianDays(gy - 1600, gm, gd))
  }

  method ComputeJalali(gy0: int, gm: int, gd: int) returns (t: JDate)
    requires 1 <= gm <= 12
    ensures t == GregorianToJalali(gy0, gm, gd)
  {
    hide Div, JsMod;
    var gy := gy0;
    var jy := if gy <= 1600 then 0 else 979;
    gy := gy - (if gy <= 1600 then 621 else 1600);
    var gy2 := if gm > 2 then gy + 1 else gy;
    var days := 365 * gy + Div(gy2 + 3, 4) - Div(gy2 + 99, 100) + Div(gy2 + 399, 400) - 80 + gd + MONTH_STARTS[gm - 1];
    jy := jy + 33 * Div(days, 12053);
    days := JsMod(days, 12053);
    jy := jy + 4 * Div(days, 1461);
    days := JsMod(days, 1461);
    if days > 365 {
      jy := jy + Div(days - 1, 365);
      days := JsMod(days - 1, 365);
    }
    var jm := if days < 186 then 1 + Div(days, 31) else 7 + Div(days - 186, 30);
    var jd := 1 + (if days < 186 then JsMod(days, 31) else JsMod(days - 186, 30));
    t := JDate(jy, jm, jd);
  }

  // ---------- jalaliToGregorian ----------

  function MonthOffset(jm: int): int {
    if jm < 7 then (jm - 1) * 31 else (jm - 7) * 30 + 186
  }

  function JalaliDays(jy: int, jm: int, jd: int): int {
    365 * jy + Div(jy, 33) * 8 + Div(JsMod(jy, 33) + 3, 4) + 78 + jd + MonthOffset(jm)
  }

  /** The 400 and 100 year steps; a century after the first is given back its missing leap day. */
  function CenturyAndDay(gy0: int, days0: int): (int, int) {
    var gy := gy0 + 400 * Div(days0, 146097);
    var days := JsMod(days0, 146097);
    if days > 36524 then
      var rest := JsMod(days - 1, 36524);
      (gy + 100 * Div(days - 1, 36524), if rest >= 365 then rest + 1 else rest)
    else (gy, days)
  }

  /** The 4 and 1 year steps. */
  function YearAndDay(gy0: int, days0: int): (int, int) {
    var gy := gy0 + 4 * Div(days0, 1461);
    var days := JsMod(days0, 1461);
    if days > 365 then (gy + Div(days - 1, 365), JsMod(days - 1, 365)) else (gy, days)
  }

  /** The year and the day of the year (from 0), counted from the start of a given year. */
  function YearOf(gy0: int, days0: int): (int, int) {
    var (gy, days) := CenturyAndDay(gy0, days0);
    YearAndDay(gy, days)
  }

  /** The month loop: days left over once the earlier months are taken off. */
  function MonthWalk(gy: int, gm: int, gd: int): Greg.Date
    requires 1 <= gm
    decreases 13 - gm
  {
    if gm <= 12 && gd > Greg.MonthLength(gy, gm) then MonthWalk(gy, gm + 1, gd - Greg.MonthLength(gy, gm))
    else Greg.Date(gy, gm, gd)
  }

  function JalaliToGregorian(jy: int, jm: int, jd: int): Greg.Date {
    var (gy, days) := if jy <= 979 then YearOf(621, JalaliDays(jy, jm, jd))
                      else YearOf(1600, JalaliDays(jy - 979, jm, jd));
    MonthWalk(gy, 1, days + 1)
  }

  /** The converter's table of month lengths, led by a 0, is the reference's. */
  function MonthTable(gy: int): (md: seq<int>)
    ensures |md| == 13 && forall m :: 1 <= m <= 12 ==> md[m] == Greg.MonthLength(gy, m)
  {
    var leap := (gy % 4 == 0 && gy % 100 != 0) || gy % 400 == 0;
    [0, 31, if leap then 29 else 28, 31, 30, 31, 30, 31, 31, 30, 31, 30, 31]
  }

  /** The steps by 400 and 100 years. */
  method CenturySteps(gy0: int, days0: int) returns (gy: int, days: int)
    ensures (gy, days) == CenturyAndDay(gy0, days0)
  {
    hide Div, JsMod;
    gy := gy0 + 400 * Div(days0, 146097);
    days := JsMod(days0, 146097);
    if days > 36524 {
      days := days - 1;
      gy := gy + 100 * Div(days, 36524);
      days := JsMod(days, 36524);
      if days >= 365 { days := days + 1; }
    }
  }

  /** The steps by 4 and 1 years. */
  method YearSteps(gy0: int, days0: int) returns (gy: int, days: int)
    ensures (gy, days) == YearAndDay(gy0, days0)
  {
    hide Div, JsMod;
    gy := gy0 + 4 * Div(days0, 1461);
    days := JsMod(days0, 1461);
    if days > 365 {
      gy := gy + Div(days - 1, 365);
      days := JsMod(days - 1, 365);
    }
  }

  method MonthLoop(gy: int, days: int) returns (t: Greg.Date)
    ensures t == MonthWalk(gy, 1, days + 1)
  {
    hide MonthTable, Greg.MonthLength;
    var gd := days + 1;
    var md := MonthTable(gy);
    var gm := 1;
    while gm <= 12 && gd > md[gm]
      invariant 1 <= gm <= 13
      invariant MonthWalk(gy, 1, days + 1) == MonthWalk(gy, gm, gd)
    {
      gd := gd - md[gm];
      gm := gm + 1;
    }
    t := Greg.Date(gy, gm, gd);
  }

  method ComputeGregorian(jy0: int, jm: int, jd: int) returns (t: Greg.Date)
    ensures t == JalaliToGregorian(jy0, jm, jd)
  {
    hide Div, JsMod, CenturyAndDay, YearAndDay, MonthWalk;
    var jy := jy0;
    var gy := if jy <= 979 then 621 else 1600;
    jy := jy - (if jy <= 979 then 0 else 979);
    var days := 365 * jy + Div(jy, 33) * 8 + Div(JsMod(jy, 33) + 3, 4) + 78 + jd
                + (if jm < 7 then (jm - 1) * 31 else (jm - 7) * 30 + 186);
    gy, days := CenturySteps(gy, days);
    gy, days := YearSteps(gy, days);
    t := MonthLoop(gy, days);
  }

  // ---------- the calendar the converter stands for ----------

  /** The leap years of the parser: eight in a cycle of 33. */
  predicate LeapYear(jy: int) {
    var r := JsMod(jy, 33);
    r == 1 || r == 5 || r == 9 || r == 13 || r == 17 || r == 22 || r == 26 || r == 30
  }

  function MonthLength(jy: int, jm: int): int {
    if jm <= 6 then 31 else if jm <= 11 then 30 else if LeapYear(jy) then 30 else 29
  }

  predicate Valid(t: JDate) {
    1 <= t.jm <= 12 && 1 <= t.jd <= MonthLength(t.jy, t.jm)
  }

  /** Days from 1 January 1600 to the first day of a Jalali year, for years from 979. */
  function YearStart(jy: int): int {
    365 * (jy - 979) + 8 * ((jy - 979) / 33) + ((jy - 979) % 33 + 3) / 4 + 79
  }

  function DayCount(t: JDate): int {
    YearStart(t.jy) + MonthOffset(t.jm) + t.jd - 1
  }

  /** Day number of 1 January 1600. */
  const EPOCH := 584_023

  /** The parser's leap list marks exactly the 366-day years of the converter, without an upper limit. */
  lemma YearLength(jy: int)
    requires jy >= 979
    ensures YearStart(jy + 1) - YearStart(jy) == if LeapYear(jy) then 366 else 365
  {
    var p, m := (jy - 979) / 33, (jy - 979) % 33;
    if m <= 10 { Quot(jy, 33, p + 29, m + 22); } else { Quot(jy, 33, p + 30, m - 11); }
    if m == 32 { Quot(jy - 978, 33, p + 1, 0); } else { Quot(jy - 978, 33, p, m + 1); }
  }

  /** The year start in quarter-cycle form: 33-year cycles, then 4-year blocks led by their leap year. */
  lemma YearStartIs(p: int, q: int, s: int)
    requires p >= 0 && 0 <= q <= 8 && 0 <= s <= 3 && (q == 8 ==> s == 0)
    ensures YearStart(979 + 33 * p + 4 * q + s) == 12053 * p + 1461 * q + 365 * s + (if s > 0 then 1 else 0) + 79
    ensures LeapYear(979 + 33 * p + 4 * q + s) <==> s == 0 && q < 8
  {
    var jy := 979 + 33 * p + 4 * q + s;
    var m := 4 * q + s;
    Quot(jy - 979, 33, p, m);
    if m <= 10 { Quot(jy, 33, p + 29, m + 22); } else { Quot(jy, 33, p + 30, m - 11); }
  }

  lemma FloorMod(a: int, b: int)
    requires a >= 0 && b > 0
    ensures Div(a, b) == a / b && JsMod(a, b) == a % b
  {
  }

  /** Splitting a day count by cycles, blocks and years gives a valid date with that count. */
  lemma JalaliOfCounts(days: int)
    requires days >= 0
    ensures
      var t := JalaliOf(979, days);
      Valid(t) && t.jy >= 979 && DayCount(t) == days + 79
  {
    hide LeapYear, YearStart, Div, JsMod;
    FloorMod(days, 12053);
    var p, r := days / 12053, days % 12053;
    FloorMod(r, 1461);
    var q, u := r / 1461, r % 1461;
    if u > 365 { FloorMod(u - 1, 365); }
    var s := if u > 365 then (u - 1) / 365 else 0;
    var day := if u > 365 then (u - 1) % 365 else u;
    assert q <= 8 && (q == 8 ==> u <= 364);
    YearStartIs(p, q, s);
    var t := JalaliOf(979, days);
    assert t.jy == 979 + 33 * p + 4 * q + s;
    assert day == u - 365 * s - (if s > 0 then 1 else 0);
    FloorMod(day, 31);
    if day >= 186 { FloorMod(day - 186, 30); }
    MonthOfDay(t, day);
  }

  lemma MonthOfDay(t: JDate, day: int)
    requires 0 <= day <= (if LeapYear(t.jy) then 365 else 364)
    requires t == if day < 186 then JDate(t.jy, 1 + day / 31, 1 + day % 31)
                  else JDate(t.jy, 7 + (day - 186) / 30, 1 + (day - 186) % 30)
    ensures Valid(t) && MonthOffset(t.jm) + t.jd - 1 == day
  {
  }

  /** Days before a Gregorian year of the 400-year cycle that starts in 1600 + 400 a. */
  lemma GregorianYearStart(a: int, c: int, b: int, s: int)
    requires 0 <= a && 0 <= c <= 3 && 0 <= b <= 24 && 0 <= s <= 3
    ensures
      var y := 1600 + 400 * a + 100 * c + 4 * b + s;
      var m := 4 * b + s;
      && Greg.DaysBeforeYear(y) == EPOCH - 1 + 146097 * a + 36524 * c + 365 * m + b
           + (if s > 0 then 1 else 0) + (if c > 0 && m == 0 then 1 else 0)
      && (Greg.LeapYear(y) <==> s == 0 && (b > 0 || c == 0))
  {
    var y := 1600 + 400 * a + 100 * c + 4 * b + s;
    var m := 4 * b + s;
    Quot(y, 4, 400 + 100 * a + 25 * c + b, s);
    Quot(y, 100, 16 + 4 * a + c, m);
    Quot(y, 400, 4 + a, 100 * c + m);
    if s > 0 { Quot(y - 1, 4, 400 + 100 * a + 25 * c + b, s - 1); } else { Quot(y - 1, 4, 399 + 100 * a + 25 * c + b, 3); }
    if m > 0 { Quot(y - 1, 100, 16 + 4 * a + c, m - 1); } else { Quot(y - 1, 100, 15 + 4 * a + c, 99); }
    if 100 * c + m > 0 { Quot(y - 1, 400, 4 + a, 100 * c + m - 1); } else { Quot(y - 1, 400, 3 + a, 399); }
  }

  /** The 400, 100, 4 and 1 year steps find the year and the day in it. */
  lemma YearOfCounts(days: int)
    requires days >= 0
    ensures
      var (gy, day) := YearOf(1600, days);
      && gy >= 1600 && 0 <= day < (if Greg.LeapYear(gy) then 366 else 365)
      && Greg.DaysBeforeYear(gy) + day + 1 == EPOCH + days
  {
    hide Greg.DaysBeforeYear, Greg.LeapYear, Div, JsMod;
    var a, d := days / 146097, days % 146097;
    FloorMod(days, 146097);
    var c := if d > 36524 then (d - 1) / 36524 else 0;
    var e := if d > 36524 then (d - 1) % 36524 else d;
    if d > 36524 { FloorMod(d - 1, 36524); }
    Centuries(d, c, e);
    var f := if d > 36524 && e >= 365 then e + 1 else e;
    FloorMod(f, 1461);
    CenturyBlocks(f, c);
    var b, u := f / 1461, f % 1461;
    if u > 365 { FloorMod(u - 1, 365); }
    GregorianYearStart(a, c, b, if u > 365 then (u - 1) / 365 else 0);
  }

  lemma Centuries(d: int, c: int, e: int)
    requires 0 <= d < 146097
    requires c == if d > 36524 then (d - 1) / 36524 else 0
    requires e == if d > 36524 then (d - 1) % 36524 else d
    ensures 0 <= c <= 3 && 0 <= e <= 36524 && (c > 0 <==> d > 36524) && (c > 0 ==> e < 36524)
    ensures d == 36524 * c + e + (if c > 0 then 1 else 0)
  {
  }

  /** Inside a century: blocks of four years led by their leap year, but no leap day in a first year c00. */
  lemma CenturyBlocks(f: int, c: int)
    requires 0 <= c <= 3 && 0 <= f <= 36524
    ensures
      var b, u := f / 1461, f % 1461;
      var s := if u > 365 then (u - 1) / 365 else 0;
      var day := if u > 365 then (u - 1) % 365 else u;
      && 0 <= b <= 24 && 0 <= s <= 3
      && day == u - 365 * s - (if s > 0 then 1 else 0)
      && 0 <= day <= (if s == 0 then 365 else 364)
      && f == 1461 * b + u
  {
  }

  /** The month loop always stops inside the year, at a day inside its month. */
  lemma {:induction false} MonthWalkCounts(gy: int, gm: int, gd: int)
    requires 1 <= gm <= 12 && 1 <= gd
    requires Greg.DaysBeforeMonth(gy, gm) + gd <= Greg.DaysBeforeMonth(gy, 13)
    ensures
      var t := MonthWalk(gy, gm, gd);
      && Greg.Valid(t) && t.y == gy
      && Greg.DaysBeforeMonth(gy, t.m) + t.d == Greg.DaysBeforeMonth(gy, gm) + gd
    decreases 13 - gm
  {
    if gd > Greg.MonthLength(gy, gm) {
      MonthWalkCounts(gy, gm + 1, gd - Greg.MonthLength(gy, gm));
    }
  }

  /** Every Jalali date from year 980 goes to the valid Gregorian date with the same day count. */
  lemma JalaliToGregorianCounts(t: JDate)
    requires t.jy >= 980 && Valid(t)
    ensures
      var g := JalaliToGregorian(t.jy, t.jm, t.jd);
      Greg.Valid(g) && g.y > 1600 && Greg.DayNumber(g) == EPOCH + DayCount(t)
  {
    hide YearOf, MonthWalk, Greg.DaysBeforeMonth, Greg.DaysBeforeYear, Greg.LeapYear;
    var days := JalaliDays(t.jy - 979, t.jm, t.jd);
    assert days == DayCount(t);
    YearStartGrows(t.jy);
    YearOfCounts(days);
    var (gy, day) := YearOf(1600, days);
    Greg.MonthTable(gy);
    assert Greg.DaysBeforeMonth(gy, 1) == 0;
    MonthWalkCounts(gy, 1, day + 1);
    if gy == 1600 { GregorianYearStart(0, 0, 0, 0); }
  }

  lemma YearStartGrows(jy: int)
    requires jy >= 980
    ensures YearStart(jy) >= 79 + 366
  {
  }

  /** Every Gregorian date after 1600 goes to the valid Jalali date with the same day count. */
  lemma GregorianToJalaliCounts(g: Greg.Date)
    requires g.y > 1600 && Greg.Valid(g)
    ensures
      var t := GregorianToJalali(g.y, g.m, g.d);
      Valid(t) && t.jy >= 979 && DayCount(t) == Greg.DayNumber(g) - EPOCH
  {
    hide JalaliOf;
    GregorianDaysCount(g);
    JalaliOfCounts(GregorianDays(g.y - 1600, g.m, g.d));
  }

  lemma GregorianDaysCount(g: Greg.Date)
    requires g.y > 1600 && Greg.Valid(g)
    ensures GregorianDays(g.y - 1600, g.m, g.d) == Greg.DayNumber(g) - EPOCH - 79 >= 0
  {
    Greg.MonthTable(g.y);
    Greg.YearLength(g.y);
    var gy := g.y - 1600;
    var y := if g.m > 2 then gy + 1 else gy;
    Quot(y - 1 + 1600, 4, (y + 3) / 4 + 399, (y + 3) % 4);
    Quot(y - 1 + 1600, 100, (y + 99) / 100 + 15, (y + 99) % 100);
    Quot(y - 1 + 1600, 400, (y + 399) / 400 + 3, (y + 399) % 400);
  }

  lemma {:induction false} YearsMonotone(a: int, b: int)
    requires 979 <= a <= b
    ensures YearStart(a) + 365 * (b - a) <= YearStart(b)
    decreases b - a
  {
    if a < b {
      YearsMonotone(a, b - 1);
      YearLength(b - 1);
    }
  }

  lemma InYear(t: JDate)
    requires t.jy >= 979 && Valid(t)
    ensures YearStart(t.jy) <= DayCount(t) < YearStart(t.jy + 1)
  {
    hide YearStart;
    YearLength(t.jy);
  }

  lemma Injective(s: JDate, t: JDate)
    requires s.jy >= 979 && t.jy >= 979 && Valid(s) && Valid(t) && DayCount(s) == DayCount(t)
    ensures s == t
  {
    hide YearStart, LeapYear;
    InYear(s);
    InYear(t);
    if s.jy < t.jy { YearsMonotone(s.jy + 1, t.jy); }
    if t.jy < s.jy { YearsMonotone(t.jy + 1, s.jy); }
  }

  // ---------- round trips ----------

  /** Jalali to Gregorian and back, for every valid Jalali date from year 980, without an upper limit. */
  lemma JalaliRoundTrip(t: JDate)
    requires t.jy >= 980 && Valid(t)
    ensures
      var g := JalaliToGregorian(t.jy, t.jm, t.jd);
      Greg.Valid(g) && GregorianToJalali(g.y, g.m, g.d) == t
  {
    hide JalaliToGregorian, GregorianToJalali, DayCount;
    JalaliToGregorianCounts(t);
    var g := JalaliToGregorian(t.jy, t.jm, t.jd);
    GregorianToJalaliCounts(g);
    Injective(GregorianToJalali(g.y, g.m, g.d), t);
  }

  /** Gregorian to Jalali and back, for every Gregorian day from the first of Jalali year 980. */
  lemma GregorianRoundTrip(g: Greg.Date)
    requires Greg.Valid(g) && Greg.DayNumber(g) >= EPOCH + YearStart(980)
    ensures
      var t := GregorianToJalali(g.y, g.m, g.d);
      t.jy >= 980 && Valid(t) && JalaliToGregorian(t.jy, t.jm, t.jd) == g
  {
    hide JalaliToGregorian, GregorianToJalali;
    AfterSixteenHundred(g);
    GregorianToJalaliCounts(g);
    var t := GregorianToJalali(g.y, g.m, g.d);
    if t.jy == 979 { InYear(t); }
    JalaliToGregorianCounts(t);
    Greg.Injective(g, JalaliToGregorian(t.jy, t.jm, t.jd));
  }

  lemma AfterSixteenHundred(g: Greg.Date)
    requires Greg.Valid(g) && Greg.DayNumber(g) >= EPOCH + YearStart(980)
    ensures g.y > 1600
  {
    Greg.InYear(g);
    if g.y <= 1600 { Greg.YearsMonotone(g.y + 1, 1601); }
  }

  function NextDay(t: JDate): JDate {
    if t.jd < MonthLength(t.jy, t.jm) then t.(jd := t.jd + 1)
    else if t.jm < 12 then JDate(t.jy, t.jm + 1, 1)
    else JDate(t.jy + 1, 1, 1)
  }

  /** The converter sends the next Jalali day to the next Gregorian day. */
  lemma ConsecutiveDays(t: JDate)
    requires t.jy >= 980 && Valid(t)
    ensures
      var n, g := NextDay(t), JalaliToGregorian(t.jy, t.jm, t.jd);
      Greg.Valid(g) && JalaliToGregorian(n.jy, n.jm, n.jd) == Greg.NextDay(g)
  {
    hide JalaliToGregorian, YearStart, LeapYear, Greg.DayNumber;
    var n := NextDay(t);
    YearLength(t.jy);
    assert Valid(n) && DayCount(n) == DayCount(t) + 1;
    JalaliToGregorianCounts(t);
    JalaliToGregorianCounts(n);
    var g := JalaliToGregorian(t.jy, t.jm, t.jd);
    Greg.NextDayCounts(g);
    Greg.Injective(JalaliToGregorian(n.jy, n.jm, n.jd), Greg.NextDay(g));
  }

  /** The older branch, for years up to 979, ends a day late: it sends the last day of 979 onto the first day of 980. */
  lemma EpochBranchesCollide()
    ensures Valid(JDate(979, 12, 30))
    ensures JalaliToGregorian(979, 12, 30) == JalaliToGregorian(980, 1, 1) == Greg.Date(1601, 3, 21)
  {
    assert JalaliDays(979, 12, 30) == 358017 && JalaliDays(1, 1, 1) == 445;
    assert YearOf(621, 358017) == (1601, 79) by { FirstBranch(); }
    assert YearOf(1600, 445) == (1601, 79);
    assert MonthWalk(1601, 1, 80) == MonthWalk(1601, 2, 49) == MonthWalk(1601, 3, 21);
  }

  lemma FirstBranch()
    ensures YearOf(621, 358017) == (1601, 79)
  {
    Quot(358017, 146097, 2, 65823);
    Quot(65822, 36524, 1, 29298);
    Quot(29299, 1461, 20, 79);
  }
}
