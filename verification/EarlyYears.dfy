/** The converter's older branch, for the years up to Jalali 979 and Gregorian 1600: what it counts, and when it is right.

    It runs the arithmetic of the newer branch 979 years earlier, for both calendars: years from 979 on and from 1600
    on, moved back by 979. So its Jalali leap years are not the parser's, and it counts a Gregorian leap day in the
    years that lie 979 before a leap year. */
module EarlyYears {
  import opened CycleCalendar
  import opened Quotients
  import Greg = GregorianReference

  /** The Gregorian years in which the branch counts a leap day before March. */
  predicate Counted(y: int) {
    (y - 621) % 4 == 0 && ((y - 621) % 100 != 0 || (y - 621) % 400 == 0)
  }

  /** The 366-day years of the branch. */
  predicate EarlyLeap(jy: int) {
    jy % 33 % 4 == 0 && jy % 33 != 32
  }

  function Later(t: JDate): JDate {
    t.(jy := t.jy + 979)
  }

  lemma CountedIsLater(y: int)
    ensures Counted(y) <==> Greg.LeapYear(y + 979)
  {
    var z := y - 621;
    Quot(y + 979, 4, z / 4 + 400, z % 4);
    Quot(y + 979, 100, z / 100 + 16, z % 100);
    Quot(y + 979, 400, z / 400 + 4, z % 400);
    if z % 400 == 0 { Quot(z, 4, 100 * (z / 400), 0); }
  }

  lemma EarlyLeapIsLater(jy: int)
    requires jy >= 0
    ensures EarlyLeap(jy) <==> LeapYear(jy + 979)
    ensures EarlyLeap(jy) ==> !LeapYear(jy)
  {
    var p, m := jy / 33, jy % 33;
    YearStartIs(p, m / 4, m % 4);
  }

  /** The length of a year of the branch: its leap years are 0, 4, 8, ... 28 in a cycle of 33, none of them the parser's. */
  lemma EarlyYearLength(jy: int)
    requires jy >= 0
    ensures JalaliDays(jy + 1, 1, 1) - JalaliDays(jy, 1, 1) == if EarlyLeap(jy) then 366 else 365
    ensures EarlyLeap(jy) ==> !LeapYear(jy)
  {
    EarlyLeapIsLater(jy);
    EarlyLeapIsLater(jy + 1);
    YearLength(jy + 979);
  }

  /** In every leap year of the parser below 979 the branch sends the 30th of the last month onto the next new year. */
  lemma EarlyLeapDayCollides(jy: int)
    requires 0 <= jy < 979 && LeapYear(jy)
    ensures Valid(JDate(jy, 12, 30)) && JalaliToGregorian(jy, 12, 30) == JalaliToGregorian(jy + 1, 1, 1)
  {
    hide YearOf, MonthWalk;
    EarlyYearLength(jy);
  }

  // ---------- the branch as the newer one, 979 years earlier ----------

  lemma JalaliOfLater(days: int)
    requires days >= 0
    ensures
      var t := JalaliOf(0, days);
      Later(t) == JalaliOf(979, days) && t.jy >= 0 && Valid(Later(t)) && JalaliDays(t.jy, t.jm, t.jd) == days + 79
  {
    hide Div, JsMod, LeapYear;
    JalaliOfCounts(days);
    DaysLater(JalaliOf(0, days));
  }

  lemma DaysLater(t: JDate)
    requires t.jy >= 0
    ensures JalaliDays(t.jy, t.jm, t.jd) == DayCount(Later(t))
  {
  }

  lemma YearOfLater(days: int)
    ensures
      var (y, day) := YearOf(621, days);
      YearOf(1600, days) == (y + 979, day)
  {
    hide Div, JsMod;
  }

  /** The place of a date in its year, if the year is taken to be leap or not. */
  function Place(m: int, d: int, leap: bool): int
    requires 1 <= m <= 12
  {
    MONTH_STARTS[m - 1] + d + if m > 2 && leap then 1 else 0
  }

  lemma PlaceIs(y: int, m: int, d: int)
    requires 1 <= m <= 12
    ensures Place(m, d, Greg.LeapYear(y)) == Greg.DaysBeforeMonth(y, m) + d
  {
    Greg.MonthTable(y);
  }

  /** What the branch counts for a Gregorian date. */
  lemma EarlyDaysAre(y: int, m: int, d: int)
    requires y >= 621 && 1 <= m <= 12
    ensures GregorianDays(y - 621, m, d) == Greg.DaysBeforeYear(y + 979) + Place(m, d, Counted(y)) - EPOCH - 79
  {
    CountedIsLater(y);
    Greg.YearLength(y + 979);
    var gy := y - 621;
    var z := if m > 2 then gy + 1 else gy;
    Quot(z - 1 + 1600, 4, (z + 3) / 4 + 399, (z + 3) % 4);
    Quot(z - 1 + 1600, 100, (z + 99) / 100 + 15, (z + 99) % 100);
    Quot(z - 1 + 1600, 400, (z + 399) / 400 + 3, (z + 399) % 400);
  }

  // ---------- the month loop ----------

  lemma {:induction false} MonthWalkOverruns(gy: int, gm: int, gd: int)
    requires 1 <= gm <= 13 && Greg.DaysBeforeMonth(gy, gm) + gd == Greg.DaysBeforeMonth(gy, 13) + 1
    ensures MonthWalk(gy, gm, gd) == Greg.Date(gy, 13, 1)
    decreases 13 - gm
  {
    if gm <= 12 {
      Greg.MonthsMonotone(gy, gm + 1, 13);
      MonthWalkOverruns(gy, gm + 1, gd - Greg.MonthLength(gy, gm));
    }
  }

  /** The month loop reaches a valid date exactly at its own place in the year. */
  lemma WalkReaches(g: Greg.Date, w: int)
    requires Greg.Valid(g) && 1 <= w <= 366
    ensures MonthWalk(g.y, 1, w) == g <==> w == Place(g.m, g.d, Greg.LeapYear(g.y))
    ensures Greg.Valid(MonthWalk(g.y, 1, w)) <==> w <= (if Greg.LeapYear(g.y) then 366 else 365)
  {
    hide Greg.LeapYear, MonthWalk, Place;
    Greg.MonthTable(g.y);
    PlaceIs(g.y, g.m, g.d);
    PlaceInYear(g);
    if w <= Greg.DaysBeforeMonth(g.y, 13) {
      MonthWalkCounts(g.y, 1, w);
      var t := MonthWalk(g.y, 1, w);
      if w == Place(g.m, g.d, Greg.LeapYear(g.y)) { Greg.Injective(t, g); }
    } else {
      MonthWalkOverruns(g.y, 1, w);
    }
  }

  lemma PlaceInYear(g: Greg.Date)
    requires Greg.Valid(g)
    ensures 1 <= Place(g.m, g.d, Greg.LeapYear(g.y)) <= (if Greg.LeapYear(g.y) then 366 else 365)
    ensures 1 <= Place(g.m, g.d, Counted(g.y)) <= (if Counted(g.y) then 366 else 365)
  {
  }

  // ---------- Gregorian to Jalali and back ----------

  /** Where the branch puts a day it has counted: in the same year, at the counted place. */
  lemma YearFound(y: int, w: int, days: int)
    requires 1 <= w <= (if Counted(y) then 366 else 365)
    requires days == Greg.DaysBeforeYear(y + 979) + w - EPOCH && days >= 0
    ensures YearOf(621, days) == (y, w - 1)
  {
    hide Greg.DaysBeforeYear, Greg.LeapYear, YearOf, Counted;
    YearOfLater(days);
    YearOfCounts(days);
    CountedIsLater(y);
    var (gy, day) := YearOf(1600, days);
    Greg.YearLength(gy);
    Greg.YearLength(y + 979);
    if gy < y + 979 { Greg.YearsMonotone(gy + 1, y + 979); }
    if gy > y + 979 { Greg.YearsMonotone(y + 980, gy); }
  }

  /** The branch is right where its day count agrees with the calendar's. */
  predicate CountsRight(g: Greg.Date) {
    g.m <= 2 || (Greg.LeapYear(g.y) <==> Counted(g.y))
  }

  lemma PlacesAgree(g: Greg.Date)
    requires Greg.Valid(g)
    ensures Place(g.m, g.d, Counted(g.y)) == Place(g.m, g.d, Greg.LeapYear(g.y)) <==> CountsRight(g)
  {
  }

  /** From 21 March 621 to the end of 1600: a Gregorian date survives the conversion to Jalali and back exactly when
      it lies before March, or its year has a leap day in both counts or in neither. */
  lemma EarlyGregorianRoundTripIff(g: Greg.Date)
    requires Greg.Valid(g) && 621 <= g.y <= 1600 && GregorianDays(g.y - 621, g.m, g.d) >= 0
    ensures
      var t := GregorianToJalali(g.y, g.m, g.d);
      JalaliToGregorian(t.jy, t.jm, t.jd) == g <==> CountsRight(g)
  {
    hide GregorianDays, JalaliOf, YearOf, MonthWalk, Place, Counted, CountsRight, Greg.LeapYear, Greg.DaysBeforeYear, JalaliDays;
    var t := GregorianToJalali(g.y, g.m, g.d);
    var days := GregorianDays(g.y - 621, g.m, g.d);
    var w := Place(g.m, g.d, Counted(g.y));
    EarlyDaysAre(g.y, g.m, g.d);
    PlaceInYear(g);
    JalaliOfLater(days);
    DaysLater(t);
    YearFound(g.y, w, days + 79);
    EarlyEnough(g.y, w, t, days + 79);
    WalkReaches(g, w);
    PlacesAgree(g);
  }

  /** Up to the end of 1600 the Jalali year stays within the branch. */
  lemma EarlyEnough(y: int, w: int, t: JDate, days: int)
    requires y <= 1600 && w <= 366 && days == Greg.DaysBeforeYear(y + 979) + w - EPOCH
    requires t.jy >= 0 && Valid(Later(t)) && days == DayCount(Later(t))
    ensures t.jy <= 979
  {
    hide Greg.DaysBeforeYear, YearStart, LeapYear;
    Greg.YearsMonotone(y + 979, 2579);
    LastStarts();
    InYear(Later(t));
    if t.jy >= 980 { YearsMonotone(1959, t.jy + 979); }
  }

  lemma LastStarts()
    ensures Greg.DaysBeforeYear(2579) + 366 - EPOCH < YearStart(1959)
  {
  }

  // ---------- Jalali to Gregorian and back ----------

  /** The year, and the place in it counted from 1, that the branch finds for a Jalali date: in the Gregorian year in which
      the Jalali year begins, or in the next. */
  function EarlyPlace(t: JDate): (int, int) {
    var w := JalaliDays(t.jy, t.jm, t.jd) + EPOCH - Greg.DaysBeforeYear(t.jy + 1600);
    var length := if Counted(t.jy + 621) then 366 else 365;
    if w <= length then (t.jy + 621, w) else (t.jy + 622, w - length)
  }

  lemma EarlyLeapsNear(jy: int)
    requires 0 <= jy <= 979
    ensures 0 <= 33 * (jy / 33 * 8 + (jy % 33 + 3) / 4) - 8 * jy <= 33
  {
    var q, m := jy / 33, jy % 33;
    assert jy == 33 * q + m;
  }

  lemma CountedLeapsNear(jy: int)
    requires 0 <= jy <= 979
    ensures -800 <= 400 * (Greg.DaysBeforeYear(jy + 1600) - EPOCH - 365 * jy) - 97 * jy <= 400
  {
  }

  /** The first day of a Jalali year has a place near the end of March. */
  lemma NewYearPlace(jy: int)
    requires 0 <= jy <= 979
    ensures 70 <= JalaliDays(jy, 1, 1) + EPOCH - Greg.DaysBeforeYear(jy + 1600) <= 90
  {
    hide Greg.DaysBeforeYear;
    EarlyLeapsNear(jy);
    CountedLeapsNear(jy);
  }

  lemma EarlyPlaceIs(t: JDate)
    requires Valid(t) && 0 <= t.jy <= 979
    ensures
      var (y, p) := EarlyPlace(t);
      && y >= 621 && 1 <= p <= (if Counted(y) then 366 else 365)
      && YearOf(621, JalaliDays(t.jy, t.jm, t.jd)) == (y, p - 1)
      && DayCount(Later(t)) == JalaliDays(t.jy, t.jm, t.jd) == Greg.DaysBeforeYear(y + 979) + p - EPOCH
  {
    hide YearOf, Greg.DaysBeforeYear, Greg.LeapYear, Counted, YearStart, LeapYear;
    var days := JalaliDays(t.jy, t.jm, t.jd);
    DaysLater(t);
    EarlyCountPositive(t);
    NewYearPlace(t.jy);
    InItsYear(t);
    CountedIsLater(t.jy + 621);
    CountedIsLater(t.jy + 622);
    Greg.YearLength(t.jy + 1600);
    var (y, p) := EarlyPlace(t);
    YearFound(y, p, days);
  }

  lemma InItsYear(t: JDate)
    requires Valid(t)
    ensures 0 <= JalaliDays(t.jy, t.jm, t.jd) - JalaliDays(t.jy, 1, 1) <= 365
  {
  }

  lemma EarlyCountPositive(t: JDate)
    requires t.jy >= 0 && 1 <= t.jm && 1 <= t.jd
    ensures DayCount(Later(t)) >= 79
  {
  }

  /** A date that 979 takes past 1600 comes back through the newer branch, one day on. */
  lemma PastTheBranch(t: JDate, g: Greg.Date, w: int)
    requires Valid(t) && 0 <= t.jy <= 979 && g.y >= 1601 && 1 <= w <= 366
    requires DayCount(Later(t)) == Greg.DaysBeforeYear(g.y + 979) + w - EPOCH
    requires g == MonthWalk(g.y, 1, w)
    ensures Greg.Valid(g) && GregorianToJalali(g.y, g.m, g.d) != t
  {
    hide MonthWalk, GregorianToJalali, LeapYear, Greg.LeapYear;
    Greg.YearsMonotone(2580, g.y + 979);
    LastDays(t);
    assert t.jy == 979 && g.y == 1601 && w <= 80;
    Greg.MonthTable(1601);
    MonthWalkCounts(1601, 1, w);
    GregorianToJalaliCounts(g);
  }

  lemma LastDays(t: JDate)
    requires Valid(t) && 0 <= t.jy <= 979
    ensures DayCount(Later(t)) <= Greg.DaysBeforeYear(2580) + 80 - EPOCH
    ensures t.jy < 979 ==> DayCount(Later(t)) < Greg.DaysBeforeYear(2580) + 1 - EPOCH
    ensures t.jy == 979 ==> DayCount(Later(t)) - DayCount(t) == 357573
  {
    hide LeapYear;
    if t.jy < 979 {
      EarlyMonotone(t.jy, 978);
    }
  }

  lemma {:induction false} EarlyMonotone(a: int, b: int)
    requires 0 <= a <= b
    ensures YearStart(a + 979) <= YearStart(b + 979)
  {
    YearsMonotone(a + 979, b + 979);
  }

  /** A parser date for which the branch is right: not a leap day, found before 1601, and there before March or in a year
      with a leap day in both counts or in neither. */
  predicate EarlyRight(t: JDate) {
    var (y, p) := EarlyPlace(t);
    && !(t.jm == 12 && t.jd == 30) && y <= 1600
    && (p <= (if Greg.LeapYear(y) then 60 else 59) || (Greg.LeapYear(y) <==> Counted(y)))
  }

  lemma BeforeMarch(y: int, p: int)
    requires 1 <= p
    ensures MonthWalk(y, 1, p).m <= 2 <==> p <= if Greg.LeapYear(y) then 60 else 59
  {
    WalkNotBack(y, 3, p - Greg.MonthLength(y, 1) - Greg.MonthLength(y, 2));
  }

  lemma {:induction false} WalkNotBack(gy: int, gm: int, gd: int)
    requires 1 <= gm
    ensures MonthWalk(gy, gm, gd).m >= gm
    decreases 13 - gm
  {
    if gm <= 12 && gd > Greg.MonthLength(gy, gm) { WalkNotBack(gy, gm + 1, gd - Greg.MonthLength(gy, gm)); }
  }

  /** From year 0 to 979: a date of the parser survives the conversion to Gregorian and back exactly if the branch is right
      for it. */
  lemma EarlyJalaliRoundTripIff(t: JDate)
    requires Valid(t) && 0 <= t.jy <= 979
    ensures
      var g := JalaliToGregorian(t.jy, t.jm, t.jd);
      Greg.Valid(g) && GregorianToJalali(g.y, g.m, g.d) == t <==> EarlyRight(t)
  {
    hide GregorianDays, JalaliOf, YearOf, MonthWalk, Place, Counted, Greg.LeapYear, Greg.DaysBeforeYear, JalaliDays,
      YearStart, LeapYear, EarlyPlace;
    var (y, w) := EarlyPlace(t);
    EarlyPlaceIs(t);
    var g := MonthWalk(y, 1, w);
    assert g == JalaliToGregorian(t.jy, t.jm, t.jd);
    WalkKeepsYear(y, 1, w);
    BeforeMarch(y, w);
    if y >= 1601 {
      PastTheBranch(t, g, w);
    } else if Greg.Valid(g) {
      WalkReaches(g, w);
      BackAgain(t, g, w);
    } else {
      Overrun(g, w);
    }
  }

  lemma {:induction false} WalkKeepsYear(gy: int, gm: int, gd: int)
    requires 1 <= gm
    ensures MonthWalk(gy, gm, gd).y == gy
    decreases 13 - gm
  {
    if gm <= 12 && gd > Greg.MonthLength(gy, gm) { WalkKeepsYear(gy, gm + 1, gd - Greg.MonthLength(gy, gm)); }
  }

  /** A month of 13 comes out only at the end of a year with a leap day in the branch's count alone. */
  lemma Overrun(g: Greg.Date, w: int)
    requires 1 <= w <= (if Counted(g.y) then 366 else 365) && g == MonthWalk(g.y, 1, w) && !Greg.Valid(g)
    ensures !CountsRight(g)
  {
    hide MonthWalk, Counted, Place, Greg.LeapYear;
    WalkReaches(Greg.Date(g.y, 1, 1), w);
    Greg.MonthTable(g.y);
    MonthWalkOverruns(g.y, 1, w);
  }

  lemma BackAgain(t: JDate, g: Greg.Date, w: int)
    requires Valid(t) && 0 <= t.jy && Greg.Valid(g) && 621 <= g.y <= 1600 && w == Place(g.m, g.d, Greg.LeapYear(g.y))
    requires DayCount(Later(t)) == Greg.DaysBeforeYear(g.y + 979) + w - EPOCH
    ensures GregorianToJalali(g.y, g.m, g.d) == t <==> !(t.jm == 12 && t.jd == 30) && CountsRight(g)
  {
    hide GregorianDays, JalaliOf, Place, Counted, CountsRight, Greg.LeapYear, Greg.DaysBeforeYear, JalaliDays, YearStart, LeapYear;
    EarlyDaysAre(g.y, g.m, g.d);
    PlacesAgree(g);
    var days := GregorianDays(g.y - 621, g.m, g.d);
    NotBeforeBranch(t, g, w);
    JalaliOfLater(days);
    var back := JalaliOf(0, days);
    DaysLater(back);
    if t.jm == 12 && t.jd == 30 {
      NoLeapDay(t);
    } else if CountsRight(g) {
      StillValid(t);
      Injective(Later(back), Later(t));
    }
  }

  lemma NotBeforeBranch(t: JDate, g: Greg.Date, w: int)
    requires 0 <= t.jy && 1 <= t.jm && 1 <= t.jd && Greg.Valid(g) && g.y >= 621 && w == Place(g.m, g.d, Greg.LeapYear(g.y))
    requires DayCount(Later(t)) == Greg.DaysBeforeYear(g.y + 979) + w - EPOCH
    ensures Greg.DaysBeforeYear(g.y + 979) + Place(g.m, g.d, Counted(g.y)) - EPOCH - 79 >= 0
  {
    EarlyCountPositive(t);
    if g.y >= 622 { Greg.YearsMonotone(1601, g.y + 979); }
  }

  lemma NoLeapDay(t: JDate)
    requires Valid(t) && 0 <= t.jy && t.jm == 12 && t.jd == 30
    ensures !Valid(Later(t))
  {
    EarlyLeapIsLater(t.jy);
  }

  lemma StillValid(t: JDate)
    requires Valid(t) && 0 <= t.jy && !(t.jm == 12 && t.jd == 30)
    ensures Valid(Later(t))
  {
  }

  // ---------- witnesses inside the branch ----------

  /** The branch counts from 622 on at the latest. */
  lemma CountsFrom622(g: Greg.Date)
    requires Greg.Valid(g) && 622 <= g.y <= 1600
    ensures GregorianDays(g.y - 621, g.m, g.d) >= 0
  {
    hide GregorianDays, Greg.DaysBeforeYear, Greg.LeapYear, Counted;
    EarlyDaysAre(g.y, g.m, g.d);
    PlaceInYear(g);
    Greg.YearsMonotone(1601, g.y + 979);
    Start1601();
  }

  lemma Start1601()
    ensures Greg.DaysBeforeYear(1601) == EPOCH + 365
  {
  }

  /** Two parser dates of 970 and 971 become one day, and 1 March 1001 does not come back. */
  lemma EarlyBranchFails()
    ensures JalaliToGregorian(970, 12, 30) == JalaliToGregorian(971, 1, 1)
    ensures
      var t := GregorianToJalali(1001, 3, 1);
      JalaliToGregorian(t.jy, t.jm, t.jd) != Greg.Date(1001, 3, 1)
  {
    hide JalaliToGregorian, GregorianToJalali;
    EarlyLeapDayCollides(970);
    CountsFrom622(Greg.Date(1001, 3, 1));
    EarlyGregorianRoundTripIff(Greg.Date(1001, 3, 1));
  }
}
