/** Where the two converters of the front end, `jalali.ts` and `JalaliDateTime.tsx`, agree. */
module CalendarAgreement {
  import B = BreakTableCalendar
  import C = CycleCalendar
  import Greg = GregorianReference
  import opened JsMath
  import opened Quotients

  /** Julian day number of day 0 of the cycle converter, 1 January 1600. */
  const SHIFT := C.EPOCH + B.JDN_OFFSET

  lemma LeapStep(b: seq<int>, k: nat, jump: int)
    requires B.Admissible(b) && k + 1 < |b| && jump == b[k + 1] - b[k]
    ensures B.LeapsBefore(b, k + 1) == B.LeapsBefore(b, k) + jump / 33 * 8 + jump % 33 / 4
  {
    hide Div, Mod;
    assert B.AdmissibleJump(b[k + 1] - b[k]);
    DivMod(jump, 33);
    DivMod(jump % 33, 4);
  }

  lemma LeapsBefore686(b: seq<int>)
    requires B.Admissible(b) && |b| > 10
    requires b[0] == -61 && b[1] == 9 && b[2] == 38 && b[3] == 199 && b[4] == 426 && b[5] == 686
    ensures B.LeapsBefore(b, 5) == 167
  {
    hide Div, Mod, B.Admissible;
    LeapStep(b, 0, 70);
    LeapStep(b, 1, 29);
    LeapStep(b, 2, 161);
    LeapStep(b, 3, 227);
    LeapStep(b, 4, 260);
  }

  lemma LeapsBefore1210(b: seq<int>)
    requires B.Admissible(b) && |b| > 10
    requires b[0] == -61 && b[1] == 9 && b[2] == 38 && b[3] == 199 && b[4] == 426 && b[5] == 686
    requires b[6] == 756 && b[7] == 818 && b[8] == 1111 && b[9] == 1181 && b[10] == 1210
    ensures B.LeapsBefore(b, 10) == 294
  {
    hide Div, Mod, B.Admissible, B.LeapsBefore;
    LeapsBefore686(b);
    LeapStep(b, 5, 70);
    LeapStep(b, 6, 62);
    LeapStep(b, 7, 293);
    LeapStep(b, 8, 70);
    LeapStep(b, 9, 29);
  }

  /** The two engines agree on Nowruz of 1210, a break year. */
  lemma Anchor()
    ensures B.Nowruz(B.BREAKS, 1210) == C.YearStart(1210) + SHIFT
  {
    hide B.LeapsBefore, B.Nowruz, B.LeapsSince;
    B.BreaksAdmissible();
    B.SegmentOf(B.BREAKS, 1210, 10);
    B.NowruzIs(B.BREAKS, 1210);
    B.ZeroLeaps(425);
    LeapsBefore1210(B.BREAKS);
  }

  /** The table's leap age, read off the cycle position of the year. */
  lemma LeapIn(b: seq<int>, k: nat, jy: int, jump: int)
    requires B.Admissible(b) && k + 1 < |b| && b[k] <= jy < b[k + 1] && jump == b[k + 1] - b[k]
    ensures
      var n := jy - b[k];
      var m := if jump - n < 6 then 33 - (jump - n) else n % 33;
      B.JalCal(b, jy).leap == 0 <==> m != 32 && m % 4 == 0
  {
    hide B.LeapAge;
    assert B.AdmissibleJump(b[k + 1] - b[k]);
    B.SegmentOf(b, jy, k);
    B.LeapAgeIs(jump, jy - b[k]);
  }

  lemma CycleLeap(jy: int)
    requires jy >= 979
    ensures
      var m := (jy - 979) % 33;
      C.LeapYear(jy) <==> m != 32 && m % 4 == 0
  {
    var p, m := (jy - 979) / 33, (jy - 979) % 33;
    C.YearStartIs(p, m / 4, m % 4);
  }

  /** The segments before 1210 sit in the cycle at offset 4; their shifted last years fall in step with it. */
  lemma LeapYearsBefore1210(jy: int)
    requires 1177 <= jy < 1210
    ensures B.IsLeapJalaali(jy) <==> jy != 1177 && C.LeapYear(jy)
    ensures C.LeapYear(1177)
  {
    hide B.JalCal, C.LeapYear, B.Admissible;
    B.BreaksAdmissible();
    CycleLeap(jy);
    CycleLeap(1177);
    Quot(jy - 979, 33, 6, jy - 1177);
    if jy < 1181 { LeapIn(B.BREAKS, 8, jy, 70); } else { LeapIn(B.BREAKS, 9, jy, 29); }
  }

  /** The segment from 1210 starts with a cycle, until the last five years are shifted. */
  lemma LeapYearsFrom1210(jy: int)
    requires 1210 <= jy < 1635
    ensures B.IsLeapJalaali(jy) <==> jy != 1634 && C.LeapYear(jy)
    ensures C.LeapYear(1634)
  {
    hide B.JalCal, C.LeapYear, B.Admissible;
    B.BreaksAdmissible();
    CycleLeap(jy);
    CycleLeap(1634);
    LeapIn(B.BREAKS, 10, jy, 425);
    var n := jy - 1210;
    Quot(jy - 979, 33, n / 33 + 7, n % 33);
    if n >= 420 { Quot(n, 33, 12, n - 396); }
  }

  /** Leap years agree from 1178 to 1633, and 1634 and 1177 are leap years of the cycle converter alone. */
  lemma LeapYearsAgree(jy: int)
    requires 1177 <= jy <= 1634
    ensures 1178 <= jy <= 1633 ==> (B.IsLeapJalaali(jy) <==> C.LeapYear(jy))
    ensures jy == 1177 || jy == 1634 ==> !B.IsLeapJalaali(jy) && C.LeapYear(jy)
  {
    hide B.IsLeapJalaali, C.LeapYear;
    if jy < 1210 { LeapYearsBefore1210(jy); } else { LeapYearsFrom1210(jy); }
  }

  lemma {:induction false} NowruzAgrees(jy: int)
    requires 1178 <= jy <= 1634
    ensures B.Nowruz(B.BREAKS, jy) == C.YearStart(jy) + SHIFT
    decreases if jy < 1210 then 1210 - jy else jy - 1210
  {
    hide B.Nowruz, C.YearStart, B.JalCal, C.LeapYear;
    if jy == 1210 {
      Anchor();
    } else {
      B.BreaksAdmissible();
      var y := if jy < 1210 then jy else jy - 1;
      NowruzAgrees(if jy < 1210 then jy + 1 else y);
      B.YearLength(B.BREAKS, y);
      C.YearLength(y);
      LeapYearsAgree(y);
    }
  }

  /** The engines give the same Jalali date on every Gregorian day of Jalali years 1178 to 1634. */
  lemma EnginesAgree(g: Greg.Date)
    requires Greg.Valid(g)
    requires B.Nowruz(B.BREAKS, 1178) <= Greg.DayNumber(g) + B.JDN_OFFSET < B.Nowruz(B.BREAKS, 1635)
    ensures
      var b, c := B.ToJalaali(g), C.GregorianToJalali(g.y, g.m, g.d);
      b.jy == c.jy && b.jm == c.jm && b.jd == c.jd
  {
    hide B.Nowruz, B.JalCal, B.J2d, B.D2j, B.G2d, B.D2g, C.GregorianToJalali, C.LeapYear, C.YearStart, Greg.DayNumber;
    var jdn := Greg.DayNumber(g) + B.JDN_OFFSET;
    B.NowruzMonotone(1177, 1178);
    var b := JalaliOf(g, jdn);
    B.J2dIs(b);
    if b.jy < 1178 { B.NowruzMonotone(b.jy + 1, 1178); }
    if b.jy > 1634 { B.NowruzMonotone(1635, b.jy); }
    NowruzAgrees(b.jy);
    LeapYearsAgree(b.jy);
    CycleFinds(g, C.JDate(b.jy, b.jm, b.jd));
  }

  /** What the table engine gives for a Gregorian day. */
  lemma JalaliOf(g: Greg.Date, jdn: int) returns (b: B.JDate)
    requires Greg.Valid(g) && jdn == Greg.DayNumber(g) + B.JDN_OFFSET
    requires B.Nowruz(B.BREAKS, 1177) <= jdn <= B.Nowruz(B.BREAKS, 1635)
    ensures b == B.ToJalaali(g) && B.ValidJ(b) && B.J2d(b.jy, b.jm, b.jd) == jdn
  {
    hide B.Nowruz, B.JalCal, B.J2d, B.D2j, B.G2d, B.D2g, Greg.DayNumber;
    B.NowruzMonotone(-61, 1177);
    B.NowruzMonotone(1635, 3178);
    B.TableInSpan();
    B.GregorianRoundTrip(jdn);
    Greg.Injective(g, B.D2g(jdn));
    B.JalaliOfDay(jdn);
    b := B.D2j(jdn);
  }

  /** The cycle engine finds the one valid date with the day count of the Gregorian day. */
  lemma CycleFinds(g: Greg.Date, c: C.JDate)
    requires Greg.Valid(g) && c.jy >= 980 && C.Valid(c)
    requires C.DayCount(c) == Greg.DayNumber(g) - C.EPOCH
    ensures C.GregorianToJalali(g.y, g.m, g.d) == c
  {
    hide C.GregorianToJalali, C.LeapYear, C.YearStart, Greg.DayNumber;
    C.InYear(c);
    C.YearsMonotone(980, c.jy);
    C.AfterSixteenHundred(g);
    C.GregorianToJalaliCounts(g);
    C.Injective(C.GregorianToJalali(g.y, g.m, g.d), c);
  }

  /** The span has no neighbours: the day before it and the day after it get different dates. */
  lemma EnginesDisagreeOutside(g: Greg.Date)
    requires Greg.Valid(g)
    ensures Greg.DayNumber(g) + B.JDN_OFFSET == B.Nowruz(B.BREAKS, 1635) ==>
              B.ToJalaali(g) == B.JDate(1635, 1, 1) && C.GregorianToJalali(g.y, g.m, g.d) == C.JDate(1634, 12, 30)
    ensures Greg.DayNumber(g) + B.JDN_OFFSET == B.Nowruz(B.BREAKS, 1178) - 1 ==>
              B.ToJalaali(g) == B.JDate(1177, 12, 29) && C.GregorianToJalali(g.y, g.m, g.d) == C.JDate(1177, 12, 30)
  {
    hide B.Nowruz, B.JalCal, B.J2d, B.D2j, B.G2d, B.D2g, C.GregorianToJalali, C.LeapYear, C.YearStart, Greg.DayNumber;
    var jdn := Greg.DayNumber(g) + B.JDN_OFFSET;
    B.BreaksAdmissible();
    if jdn == B.Nowruz(B.BREAKS, 1635) {
      NowruzAgrees(1634);
      LeapYearsAgree(1634);
      B.YearLength(B.BREAKS, 1634);
      B.NowruzMonotone(1177, 1635);
      var b := JalaliOf(g, jdn);
      B.J2dIs(B.JDate(1635, 1, 1));
      B.J2dInjective(b, B.JDate(1635, 1, 1));
      CycleFinds(g, C.JDate(1634, 12, 30));
    }
    if jdn == B.Nowruz(B.BREAKS, 1178) - 1 {
      NowruzAgrees(1178);
      LeapYearsAgree(1177);
      B.YearLength(B.BREAKS, 1177);
      C.YearLength(1177);
      B.NowruzMonotone(1178, 1635);
      var b := JalaliOf(g, jdn);
      B.J2dIs(B.JDate(1177, 12, 29));
      B.J2dInjective(b, B.JDate(1177, 12, 29));
      CycleFinds(g, C.JDate(1177, 12, 30));
    }
  }

  // ---------- the whole common range ----------

  predicate TableOnly(jy: int) {
    B.IsLeapJalaali(jy) && !C.LeapYear(jy)
  }

  predicate CycleOnly(jy: int) {
    C.LeapYear(jy) && !B.IsLeapJalaali(jy)
  }

  /** The leap places of a cycle of 33. */
  predicate LeapPlace(m: int) {
    m != 32 && m % 4 == 0
  }

  /** The leap test inside a segment of the table, by the place n in it. */
  predicate TableLeapAt(jump: int, n: int) {
    LeapPlace(if jump - n < 6 then 33 - (jump - n) else n % 33)
  }

  /** The leap test of the cycle at place n of a segment that starts at place o of the cycle. */
  predicate CycleLeapAt(o: int, n: int) {
    LeapPlace((n + o) % 33)
  }

  /** A segment that lags behind the cycle: its leap years come one year after the cycle's, if not together. */
  predicate Lags(o: int, jump: int) {
    ((o == 0 || o == 29 || o == 25) && jump % 33 == 29) || (o == 25 && jump % 33 == 4)
  }

  /** A segment that leads it. */
  predicate Leads(o: int, jump: int) {
    (o == 4 && jump % 33 == 29) || (o == 0 && jump % 33 == 4)
  }

  lemma CyclePlace(o: int, n: int)
    requires 0 <= o < 33 && 0 <= n
    ensures (n + o) % 33 == (if n % 33 + o < 33 then n % 33 + o else n % 33 + o - 33)
  {
    var q, m := n / 33, n % 33;
    if m + o < 33 { Quot(n + o, 33, q, m + o); } else { Quot(n + o, 33, q + 1, m + o - 33); }
  }

  lemma NextPlace(n: int)
    requires 0 <= n
    ensures (n + 1) % 33 == if n % 33 == 32 then 0 else n % 33 + 1
  {
    var q, m := n / 33, n % 33;
    if m == 32 { Quot(n + 1, 33, q + 1, 0); } else { Quot(n + 1, 33, q, m + 1); }
  }

  /** The place from which the last five years are shifted. */
  lemma LastPlaces(jump: int, n: int)
    requires 0 <= n < jump && jump - n <= 6
    ensures jump % 33 == 29 ==> n % 33 == 29 - (jump - n)
    ensures jump % 33 == 4 ==> n % 33 == (if jump - n <= 4 then 4 - (jump - n) else 37 - (jump - n))
  {
    var q, e := jump / 33, jump - n;
    if jump % 33 == 29 {
      Quot(n, 33, q, 29 - e);
    } else if jump % 33 == 4 {
      if e <= 4 { Quot(n, 33, q, 4 - e); } else { Quot(n, 33, q - 1, 37 - e); }
    }
  }

  function Turn(m: int, o: int): int {
    if m + o < 33 then m + o else m + o - 33
  }

  lemma LagsPlaces(o: int, m: int)
    requires (o == 0 || o == 29 || o == 25) && 0 <= m < 33
    ensures LeapPlace(Turn(m, o)) && !LeapPlace(m) <==> LeapPlace(Turn(m, 1)) && !LeapPlace(Turn(Turn(m, 1), o))
  {
  }

  lemma LeadsPlaces(o: int, m: int)
    requires (o == 4 || o == 0) && 0 <= m < 33
    ensures LeapPlace(m) && !LeapPlace(Turn(m, o)) <==> LeapPlace(Turn(Turn(m, 1), o)) && !LeapPlace(Turn(m, 1))
  {
  }

  /** The years just before and among the shifted ones, by their distance e from the end of the segment. */
  lemma LagsLastYears(o: int, r: int, m: int, e: int)
    requires (o == 0 || o == 29 || o == 25) && 2 <= e <= 6
    requires (r == 29 && m == 29 - e) || (r == 4 && o == 25 && m == if e <= 4 then 4 - e else 37 - e)
    ensures
      var now, next := if e < 6 then 33 - e else m, 34 - e;
      LeapPlace(Turn(m, o)) && !LeapPlace(now) <==> LeapPlace(next) && !LeapPlace(Turn(Turn(m, 1), o))
  {
  }

  lemma LagsInside(o: int, jump: int, n: int)
    requires Lags(o, jump) && 29 <= jump && 0 <= n && n + 1 < jump
    ensures CycleLeapAt(o, n) && !TableLeapAt(jump, n) <==> TableLeapAt(jump, n + 1) && !CycleLeapAt(o, n + 1)
  {
    hide LeapPlace;
    NextPlace(n);
    CyclePlace(o, n);
    CyclePlace(o, n + 1);
    if jump - n > 6 {
      LagsPlaces(o, n % 33);
    } else {
      LastPlaces(jump, n);
      LagsLastYears(o, jump % 33, n % 33, jump - n);
    }
  }

  lemma LagsEnds(o: int, jump: int)
    requires Lags(o, jump) && 29 <= jump
    ensures CycleLeapAt(o, jump - 1) && !TableLeapAt(jump, jump - 1)
    ensures TableLeapAt(jump, 0) && !CycleLeapAt(o, 0) <==> o != 0
  {
    CyclePlace(o, jump - 1);
    CyclePlace(o, 0);
    LastPlaces(jump, jump - 1);
  }

  lemma LeadsInside(o: int, jump: int, n: int)
    requires Leads(o, jump) && 29 <= jump && 0 <= n && n + 1 < jump
    ensures TableLeapAt(jump, n) && !CycleLeapAt(o, n) <==> CycleLeapAt(o, n + 1) && !TableLeapAt(jump, n + 1)
  {
    NextPlace(n);
    CyclePlace(o, n);
    CyclePlace(o, n + 1);
    if jump - n > 6 {
      hide LeapPlace, Leads;
      LeadsPlaces(o, n % 33);
    } else {
      LastPlaces(jump, n);
      LastPlaces(jump, n + 1);
    }
  }

  lemma LeadsEnds(o: int, jump: int)
    requires Leads(o, jump) && 29 <= jump
    ensures jump % 33 == 29 ==> !(TableLeapAt(jump, jump - 1) && !CycleLeapAt(o, jump - 1))
    ensures o == 0 ==> !(CycleLeapAt(o, 0) && !TableLeapAt(jump, 0))
  {
    CyclePlace(o, jump - 1);
    LastPlaces(jump, jump - 1);
  }

  /** Both leap tests of a year, by its place in its segment. */
  lemma LeapTests(b: seq<int>, k: nat, jy: int, o: int, jump: int)
    requires b == B.BREAKS && B.Admissible(b) && k + 1 < |b| && b[k] <= jy < b[k + 1] && jump == b[k + 1] - b[k]
    requires jy >= 979 && 0 <= o < 33 && (b[k] - 979) % 33 == o
    ensures B.IsLeapJalaali(jy) <==> TableLeapAt(jump, jy - b[k])
    ensures C.LeapYear(jy) <==> CycleLeapAt(o, jy - b[k])
  {
    hide B.JalCal, C.LeapYear, B.Admissible;
    LeapIn(b, k, jy, jump);
    CycleLeap(jy);
    var n, q := jy - b[k], (b[k] - 979) / 33;
    assert jy - 979 == 33 * q + (n + o);
    Quot(jy - 979, 33, q + (n + o) / 33, (n + o) % 33);
  }

  /** Where a segment of the table starts in the cycle, and how long it is. */
  predicate At(k: nat, o: int, jump: int)
    requires k < 19
  {
    0 <= o < 33 && (B.BREAKS[k] - 979) % 33 == o && B.BREAKS[k + 1] - B.BREAKS[k] == jump
  }

  /** From 1210 on every segment of the table lags behind the cycle. */
  lemma LateSegment(k: nat) returns (o: int, jump: int)
    requires 10 <= k < 19
    ensures At(k, o, jump) && Lags(o, jump) && jump >= 29 && (o == 0 <==> k == 10)
  {
    o, jump := (B.BREAKS[k] - 979) % 33, B.BREAKS[k + 1] - B.BREAKS[k];
  }

  /** A year of the cycle alone is followed by a year of the table alone, and only by it. */
  lemma PairsLate(jy: int)
    requires 1210 <= jy < 3177
    ensures CycleOnly(jy) <==> TableOnly(jy + 1)
  {
    hide B.IsLeapJalaali, C.LeapYear, TableLeapAt, CycleLeapAt, Lags, B.Segment;
    B.BreaksAdmissible();
    var k := LateIndex(jy);
    var o, jump := LateSegment(k);
    var n := jy - B.BREAKS[k];
    LeapTests(B.BREAKS, k, jy, o, jump);
    if n + 1 < jump {
      LeapTests(B.BREAKS, k, jy + 1, o, jump);
      LagsInside(o, jump, n);
    } else {
      var o', jump' := LateSegment(k + 1);
      LeapTests(B.BREAKS, k + 1, jy + 1, o', jump');
      LagsEnds(o, jump);
      LagsEnds(o', jump');
    }
  }

  lemma LateIndex(jy: int) returns (k: nat)
    requires 1210 <= jy < 3178
    ensures 10 <= k < 19 && B.BREAKS[k] <= jy < B.BREAKS[k + 1]
  {
    k := 10;
    while B.BREAKS[k + 1] <= jy
      invariant 10 <= k < 19 && B.BREAKS[k] <= jy
    {
      k := k + 1;
    }
  }

  /** From 980 to 1177 the table leads: a year of the table alone is followed by a year of the cycle alone. */
  lemma PairsEarly(jy: int)
    requires 980 <= jy < 1177
    ensures TableOnly(jy) <==> CycleOnly(jy + 1)
  {
    hide B.IsLeapJalaali, C.LeapYear, TableLeapAt, CycleLeapAt, B.Segment;
    B.BreaksAdmissible();
    if jy < 1110 {
      LeapTests(B.BREAKS, 7, jy, 4, 293);
      LeapTests(B.BREAKS, 7, jy + 1, 4, 293);
      LeadsInside(4, 293, jy - 818);
    } else if jy == 1110 {
      LeapTests(B.BREAKS, 7, jy, 4, 293);
      LeapTests(B.BREAKS, 8, jy + 1, 0, 70);
      LeadsEnds(4, 293);
      LeadsEnds(0, 70);
    } else {
      LeapTests(B.BREAKS, 8, jy, 0, 70);
      LeapTests(B.BREAKS, 8, jy + 1, 0, 70);
      LeadsInside(0, 70, jy - 1111);
    }
  }

  /** One day apart exactly in the years that the table alone calls leap, from 1178 on, and in those that the cycle
      alone calls leap, before. */
  function DaysApart(jy: int): int {
    if jy >= 1178 then (if TableOnly(jy) then -1 else 0) else if CycleOnly(jy) then 1 else 0
  }

  lemma Both(jy: int)
    ensures (if B.IsLeapJalaali(jy) then 1 else 0) - (if C.LeapYear(jy) then 1 else 0)
         == (if TableOnly(jy) then 1 else 0) - (if CycleOnly(jy) then 1 else 0)
  {
  }

  lemma {:induction false} NowruzLate(jy: int)
    requires 1178 <= jy <= 3177
    ensures B.Nowruz(B.BREAKS, jy) == C.YearStart(jy) + SHIFT + DaysApart(jy)
  {
    hide B.Nowruz, C.YearStart, B.IsLeapJalaali, C.LeapYear, TableOnly, CycleOnly;
    if jy <= 1634 {
      NowruzAgrees(jy);
      NotTableOnly(jy);
    } else {
      NowruzLate(jy - 1);
      B.BreaksAdmissible();
      B.YearLength(B.BREAKS, jy - 1);
      LeapIs(jy - 1);
      C.YearLength(jy - 1);
      Both(jy - 1);
      PairsLate(jy - 1);
    }
  }

  lemma NotTableOnly(jy: int)
    requires 1178 <= jy <= 1634
    ensures !TableOnly(jy)
  {
    LeapYearsAgree(jy);
  }

  lemma LeapIs(jy: int)
    ensures B.JalCal(B.BREAKS, jy).leap == 0 <==> B.IsLeapJalaali(jy)
  {
  }

  lemma {:induction false} NowruzEarly(jy: int)
    requires 980 <= jy <= 1178
    ensures B.Nowruz(B.BREAKS, jy) == C.YearStart(jy) + SHIFT + DaysApart(jy)
    decreases 1178 - jy
  {
    hide B.Nowruz, C.YearStart, B.IsLeapJalaali, C.LeapYear, TableOnly, CycleOnly;
    if jy == 1178 {
      NowruzLate(jy);
    } else {
      NowruzEarly(jy + 1);
      B.BreaksAdmissible();
      B.YearLength(B.BREAKS, jy);
      LeapIs(jy);
      C.YearLength(jy);
      Both(jy);
      if jy == 1177 { LastEarly(); } else { PairsEarly(jy); }
    }
  }

  lemma LastEarly()
    ensures CycleOnly(1177) && !TableOnly(1177) && !TableOnly(1178)
  {
    LeapYearsAgree(1177);
    LeapYearsAgree(1178);
  }

  /** Over the whole range the engines have in common, the first days of a year differ exactly when it is leap in one
      engine alone: in the table from 1178 on, in the cycle before. */
  lemma NowruzAgreesIff(jy: int)
    requires 980 <= jy <= 3177
    ensures B.Nowruz(B.BREAKS, jy) == C.YearStart(jy) + SHIFT + DaysApart(jy)
    ensures B.Nowruz(B.BREAKS, jy) == C.YearStart(jy) + SHIFT <==> !(if jy >= 1178 then TableOnly(jy) else CycleOnly(jy))
  {
    hide B.Nowruz, C.YearStart, B.IsLeapJalaali, C.LeapYear;
    if jy <= 1178 { NowruzEarly(jy); } else { NowruzLate(jy); }
  }

  /** The days on which the engines agree, told from the table engine's answer and the leap tests of its year. */
  predicate SameDay(b: B.JDate) {
    if b.jy >= 1178 then !TableOnly(b.jy)
    else !CycleOnly(b.jy) && !(b.jm == 12 && b.jd == 30 && TableOnly(b.jy))
  }

  /** On every Gregorian day of the years 980 to 3177 the engines give the same Jalali date exactly on these days. */
  lemma EnginesAgreeIff(g: Greg.Date)
    requires Greg.Valid(g)
    requires B.Nowruz(B.BREAKS, 980) <= Greg.DayNumber(g) + B.JDN_OFFSET < B.Nowruz(B.BREAKS, 3178)
    ensures
      var b, c := B.ToJalaali(g), C.GregorianToJalali(g.y, g.m, g.d);
      b.jy == c.jy && b.jm == c.jm && b.jd == c.jd <==> SameDay(b)
  {
    hide B.Nowruz, B.JalCal, B.J2d, B.D2j, B.G2d, B.D2g, C.GregorianToJalali, C.LeapYear, C.YearStart, Greg.DayNumber,
      B.IsLeapJalaali, TableOnly, CycleOnly, DaysApart;
    var jdn := Greg.DayNumber(g) + B.JDN_OFFSET;
    var b := TableDate(g, jdn);
    NowruzAgreesIff(b.jy);
    AfterStart(g, jdn);
    C.AfterSixteenHundred(g);
    C.GregorianToJalaliCounts(g);
    var mine := C.JDate(b.jy, b.jm, b.jd);
    SameCount(b, mine, jdn);
    SameDayIs(b, mine);
    if C.Valid(mine) && C.DayCount(mine) == Greg.DayNumber(g) - C.EPOCH { CycleFinds(g, mine); }
  }

  lemma TableDate(g: Greg.Date, jdn: int) returns (b: B.JDate)
    requires Greg.Valid(g) && jdn == Greg.DayNumber(g) + B.JDN_OFFSET
    requires B.Nowruz(B.BREAKS, 980) <= jdn < B.Nowruz(B.BREAKS, 3178)
    ensures b == B.ToJalaali(g) && B.ValidJ(b) && 980 <= b.jy < 3178
    ensures jdn == B.Nowruz(B.BREAKS, b.jy) + B.MonthOffset(b.jm) + b.jd - 1
  {
    hide B.Nowruz, B.JalCal, B.J2d, B.D2j, B.G2d, B.D2g, B.IsLeapJalaali, Greg.DayNumber;
    B.NowruzMonotone(-61, 980);
    B.TableInSpan();
    B.GregorianRoundTrip(jdn);
    Greg.Injective(g, B.D2g(jdn));
    B.JalaliOfDay(jdn);
    b := B.D2j(jdn);
    B.J2dIs(b);
    if b.jy < 980 { B.NowruzMonotone(b.jy + 1, 980); }
  }

  lemma AfterStart(g: Greg.Date, jdn: int)
    requires Greg.Valid(g) && jdn == Greg.DayNumber(g) + B.JDN_OFFSET && B.Nowruz(B.BREAKS, 980) <= jdn
    ensures Greg.DayNumber(g) >= C.EPOCH + C.YearStart(980)
  {
    hide B.Nowruz, C.YearStart, B.IsLeapJalaali, C.LeapYear, Greg.DayNumber;
    NowruzAgreesIff(980);
  }

  lemma SameCount(b: B.JDate, mine: C.JDate, jdn: int)
    requires B.ValidJ(b) && mine == C.JDate(b.jy, b.jm, b.jd)
    requires jdn == B.Nowruz(B.BREAKS, b.jy) + B.MonthOffset(b.jm) + b.jd - 1
    ensures C.DayCount(mine) == jdn - SHIFT <==> B.Nowruz(B.BREAKS, b.jy) == C.YearStart(b.jy) + SHIFT
  {
    hide B.Nowruz, C.YearStart;
  }

  lemma SameDayIs(b: B.JDate, mine: C.JDate)
    requires B.ValidJ(b) && mine == C.JDate(b.jy, b.jm, b.jd)
    ensures SameDay(b) <==> C.Valid(mine) && !(if b.jy >= 1178 then TableOnly(b.jy) else CycleOnly(b.jy))
  {
    hide B.IsLeapJalaali, C.LeapYear;
  }

  /** Told from the Jalali date: the cycle engine reads the Gregorian day of a date of the table engine as the same date
      exactly if the leap tests of its year say so. */
  lemma EnginesAgreeOn(t: B.JDate)
    requires B.ValidJ(t) && 980 <= t.jy
    ensures
      var g := B.ToGregorian(t);
      Greg.Valid(g) && (C.GregorianToJalali(g.y, g.m, g.d) == C.JDate(t.jy, t.jm, t.jd) <==> SameDay(t))
  {
    hide B.Nowruz, B.JalCal, B.J2d, B.D2j, B.G2d, B.D2g, C.GregorianToJalali, Greg.DayNumber, SameDay, B.IsLeapJalaali;
    B.JalaliRoundTrip(t);
    var jdn := B.J2d(t.jy, t.jm, t.jd);
    B.J2dIs(t);
    B.NowruzMonotone(-61, 980);
    B.NowruzMonotone(980, t.jy);
    B.NowruzMonotone(t.jy + 1, 3178);
    B.TableInSpan();
    B.GregorianRoundTrip(jdn);
    EnginesAgreeIff(B.ToGregorian(t));
  }
}
