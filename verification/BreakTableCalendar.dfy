/** `frontend/src/utils/jalali.ts`: the Jalali calendar from a table of break years, through Julian day numbers. */
module BreakTableCalendar {
  import opened JsMath
  import opened Quotients
  import Greg = GregorianReference

  datatype YearInfo = YearInfo(leap: int, gy: int, march: int)
  datatype JDate = JDate(jy: int, jm: int, jd: int)

  const BREAKS: seq<int> :=
    [-61, 9, 38, 199, 426, 686, 756, 818, 1111, 1181, 1210, 1635, 2060, 2097, 2192, 2262, 2324, 2394, 2456, 3178]

  // ---------- jalCal ----------

  /** What the loop over the breaks needs of its table. */
  ghost predicate Table(b: seq<int>) {
    |b| >= 2 && forall i :: 0 <= i < |b| - 1 ==> b[i] < b[i + 1]
  }

  /** A table whose jumps are at least 29 and 4 or 29 modulo 33, starting no earlier than year -621
      and inside the years for which `g2d` stays within 32 bits. */
  ghost predicate Admissible(b: seq<int>) {
    && Table(b)
    && (forall i :: 0 <= i < |b| ==> -621 <= b[i] <= 5_000_000)
    && (forall i :: 0 <= i < |b| - 1 ==> AdmissibleJump(b[i + 1] - b[i]))
  }

  predicate AdmissibleJump(jump: int) {
    jump >= 29 && (jump % 33 == 4 || jump % 33 == 29)
  }

  /** The index of the last break the loop passes. */
  function Segment(b: seq<int>, jy: int, i: nat := 0): (k: nat)
    requires i < |b|
    ensures i <= k < |b|
    decreases |b| - i
  {
    if i + 1 < |b| && jy >= b[i + 1] then Segment(b, jy, i + 1) else i
  }

  function JumpAt(b: seq<int>, k: nat): int
    requires 2 <= |b| && k < |b|
  {
    if k + 1 < |b| then b[k + 1] - b[k] else b[k] - b[k - 1]
  }

  /** Leap years counted up to break k. */
  function LeapsBefore(b: seq<int>, k: nat): int
    requires k < |b|
  {
    if k == 0 then -14
    else
      var jump := b[k] - b[k - 1];
      LeapsBefore(b, k - 1) + Div(jump, 33) * 8 + Div(Mod(jump, 33), 4)
  }

  function LeapsSince(jump: int, n: int): int {
    Div(n, 33) * 8 + Div(Mod(n, 33) + 3, 4) + (if Mod(jump, 33) == 4 && jump - n == 4 then 1 else 0)
  }

  /** Years since the last leap year, n years into a segment of the given length. */
  function LeapAge(jump: int, n: int): int {
    var n' := if jump - n < 6 then n - jump + Div(jump + 4, 33) * 33 else n;
    var age := Mod(Mod(n' + 1, 33) - 1, 4);
    if age == -1 then 4 else age
  }

  function LeapG(gy: int): int {
    Div(gy, 4) - Div((Div(gy, 100) + 1) * 3, 4) - 150
  }

  function LeapJ(b: seq<int>, jy: int): int
    requires 2 <= |b|
  {
    var k := Segment(b, jy);
    LeapsBefore(b, k) + LeapsSince(JumpAt(b, k), jy - b[k])
  }

  function JalCal(b: seq<int>, jy: int): YearInfo
    requires 2 <= |b|
  {
    var k := Segment(b, jy);
    YearInfo(LeapAge(JumpAt(b, k), jy - b[k]), jy + 621, 20 + LeapJ(b, jy) - LeapG(jy + 621))
  }

  /** The loop of `jalCal`, on any table, for any year: before, inside and after the table. */
  method ComputeJalCal(b: seq<int>, jy: int) returns (r: YearInfo)
    requires 2 <= |b|
    ensures r == JalCal(b, jy)
  {
    hide Div, Mod;
    var gy := jy + 621;
    var leapJ, jp, jump, i := -14, b[0], 0, 1;
    while i < |b|
      invariant 1 <= i <= |b|
      invariant jp == b[i - 1] && leapJ == LeapsBefore(b, i - 1)
      invariant i > 1 ==> jump == b[i - 1] - b[i - 2]
      invariant Segment(b, jy) == Segment(b, jy, i - 1)
    {
      var jm := b[i];
      jump := jm - jp;
      if jy < jm { break; }
      leapJ := leapJ + Div(jump, 33) * 8 + Div(Mod(jump, 33), 4);
      jp := jm;
      i := i + 1;
    }
    var n := jy - jp;
    leapJ := leapJ + Div(n, 33) * 8 + Div(Mod(n, 33) + 3, 4);
    if Mod(jump, 33) == 4 && jump - n == 4 { leapJ := leapJ + 1; }
    var leapG := Div(gy, 4) - Div((Div(gy, 100) + 1) * 3, 4) - 150;
    var march := 20 + leapJ - leapG;
    if jump - n < 6 { n := n - jump + Div(jump + 4, 33) * 33; }
    var leap := Mod(Mod(n + 1, 33) - 1, 4);
    if leap == -1 { leap := 4; }
    r := YearInfo(leap, gy, march);
  }

  lemma ModMinusOne()
    ensures Mod(-1, 4) == -1
  {
  }

  // ---------- the leap structure of one segment ----------

  lemma LeapsSinceIs(jump: int, n: int)
    requires 0 <= n <= 6_000_000 && 29 <= jump <= 6_000_000
    ensures LeapsSince(jump, n)
         == n / 33 * 8 + (n % 33 + 3) / 4 + (if jump % 33 == 4 && jump - n == 4 then 1 else 0)
  {
    hide Div;
    DivMod(n, 33);
    DivMod(n % 33 + 3, 4);
    DivMod(jump, 33);
  }

  /** The leap age in closed form: year m of a 33-year cycle is m mod 4 years after a leap year, except
      that the last year of a cycle is the fourth; the last five years of a segment are shifted. */
  lemma LeapAgeIs(jump: int, n: int)
    requires AdmissibleJump(jump) && jump <= 6_000_000 && 0 <= n < jump
    ensures
      var m := if jump - n < 6 then 33 - (jump - n) else n % 33;
      LeapAge(jump, n) == if m == 32 then 4 else m % 4
  {
    hide Div, Mod;
    var n' := if jump - n < 6 then n - jump + Div(jump + 4, 33) * 33 else n;
    var m := if jump - n < 6 then 33 - (jump - n) else n % 33;
    DivMod(jump + 4, 33);
    var p;
    if jump - n < 6 {
      p := (jump + 4) / 33 - 1;
      if jump % 33 == 29 { Quot(jump + 4, 33, jump / 33 + 1, 0); } else { Quot(jump + 4, 33, jump / 33, 8); }
    } else {
      p := n / 33;
    }
    assert n' == 33 * p + m;
    if m == 32 {
      Quot(n' + 1, 33, p + 1, 0);
      ModMinusOne();
    } else {
      Quot(n' + 1, 33, p, m + 1);
      DivMod(m, 4);
    }
    DivMod(n' + 1, 33);
  }

  /** The leap count of a segment steps at exactly the years of leap age 0, into the next segment too. */
  lemma SegmentStep(jump: int, n: int)
    requires AdmissibleJump(jump) && jump <= 5_500_000 && 0 <= n < jump
    ensures
      var next := if n + 1 < jump then LeapsSince(jump, n + 1) else Div(jump, 33) * 8 + Div(Mod(jump, 33), 4);
      next == LeapsSince(jump, n) + (if LeapAge(jump, n) == 0 then 1 else 0)
  {
    hide Div, Mod, LeapAge, LeapsSince;
    LeapAgeIs(jump, n);
    LeapsSinceIs(jump, n);
    LeapsSinceIs(jump, n + 1);
    DivMod(jump, 33);
    DivMod(jump % 33, 4);
    var q, r := jump / 33, jump % 33;
    var p, m := n / 33, n % 33;
    assert (n + 1) / 33 == (if m == 32 then p + 1 else p) && (n + 1) % 33 == (if m == 32 then 0 else m + 1) by {
      assert n + 1 == 33 * p + (m + 1);
    }
    if jump - n < 6 {
      if r == 29 {
        assert n == 33 * q + (29 - (jump - n));
        assert p == q && m == 29 - (jump - n);
      } else if jump - n == 5 {
        assert n == 33 * (q - 1) + 32;
        assert p == q - 1 && m == 32;
      } else {
        assert n == 33 * q + (4 - (jump - n));
        assert p == q && m == 4 - (jump - n);
      }
    }
  }

  /** The place of the year before in the cycle, and the place of the first shifted year. */
  lemma PlaceBefore(jump: int, n: int)
    requires AdmissibleJump(jump) && 0 < n < jump
    ensures (n - 1) % 33 == if n % 33 == 0 then 32 else n % 33 - 1
    ensures jump - n == 5 ==> n % 33 == if jump % 33 == 29 then 24 else 32
  {
    if n % 33 == 0 { Quot(n - 1, 33, n / 33 - 1, 32); } else { Quot(n - 1, 33, n / 33, n % 33 - 1); }
    if jump - n == 5 {
      var q := jump / 33;
      if jump % 33 == 29 { Quot(n, 33, q, 24); } else { Quot(n, 33, q - 1, 32); }
    }
  }

  /** Leap age 1 is the year after leap age 0, inside a segment; a segment starts with a leap year
      and ends with a common one. */
  lemma SegmentAges(jump: int, n: int)
    requires AdmissibleJump(jump) && jump <= 5_500_000 && 0 <= n < jump
    ensures n > 0 ==> (LeapAge(jump, n) == 1 <==> LeapAge(jump, n - 1) == 0)
    ensures LeapAge(jump, 0) == 0 && LeapAge(jump, jump - 1) == 4
  {
    hide Div, Mod, LeapAge;
    LeapAgeIs(jump, 0);
    LeapAgeIs(jump, jump - 1);
    if n > 0 {
      PlaceBefore(jump, n);
      LeapAgeIs(jump, n);
      LeapAgeIs(jump, n - 1);
    }
  }

  // ---------- g2d and d2g ----------

  function G2d(gy: int, gm: int, gd: int): int {
    var d := Div((gy + Div(gm - 8, 6) + 100100) * 1461, 4) + Div(153 * Mod(gm + 9, 12) + 2, 5) + gd - 34840408;
    d - Div(Div(gy + 100100 + Div(gm - 8, 6), 100) * 3, 4) + 752
  }

  function D2g(jdn: int): Greg.Date {
    var j := 4 * jdn + 139361631;
    var j := j + Div(Div(4 * jdn + 183187720, 146097) * 3, 4) * 4 - 3908;
    var i := Div(Mod(j, 1461), 4) * 5 + 308;
    var gd := Div(Mod(i, 153), 5) + 1;
    var gm := Mod(Div(i, 153), 12) + 1;
    Greg.Date(Div(j, 1461) - 100100 + Div(8 - gm, 6), gm, gd)
  }

  /** The Julian day number of day 0 of the reference count. */
  const JDN_OFFSET := 1721425

  /** Years counted from 1 March of year -100100. */
  function MarchYear(t: Greg.Date): int {
    t.y + 100100 - (if t.m <= 2 then 1 else 0)
  }

  /** The last March year whose day count fits the 32-bit quotient in `g2d`. */
  const LAST_MARCH_YEAR := 5_879_489

  ghost predicate InSpan(t: Greg.Date) {
    Greg.Valid(t) && 0 <= MarchYear(t) <= LAST_MARCH_YEAR
  }

  /** Days from 1 March to the first of a month. */
  function MonthStart(m: int): int {
    if m == 3 then 0 else if m == 4 then 31 else if m == 5 then 61 else if m == 6 then 92
    else if m == 7 then 122 else if m == 8 then 153 else if m == 9 then 184 else if m == 10 then 214
    else if m == 11 then 245 else if m == 12 then 275 else if m == 1 then 306 else 337
  }

  function MonthIndex(m: int): int {
    if m <= 2 then m + 9 else m - 3
  }

  /** The month terms of `g2d`: the March year and the days before the month. */
  lemma MonthTerms(t: Greg.Date)
    requires 1 <= t.m <= 12
    ensures t.y + Div(t.m - 8, 6) + 100100 == MarchYear(t)
    ensures Mod(t.m + 9, 12) == MonthIndex(t.m)
    ensures Div(153 * Mod(t.m + 9, 12) + 2, 5) == MonthStart(t.m) == (153 * MonthIndex(t.m) + 2) / 5
  {
    hide ToInt32;
    assert Trunc(t.m - 8, 6) == if t.m <= 2 then -1 else 0;
    SmallInt(Trunc(t.m - 8, 6));
    DivMod(t.m + 9, 12);
    DivMod(153 * MonthIndex(t.m) + 2, 5);
  }

  lemma SmallInt(x: int)
    requires -INT32_HALF <= x < INT32_HALF
    ensures ToInt32(x) == x
  {
  }

  lemma MarchStart(t: Greg.Date)
    requires Greg.Valid(t)
    ensures Greg.DayNumber(t) == Greg.DaysBeforeYear(MarchYear(t) - 100099) - 306 + MonthStart(t.m) + t.d
  {
    hide Greg.DaysBeforeYear;
    Greg.MonthTable(t.y);
    Greg.YearLength(t.y);
  }

  /** The reference count in March years. */
  lemma MarchCount(t: Greg.Date)
    requires Greg.Valid(t)
    ensures
      var x := MarchYear(t);
      Greg.DayNumber(t) + JDN_OFFSET == 365 * x + x / 4 - 3 * (x / 100) / 4 + MonthStart(t.m) + t.d - 34839656
  {
    hide Greg.DayNumber, MonthStart, MarchYear, Greg.LeapYear;
    var x := MarchYear(t);
    var y := x - 100100;
    MarchStart(t);
    CenturyTerm(x);
    Quot(x, 4, y / 4 + 25025, y % 4);
  }

  lemma CenturyTerm(x: int)
    ensures
      var y := x - 100100;
      3 * (x / 100) / 4 == y / 100 - y / 400 + 750
  {
    var y := x - 100100;
    var c := y / 100;
    Quot(x, 100, c + 1001, y % 100);
    Quot(y, 400, c / 4, 100 * (c % 4) + y % 100);
    Quot(3 * (c + 1001), 4, c - c / 4 + 750, 3 - c % 4);
  }

  /** `g2d` is the reference count exactly as long as its first quotient stays within 32 bits. */
  lemma G2dCounts(t: Greg.Date)
    requires Greg.Valid(t) && 0 <= MarchYear(t) <= 5_000_000_000_000
    ensures G2d(t.y, t.m, t.d) == Greg.DayNumber(t) + JDN_OFFSET <==> MarchYear(t) <= LAST_MARCH_YEAR
  {
    hide Div, Mod;
    var x := MarchYear(t);
    MarchCount(t);
    MonthTerms(t);
    Quot(1461 * x, 4, 365 * x + x / 4, x % 4);
    var days := Div(1461 * x, 4);
    var centuries := Div(Div(x, 100) * 3, 4);
    assert G2d(t.y, t.m, t.d) == days - centuries + MonthStart(t.m) + t.d - 34839656;
    if x <= LAST_MARCH_YEAR {
      DivMod(1461 * x, 4);
      DivMod(x, 100);
      DivMod(x / 100 * 3, 4);
    } else {
      Wraps(1461 * x / 4, x);
    }
  }

  /** `g2d` sends the next calendar day to the next integer. */
  lemma G2dNextDay(t: Greg.Date)
    requires Greg.Valid(t) && 0 <= MarchYear(t) && MarchYear(Greg.NextDay(t)) <= LAST_MARCH_YEAR
    ensures
      var n := Greg.NextDay(t);
      G2d(n.y, n.m, n.d) == G2d(t.y, t.m, t.d) + 1
  {
    hide G2d;
    Greg.NextDayCounts(t);
    G2dCounts(t);
    G2dCounts(Greg.NextDay(t));
  }

  /** Past 32 bits the first quotient loses more than the century quotient can give back. */
  lemma Wraps(q: int, x: int)
    requires q == 1461 * x / 4 && LAST_MARCH_YEAR < x <= 5_000_000_000_000
    ensures Div(1461 * x, 4) - Div(Div(x, 100) * 3, 4) != q - 3 * (x / 100) / 4
  {
    hide ToInt32;
    assert Div(1461 * x, 4) == ToInt32(q);
    assert q >= INT32_HALF;
    assert ToInt32(q) <= q - INT32_SPAN by { Below(q); }
    var c := x / 100;
    if c < INT32_HALF {
      SmallInt(c);
      assert c * 3 / 4 < INT32_HALF;
      SmallInt(c * 3 / 4);
    } else {
      assert q > 36000 * c;
      assert ToInt32(q) < INT32_HALF;
    }
  }

  lemma Below(q: int)
    requires q >= INT32_HALF
    ensures ToInt32(q) <= q - INT32_SPAN
  {
  }

  lemma LeapResidues(y: int)
    requires Greg.LeapYear(y)
    ensures (y + 100099) % 4 == 3
    ensures (y + 100099) % 100 == 99 ==> ((y + 100099) / 100) % 4 == 0
  {
    var x := y + 100099;
    if y % 400 == 0 {
      var a := y / 400;
      Quot(x, 4, 100 * a + 25024, 3);
      Quot(x, 100, 4 * a + 1000, 99);
      Quot(4 * a + 1000, 4, a + 250, 0);
    } else {
      Quot(x, 4, y / 4 + 25024, 3);
      Quot(x, 100, y / 100 + 1001, y % 100 - 1);
    }
  }

  /** The days since 1 March fit a year of 1461 quarter-days, the 29 February one only before a leap year. */
  lemma DayOfMarchYear(t: Greg.Date)
    requires Greg.Valid(t)
    ensures
      var x := MarchYear(t);
      var doy := MonthStart(t.m) + t.d - 1;
      && 0 <= doy <= 365
      && (doy == 365 ==> x % 4 == 3 && (x % 100 == 99 ==> (x / 100) % 4 == 0))
  {
    var x := MarchYear(t);
    if MonthStart(t.m) + t.d - 1 >= 365 {
      assert t.m == 2 && t.d == 29 && Greg.LeapYear(t.y);
      LeapResidues(t.y);
    }
  }

  /** `d2g` undoes the reference count on every valid date of the span: the quotient by 146097 steps
      exactly at 1 March of a century year. */
  lemma D2gInverts(t: Greg.Date)
    requires InSpan(t)
    ensures D2g(Greg.DayNumber(t) + JDN_OFFSET) == t
  {
    hide Div, Mod;
    var x := MarchYear(t);
    var doy := MonthStart(t.m) + t.d - 1;
    var jdn := Greg.DayNumber(t) + JDN_OFFSET;
    MarchCount(t);
    DayOfMarchYear(t);
    CenturyQuotient(x, doy, jdn);
    YearQuotient(x, doy, x % 4);
    MonthOf(t.m, t.d, t.y);
  }

  lemma YearQuotient(x: int, doy: int, r: int)
    requires 0 <= x <= LAST_MARCH_YEAR && 0 <= r < 4 && 0 <= doy <= 365 && (doy == 365 ==> r == 3)
    ensures
      var j := 1461 * x + 4 * doy + 3 - r;
      Div(j, 1461) == x && Div(Mod(j, 1461), 4) == doy
  {
    hide Div, Mod;
    var j := 1461 * x + 4 * doy + 3 - r;
    Quot(j, 1461, x, 4 * doy + 3 - r);
    Quot(4 * doy + 3 - r, 4, doy, 3 - r);
    DivMod(j, 1461);
    DivMod(4 * doy + 3 - r, 4);
  }

  lemma CenturyQuotient(x: int, doy: int, jdn: int)
    requires 0 <= x <= LAST_MARCH_YEAR && 0 <= doy <= 365
    requires doy == 365 ==> x % 4 == 3 && (x % 100 == 99 ==> (x / 100) % 4 == 0)
    requires jdn == 365 * x + x / 4 - 3 * (x / 100) / 4 + doy - 34839655
    ensures 4 * jdn + 139361631 + Div(Div(4 * jdn + 183187720, 146097) * 3, 4) * 4 - 3908
         == 1461 * x + 4 * doy + 3 - x % 4
  {
    hide Div;
    var c, r := x / 100, x % 100;
    var rest := 1461 * r - r % 4 + 4 * doy + 3 * c % 4;
    Quot(x, 4, 25 * c + r / 4, r % 4);
    Quot(4 * jdn + 183187720, 146097, 300 + c, rest);
    Quot((300 + c) * 3, 4, 225 + 3 * c / 4, 3 * c % 4);
    DivMod(4 * jdn + 183187720, 146097);
    DivMod((300 + c) * 3, 4);
  }

  /** The month and day back from the days since 1 March. */
  lemma MonthOf(m: int, d: int, y: int)
    requires 1 <= m <= 12 && 1 <= d <= Greg.MonthLength(y, m)
    ensures
      var i := (MonthStart(m) + d - 1) * 5 + 308;
      && Div(Mod(i, 153), 5) + 1 == d && Mod(Div(i, 153), 12) + 1 == m
      && Div(8 - m, 6) == if m <= 2 then 1 else 0
  {
    hide Div, Mod;
    var i := (MonthStart(m) + d - 1) * 5 + 308;
    var k := MonthIndex(m);
    assert 0 <= i - 153 * (k + 2) < 153 && (i - 153 * (k + 2)) / 5 == d - 1;
    assert i / 153 == k + 2 && i % 153 == i - 153 * (k + 2);
    DivMod(i, 153);
    DivMod(i % 153, 5);
    DivMod(k + 2, 12);
    EightMinus(m);
  }

  lemma EightMinus(m: int)
    requires 1 <= m <= 12
    ensures Div(8 - m, 6) == if m <= 2 then 1 else 0
  {
  }

  const MIN_JDN := -34839655
  const MAX_JDN := 2112599972

  /** `d2g` is defined on every day of the span, and `g2d` undoes it. */
  lemma GregorianRoundTrip(jdn: int)
    requires MIN_JDN <= jdn < MAX_JDN
    ensures InSpan(D2g(jdn)) && Greg.DayNumber(D2g(jdn)) + JDN_OFFSET == jdn
    ensures G2d(D2g(jdn).y, D2g(jdn).m, D2g(jdn).d) == jdn
  {
    hide G2d, D2g;
    var first, past := Greg.Date(-100100, 3, 1), Greg.Date(5779390, 3, 1);
    MarchCount(first);
    MarchCount(past);
    var t := Greg.Surjective(first, jdn - JDN_OFFSET);
    Greg.InYear(t);
    Greg.MonthTable(t.y);
    Greg.MonthTable(past.y);
    if t.y == first.y { Greg.MonthTable(first.y); }
    if t.y > past.y { Greg.YearsMonotone(past.y + 1, t.y); Greg.YearLength(past.y); }
    D2gInverts(t);
    G2dCounts(t);
  }

  // ---------- Nowruz ----------

  function Nowruz(b: seq<int>, jy: int): int
    requires 2 <= |b|
  {
    var r := JalCal(b, jy);
    G2d(r.gy, 3, r.march)
  }

  /** The first day of a Jalali year: in `j2d` the Gregorian leap count cancels, for any table. */
  lemma NowruzIs(b: seq<int>, jy: int)
    requires 2 <= |b| && -621 <= jy <= 5_000_001
    ensures Nowruz(b, jy) == 365 * jy + LeapJ(b, jy) + 1947954
  {
    hide Div, Mod, LeapJ;
    var gy := jy + 621;
    var c := gy / 100;
    var march := 20 + LeapJ(b, jy) - LeapG(gy);
    MonthTerms(Greg.Date(gy, 3, 1));
    DivMod(gy, 4);
    DivMod(gy, 100);
    DivMod((c + 1) * 3, 4);
    var x := gy + 100100;
    Quot(x, 100, c + 1001, gy % 100);
    DivMod(x, 100);
    DivMod((c + 1001) * 3, 4);
    Quot((c + 1001) * 3, 4, (c + 1) * 3 / 4 + 750, (c + 1) * 3 % 4);
    Quot(x * 1461, 4, 365 * x + gy / 4 + 25025, gy % 4);
    DivMod(x * 1461, 4);
  }

  lemma {:induction false} TableOrder(b: seq<int>, i: nat, j: nat)
    requires Table(b) && i < j < |b|
    ensures b[i] < b[j]
    decreases j
  {
    if i < j - 1 { TableOrder(b, i, j - 1); }
  }

  /** The loop stops in the segment that holds the year. */
  lemma {:induction false} SegmentOf(b: seq<int>, jy: int, k: nat, i: nat := 0)
    requires Table(b) && i <= k < |b| && b[k] <= jy && (k + 1 < |b| ==> jy < b[k + 1])
    ensures Segment(b, jy, i) == k
    decreases k - i
  {
    if i < k {
      if i + 1 < k { TableOrder(b, i + 1, k); }
      SegmentOf(b, jy, k, i + 1);
    }
  }

  lemma {:induction false} FindSegment(b: seq<int>, jy: int, i: nat := 0) returns (k: nat)
    requires Table(b) && i < |b| && b[i] <= jy
    ensures i <= k < |b| && b[k] <= jy && (k + 1 < |b| ==> jy < b[k + 1])
    ensures Segment(b, jy) == k
    decreases |b| - i
  {
    if i + 1 < |b| && b[i + 1] <= jy {
      k := FindSegment(b, jy, i + 1);
    } else {
      k := i;
      SegmentOf(b, jy, k);
    }
  }

  /** The break table's leap test is right: on any admissible table, the next Nowruz comes 366 days later
      exactly in the years `jalCal` gives leap 0, and 365 days later in all others. */
  lemma YearLength(b: seq<int>, jy: int)
    requires Admissible(b) && b[0] <= jy < b[|b| - 1]
    ensures Nowruz(b, jy + 1) - Nowruz(b, jy) == if JalCal(b, jy).leap == 0 then 366 else 365
  {
    hide Div, Mod, LeapsSince, LeapAge, Nowruz;
    var k := FindSegment(b, jy);
    NowruzIs(b, jy);
    NowruzIs(b, jy + 1);
    var jump, n := JumpAt(b, k), jy - b[k];
    assert AdmissibleJump(b[k + 1] - b[k]);
    SegmentStep(jump, n);
    if n + 1 < jump {
      SegmentOf(b, jy + 1, k);
    } else {
      SegmentOf(b, jy + 1, k + 1);
      ZeroLeaps(JumpAt(b, k + 1));
    }
  }

  lemma ZeroLeaps(jump: int)
    requires 29 <= jump <= 6_000_000
    ensures LeapsSince(jump, 0) == 0
  {
    LeapsSinceIs(jump, 0);
  }

  /** `d2j` relies on it: leap is 1 exactly in the year after a leap year. */
  lemma LeapAgeOne(b: seq<int>, jy: int)
    requires Admissible(b) && b[0] < jy <= b[|b| - 1]
    ensures JalCal(b, jy).leap == 1 <==> JalCal(b, jy - 1).leap == 0
  {
    hide Div, Mod, LeapAge;
    var k := FindSegment(b, jy);
    var jump, n := JumpAt(b, k), jy - b[k];
    assert k > 0 ==> AdmissibleJump(b[k] - b[k - 1]);
    assert k + 1 < |b| ==> AdmissibleJump(b[k + 1] - b[k]);
    SegmentAges(jump, n);
    if n > 0 {
      SegmentOf(b, jy - 1, k);
    } else {
      SegmentOf(b, jy - 1, k - 1);
      SegmentAges(JumpAt(b, k - 1), 0);
    }
  }

  // ---------- the real table ----------

  lemma BreaksAdmissible()
    ensures Admissible(BREAKS)
  {
    FirstBreaks();
    LastBreaks();
  }

  lemma FirstBreaks()
    ensures forall i :: 0 <= i < 10 ==> -621 <= BREAKS[i] <= 5_000_000 && BREAKS[i] < BREAKS[i + 1]
    ensures forall i :: 0 <= i < 10 ==> AdmissibleJump(BREAKS[i + 1] - BREAKS[i])
  {
  }

  lemma LastBreaks()
    ensures forall i :: 10 <= i < 20 ==> -621 <= BREAKS[i] <= 5_000_000
    ensures forall i :: 10 <= i < 19 ==> BREAKS[i] < BREAKS[i + 1]
    ensures forall i :: 10 <= i < 19 ==> AdmissibleJump(BREAKS[i + 1] - BREAKS[i])
  {
  }

  /** The leap count up to a break drifts from 8 leap years in 33 by at most one part per jump. */
  lemma {:induction false} LeapsBeforeNear(b: seq<int>, k: nat)
    requires Admissible(b) && k < |b|
    ensures 0 <= 33 * LeapsBefore(b, k) - 8 * (b[k] - b[0]) + 462 + k <= 2 * k
  {
    hide Div, Mod;
    if k > 0 {
      LeapsBeforeNear(b, k - 1);
      var jump := b[k] - b[k - 1];
      assert AdmissibleJump(b[k - 1 + 1] - b[k - 1]);
      DivMod(jump, 33);
      DivMod(jump % 33, 4);
    }
  }

  lemma LeapsSinceNear(jump: int, n: int)
    requires 0 <= n <= 6_000_000 && 29 <= jump <= 6_000_000
    ensures -33 <= 33 * LeapsSince(jump, n) - 8 * n <= 66
  {
    LeapsSinceIs(jump, n);
  }

  lemma LeapGNear(gy: int)
    requires 0 <= gy <= 6_000_000
    ensures -600 <= 400 * LeapG(gy) - 97 * gy + 60000 <= 300
  {
    hide Div, Mod;
    DivMod(gy, 4);
    DivMod(gy, 100);
    DivMod((gy / 100 + 1) * 3, 4);
  }

  /** Nowruz falls in March: the day `jalCal` gives for it is bounded, over the whole table. */
  lemma MarchBound(jy: int)
    requires -61 <= jy <= 3178
    ensures 10 <= JalCal(BREAKS, jy).march <= 31
  {
    hide JalCal;
    BreaksAdmissible();
    MarchNear(BREAKS, jy);
  }

  lemma MarchNear(b: seq<int>, jy: int)
    requires Admissible(b) && |b| <= 20 && b[0] == -61 && -61 <= jy <= 3178
    ensures 10 <= JalCal(b, jy).march <= 31
  {
    hide Div, Mod, LeapsSince, LeapsBefore, LeapG;
    var k := FindSegment(b, jy);
    assert k + 1 < |b| ==> AdmissibleJump(b[k + 1] - b[k]);
    assert k > 0 ==> AdmissibleJump(b[k - 1 + 1] - b[k - 1]);
    LeapsBeforeNear(b, k);
    LeapsSinceNear(JumpAt(b, k), jy - b[k]);
    LeapGNear(jy + 621);
  }

  /** Nowruz inside its Gregorian year. */
  lemma NowruzInYear(jy: int)
    requires -61 <= jy <= 3178
    ensures 69 <= Nowruz(BREAKS, jy) - JDN_OFFSET - Greg.DaysBeforeYear(jy + 621) <= 91
  {
    hide Div, Mod, JalCal;
    var r := JalCal(BREAKS, jy);
    assert r.gy == jy + 621 by { GyOf(jy); }
    MarchBound(jy);
    var first := Greg.Date(r.gy, 3, 1);
    G2dCounts(first);
    Greg.MonthTable(r.gy);
  }

  lemma GyOf(jy: int)
    ensures JalCal(BREAKS, jy).gy == jy + 621
  {
  }

  // ---------- j2d and d2j ----------

  function J2d(jy: int, jm: int, jd: int): int {
    Nowruz(BREAKS, jy) + (jm - 1) * 31 - Div(jm, 7) * (jm - 7) + jd - 1
  }

  function D2j(jdn: int): JDate {
    var gy := D2g(jdn).y;
    var jy := gy - 621;
    var r := JalCal(BREAKS, jy);
    var k := jdn - G2d(gy, 3, r.march);
    if 0 <= k <= 185 then JDate(jy, 1 + Div(k, 31), Mod(k, 31) + 1)
    else
      var (jy, k) := if k >= 0 then (jy, k - 186) else (jy - 1, k + 179 + (if r.leap == 1 then 1 else 0));
      JDate(jy, 7 + Div(k, 30), Mod(k, 30) + 1)
  }

  function ToJalaali(t: Greg.Date): JDate {
    D2j(G2d(t.y, t.m, t.d))
  }

  function ToGregorian(t: JDate): Greg.Date {
    D2g(J2d(t.jy, t.jm, t.jd))
  }

  predicate IsLeapJalaali(jy: int) {
    JalCal(BREAKS, jy).leap == 0
  }

  function JalaaliMonthLength(jy: int, jm: int): int {
    if jm <= 6 then 31 else if jm <= 11 then 30 else if IsLeapJalaali(jy) then 30 else 29
  }

  ghost predicate ValidJ(t: JDate) {
    -61 <= t.jy < 3178 && 1 <= t.jm <= 12 && 1 <= t.jd <= JalaaliMonthLength(t.jy, t.jm)
  }

  /** Days of a Jalali year before a month. */
  function MonthOffset(jm: int): int {
    if jm <= 7 then 31 * (jm - 1) else 186 + 30 * (jm - 7)
  }

  lemma MonthTerm(jm: int)
    requires 1 <= jm <= 12
    ensures (jm - 1) * 31 - Div(jm, 7) * (jm - 7) == MonthOffset(jm)
  {
    hide Div;
    DivMod(jm, 7);
  }

  function MonthLengthSum(jy: int, jm: nat): int
    decreases jm
  {
    if jm == 0 then 0 else MonthLengthSum(jy, jm - 1) + JalaaliMonthLength(jy, jm)
  }

  /** Twelve month lengths make the distance between two Nowruz days. */
  lemma MonthsMakeTheYear(jy: int)
    requires -61 <= jy < 3178
    ensures MonthLengthSum(jy, 12) == Nowruz(BREAKS, jy + 1) - Nowruz(BREAKS, jy)
  {
    hide JalCal, Nowruz;
    BreaksAdmissible();
    YearLength(BREAKS, jy);
    assert MonthLengthSum(jy, 3) == 93;
    assert MonthLengthSum(jy, 6) == 186;
    assert MonthLengthSum(jy, 9) == 276;
    assert MonthLengthSum(jy, 11) == 336;
  }

  function NextJDay(t: JDate): JDate {
    if t.jd < JalaaliMonthLength(t.jy, t.jm) then t.(jd := t.jd + 1)
    else if t.jm < 12 then JDate(t.jy, t.jm + 1, 1)
    else JDate(t.jy + 1, 1, 1)
  }

  /** `j2d` counts the days of the Jalali calendar one by one. */
  lemma NextJDayCounts(t: JDate)
    requires ValidJ(t)
    ensures J2d(NextJDay(t).jy, NextJDay(t).jm, NextJDay(t).jd) == J2d(t.jy, t.jm, t.jd) + 1
  {
    hide Div, JalCal, Nowruz;
    BreaksAdmissible();
    YearLength(BREAKS, t.jy);
    MonthTerm(t.jm);
    MonthTerm(NextJDay(t).jm);
  }

  lemma {:induction false} NowruzMonotone(a: int, b: int)
    requires -61 <= a <= b <= 3178
    ensures Nowruz(BREAKS, a) + 365 * (b - a) <= Nowruz(BREAKS, b)
    decreases b - a
  {
    hide Nowruz, JalCal;
    if a < b {
      NowruzMonotone(a, b - 1);
      BreaksAdmissible();
      YearLength(BREAKS, b - 1);
    }
  }

  /** `j2d` of a valid date lies in its year, at the offset of its month and day. */
  lemma J2dIs(t: JDate)
    requires ValidJ(t)
    ensures J2d(t.jy, t.jm, t.jd) == Nowruz(BREAKS, t.jy) + MonthOffset(t.jm) + t.jd - 1
    ensures Nowruz(BREAKS, t.jy) <= J2d(t.jy, t.jm, t.jd) < Nowruz(BREAKS, t.jy + 1)
  {
    hide Div, JalCal, Nowruz;
    BreaksAdmissible();
    YearLength(BREAKS, t.jy);
    MonthTerm(t.jm);
  }

  lemma J2dInjective(s: JDate, t: JDate)
    requires ValidJ(s) && ValidJ(t) && J2d(s.jy, s.jm, s.jd) == J2d(t.jy, t.jm, t.jd)
    ensures s == t
  {
    hide Nowruz, J2d, JalCal;
    J2dIs(s);
    J2dIs(t);
    if s.jy < t.jy { NowruzMonotone(s.jy + 1, t.jy); }
    if t.jy < s.jy { NowruzMonotone(t.jy + 1, s.jy); }
  }

  /** The days of the table lie inside the span of `d2g`. */
  lemma TableInSpan()
    ensures MIN_JDN <= Nowruz(BREAKS, -61) && Nowruz(BREAKS, 3178) < MAX_JDN
  {
    hide Nowruz;
    NowruzInYear(-61);
    NowruzInYear(3178);
  }

  /** The Gregorian year of a day gives a Jalali year that starts at most 297 days before it or 92 days after. */
  lemma YearOfDay(jdn: int)
    requires Nowruz(BREAKS, -61) <= jdn < Nowruz(BREAKS, 3178)
    ensures
      var jy := D2g(jdn).y - 621;
      var k := jdn - Nowruz(BREAKS, jy);
      && -92 <= k <= 297
      && (if k >= 0 then -61 <= jy < 3178 else -61 < jy <= 3178)
  {
    hide Nowruz, D2g, Greg.LeapYear;
    NowruzInYear(-61);
    NowruzInYear(3178);
    TableInSpan();
    GregorianRoundTrip(jdn);
    var t := D2g(jdn);
    Greg.InYear(t);
    if t.y < 560 { Greg.YearsMonotone(t.y + 1, 560); }
    if t.y > 3799 { Greg.YearsMonotone(3800, t.y); Greg.YearLength(3799); }
    NowruzInYear(t.y - 621);
    Greg.YearLength(t.y);
  }

  /** `d2j` is right on every day of the table's span: the date it gives is valid, and `j2d` undoes it. */
  lemma JalaliOfDay(jdn: int)
    requires Nowruz(BREAKS, -61) <= jdn < Nowruz(BREAKS, 3178)
    ensures ValidJ(D2j(jdn))
    ensures J2d(D2j(jdn).jy, D2j(jdn).jm, D2j(jdn).jd) == jdn
  {
    hide Nowruz, J2d, JalCal, D2g, G2d, Div, Mod, Admissible;
    YearOfDay(jdn);
    var jy := D2g(jdn).y - 621;
    NowruzOf(jy);
    var k := jdn - Nowruz(BREAKS, jy);
    if k >= 0 {
      DivMod(k, 31);
      if k > 185 { DivMod(k - 186, 30); }
    } else {
      LastYear(jy);
      DivMod(k + 179, 30);
      DivMod(k + 180, 30);
    }
    J2dIs(D2j(jdn));
  }

  lemma LastYear(jy: int)
    requires -61 < jy <= 3178
    ensures JalCal(BREAKS, jy).leap == 1 <==> IsLeapJalaali(jy - 1)
    ensures Nowruz(BREAKS, jy) == Nowruz(BREAKS, jy - 1) + (if IsLeapJalaali(jy - 1) then 366 else 365)
  {
    hide Nowruz, JalCal;
    BreaksAdmissible();
    LeapAgeOne(BREAKS, jy);
    YearLength(BREAKS, jy - 1);
  }

  lemma NowruzOf(jy: int)
    ensures Nowruz(BREAKS, jy) == G2d(jy + 621, 3, JalCal(BREAKS, jy).march)
  {
  }

  /** `d2j` undoes `j2d` on every valid Jalali date. */
  lemma DayOfJalali(t: JDate)
    requires ValidJ(t)
    ensures D2j(J2d(t.jy, t.jm, t.jd)) == t
  {
    hide Nowruz, J2d, JalCal, D2j;
    J2dIs(t);
    NowruzMonotone(-61, t.jy);
    NowruzMonotone(t.jy + 1, 3178);
    var jdn := J2d(t.jy, t.jm, t.jd);
    JalaliOfDay(jdn);
    J2dInjective(D2j(jdn), t);
  }

  /** Jalali to Gregorian and back, for every valid Jalali date of the table. */
  lemma JalaliRoundTrip(t: JDate)
    requires ValidJ(t)
    ensures Greg.Valid(ToGregorian(t)) && ToJalaali(ToGregorian(t)) == t
  {
    hide Nowruz, J2d, JalCal, D2j, G2d, D2g;
    J2dIs(t);
    NowruzMonotone(-61, t.jy);
    NowruzMonotone(t.jy + 1, 3178);
    TableInSpan();
    GregorianRoundTrip(J2d(t.jy, t.jm, t.jd));
    DayOfJalali(t);
  }

  /** Gregorian to Jalali and back, for every valid Gregorian date of the table's span. */
  lemma GregorianJalaliRoundTrip(t: Greg.Date)
    requires Greg.Valid(t)
    requires Nowruz(BREAKS, -61) <= Greg.DayNumber(t) + JDN_OFFSET < Nowruz(BREAKS, 3178)
    ensures ValidJ(ToJalaali(t)) && ToGregorian(ToJalaali(t)) == t
  {
    hide Nowruz, J2d, JalCal, D2j, G2d, D2g;
    TableInSpan();
    var jdn := Greg.DayNumber(t) + JDN_OFFSET;
    GregorianRoundTrip(jdn);
    Greg.Injective(t, D2g(jdn));
    JalaliOfDay(jdn);
  }
}
