/** The printer and the parser of `JalaliDateTime.tsx`, on civil date-times. */
module JalaliText {
  import opened Characters
  import opened CycleCalendar
  import opened EarlyYears
  import opened Options
  import Greg = GregorianReference

  datatype Moment = Moment(date: Greg.Date, hh: int, mi: int)

  ghost predicate ValidMoment(t: Moment) {
    Greg.Valid(t.date) && 0 <= t.hh <= 23 && 0 <= t.mi <= 59
  }

  // ---------- characters and numbers ----------

  /** White space of the source language's `trim` and `\s`. */
  predicate IsSpace(c: char) {
    c == ' ' || '\U{9}' <= c <= '\U{D}' || c == '\U{A0}' || c == '\U{1680}' || '\U{2000}' <= c <= '\U{200A}'
    || c == '\U{2028}' || c == '\U{2029}' || c == '\U{202F}' || c == '\U{205F}' || c == '\U{3000}' || c == '\U{FEFF}'
  }

  function DigitOf(n: int): char
    requires 0 <= n <= 9
  {
    '0' + n as char
  }

  function Decimal(n: nat): (s: string)
    ensures Digits(s) && |s| >= 1
  {
    if n < 10 then [DigitOf(n)] else Decimal(n / 10) + [DigitOf(n % 10)]
  }

  function Text(n: int): string {
    if n < 0 then "-" + Decimal(-n) else Decimal(n)
  }

  function Pad2(n: int): string {
    if |Text(n)| < 2 then "0" + Text(n) else Text(n)
  }

  function Number(s: string): int
    requires Digits(s)
  {
    if s == "" then 0 else Number(s[..|s| - 1]) * 10 + (s[|s| - 1] as int - '0' as int)
  }

  // ---------- formatJalali ----------

  function FormatJalali(t: Moment, withTime: bool): string
    requires 1 <= t.date.m <= 12
  {
    var j := GregorianToJalali(t.date.y, t.date.m, t.date.d);
    Text(j.jy) + "/" + Pad2(j.jm) + "/" + Pad2(j.jd)
    + (if withTime then " " + Pad2(t.hh) + ":" + Pad2(t.mi) else "")
  }

  // ---------- parseJalaliText ----------

  datatype Fields = Fields(y: string, m: string, d: string, time: Option<(string, string)>)

  function DigitRun(s: string): (n: nat)
    ensures n <= |s| && Digits(s[..n]) && (n < |s| ==> !IsDigit(s[n]))
  {
    if s != "" && IsDigit(s[0]) then
      var n := 1 + DigitRun(s[1..]);
      assert forall i :: 1 <= i < n ==> s[i] == s[1..][i - 1];
      n
    else 0
  }

  function SpaceRun(s: string): (n: nat)
    ensures n <= |s| && (forall i :: 0 <= i < n ==> IsSpace(s[i])) && (n < |s| ==> !IsSpace(s[n]))
  {
    if s != "" && IsSpace(s[0]) then
      var n := 1 + SpaceRun(s[1..]);
      assert forall i :: 1 <= i < n ==> s[i] == s[1..][i - 1];
      n
    else 0
  }

  function TrimEnd(s: string): string {
    if s != "" && IsSpace(s[|s| - 1]) then TrimEnd(s[..|s| - 1]) else s
  }

  function Trim(s: string): string {
    TrimEnd(s[SpaceRun(s)..])
  }

  function MatchTime(s: string): Option<(string, string)> {
    var h := DigitRun(s);
    if (h == 1 || h == 2) && h < |s| && s[h] == ':' && |s| == h + 3 && Digits(s[h + 1..])
    then Some((s[..h], s[h + 1..])) else None
  }

  function MatchDay(y: string, m: string, s: string): Option<Fields> {
    var d := DigitRun(s);
    if d != 1 && d != 2 then None
    else
      var tail := s[d..];
      if tail == "" then Some(Fields(y, m, s[..d], None))
      else if SpaceRun(tail) == 0 then None
      else
        var time := MatchTime(tail[SpaceRun(tail)..]);
        if time.None? then None else Some(Fields(y, m, s[..d], time))
  }

  function MatchMonth(y: string, s: string): Option<Fields> {
    var m := DigitRun(s);
    if (m == 1 || m == 2) && m < |s| && s[m] == '/' then MatchDay(y, s[..m], s[m + 1..]) else None
  }

  /** The scan for the parser's pattern: four digits, one or two, one or two, and optionally a time. */
  function MatchText(s: string): Option<Fields> {
    if DigitRun(s) == 4 && 4 < |s| && s[4] == '/' then MatchMonth(s[..4], s[5..]) else None
  }

  /** The parser's pattern as a grammar. */
  ghost predicate WellFormed(s: string, f: Fields) {
    && Digits(f.y) && |f.y| == 4
    && Digits(f.m) && 1 <= |f.m| <= 2
    && Digits(f.d) && 1 <= |f.d| <= 2
    && exists tail :: s == f.y + ("/" + (f.m + ("/" + (f.d + tail)))) && WellFormedTail(tail, f.time)
  }

  ghost predicate WellFormedTail(tail: string, time: Option<(string, string)>) {
    if time.None? then tail == ""
    else
      var (hh, mi) := time.value;
      && Digits(hh) && 1 <= |hh| <= 2 && Digits(mi) && |mi| == 2
      && exists gap :: |gap| >= 1 && (forall i :: 0 <= i < |gap| ==> IsSpace(gap[i])) && tail == gap + (hh + (":" + mi))
  }

  function Accepts(f: Fields): Option<Moment>
    requires Digits(f.y) && Digits(f.m) && Digits(f.d)
    requires f.time.Some? ==> Digits(f.time.value.0) && Digits(f.time.value.1)
  {
    var jy, jm, jd := Number(f.y), Number(f.m), Number(f.d);
    if jm < 1 || jm > 12 then None
    else
      var dim := if jm <= 6 then 31 else if jm <= 11 then 30 else if LeapYear(jy) then 30 else 29;
      if jd < 1 || jd > dim then None
      else
        var hh := if f.time.Some? then Number(f.time.value.0) else 0;
        var mi := if f.time.Some? then Number(f.time.value.1) else 0;
        if hh > 23 || mi > 59 then None
        else Some(Moment(JalaliToGregorian(jy, jm, jd), hh, mi))
  }

  function ParseJalaliText(txt: string): Option<Moment> {
    var f := MatchText(Trim(txt));
    if f.None? then None
    else
      MatchSound(Trim(txt));
      Accepts(f.value)
  }

  // ---------- the scan decides the grammar ----------

  lemma CutAt(s: string, k: nat, c: char)
    requires k < |s| && s[k] == c
    ensures s == s[..k] + ([c] + s[k + 1..])
  {
  }

  lemma MatchTimeSound(s: string)
    requires MatchTime(s).Some?
    ensures
      var (hh, mi) := MatchTime(s).value;
      Digits(hh) && 1 <= |hh| <= 2 && Digits(mi) && |mi| == 2 && s == hh + (":" + mi)
  {
    CutAt(s, DigitRun(s), ':');
  }

  lemma MatchTailSound(tail: string)
    requires SpaceRun(tail) > 0 && MatchTime(tail[SpaceRun(tail)..]).Some?
    ensures WellFormedTail(tail, MatchTime(tail[SpaceRun(tail)..]))
  {
    hide SpaceRun, MatchTime, IsSpace, Digits;
    var g := SpaceRun(tail);
    MatchTimeSound(tail[g..]);
    assert tail == tail[..g] + tail[g..];
    assert |tail[..g]| >= 1 && forall i :: 0 <= i < g ==> IsSpace(tail[..g][i]);
  }

  lemma MatchDaySound(y: string, m: string, s: string) returns (tail: string)
    requires MatchDay(y, m, s).Some?
    ensures
      var f := MatchDay(y, m, s).value;
      && f.y == y && f.m == m && Digits(f.d) && 1 <= |f.d| <= 2
      && s == f.d + tail && WellFormedTail(tail, f.time)
  {
    hide DigitRun, SpaceRun, MatchTime, Digits;
    tail := s[DigitRun(s)..];
    if tail == "" {
      assert WellFormedTail("", None);
    } else {
      hide WellFormedTail;
      MatchTailSound(tail);
    }
  }

  /** What the scan finds has the shape of the pattern. */
  lemma MatchSound(s: string)
    requires MatchText(s).Some?
    ensures WellFormed(s, MatchText(s).value)
  {
    hide WellFormedTail, MatchDay, DigitRun, Digits;
    var r1 := s[5..];
    var m := DigitRun(r1);
    var tail := MatchDaySound(s[..4], r1[..m], r1[m + 1..]);
    CutAt(s, 4, '/');
    CutAt(r1, m, '/');
  }

  /** A run of digits ends where the next text starts. */
  lemma {:induction false} DigitRunOf(s: string, rest: string)
    requires Digits(s) && (rest != "" ==> !IsDigit(rest[0]))
    ensures DigitRun(s + rest) == |s|
    ensures (s + rest)[..|s|] == s && (s + rest)[|s|..] == rest
  {
    if s == "" {
      assert s + rest == rest;
    } else {
      assert (s + rest)[1..] == s[1..] + rest;
      DigitRunOf(s[1..], rest);
    }
  }

  lemma {:induction false} SpaceRunOf(s: string, rest: string)
    requires (forall i :: 0 <= i < |s| ==> IsSpace(s[i])) && (rest != "" ==> !IsSpace(rest[0]))
    ensures SpaceRun(s + rest) == |s| && (s + rest)[|s|..] == rest
  {
    if s == "" {
      assert s + rest == rest;
    } else {
      assert (s + rest)[1..] == s[1..] + rest;
      SpaceRunOf(s[1..], rest);
    }
  }

  lemma MatchTimeComplete(hh: string, mi: string)
    requires Digits(hh) && 1 <= |hh| <= 2 && Digits(mi) && |mi| == 2
    ensures MatchTime(hh + (":" + mi)) == Some((hh, mi))
  {
    DigitRunOf(hh, ":" + mi);
    var s := hh + (":" + mi);
    assert s[|hh|] == ':' && s[|hh| + 1..] == mi;
  }

  lemma MatchDayComplete(y: string, m: string, d: string, tail: string, time: Option<(string, string)>)
    requires Digits(d) && 1 <= |d| <= 2 && WellFormedTail(tail, time)
    ensures MatchDay(y, m, d + tail) == Some(Fields(y, m, d, time))
  {
    if time.None? {
      DigitRunOf(d, tail);
    } else {
      var (hh, mi) := time.value;
      var gap :| |gap| >= 1 && (forall i :: 0 <= i < |gap| ==> IsSpace(gap[i])) && tail == gap + (hh + (":" + mi));
      assert tail[0] == gap[0];
      DigitRunOf(d, tail);
      assert (hh + (":" + mi))[0] == hh[0];
      SpaceRunOf(gap, hh + (":" + mi));
      MatchTimeComplete(hh, mi);
    }
  }

  lemma MatchMonthComplete(y: string, m: string, d: string, tail: string, time: Option<(string, string)>)
    requires Digits(m) && 1 <= |m| <= 2 && Digits(d) && 1 <= |d| <= 2 && WellFormedTail(tail, time)
    ensures MatchMonth(y, m + ("/" + (d + tail))) == Some(Fields(y, m, d, time))
  {
    hide Digits, DigitRun, WellFormedTail, MatchDay;
    var rest := d + tail;
    DigitRunOf(m, "/" + rest);
    AfterSlash(m, rest);
    MatchDayComplete(y, m, d, tail, time);
  }

  lemma AfterSlash(s: string, rest: string)
    ensures
      var t := s + ("/" + rest);
      |s| < |t| && t[|s|] == '/' && t[..|s|] == s && t[|s| + 1..] == rest
  {
  }

  /** Every text of the pattern's shape is found by the scan, with the same fields. */
  lemma MatchComplete(s: string, f: Fields)
    requires WellFormed(s, f)
    ensures MatchText(s) == Some(f)
  {
    hide Digits, DigitRun, WellFormedTail, MatchMonth;
    var tail :| s == f.y + ("/" + (f.m + ("/" + (f.d + tail)))) && WellFormedTail(tail, f.time);
    var r1 := f.m + ("/" + (f.d + tail));
    DigitRunOf(f.y, "/" + r1);
    AfterSlash(f.y, r1);
    MatchMonthComplete(f.y, f.m, f.d, tail, f.time);
  }

  lemma {:induction false} NumberNotNegative(s: string)
    requires Digits(s)
    ensures Number(s) >= 0
  {
    if s != "" { NumberNotNegative(s[..|s| - 1]); }
  }

  /** The parser returns a moment exactly when the trimmed text has the pattern's shape and its date and
      time exist. From year 980 on the moment has the Gregorian date with the same day count; before, it converts
      back to the date that was read exactly if the older branch is right for that. */
  lemma ParseIffExists(txt: string, f: Fields)
    requires WellFormed(Trim(txt), f)
    ensures
      var t := JDate(Number(f.y), Number(f.m), Number(f.d));
      var (hh, mi) := if f.time.Some? then (Number(f.time.value.0), Number(f.time.value.1)) else (0, 0);
      var r := ParseJalaliText(txt);
      && (r.Some? <==> Valid(t) && hh <= 23 && mi <= 59)
      && (r.Some? && t.jy >= 980 ==>
            && r.value.hh == hh && r.value.mi == mi && Greg.Valid(r.value.date)
            && Greg.DayNumber(r.value.date) == EPOCH + DayCount(t))
      && (r.Some? && t.jy <= 979 ==>
            && r.value.hh == hh && r.value.mi == mi
            && (Greg.Valid(r.value.date) && GregorianToJalali(r.value.date.y, r.value.date.m, r.value.date.d) == t <==>
                  EarlyRight(t)))
  {
    hide LeapYear, JalaliToGregorian, GregorianToJalali, DayCount, Greg.DayNumber, EarlyRight, MatchText, Trim, Number;
    MatchComplete(Trim(txt), f);
    var t := JDate(Number(f.y), Number(f.m), Number(f.d));
    NumberNotNegative(f.y);
    if Valid(t) && t.jy >= 980 { JalaliToGregorianCounts(t); }
    if Valid(t) && t.jy <= 979 { EarlyJalaliRoundTripIff(t); }
  }

  /** Text without the shape is refused. */
  lemma ParseNeedsShape(txt: string)
    requires ParseJalaliText(txt).Some?
    ensures exists f :: WellFormed(Trim(txt), f)
  {
    MatchSound(Trim(txt));
  }

  /** A date exists in the parser's calendar exactly when the converter gives it to some Gregorian day. */
  lemma ExistsIffConverted(t: JDate)
    requires t.jy >= 980
    ensures Valid(t) <==> exists g: Greg.Date :: Greg.Valid(g) && g.y > 1600 && GregorianToJalali(g.y, g.m, g.d) == t
  {
    hide LeapYear, JalaliToGregorian, GregorianToJalali, DayCount, Greg.DayNumber;
    if Valid(t) {
      JalaliRoundTrip(t);
      JalaliToGregorianCounts(t);
    }
    forall g: Greg.Date | Greg.Valid(g) && g.y > 1600 && GregorianToJalali(g.y, g.m, g.d) == t
      ensures Valid(t)
    {
      GregorianToJalaliCounts(g);
    }
  }

  // ---------- printing and reading back ----------

  lemma {:induction false} NumberOfDecimal(n: nat)
    ensures Number(Decimal(n)) == n
  {
    if n < 10 {
      assert Decimal(n)[..0] == "";
    } else {
      NumberOfDecimal(n / 10);
      assert Decimal(n)[..|Decimal(n)| - 1] == Decimal(n / 10);
    }
  }

  lemma DecimalLength(n: nat)
    ensures n < 10 ==> |Decimal(n)| == 1
    ensures 10 <= n < 100 ==> |Decimal(n)| == 2
    ensures 1000 <= n < 10000 ==> |Decimal(n)| == 4
  {
    if 1000 <= n < 10000 {
      assert 100 <= n / 10 < 1000 && 10 <= n / 10 / 10 < 100 && 1 <= n / 10 / 10 / 10 < 10;
      assert |Decimal(n / 10 / 10)| == 2;
      assert |Decimal(n / 10)| == 3;
    }
  }

  lemma Pad2Reads(n: int)
    requires 0 <= n < 100
    ensures Digits(Pad2(n)) && |Pad2(n)| == 2 && Number(Pad2(n)) == n
  {
    DecimalLength(n);
    NumberOfDecimal(n);
    if n < 10 {
      var s := Pad2(n);
      assert s == ['0', DigitOf(n)];
      assert s[..1] == "0" && s[..1][..0] == "";
      assert Number("0") == 0;
    }
  }

  /** Text that starts and ends with a digit is already trimmed. */
  lemma TrimNothing(s: string)
    requires s != "" && IsDigit(s[0]) && IsDigit(s[|s| - 1])
    ensures Trim(s) == s
  {
    assert s[0..] == s;
  }

  /** The older epoch branch stays below Jalali year 1000. */
  lemma OldDatesAreOld(g: Greg.Date)
    requires Greg.Valid(g) && g.y <= 1600
    ensures GregorianToJalali(g.y, g.m, g.d).jy < 1000
  {
    var gy := g.y - 621;
    var gy2 := if g.m > 2 then gy + 1 else gy;
    var days := GregorianDays(gy, g.m, g.d);
    assert days <= 365 * 979 + 246 + 10 + 366;
  }

  /** Printing a moment and parsing the text gives the moment back to the minute (midnight if the time
      was not printed), for every moment with a four-digit Jalali year. */
  lemma PrintThenParse(t: Moment, withTime: bool)
    requires ValidMoment(t) && 1000 <= GregorianToJalali(t.date.y, t.date.m, t.date.d).jy <= 9999
    ensures ParseJalaliText(FormatJalali(t, withTime)) == Some(if withTime then t else t.(hh := 0, mi := 0))
  {
    hide GregorianToJalali, JalaliToGregorian, LeapYear, Greg.LeapYear, Greg.MonthLength, WellFormed, FormatJalali, MatchText,
      Trim, Decimal, Pad2, Number;
    var j := GregorianToJalali(t.date.y, t.date.m, t.date.d);
    if t.date.y <= 1600 { OldDatesAreOld(t.date); }
    GregorianToJalaliCounts(t.date);
    JalaliRoundTripBack(t.date);
    NumberOfDecimal(j.jy);
    DecimalLength(j.jy);
    Pad2Reads(j.jm);
    Pad2Reads(j.jd);
    Pad2Reads(t.hh);
    Pad2Reads(t.mi);
    var f := Fields(Decimal(j.jy), Pad2(j.jm), Pad2(j.jd), if withTime then Some((Pad2(t.hh), Pad2(t.mi))) else None);
    PrintedShape(t, withTime, f);
    var s := FormatJalali(t, withTime);
    TrimNothing(s);
    MatchComplete(s, f);
  }

  lemma JalaliRoundTripBack(g: Greg.Date)
    requires Greg.Valid(g) && g.y > 1600 && GregorianToJalali(g.y, g.m, g.d).jy >= 1000
    ensures
      var j := GregorianToJalali(g.y, g.m, g.d);
      JalaliToGregorian(j.jy, j.jm, j.jd) == g
  {
    hide GregorianToJalali, JalaliToGregorian, LeapYear, YearStart;
    var j := GregorianToJalali(g.y, g.m, g.d);
    GregorianToJalaliCounts(g);
    InYear(j);
    YearsMonotone(980, j.jy);
    GregorianRoundTrip(g);
  }

  lemma PrintedShape(t: Moment, withTime: bool, f: Fields)
    requires ValidMoment(t)
    requires
      var j := GregorianToJalali(t.date.y, t.date.m, t.date.d);
      && 1000 <= j.jy <= 9999
      && f == Fields(Decimal(j.jy), Pad2(j.jm), Pad2(j.jd), if withTime then Some((Pad2(t.hh), Pad2(t.mi))) else None)
      && |Decimal(j.jy)| == 4
      && Digits(Pad2(j.jm)) && |Pad2(j.jm)| == 2 && Digits(Pad2(j.jd)) && |Pad2(j.jd)| == 2
      && Digits(Pad2(t.hh)) && |Pad2(t.hh)| == 2 && Digits(Pad2(t.mi)) && |Pad2(t.mi)| == 2
    ensures
      var s := FormatJalali(t, withTime);
      WellFormed(s, f) && s != "" && IsDigit(s[0]) && IsDigit(s[|s| - 1])
  {
    hide GregorianToJalali, Decimal, Pad2, WellFormed, WellFormedTail;
    var s := FormatJalali(t, withTime);
    var tail := if withTime then " " + (Pad2(t.hh) + (":" + Pad2(t.mi))) else "";
    assert s == f.y + ("/" + (f.m + ("/" + (f.d + tail))));
    TimeShape(Pad2(t.hh), Pad2(t.mi));
    TextShape(f, tail);
  }

  lemma TimeShape(hh: string, mi: string)
    requires Digits(hh) && |hh| == 2 && Digits(mi) && |mi| == 2
    ensures WellFormedTail("", None)
    ensures
      var tail := " " + (hh + (":" + mi));
      WellFormedTail(tail, Some((hh, mi))) && IsDigit(tail[|tail| - 1])
  {
    hide Digits;
    var tail := " " + (hh + (":" + mi));
    assert |" "| >= 1 && IsSpace(" "[0]);
    assert tail[|tail| - 1] == mi[1];
    EndsInDigit(mi);
  }

  lemma EndsInDigit(s: string)
    requires Digits(s) && s != ""
    ensures IsDigit(s[|s| - 1]) && IsDigit(s[0])
  {
  }

  lemma TextShape(f: Fields, tail: string)
    requires Digits(f.y) && |f.y| == 4 && Digits(f.m) && |f.m| == 2 && Digits(f.d) && |f.d| == 2
    requires WellFormedTail(tail, f.time) && (tail != "" ==> IsDigit(tail[|tail| - 1]))
    ensures
      var s := f.y + ("/" + (f.m + ("/" + (f.d + tail))));
      WellFormed(s, f) && s != "" && IsDigit(s[0]) && IsDigit(s[|s| - 1])
  {
    hide WellFormedTail, Digits, IsDigit;
    var s := f.y + ("/" + (f.m + ("/" + (f.d + tail))));
    EndsInDigit(f.y);
    EndsInDigit(f.d);
    assert s[0] == f.y[0];
    assert s[|s| - 1] == (if tail == "" then f.d[1] else tail[|tail| - 1]);
  }
}
