/**
  * Calendar arithmetic of root/src/kernel/lib/time.c: the Julian day formula with
  * C's truncating division and 32-bit `int`, against counting days one by one.
  */
module Time {
  import opened Options

  const INT_MAX: int := 0x7fff_ffff
  const WORD: int := 0x1_0000_0000_0000_0000

  datatype Date = Date(day: int, month: int, year: int)
  datatype Moment = Moment(date: Date, hours: int, minutes: int, seconds: int)

  // ------------------------------------------------------------ the calendar

  predicate Leap(y: int) { y % 4 == 0 && (y % 100 != 0 || y % 400 == 0) }

  function MonthDays(m: int, y: int): (n: int)
  {
    if m == 2 then (if Leap(y) then 29 else 28)
    else if m == 4 || m == 6 || m == 9 || m == 11 then 30
    else 31
  }

  predicate IsDate(d: Date) { 1 <= d.year && 1 <= d.month <= 12 && 1 <= d.day <= MonthDays(d.month, d.year) }

  predicate IsMoment(t: Moment) { IsDate(t.date) && 0 <= t.hours < 24 && 0 <= t.minutes < 60 && 0 <= t.seconds < 60 }

  function NextDay(d: Date): (r: Date)
  {
    if d.day < MonthDays(d.month, d.year) then d.(day := d.day + 1)
    else if d.month < 12 then Date(1, d.month + 1, d.year)
    else Date(1, 1, d.year + 1)
  }

  /** Days before the year, counted from 1 January of the year 1. */
  function BeforeYear(y: int): (n: int)
    requires y >= 1
    decreases y
  {
    if y == 1 then 0 else BeforeYear(y - 1) + if Leap(y - 1) then 366 else 365
  }

  /** Days of the year before the month. */
  function BeforeMonth(m: int, y: int): (n: int)
    requires 1 <= m <= 13
    decreases m
  {
    if m == 1 then 0 else BeforeMonth(m - 1, y) + MonthDays(m - 1, y)
  }

  function DayCount(d: Date): (n: int)
    requires IsDate(d)
  {
    BeforeYear(d.year) + BeforeMonth(d.month, d.year) + d.day - 1
  }

  lemma {:induction false} BeforeYearIs(y: int)
    requires y >= 1
    ensures BeforeYear(y) == 365 * (y - 1) + (y - 1) / 4 - (y - 1) / 100 + (y - 1) / 400
    decreases y
  {
    if y > 1 {
      BeforeYearIs(y - 1);
      LeapCounts(y - 1);
    }
  }

  function Divides(n: int, y: int): (r: int) requires n > 0 { if y % n == 0 then 1 else 0 }

  lemma DivStep(y: int, n: int)
    requires n > 1
    ensures y / n == (y - 1) / n + Divides(n, y)
  {
    var q, r := y / n, y % n;
    if r == 0 {
      QuotientIs(y - 1, n, q - 1, n - 1);
    } else {
      QuotientIs(y - 1, n, q, r - 1);
    }
  }

  lemma QuotientIs(a: int, n: int, q: int, r: int)
    requires n > 0 && a == n * q + r && 0 <= r < n
    ensures a / n == q
  {
    var d := a / n - q;
    assert n * d == r - a % n;
    assert d >= 1 ==> n * d >= n;
    assert d <= -1 ==> n * d <= -n;
  }

  lemma MultipleOf(y: int, n: int, a: int, b: int)
    requires n == a * b && a > 0 && b > 0
    ensures y % n == 0 ==> y % a == 0
  {
    if y % n == 0 {
      var k := y / n;
      assert y == a * (b * k) by { assert y == n * k; Associates(a, b, k); }
      QuotientIs(y, a, b * k, 0);
    }
  }

  lemma Associates(a: int, b: int, k: int)
    ensures a * b * k == a * (b * k)
  { }

  lemma LeapCounts(y: int)
    ensures (if Leap(y) then 1 else 0) == y / 4 - (y - 1) / 4 - (y / 100 - (y - 1) / 100) + (y / 400 - (y - 1) / 400)
  {
    DivStep(y, 4);
    DivStep(y, 100);
    DivStep(y, 400);
    MultipleOf(y, 100, 4, 25);
    MultipleOf(y, 400, 100, 4);
  }

  lemma MonthTable(y: int)
    ensures BeforeMonth(1, y) == 0 && BeforeMonth(2, y) == 31
    ensures var k := if Leap(y) then 1 else 0;
      && BeforeMonth(3, y) == 59 + k && BeforeMonth(4, y) == 90 + k && BeforeMonth(5, y) == 120 + k
      && BeforeMonth(6, y) == 151 + k && BeforeMonth(7, y) == 181 + k && BeforeMonth(8, y) == 212 + k
      && BeforeMonth(9, y) == 243 + k && BeforeMonth(10, y) == 273 + k && BeforeMonth(11, y) == 304 + k
      && BeforeMonth(12, y) == 334 + k && BeforeMonth(13, y) == 365 + k
  {
    assert BeforeMonth(2, y) == BeforeMonth(1, y) + 31;
    assert BeforeMonth(4, y) == BeforeMonth(3, y) + 31;
    assert BeforeMonth(6, y) == BeforeMonth(5, y) + 31;
    assert BeforeMonth(8, y) == BeforeMonth(7, y) + 31;
    assert BeforeMonth(10, y) == BeforeMonth(9, y) + 30;
    assert BeforeMonth(12, y) == BeforeMonth(11, y) + 30;
  }

  /** The count goes up by one a day, over the ends of months, years and centuries. */
  lemma NextDayCounts(d: Date)
    requires IsDate(d)
    ensures IsDate(NextDay(d)) && DayCount(NextDay(d)) == DayCount(d) + 1
  {
    if d.month == 12 { MonthTable(d.year); }
  }

  // ------------------------------------------------------------- the formula

  /** C's division, which rounds toward zero. */
  function Quot(a: int, b: int): (q: int)
    requires b > 0
  {
    if a >= 0 then a / b else -((-a) / b)
  }

  predicate FitsInt(x: int) { -INT_MAX - 1 <= x <= INT_MAX }

  function Checked(x: int): (r: Option<int>) { if FitsInt(x) then Some(x) else None }

  /** The formula; None where an intermediate `int` overflows. */
  function GetJdn(days: int, months: int, years: int): (r: Option<int>)
  {
    var adj := Quot(months - 14, 12);
    var a := 1461 * (years + 4800 + adj);
    var b := 367 * (months - 2 - 12 * adj);
    var c := 3 * Quot(years + 4900 + adj, 100);
    var s := Quot(a, 4) + Quot(b, 12);
    if FitsInt(a) && FitsInt(years + 4900) && FitsInt(b) && FitsInt(c) && FitsInt(s) && FitsInt(s - Quot(c, 4) + days)
    then Checked(s - Quot(c, 4) + days - 32075)
    else None
  }

  /** The last year for which the product 1461 * (...) still is an `int`. */
  const LAST_YEAR: int := 1465072

  lemma CenturyRule(y: int)
    requires y >= 0
    ensures Quot(3 * Quot(y + 4900, 100), 4) == y / 100 - y / 400 + 36
  {
    var c := y / 100;
    assert Quot(y + 4900, 100) == c + 49;
    assert y / 400 == c / 4;
    assert 3 * (c + 49) == 4 * (c - c / 4 + 36) + 3 + 3 * (c % 4) - 4 * (c % 4) ;
  }

  lemma LeapShare(y: int)
    requires y >= 0
    ensures Quot(1461 * (y + 4800), 4) == 365 * y + y / 4 + 1753200
  { }

  lemma MonthShare(m: int, y: int)
    requires 1 <= m <= 12
    ensures Quot(m - 14, 12) == if m <= 2 then -1 else 0
    ensures Quot(367 * (m - 2 - 12 * Quot(m - 14, 12)), 12)
         == BeforeMonth(m, y) + if m <= 2 then 336 else if Leap(y) then -30 else -29
  {
    MonthTable(y);
  }

  /** The formula without regard to overflow. */
  lemma FormulaCountsDays(d: Date)
    requires IsDate(d)
    ensures var adj := if d.month <= 2 then -1 else 0;
      Quot(1461 * (d.year + 4800 + adj), 4) + Quot(367 * (d.month - 2 - 12 * adj), 12)
      - Quot(3 * Quot(d.year + 4900 + adj, 100), 4) + d.day - 32075 == 1721426 + DayCount(d)
  {
    hide BeforeYear, BeforeMonth, Quot;
    var y := d.year + if d.month <= 2 then -1 else 0;
    CenturyRule(y);
    LeapShare(y);
    MonthShare(d.month, d.year);
    BeforeYearIs(d.year);
    LeapCounts(d.year);
  }

  /** For valid dates the formula overflows only beyond the last year, and is the day count. */
  lemma JdnCountsDays(d: Date)
    requires IsDate(d)
    ensures GetJdn(d.day, d.month, d.year).Some? <==> d.year - (if d.month <= 2 then 1 else 0) <= LAST_YEAR
    ensures GetJdn(d.day, d.month, d.year).Some? ==>
      GetJdn(d.day, d.month, d.year).value == 1721426 + DayCount(d)
  {
    hide BeforeYear, BeforeMonth, Quot, DayCount;
    var y := d.year + if d.month <= 2 then -1 else 0;
    MonthShare(d.month, d.year);
    FormulaCountsDays(d);
    LeapShare(y);
    CenturyRule(y);
    CenturyRange(y);
    MonthRange(d);
  }

  lemma CenturyRange(y: int)
    requires y >= 0
    ensures 0 <= 3 * Quot(y + 4900, 100) <= 147 + 3 * y
  { }

  lemma MonthRange(d: Date)
    requires IsDate(d)
    ensures -30 <= Quot(367 * (d.month - 2 - 12 * Quot(d.month - 14, 12)), 12) <= 367
    ensures 0 <= 367 * (d.month - 2 - 12 * Quot(d.month - 14, 12)) <= 4404 && 1 <= d.day <= 31
  { }

  /** The next day has the next number. */
  lemma NextDayNextNumber(d: Date)
    requires IsDate(d) && NextDay(d).year <= LAST_YEAR
    ensures GetJdn(d.day, d.month, d.year).Some?
    ensures var n := NextDay(d); GetJdn(n.day, n.month, n.year) == Some(GetJdn(d.day, d.month, d.year).value + 1)
  {
    hide GetJdn, DayCount;
    JdnCountsDays(d);
    NextDayCounts(d);
    JdnCountsDays(NextDay(d));
  }

  // ---------------------------------------------------------------- the epoch

  function GetUnixEpoch(seconds: int, minutes: int, hours: int, days: int, months: int, years: int): (r: Option<int>)
  {
    var now, base := GetJdn(days, months, years), GetJdn(1, 1, 1970);
    if now.None? || base.None? then None
    else Some(((now.value - base.value) % WORD * 86400 + hours * 3600 + minutes * 60 + seconds) % WORD)
  }

  function Epoch(t: Moment): (r: Option<int>)
  {
    GetUnixEpoch(t.seconds, t.minutes, t.hours, t.date.day, t.date.month, t.date.year)
  }

  /** Seconds since 1 January 1970 by the day count (POSIX.1-2017, Base Definitions, section 4.16). */
  function SecondsSince1970(t: Moment): (n: int)
    requires IsMoment(t)
  {
    (DayCount(t.date) - 719162) * 86400 + t.hours * 3600 + t.minutes * 60 + t.seconds
  }

  lemma WrapOnce(d: int, s: int)
    ensures (d % WORD * 86400 + s) % WORD == (d * 86400 + s) % WORD
  {
    var q := d / WORD;
    assert d * 86400 + s == (d % WORD * 86400 + s) + (q * 86400) * WORD;
    WrapPlus(d % WORD * 86400 + s, q * 86400);
  }

  lemma WrapPlus(x: int, k: int)
    ensures (x + k * WORD) % WORD == x % WORD
  {
    assert (x + k * WORD) / WORD == x / WORD + k;
  }

  lemma DayCount1970()
    ensures DayCount(Date(1, 1, 1970)) == 719162
  {
    BeforeYearIs(1970);
    MonthTable(1970);
  }

  /** The epoch is the number of seconds since 1970, as a 64-bit word. */
  lemma EpochCountsSeconds(t: Moment)
    requires IsMoment(t) && t.date.year <= LAST_YEAR
    ensures Epoch(t) == Some(SecondsSince1970(t) % WORD)
  {
    hide GetJdn, DayCount;
    JdnCountsDays(t.date);
    JdnCountsDays(Date(1, 1, 1970));
    DayCount1970();
    WrapOnce(DayCount(t.date) - 719162, t.hours * 3600 + t.minutes * 60 + t.seconds);
  }

  ghost predicate Earlier(a: Date, b: Date)
  {
    a.year < b.year || (a.year == b.year && (a.month < b.month || (a.month == b.month && a.day < b.day)))
  }

  /** The order of the calendar and the clock. */
  ghost predicate Before(t: Moment, u: Moment)
  {
    Earlier(t.date, u.date) || (t.date == u.date &&
      (t.hours < u.hours || (t.hours == u.hours && (t.minutes < u.minutes || (t.minutes == u.minutes && t.seconds < u.seconds)))))
  }

  lemma {:induction false} YearsAdd(y: int, z: int)
    requires 1 <= y < z
    ensures BeforeYear(y) + (if Leap(y) then 366 else 365) <= BeforeYear(z)
    decreases z
  {
    if y < z - 1 { YearsAdd(y, z - 1); }
  }

  lemma {:induction false} MonthsAdd(m: int, k: int, y: int)
    requires 1 <= m < k <= 13
    ensures BeforeMonth(m, y) + MonthDays(m, y) <= BeforeMonth(k, y)
    decreases k
  {
    if m < k - 1 { MonthsAdd(m, k - 1, y); }
  }

  lemma EarlierCounts(a: Date, b: Date)
    requires IsDate(a) && IsDate(b) && Earlier(a, b)
    ensures DayCount(a) < DayCount(b)
  {
    if a.year < b.year {
      YearsAdd(a.year, b.year);
      MonthsAdd(a.month, 13, a.year);
      MonthTable(a.year);
      if b.month > 1 { MonthsAdd(1, b.month, b.year); }
    } else if a.month < b.month {
      MonthsAdd(a.month, b.month, a.year);
    }
  }

  lemma BeforeCounts(t: Moment, u: Moment)
    requires IsMoment(t) && IsMoment(u) && Before(t, u)
    ensures SecondsSince1970(t) < SecondsSince1970(u)
  {
    hide DayCount;
    if Earlier(t.date, u.date) { EarlierCounts(t.date, u.date); }
  }

  /** Years from 1970 on count up from zero, earlier ones lie below it; neither wraps twice. */
  lemma EpochRange(t: Moment)
    requires IsMoment(t) && t.date.year <= LAST_YEAR
    ensures -WORD / 2 < SecondsSince1970(t) < WORD / 2
    ensures SecondsSince1970(t) >= 0 <==> t.date.year >= 1970
  {
    BeforeYearIs(t.date.year);
    DayCount1970();
    MonthTable(t.date.year);
    if t.date.year < 1970 {
      EarlierCounts(t.date, Date(1, 1, 1970));
    } else if t.date != Date(1, 1, 1970) {
      EarlierCounts(Date(1, 1, 1970), t.date);
    }
  }

  /** A later moment has a larger epoch exactly when the two do not lie on different sides of 1970. */
  lemma EpochIncreasesExactly(t: Moment, u: Moment)
    requires IsMoment(t) && IsMoment(u) && Before(t, u) && u.date.year <= LAST_YEAR
    ensures Epoch(t).Some? && Epoch(u).Some?
    ensures Epoch(t).value < Epoch(u).value <==> !(t.date.year < 1970 <= u.date.year)
  {
    hide Epoch, SecondsSince1970;
    EpochCountsSeconds(t);
    EpochCountsSeconds(u);
    BeforeCounts(t, u);
    EpochRange(t);
    EpochRange(u);
  }

  /** One day later is 86400 seconds later. */
  lemma DayIs86400(t: Moment)
    requires IsMoment(t) && NextDay(t.date).year <= LAST_YEAR && t.date.year >= 1970
    ensures Epoch(t).Some? && Epoch(t.(date := NextDay(t.date))) == Some(Epoch(t).value + 86400)
  {
    hide Epoch, DayCount;
    var u := t.(date := NextDay(t.date));
    NextDayCounts(t.date);
    EpochCountsSeconds(t);
    EpochCountsSeconds(u);
    EpochRange(t);
    EpochRange(u);
  }

  /** Days and seconds known from the calendar: 1 January of 1970 and of 2000, and the leap days. */
  lemma KnownDays()
    ensures GetJdn(1, 1, 1970) == Some(2440588) && GetJdn(1, 1, 2000) == Some(2451545)
  { }

  lemma KnownDay()
    ensures GetJdn(9, 9, 2001) == Some(2452162)
  { }

  lemma KnownCalendar()
    ensures NextDay(Date(28, 2, 2000)) == Date(29, 2, 2000) && NextDay(Date(28, 2, 1900)) == Date(1, 3, 1900)
    ensures NextDay(Date(30, 4, 2000)) == Date(1, 5, 2000) && NextDay(Date(31, 12, 1999)) == Date(1, 1, 2000)
  { }

  lemma KnownSeconds()
    ensures Epoch(Moment(Date(1, 1, 1970), 0, 0, 0)) == Some(0)
    ensures Epoch(Moment(Date(1, 1, 2000), 0, 0, 0)) == Some(946684800)
    ensures Epoch(Moment(Date(9, 9, 2001), 1, 46, 40)) == Some(1000000000)
  {
    hide GetJdn;
    KnownDays();
    KnownDay();
  }
}
